/**
  When charters are created and signed, what a signing run records, and when it
  reaches the quorum of its own amendment policy.
 */
module CharterSigning {
  import opened Text
  import opened Json
  import opened Hashing
  import opened CanonicalLegacy
  import opened Threshold
  import opened Charter
  import opened CharterBinding

  // --- When the steps succeed ------------------------------------------------

  lemma {:induction false} OwnNamesFree(b: Body)
    ensures BodyMembers(b).Keys !! {CONTENT_HASH, FOUNDING_SIGNATURES, SIGNATURE}
    ensures CONTENT_HASH != FOUNDING_SIGNATURES
  {
    NamesDiffer();
    hide Ascii;
    hide Offices;
    hide PolicyValue;
    hide StatusText;
    assert |CONTENT_HASH| == 11 && |FOUNDING_SIGNATURES| == 18 by { NameLengths(); }
  }

  lemma {:induction false} NameLengths()
    ensures |CONTENT_HASH| == 11 && |FOUNDING_SIGNATURES| == 18 && |SIGNATURE| == 9
  {
  }

  /** Hash and signatures are strings, so an unsafe integer can only be in the body. */
  lemma {:induction false} UnsafeIsInBody(b: Body, contentHash: Str, sigs: seq<CharterSignature>)
    ensures HasUnsafeInteger(ContentValue(b)) <==> HasUnsafeInteger(Obj(BodyMembers(b)))
    ensures HasUnsafeInteger(SignableValue(b, contentHash, sigs)) <==> HasUnsafeInteger(Obj(BodyMembers(b)))
  {
    if HasUnsafeInteger(Obj(BodyMembers(b))) {
      OwnNamesFree(b);
      hide BodyMembers;
      hide Signatures;
      var m := BodyMembers(b);
      var k :| k in m && HasUnsafeInteger(m[k]);
      assert ContentValue(b).members[k] == m[k] && SignableValue(b, contentHash, sigs).members[k] == m[k];
    } else {
      SafeToWrite(b, contentHash, sigs);
    }
  }

  /** Some office id repeats an earlier one, and the first that does is not empty. */
  ghost predicate RefusedIds(ids: seq<Str>) {
    exists j | 0 <= j < |ids| :: FirstRepeat(ids, j) && ids[j] != []
  }

  /** Creation succeeds exactly without a refused id and without an unsafe integer; the founder signs the
      content hash. */
  lemma {:induction false} CreatedExactly(c: Crypto, body: Body, secret: Str, key: Str, role: Str, now: Str)
    ensures var made := CreateCharter(c, body, secret, key, role, now);
            var contentHash := c.hash(LegacyText(ContentValue(body)));
            && (made == Failure(DuplicateOffice) <==> RefusedIds(OfficeIds(body.offices)))
            && (made.Success? <==> !RefusedIds(OfficeIds(body.offices)) && !HasUnsafeInteger(Obj(BodyMembers(body))))
            && (made.Failure? ==> made.error == DuplicateOffice || made.error == Unsafe)
            && (made.Success? ==>
                  && made.value.body == body && made.value.contentHash == contentHash
                  && made.value.foundingSignatures == [CharterSignature(key, role, now, c.sign(contentHash, secret))]
                  && made.value.signature == c.sign(
                       LegacyText(SignableValue(body, contentHash, made.value.foundingSignatures)), secret))
  {
    DuplicateCheck(c, body, secret, key, role, now);
    var contentHash := c.hash(LegacyText(ContentValue(body)));
    UnsafeIsInBody(body, contentHash, [CharterSignature(key, role, now, c.sign(contentHash, secret))]);
    hide FirstRepeat;
    hide FirstDuplicate;
    hide ContentValue;
    hide SignableValue;
    hide BodyMembers;
    hide LegacyText;
  }

  ghost predicate HasSigned(ch: CharterCore, key: Str) {
    exists i | 0 <= i < |ch.foundingSignatures| :: ch.foundingSignatures[i].publicKey == key
  }

  /** Signing succeeds exactly for a key that has not signed, on a body without unsafe integers; it adds one signature
      over the content hash and makes a new outer signature. */
  lemma {:induction false} SignedExactly(c: Crypto, ch: CharterCore, secret: Str, key: Str, role: Str, resigner: Str,
                                         now: Str)
    ensures var made := SignCharter(c, ch, secret, key, role, resigner, now);
            && (made == Failure(AlreadySigned) <==> HasSigned(ch, key))
            && (made.Success? <==> !HasSigned(ch, key) && !HasUnsafeInteger(Obj(BodyMembers(ch.body))))
            && (made.Success? ==>
                  && made.value.body == ch.body && made.value.contentHash == ch.contentHash
                  && made.value.foundingSignatures ==
                     ch.foundingSignatures + [CharterSignature(key, role, now, c.sign(ch.contentHash, secret))]
                  && made.value.signature == c.sign(
                       LegacyText(SignableValue(ch.body, ch.contentHash, made.value.foundingSignatures)), resigner))
  {
    var sigs := ch.foundingSignatures + [CharterSignature(key, role, now, c.sign(ch.contentHash, secret))];
    UnsafeIsInBody(ch.body, ch.contentHash, sigs);
    hide SignableValue;
    hide BodyMembers;
    hide LegacyText;
  }

  // --- What a run records ----------------------------------------------------

  /** At every point of every run: the hash of the body, one signature over it per step, in order, and an outer
      signature over everything else by whoever signed last. */
  lemma {:induction false} RunRecords(c: Crypto, body: Body, founder: Signing, charters: seq<CharterCore>,
                                      steps: seq<Signing>, i: nat)
    requires SigningRun(c, body, founder, charters, steps) && i < |charters|
    ensures var ch := charters[i];
            && ch.body == body && ch.contentHash == c.hash(LegacyText(ContentValue(body)))
            && |ch.foundingSignatures| == i + 1
            && Records(c, founder, ch.contentHash, ch.foundingSignatures[0])
            && (forall j | 0 <= j < i :: Records(c, steps[j], ch.contentHash, ch.foundingSignatures[j + 1]))
            && ch.signature == c.sign(LegacyText(SignableValue(body, ch.contentHash, ch.foundingSignatures)),
                                      if i == 0 then founder.secret else steps[i - 1].resigner)
    ensures !HasUnsafeInteger(Obj(BodyMembers(body)))
  {
    hide SignableValue;
    hide ContentValue;
    hide BodyMembers;
    hide LegacyText;
    CreatedExactly(c, body, founder.secret, founder.key, founder.role, founder.now);
    if i == 0 {
    } else {
      RunRecords(c, body, founder, charters, steps, i - 1);
      assert SignedAt(c, charters, steps, i - 1);
      var s := steps[i - 1];
      SignedExactly(c, charters[i - 1], s.secret, s.key, s.role, s.resigner, s.now);
    }
  }

  ghost predicate Records(c: Crypto, s: Signing, contentHash: Str, sig: CharterSignature) {
    && sig.publicKey == s.key && sig.role == s.role && sig.signedAt == s.now
    && sig.signature == c.sign(contentHash, s.secret)
  }

  /** A run can go on with every key that has not signed, and with no other. */
  lemma {:induction false} RunGoesOn(c: Crypto, body: Body, founder: Signing, charters: seq<CharterCore>,
                                     steps: seq<Signing>, i: nat, s: Signing)
    requires SigningRun(c, body, founder, charters, steps) && i < |charters|
    ensures SignCharter(c, charters[i], s.secret, s.key, s.role, s.resigner, s.now).Success? <==>
            !HasSigned(charters[i], s.key)
  {
    hide SignableValue;
    hide ContentValue;
    hide BodyMembers;
    hide LegacyText;
    RunRecords(c, body, founder, charters, steps, i);
    SignedExactly(c, charters[i], s.secret, s.key, s.role, s.resigner, s.now);
  }

  // --- What a quorum is ------------------------------------------------------

  /** These keys are eligible for the class, and each signed the content in its role. */
  ghost predicate Stand(c: Crypto, req: Requirement, sigs: seq<CharterSignature>, content: Str, keys: set<Str>) {
    forall k | k in keys ::
      && k in req.eligibleKeys
      && exists i | 0 <= i < |sigs| ::
           && sigs[i].publicKey == k && sigs[i].role == req.role
           && sigs[i].signature != [] && c.verify(content, sigs[i].signature, k)
  }

  /** Enough distinct keys stand for the class. */
  ghost predicate ClassQuorate(c: Crypto, req: Requirement, sigs: seq<CharterSignature>, content: Str) {
    exists keys | Stand(c, req, sigs, content, keys) :: |keys| >= req.requiredSignatures
  }

  ghost predicate Quorate(c: Crypto, reqs: seq<Requirement>, sigs: seq<CharterSignature>, content: Str) {
    forall i | 0 <= i < |reqs| :: ClassQuorate(c, reqs[i], sigs, content)
  }

  lemma {:induction false} StandIsEndorse(c: Crypto, req: Requirement, sigs: seq<CharterSignature>, content: Str,
                                          keys: set<Str>)
    ensures Stand(c, req, sigs, content, keys) <==> Endorse(c, req, ForThreshold(sigs), content, keys)
  {
    var all := ForThreshold(sigs);
    assert forall i | 0 <= i < |sigs| ::
        all[i].publicKey == sigs[i].publicKey && all[i].keyClass == sigs[i].role
            && all[i].signature == sigs[i].signature;
  }

  lemma {:induction false} MetIsQuorate(c: Crypto, reqs: seq<Requirement>, sigs: seq<CharterSignature>, content: Str)
    ensures Met(c, reqs, ForThreshold(sigs), content) <==> Quorate(c, reqs, sigs, content)
  {
    hide ClassMet;
    hide ClassQuorate;
    forall i | 0 <= i < |reqs|
      ensures ClassMet(c, reqs[i], ForThreshold(sigs), content) <==> ClassQuorate(c, reqs[i], sigs, content)
    {
      ClassMetIsQuorate(c, reqs[i], sigs, content);
    }
  }

  lemma {:induction false} ClassMetIsQuorate(c: Crypto, req: Requirement, sigs: seq<CharterSignature>, content: Str)
    ensures ClassMet(c, req, ForThreshold(sigs), content) <==> ClassQuorate(c, req, sigs, content)
  {
    ClassMetMeans(c, req, ForThreshold(sigs), content);
    forall keys ensures Stand(c, req, sigs, content, keys) <==> Endorse(c, req, ForThreshold(sigs), content, keys) {
      StandIsEndorse(c, req, sigs, content, keys);
    }
    hide ClassMet;
    hide Endorse;
    hide Stand;
  }

  /** The founding quorum counts signatures over the content hash, in their roles. */
  lemma {:induction false} QuorumMeans(c: Crypto, ch: CharterCore)
    ensures QuorumMet(c, ch) <==>
            Quorate(c, ch.body.amendmentPolicy.requirements, ch.foundingSignatures, ch.contentHash)
  {
    MetIsQuorate(c, ch.body.amendmentPolicy.requirements, ch.foundingSignatures, ch.contentHash);
  }

  /** The eligible keys that signed in the role of the class. */
  ghost function Signers(req: Requirement, sigs: seq<CharterSignature>): set<Str> {
    set s | s in sigs && s.role == req.role && s.publicKey in req.eligibleKeys :: s.publicKey
  }

  lemma {:induction false} ValidSignersStand(c: Crypto, req: Requirement, sigs: seq<CharterSignature>, content: Str)
    requires forall i | 0 <= i < |sigs| ::
               sigs[i].signature != [] && c.verify(content, sigs[i].signature, sigs[i].publicKey)
    ensures ClassQuorate(c, req, sigs, content) <==> |Signers(req, sigs)| >= req.requiredSignatures
  {
    var all := Signers(req, sigs);
    forall k | k in all
      ensures exists i | 0 <= i < |sigs| ::
                && sigs[i].publicKey == k && sigs[i].role == req.role
                && sigs[i].signature != [] && c.verify(content, sigs[i].signature, k)
    {
      var s :| s in sigs && s.role == req.role && s.publicKey == k;
      var i :| 0 <= i < |sigs| && sigs[i] == s;
    }
    assert Stand(c, req, sigs, content, all);
    forall keys | Stand(c, req, sigs, content, keys) ensures |keys| <= |all| {
      forall k | k in keys ensures k in all {
        var i :| 0 <= i < |sigs| && sigs[i].publicKey == k && sigs[i].role == req.role;
        assert sigs[i] in sigs;
      }
      SubsetSize(keys, all);
    }
  }

  /** In a run with matching keys the quorum is met exactly when, for every class, enough eligible keys signed in its
      role. */
  lemma {:induction false} RunQuorum(c: Crypto, body: Body, founder: Signing, charters: seq<CharterCore>,
                                     steps: seq<Signing>, i: nat)
    requires SigningRun(c, body, founder, charters, steps) && i < |charters|
    ensures var reqs := body.amendmentPolicy.requirements;
            QuorumMet(c, charters[i]) <==>
            forall r | 0 <= r < |reqs| ::
              |Signers(reqs[r], charters[i].foundingSignatures)| >= reqs[r].requiredSignatures
  {
    hide LegacyText;
    hide ContentValue;
    hide SignableValue;
    hide BodyMembers;
    RunRecords(c, body, founder, charters, steps, i);
    var sigs, content := charters[i].foundingSignatures, charters[i].contentHash;
    forall j | 0 <= j < |sigs|
      ensures sigs[j].signature != [] && c.verify(content, sigs[j].signature, sigs[j].publicKey)
    {
      if j > 0 { assert SignedAt(c, charters, steps, j - 1) && Records(c, steps[j - 1], content, sigs[j]); }
    }
    QuorumMeans(c, charters[i]);
    forall req { ValidSignersStand(c, req, sigs, content); }
    hide ClassQuorate;
    hide Signers;
    hide QuorumMet;
  }

  /** A charter is valid exactly when its hash is that of its text, every founding signature verifies over the hash,
      each class has its quorum, it is not dissolved, its offices are consistent, and cited work is covered. */
  lemma {:induction false} ValidMeans(c: Crypto, ch: CharterCore, receipts: Option<Option<Str>>)
    ensures ValidCharter(c, ch, receipts) <==>
            && ch.contentHash == c.hash(LegacyText(ContentValue(ch.body)))
            && (forall s | s in ch.foundingSignatures :: c.verify(ch.contentHash, s.signature, s.publicKey))
            && Quorate(c, ch.body.amendmentPolicy.requirements, ch.foundingSignatures, ch.contentHash)
            && ch.body.status != Dissolved
            && SuccessorsKnown(ch.body.offices)
            && (forall a, b | a in ch.body.offices && b in ch.body.offices :: !Clash(a, b))
            && (HasCitations(ch.body) ==> receipts == Some(None))
  {
    hide LegacyText;
    hide ContentValue;
    QuorumMeans(c, ch);
    hide QuorumMet;
    hide Quorate;
    hide Clash;
    hide SuccessorsKnown;
    hide HasCitations;
    var sigs, offices := ch.foundingSignatures, ch.body.offices;
    if SignaturesValid(c, sigs, ch.contentHash) {
      forall s | s in sigs ensures c.verify(ch.contentHash, s.signature, s.publicKey) {
        var i :| 0 <= i < |sigs| && sigs[i] == s;
      }
    } else {
      var i :| 0 <= i < |sigs| && !c.verify(ch.contentHash, sigs[i].signature, sigs[i].publicKey);
      assert sigs[i] in sigs;
    }
    if NoClash(offices) {
      forall a, b | a in offices && b in offices ensures !Clash(a, b) {
        var i :| 0 <= i < |offices| && offices[i] == a;
        var j :| 0 <= j < |offices| && offices[j] == b;
      }
    } else {
      var i, j :| 0 <= i < |offices| && 0 <= j < |offices| && Clash(offices[i], offices[j]);
      assert offices[i] in offices && offices[j] in offices;
    }
  }

  // --- Citations -------------------------------------------------------------

  /** A charter that cites nothing passes the gate; one that does needs receipts that cover what it cites. */
  lemma {:induction false} CitationGate(c: Crypto, ch: CharterCore, receipts: Option<Option<Str>>)
    ensures var name, rest := Ascii("citations"), ch.body.rest;
            && (name !in rest || rest[name] == Arr([]) ==>
                  (ValidCharter(c, ch, receipts) <==> ValidCharter(c, ch, Some(None))))
            && (name in rest && rest[name].Arr? && rest[name].items != [] && receipts != Some(None) ==>
                  !ValidCharter(c, ch, receipts))
  {
    hide ContentIntegrity;
    hide QuorumMet;
  }

  /** Which finding gives which report: the findings in order, one report per signature, successor or clash at fault. */
  lemma {:induction false} ReportsMean(c: Crypto, ch: CharterCore, receipts: Option<Option<Str>>)
    ensures CharterErrors(c, ch, receipts) ==
            (if ContentIntegrity(c, ch) then [] else [Ascii("Content hash mismatch")]) +
            FlatMap(ch.foundingSignatures, BadSignature(c, ch.contentHash)) +
            (if QuorumMet(c, ch) then [] else [BELOW_THRESHOLD]) +
            (if ch.body.status == Dissolved then [Ascii("Charter has been dissolved")] else []) +
            FlatMap(ch.body.offices, UnknownSuccessors(OfficeIds(ch.body.offices))) +
            FlatMap(ch.body.offices, OfficeClashes(ch.body.offices)) +
            CitationErrors(ch.body, receipts)
  {
    hide Ascii;
    hide ContentIntegrity;
    hide QuorumMet;
  }

  lemma {:induction false} ReportsOfEach(c: Crypto, content: Str, s: CharterSignature, offices: seq<Office>, o: Office,
                                         key: Str, id: Str)
    ensures BadSignature(c, content)(s) ==
            if c.verify(content, s.signature, s.publicKey) then [] else [BadSignatureText(s.publicKey)]
    ensures UnknownSuccessor(OfficeIds(offices), o.officeId)(id) ==
            if id in OfficeIds(offices) then [] else [UnknownOfficeText(o.officeId, id)]
    ensures ForbiddenOffice(offices, o.officeId, key)(id) ==
            if HoldsOffice(offices, key, id) then [ClashText(key, o.officeId, id)] else []
  {
    hide BadSignatureText;
    hide UnknownOfficeText;
    hide ClashText;
  }

  /** The reports, spelled out. */
  lemma {:induction false} ReportTexts(key: Str, id: Str, other: Str)
    requires |key| >= 8
    ensures BadSignatureText(key) == Ascii("Invalid signature from ") + (key[..8] + Ascii("..."))
    ensures UnknownOfficeText(id, other) ==
            Ascii("Office ") + id + Ascii(" succession references unknown ") + (Ascii("office") + (Ascii(" ") + other))
    ensures ClashText(key, id, other) ==
            Ascii("Holder ") + (key[..8] + Ascii("...")) + Ascii(" holds ") +
            (Ascii("incompatible") + (Ascii(" offices: ") + id + Ascii(" and ") + other))
    ensures HASH_MISMATCH == Ascii("Content hash mismatch") && DISSOLVED == Ascii("Charter has been dissolved")
    ensures NO_RECEIPTS == Ascii("citations present but no receipts supplied")
            && CONSENT == Ascii("AttributionConsent: ")
    ensures BELOW_THRESHOLD == Ascii("Founding signatures do not meet ") + Ascii("amendment policy threshold")
  {
    hide Ascii;
    assert Short(key) == key[..8] + Ascii("...");
  }
}
