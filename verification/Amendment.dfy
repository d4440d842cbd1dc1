/**
  Charter amendments of src/core/charter.ts: what a signature binds, and which
  roles a key can count under.
 */
module Amendment {
  import opened Text
  import opened Json
  import opened Hashing
  import opened CanonicalLegacy
  import opened Threshold
  import opened Charter
  import opened CharterBinding
  import CharterSigning

  datatype CharterAmendment = CharterAmendment(
    amendmentId: Str, charterId: Str, fromVersion: Str, toVersion: Str, description: Str, proposedCharter: CharterCore,
    proposedBy: Str, proposedAt: Str, effectiveAt: Str, signatures: seq<CharterSignature>)

  const PROPOSER: Str := Ascii("proposer")
  const FROM_VERSION: Str := Ascii("fromVersion")
  const TO_VERSION: Str := Ascii("toVersion")
  const DESCRIPTION: Str := Ascii("description")
  const PROPOSED_CHARTER: Str := Ascii("proposedCharter")

  /** The object that every signer signs: the version step, the description and the whole proposed charter. */
  function SignValue(charterId: Str, fromVersion: Str, toVersion: Str, description: Str, proposed: CharterCore): Value {
    Obj(map[CHARTER_ID := String(charterId), FROM_VERSION := String(fromVersion), TO_VERSION := String(toVersion),
            DESCRIPTION := String(description), PROPOSED_CHARTER := CharterValue(proposed)])
  }

  function AmendmentValue(a: CharterAmendment): Value {
    SignValue(a.charterId, a.fromVersion, a.toVersion, a.description, a.proposedCharter)
  }

  function SignContent(a: CharterAmendment): Str { LegacyText(AmendmentValue(a)) }

  // --- Creating and signing --------------------------------------------------

  function CreateAmendment(c: Crypto, charter: CharterCore, proposed: CharterCore, description: Str,
                           secret: Str, key: Str, id: Str, effectiveAt: Str, now: Str): Outcome<CharterAmendment> {
    if charter.body.status.Dissolved? || charter.body.status.Suspended? then Failure(CannotAmend)
    else
      var charterId, fromVersion, toVersion := charter.body.charterId, charter.body.version, proposed.body.version;
      var content := LegacyForWrite(SignValue(charterId, fromVersion, toVersion, description, proposed));
      if content.Err? then Failure(Unsafe)
      else
        var signature := CharterSignature(key, PROPOSER, now, c.sign(content.value, secret));
        Success(CharterAmendment(
                  id, charterId, fromVersion, toVersion, description, proposed, key, now, effectiveAt, [signature]))
  }

  function SignAmendment(c: Crypto, a: CharterAmendment, secret: Str, key: Str, role: Str, now: Str)
    : Outcome<CharterAmendment>
  {
    if exists i | 0 <= i < |a.signatures| :: a.signatures[i].publicKey == key then Failure(AlreadySigned)
    else
      var content := LegacyForWrite(AmendmentValue(a));
      if content.Err? then Failure(Unsafe)
      else Success(a.(signatures := a.signatures + [CharterSignature(key, role, now, c.sign(content.value, secret))]))
  }

  // --- Verifying -------------------------------------------------------------

  datatype Findings = Findings(valid: bool, errors: seq<Str>, charterExists: bool, versionMatch: bool,
                               thresholdMet: bool, signaturesValid: bool, proposedCharterValid: bool)

  const UNKNOWN_CHARTER: Str := Ascii("Amendment references unknown charter")
  const NOT_ENOUGH: Str := Ascii("Amendment does not meet charter ") + Ascii("amendment policy threshold")

  function VersionText(current: Str, targeted: Str): Str {
    Ascii("Version mismatch: charter is ") + current + Ascii(", amendment targets ") + targeted
  }

  predicate Includes(s: Str, part: Str) {
    exists k | 0 <= k <= |s| :: At(s, part, k)
  }

  /** The filter that picks the reports about offices out of those about the whole proposed charter. */
  function AboutOffices(): Str -> seq<Str> {
    text => if Includes(text, OFFICE) || Includes(text, INCOMPATIBLE) then [text] else []
  }

  predicate Consistent(offices: seq<Office>) { SuccessorsKnown(offices) && NoClash(offices) }

  predicate EnoughSignatures(c: Crypto, a: CharterAmendment, charter: CharterCore) {
    Met(c, charter.body.amendmentPolicy.requirements, ForThreshold(a.signatures), SignContent(a))
  }

  /** Everything reported about the proposed charter; no attribution receipts are passed on. */
  function ProposalErrors(c: Crypto, a: CharterAmendment): seq<Str> {
    if Consistent(a.proposedCharter.body.offices) then []
    else FlatMap(CharterErrors(c, a.proposedCharter, None), AboutOffices())
  }

  function AmendmentErrors(c: Crypto, a: CharterAmendment, charter: CharterCore): seq<Str> {
    Reported(charter.body.charterId == a.charterId, UNKNOWN_CHARTER) +
    Reported(charter.body.version == a.fromVersion, VersionText(charter.body.version, a.fromVersion)) +
    SignatureErrors(c, a.signatures, SignContent(a)) +
    Reported(EnoughSignatures(c, a, charter), NOT_ENOUGH) +
    ProposalErrors(c, a)
  }

  lemma {:induction false} OfficeReportsPass(officeId: Str, successor: Str, key: Str)
    ensures Includes(UnknownOfficeText(officeId, successor), OFFICE)
    ensures Includes(ClashText(key, officeId, successor), INCOMPATIBLE)
  {
    var before, rest := Ascii("Office ") + officeId + UNKNOWN, OFFICE + (Ascii(" ") + successor);
    assert UnknownOfficeText(officeId, successor) == before + rest && At(before + rest, OFFICE, |before|);
    var before', rest' := Ascii("Holder ") + Short(key) + Ascii(" holds "),
                          INCOMPATIBLE + (Ascii(" offices: ") + officeId + Ascii(" and ") + successor);
    assert ClashText(key, officeId, successor) == before' + rest' && At(before' + rest', INCOMPATIBLE, |before'|);
  }

  /** Every report about a successor is one that the filter keeps. */
  lemma {:induction false} SuccessorErrorsPass(offices: seq<Office>, text: Str)
    requires text in SuccessorErrors(offices)
    ensures AboutOffices()(text) == [text]
  {
    hide UnknownOfficeText;
    hide Includes;
    var ids := OfficeIds(offices);
    hide OfficeIds;
    var o := FlatMapFrom(offices, UnknownSuccessors(ids), text);
    var id := FlatMapFrom(o.successionOrder, UnknownSuccessor(ids, o.officeId), text);
    OfficeReportsPass(o.officeId, id, []);
  }

  /** And so is every report about incompatible offices. */
  lemma {:induction false} ClashErrorsPass(offices: seq<Office>, text: Str)
    requires text in ClashErrors(offices)
    ensures AboutOffices()(text) == [text]
  {
    hide ClashText;
    hide Includes;
    hide HoldsOffice;
    var o := FlatMapFrom(offices, OfficeClashes(offices), text);
    var holder := FlatMapFrom(o.holderSet, ForbiddenOffices(offices, o), text);
    var id := FlatMapFrom(Incompatible(o), ForbiddenOffice(offices, o.officeId, holder.publicKey), text);
    OfficeReportsPass(o.officeId, id, holder.publicKey);
  }

  /** An inconsistent proposal always leaves a report behind: the filter by words cannot drop them all. */
  lemma {:induction false} ProposalErrorsMean(c: Crypto, a: CharterAmendment)
    ensures ProposalErrors(c, a) == [] <==> Consistent(a.proposedCharter.body.offices)
  {
    hide SuccessorErrors;
    hide ClashErrors;
    hide AboutOffices;
    var offices := a.proposedCharter.body.offices;
    if !Consistent(offices) {
      SuccessorErrorsMean(offices);
      ClashErrorsMean(offices);
      var text := (SuccessorErrors(offices) + ClashErrors(offices))[0];
      if text in SuccessorErrors(offices) {
        SuccessorErrorsPass(offices, text);
      } else {
        ClashErrorsPass(offices, text);
      }
      var all := CharterErrors(c, a.proposedCharter, None);
      assert text in all by { OfficeErrorsReported(c, a.proposedCharter, text); }
      FlatMapEmpty(all, AboutOffices());
    }
  }

  lemma {:induction false} OfficeErrorsReported(c: Crypto, ch: CharterCore, text: Str)
    requires text in SuccessorErrors(ch.body.offices) + ClashErrors(ch.body.offices)
    ensures text in CharterErrors(c, ch, None)
  {
    hide SuccessorErrors;
    hide ClashErrors;
    hide SignatureErrors;
    hide QuorumMet;
    hide ContentIntegrity;
  }

  /** Nothing is reported exactly when every finding holds. */
  lemma {:induction false} AmendmentErrorsMean(c: Crypto, a: CharterAmendment, charter: CharterCore)
    ensures AmendmentErrors(c, a, charter) == [] <==>
            && charter.body.charterId == a.charterId && charter.body.version == a.fromVersion
            && SignaturesValid(c, a.signatures, SignContent(a)) && EnoughSignatures(c, a, charter)
            && Consistent(a.proposedCharter.body.offices)
  {
    hide SignContent;
    hide SignatureErrors;
    hide ProposalErrors;
    hide VersionText;
    hide EnoughSignatures;
    hide Consistent;
    SignatureErrorsMean(c, a.signatures, SignContent(a));
    ProposalErrorsMean(c, a);
  }

  method VerifyAmendment(c: Crypto, a: CharterAmendment, charter: CharterCore) returns (v: Findings)
    ensures v.charterExists <==> charter.body.charterId == a.charterId
    ensures v.versionMatch <==> charter.body.version == a.fromVersion
    ensures v.thresholdMet <==> EnoughSignatures(c, a, charter)
    ensures v.proposedCharterValid <==> Consistent(a.proposedCharter.body.offices)
    ensures v.signaturesValid <==> SignaturesValid(c, a.signatures, SignContent(a))
    ensures v.errors == AmendmentErrors(c, a, charter)
    ensures v.valid <==>
            v.charterExists && v.versionMatch && v.signaturesValid && v.thresholdMet && v.proposedCharterValid
  {
    hide SignContent;
    hide CharterErrors;
    hide SignatureErrors;
    hide VersionText;
    hide AboutOffices;
    hide ValidCharter;
    hide SuccessorsKnown;
    hide NoClash;
    hide SignaturesValid;
    hide Reported;
    hide Met;
    var content := SignContent(a);
    var known := charter.body.charterId == a.charterId;
    var version := charter.body.version == a.fromVersion;
    var errors :=
      Reported(known, UNKNOWN_CHARTER) + Reported(version, VersionText(charter.body.version, a.fromVersion));
    var signed, invalid := CheckSignatures(c, a.signatures, content);
    var quorum := EvaluateThreshold(c, charter.body.amendmentPolicy.requirements, ForThreshold(a.signatures), content);
    errors := errors + invalid + Reported(quorum.met, NOT_ENOUGH);
    var proposed := VerifyCharter(c, a.proposedCharter, None);
    var consistent := proposed.officesValid && proposed.incompatibilityClean;
    if consistent {
      assert errors + [] == errors;
    } else {
      errors := errors + FlatMap(proposed.errors, AboutOffices());
    }
    AmendmentErrorsMean(c, a, charter);
    v := Findings(errors == [], errors, known, version, quorum.met, signed, consistent);
  }

  // --- What a signature binds ------------------------------------------------

  /** The two amendments agree on everything that is signed: the proposed charters up to null stripping, and so on their
      identity, amendment policy and offices. */
  ghost predicate SameProposal(a: CharterAmendment, b: CharterAmendment) {
    && a.charterId == b.charterId && a.fromVersion == b.fromVersion && a.toVersion == b.toVersion
    && a.description == b.description
    && Strip(CharterValue(a.proposedCharter)) == Strip(CharterValue(b.proposedCharter))
    && SameGovernance(a.proposedCharter.body, b.proposedCharter.body)
  }

  lemma {:induction false} SignKeysDiffer()
    ensures CHARTER_ID !in {FROM_VERSION, TO_VERSION, DESCRIPTION, PROPOSED_CHARTER}
    ensures FROM_VERSION !in {TO_VERSION, DESCRIPTION, PROPOSED_CHARTER}
    ensures TO_VERSION !in {DESCRIPTION, PROPOSED_CHARTER}
    ensures DESCRIPTION != PROPOSED_CHARTER
  {
    assert CHARTER_ID[0] != TO_VERSION[0] && FROM_VERSION[0] != DESCRIPTION[0];
  }

  /** Stripping keeps each signed member. */
  lemma {:induction false} SignedMembers(a: CharterAmendment)
    ensures var m := Strip(AmendmentValue(a));
            && m.Obj?
            && CHARTER_ID in m.members && m.members[CHARTER_ID] == String(a.charterId)
            && FROM_VERSION in m.members && m.members[FROM_VERSION] == String(a.fromVersion)
            && TO_VERSION in m.members && m.members[TO_VERSION] == String(a.toVersion)
            && DESCRIPTION in m.members && m.members[DESCRIPTION] == String(a.description)
            && PROPOSED_CHARTER in m.members && m.members[PROPOSED_CHARTER] == Strip(CharterValue(a.proposedCharter))
  {
    hide CharterValue;
    SignKeysDiffer();
    var proposed := CharterValue(a.proposedCharter);
    assert !Nullish(proposed) by { CharterValueIsObject(a.proposedCharter); }
  }

  lemma {:induction false} CharterValueIsObject(ch: CharterCore)
    ensures CharterValue(ch).Obj?
  {
  }

  /** Equal signed text means the same proposal. */
  lemma {:induction false} SignContentBinds(a: CharterAmendment, b: CharterAmendment)
    ensures SignContent(a) == SignContent(b) ==> SameProposal(a, b)
  {
    hide CharterValue;
    hide AmendmentValue;
    hide LegacyText;
    if SignContent(a) == SignContent(b) {
      LegacyKernel(AmendmentValue(a), AmendmentValue(b));
      SignedMembers(a);
      SignedMembers(b);
      CharterValueBinds(a.proposedCharter, b.proposedCharter);
    }
  }

  /** A signature that counts for two amendments counts for the same proposal, so it cannot be replayed. */
  lemma {:induction false} SignatureCannotMove(c: Crypto, a: CharterAmendment, b: CharterAmendment,
                                               req: Requirement, req': Requirement, s: ApprovalSignature)
    requires OneMessagePerSignature(c)
    requires Counts(c, req, s, SignContent(a)) && Counts(c, req', s, SignContent(b))
    ensures SameProposal(a, b)
  {
    hide SignContent;
    SignContentBinds(a, b);
  }

  // --- Runs ------------------------------------------------------------------

  datatype AmendmentSigning = AmendmentSigning(secret: Str, key: Str, role: Str, now: Str)

  ghost predicate SignedAt(c: Crypto, drafts: seq<CharterAmendment>, steps: seq<AmendmentSigning>, i: nat)
    requires |drafts| == |steps| + 1 && i < |steps|
  {
    SignAmendment(c, drafts[i], steps[i].secret, steps[i].key, steps[i].role, steps[i].now) == Success(drafts[i + 1])
  }

  /** An amendment created and then signed successfully any number of times; the keys need not match the secrets. */
  ghost predicate AmendmentRun(c: Crypto, charter: CharterCore, proposed: CharterCore, description: Str,
                               proposer: AmendmentSigning, drafts: seq<CharterAmendment>,
                               steps: seq<AmendmentSigning>) {
    && |drafts| == |steps| + 1
    && (exists id, effectiveAt ::
          CreateAmendment(
            c, charter, proposed, description, proposer.secret, proposer.key, id, effectiveAt, proposer.now)
          == Success(drafts[0]))
    && forall i | 0 <= i < |steps| :: SignedAt(c, drafts, steps, i)
  }

  /** Each key signs once, the proposer first and as proposer, and what is signed never changes. */
  lemma {:induction false} RunKeepsKeysApart(c: Crypto, charter: CharterCore, proposed: CharterCore, description: Str,
                                             proposer: AmendmentSigning, drafts: seq<CharterAmendment>,
                                             steps: seq<AmendmentSigning>, i: nat)
    requires AmendmentRun(c, charter, proposed, description, proposer, drafts, steps) && i < |drafts|
    ensures DistinctKeys(drafts[i].signatures) && |drafts[i].signatures| == i + 1
    ensures drafts[i].signatures[0].publicKey == proposer.key && drafts[i].signatures[0].role == PROPOSER
    ensures drafts[i].charterId == charter.body.charterId && drafts[i].description == description
    ensures drafts[i].fromVersion == charter.body.version && drafts[i].toVersion == proposed.body.version
    ensures drafts[i].proposedCharter == proposed
  {
    hide SignValue;
    hide AmendmentValue;
    if i == 0 {
    } else {
      RunKeepsKeysApart(c, charter, proposed, description, proposer, drafts, steps, i - 1);
      assert SignedAt(c, drafts, steps, i - 1);
    }
  }

  /** When every signer's key matches, all signatures verify over the text that was signed first. */
  lemma {:induction false} RunSignaturesVerify(c: Crypto, charter: CharterCore, proposed: CharterCore, description: Str,
                                               proposer: AmendmentSigning, drafts: seq<CharterAmendment>,
                                               steps: seq<AmendmentSigning>, i: nat)
    requires AmendmentRun(c, charter, proposed, description, proposer, drafts, steps) && i < |drafts|
    requires KeyPair(c, proposer.secret, proposer.key)
    requires forall j | 0 <= j < |steps| :: KeyPair(c, steps[j].secret, steps[j].key)
    ensures SignContent(drafts[i]) == SignContent(drafts[0])
    ensures SignaturesValid(c, drafts[i].signatures, SignContent(drafts[i]))
  {
    hide SignValue;
    if i == 0 {
    } else {
      RunSignaturesVerify(c, charter, proposed, description, proposer, drafts, steps, i - 1);
      assert SignedAt(c, drafts, steps, i - 1);
    }
  }

  /** Behind a counted key stands a signature of that key under the class's role. */
  lemma {:induction false} SignerOf(c: Crypto, sigs: seq<CharterSignature>, req: Requirement, content: Str, k: Str)
    returns (i: nat)
    requires k in CountedKeys(c, req, ForThreshold(sigs), content)
    ensures i < |sigs| && sigs[i].publicKey == k && sigs[i].role == req.role
  {
    var all := ForThreshold(sigs);
    var s :| s in all && Counts(c, req, s, content) && s.publicKey == k;
    i :| 0 <= i < |all| && all[i] == s;
  }

  /** With distinct keys, no key counts for two different roles. */
  lemma {:induction false} OneRolePerKey(c: Crypto, sigs: seq<CharterSignature>, req: Requirement, req': Requirement,
                                         content: Str, content': Str)
    requires DistinctKeys(sigs) && req.role != req'.role
    ensures CountedKeys(c, req, ForThreshold(sigs), content) !! CountedKeys(c, req', ForThreshold(sigs), content')
  {
    var left := CountedKeys(c, req, ForThreshold(sigs), content);
    var right := CountedKeys(c, req', ForThreshold(sigs), content');
    forall k | k in left ensures k !in right {
      var i := SignerOf(c, sigs, req, content, k);
      if k in right {
        var j := SignerOf(c, sigs, req', content', k);
      }
    }
  }

  /** The proposer's key counts for the class named 'proposer' and for no other. */
  lemma {:induction false} ProposerCountsOnlyAsProposer(c: Crypto, charter: CharterCore, proposed: CharterCore,
                                                        description: Str, proposer: AmendmentSigning,
                                                        drafts: seq<CharterAmendment>, steps: seq<AmendmentSigning>,
                                                        i: nat, req: Requirement)
    requires AmendmentRun(c, charter, proposed, description, proposer, drafts, steps) && i < |drafts|
    ensures proposer.key in CountedKeys(c, req, ForThreshold(drafts[i].signatures), SignContent(drafts[i])) ==>
            req.role == PROPOSER
  {
    hide SignContent;
    RunKeepsKeysApart(c, charter, proposed, description, proposer, drafts, steps, i);
    if proposer.key in CountedKeys(c, req, ForThreshold(drafts[i].signatures), SignContent(drafts[i])) {
      var j := SignerOf(c, drafts[i].signatures, req, SignContent(drafts[i]), proposer.key);
    }
  }

  // --- When the steps succeed, and what a run records ------------------------

  /** Only the proposed charter's body can hold an unsafe integer. */
  lemma {:induction false} UnsafeIsInProposal(charterId: Str, fromVersion: Str, toVersion: Str, description: Str,
                                              proposed: CharterCore)
    ensures HasUnsafeInteger(SignValue(charterId, fromVersion, toVersion, description, proposed)) <==>
            HasUnsafeInteger(Obj(BodyMembers(proposed.body)))
  {
    CharterValueUnsafe(proposed);
    SignKeysDiffer();
    hide CharterValue;
    hide BodyMembers;
    hide Ascii;
    var m := SignValue(charterId, fromVersion, toVersion, description, proposed).members;
    assert m[PROPOSED_CHARTER] == CharterValue(proposed);
    assert forall k | k in m && k != PROPOSED_CHARTER :: m[k].String?;
  }

  lemma {:induction false} CharterValueUnsafe(ch: CharterCore)
    ensures HasUnsafeInteger(CharterValue(ch)) <==> HasUnsafeInteger(Obj(BodyMembers(ch.body)))
  {
    CharterSigning.UnsafeIsInBody(ch.body, ch.contentHash, ch.foundingSignatures);
    CharterSigning.OwnNamesFree(ch.body);
    CharterSigning.NameLengths();
    hide BodyMembers;
    hide Signatures;
    hide Ascii;
    var m, n := SignableValue(ch.body, ch.contentHash, ch.foundingSignatures).members, CharterValue(ch).members;
    assert SIGNATURE !in m && n == m[SIGNATURE := String(ch.signature)];
    if k :| k in m && HasUnsafeInteger(m[k]) { assert HasUnsafeInteger(n[k]); }
    if k :| k in n && HasUnsafeInteger(n[k]) { assert HasUnsafeInteger(m[k]); }
  }

  /** An amendment can be proposed exactly to a charter that is neither dissolved nor suspended, for a proposed charter
      without unsafe integers; the proposer signs the text of the whole proposal. */
  lemma {:induction false} ProposedExactly(c: Crypto, charter: CharterCore, proposed: CharterCore, description: Str,
                                           secret: Str, key: Str, id: Str, effectiveAt: Str, now: Str)
    ensures var made := CreateAmendment(c, charter, proposed, description, secret, key, id, effectiveAt, now);
            && (made == Failure(CannotAmend) <==> charter.body.status == Dissolved || charter.body.status == Suspended)
            && (made.Success? <==>
                && (charter.body.status == Active || charter.body.status == Amending)
                && !HasUnsafeInteger(Obj(BodyMembers(proposed.body))))
            && (made.Success? ==>
                  var a := made.value;
                  && a.amendmentId == id && a.charterId == charter.body.charterId && a.description == description
                  && a.fromVersion == charter.body.version && a.toVersion == proposed.body.version
                  && a.proposedCharter == proposed && a.proposedBy == key && a.proposedAt == now
                  && a.effectiveAt == effectiveAt
                  && a.signatures == [CharterSignature(key, Ascii("proposer"), now, c.sign(SignContent(a), secret))])
  {
    UnsafeIsInProposal(charter.body.charterId, charter.body.version, proposed.body.version, description, proposed);
    hide SignValue;
    hide BodyMembers;
    hide LegacyText;
  }

  ghost predicate HasSigned(a: CharterAmendment, key: Str) {
    exists i | 0 <= i < |a.signatures| :: a.signatures[i].publicKey == key
  }

  /** Signing succeeds exactly for a key that has not signed, on a proposal without unsafe integers, and adds one
      signature over the text of the whole proposal. */
  lemma {:induction false} CosignedExactly(c: Crypto, a: CharterAmendment, secret: Str, key: Str, role: Str, now: Str)
    ensures var made := SignAmendment(c, a, secret, key, role, now);
            && (made == Failure(AlreadySigned) <==> HasSigned(a, key))
            && (made.Success? <==> !HasSigned(a, key) && !HasUnsafeInteger(Obj(BodyMembers(a.proposedCharter.body))))
            && (made.Success? ==>
                  made.value == a.(signatures := a.signatures +
                                                 [CharterSignature(key, role, now, c.sign(SignContent(a), secret))]))
  {
    UnsafeIsInProposal(a.charterId, a.fromVersion, a.toVersion, a.description, a.proposedCharter);
    hide SignValue;
    hide BodyMembers;
    hide LegacyText;
  }

  ghost predicate Records(c: Crypto, s: AmendmentSigning, role: Str, content: Str, sig: CharterSignature) {
    && sig.publicKey == s.key && sig.role == role && sig.signedAt == s.now
    && sig.signature == c.sign(content, s.secret)
  }

  /** At every point of every run: one signature per step over one text, in order, the first as proposer. */
  lemma {:induction false} RunRecords(c: Crypto, charter: CharterCore, proposed: CharterCore, description: Str,
                                      proposer: AmendmentSigning, drafts: seq<CharterAmendment>,
                                      steps: seq<AmendmentSigning>, i: nat)
    requires AmendmentRun(c, charter, proposed, description, proposer, drafts, steps) && i < |drafts|
    ensures var sigs, content := drafts[i].signatures, SignContent(drafts[0]);
            && SignContent(drafts[i]) == content && |sigs| == i + 1
            && Records(c, proposer, Ascii("proposer"), content, sigs[0])
            && forall j | 0 <= j < i :: Records(c, steps[j], steps[j].role, content, sigs[j + 1])
    ensures !HasUnsafeInteger(Obj(BodyMembers(drafts[i].proposedCharter.body)))
  {
    hide SignValue;
    hide BodyMembers;
    hide LegacyText;
    if i == 0 {
      var id, effectiveAt :|
        CreateAmendment(
          c, charter, proposed, description, proposer.secret, proposer.key, id, effectiveAt, proposer.now)
        == Success(drafts[0]);
      ProposedExactly(
        c, charter, proposed, description, proposer.secret, proposer.key, id, effectiveAt, proposer.now);
    } else {
      RunRecords(c, charter, proposed, description, proposer, drafts, steps, i - 1);
      assert SignedAt(c, drafts, steps, i - 1);
      var s := steps[i - 1];
      CosignedExactly(c, drafts[i - 1], s.secret, s.key, s.role, s.now);
    }
  }

  /** The threshold counts signatures over the text of the whole proposal, in their roles. */
  lemma {:induction false} ThresholdMeans(c: Crypto, a: CharterAmendment, charter: CharterCore)
    ensures EnoughSignatures(c, a, charter) <==>
            CharterSigning.Quorate(c, charter.body.amendmentPolicy.requirements, a.signatures, SignContent(a))
  {
    hide SignContent;
    CharterSigning.MetIsQuorate(c, charter.body.amendmentPolicy.requirements, a.signatures, SignContent(a));
  }

  /** Which finding gives which report, in order. */
  lemma {:induction false} ReportsMean(c: Crypto, a: CharterAmendment, charter: CharterCore)
    ensures AmendmentErrors(c, a, charter) ==
            (if charter.body.charterId == a.charterId then [] else [UNKNOWN_CHARTER]) +
            (if charter.body.version == a.fromVersion then [] else [VersionText(charter.body.version, a.fromVersion)]) +
            FlatMap(a.signatures, BadSignature(c, SignContent(a))) +
            (if EnoughSignatures(c, a, charter) then [] else [NOT_ENOUGH]) +
            (if SuccessorsKnown(a.proposedCharter.body.offices) && NoClash(a.proposedCharter.body.offices) then []
             else FlatMap(CharterErrors(c, a.proposedCharter, None), AboutOffices()))
  {
    hide VersionText;
    hide EnoughSignatures;
    hide SignContent;
    hide CharterErrors;
    hide AboutOffices;
    hide SuccessorsKnown;
    hide NoClash;
  }

  /** The filter keeps a report exactly when one of the two words occurs in it. */
  lemma {:induction false} FilterMeans(text: Str)
    ensures AboutOffices()(text) ==
            if (exists k :: At(text, Ascii("office"), k)) || (exists k :: At(text, Ascii("incompatible"), k))
            then [text] else []
  {
    assert forall k: nat | At(text, OFFICE, k) || At(text, INCOMPATIBLE, k) :: k <= |text|;
  }

  /** The reports, spelled out. */
  lemma {:induction false} ReportTexts(current: Str, targeted: Str)
    ensures UNKNOWN_CHARTER == Ascii("Amendment references unknown charter")
    ensures VersionText(current, targeted) ==
            Ascii("Version mismatch: charter is ") + current + Ascii(", amendment targets ") + targeted
    ensures NOT_ENOUGH == Ascii("Amendment does not meet charter ") + Ascii("amendment policy threshold")
  {
  }
}
