/**
  Charters of src/core/charter.ts: creation, founding signatures, verification.
  Records become JSON objects through the encoders below, so the hashed and
  signed texts are those of the legacy serializer.
 */
module Charter {
  import opened Text
  import opened Json
  import opened Hashing
  import opened CanonicalLegacy
  import opened Threshold

  datatype Status = Active | Suspended | Dissolved | Amending
  datatype Holder = Holder(publicKey: Str, rest: map<Str, Value>)
  datatype Office = Office(officeId: Str, successionOrder: seq<Str>, holderSet: seq<Holder>,
                           incompatibleOffices: Option<seq<Str>>, rest: map<Str, Value>)
  datatype Policy = Policy(requirements: seq<Requirement>, rest: map<Str, Value>)
  datatype CharterSignature = CharterSignature(publicKey: Str, role: Str, signedAt: Str, signature: Str)

  /** Every member of a charter except its hash and signatures; `rest` holds those that no check reads. */
  datatype Body = Body(charterId: Str, version: Str, previousVersion: Option<Str>, name: Str, status: Status,
                       offices: seq<Office>, amendmentPolicy: Policy, rest: map<Str, Value>)
  datatype CharterCore = CharterCore(body: Body, contentHash: Str, foundingSignatures: seq<CharterSignature>,
                                     signature: Str)

  datatype CharterError = DuplicateOffice | AlreadySigned | Unsafe | CannotAmend
  datatype Outcome<+T> = Success(value: T) | Failure(error: CharterError)

  // --- Records as JSON objects -----------------------------------------------

  const PUBLIC_KEY: Str := Ascii("publicKey")
  const OFFICE_ID: Str := Ascii("officeId")
  const SUCCESSION_ORDER: Str := Ascii("successionOrder")
  const HOLDER_SET: Str := Ascii("holderSet")
  const INCOMPATIBLE_OFFICES: Str := Ascii("incompatibleOffices")
  const ROLE: Str := Ascii("role")
  const REQUIRED_SIGNATURES: Str := Ascii("requiredSignatures")
  const ELIGIBLE_KEYS: Str := Ascii("eligibleKeys")
  const REQUIREMENTS: Str := Ascii("requirements")
  const CHARTER_ID: Str := Ascii("charterId")
  const VERSION: Str := Ascii("version")
  const PREVIOUS_VERSION: Str := Ascii("previousVersion")
  const NAME: Str := Ascii("name")
  const STATUS: Str := Ascii("status")
  const OFFICES: Str := Ascii("offices")
  const AMENDMENT_POLICY: Str := Ascii("amendmentPolicy")
  const CONTENT_HASH: Str := Ascii("contentHash")
  const FOUNDING_SIGNATURES: Str := Ascii("foundingSignatures")
  const SIGNATURE: Str := Ascii("signature")
  const CITATIONS: Str := Ascii("citations")

  function HolderValue(h: Holder): Value { Obj(h.rest[PUBLIC_KEY := String(h.publicKey)]) }

  function Holders(hs: seq<Holder>): Value { Arr(seq(|hs|, i requires 0 <= i < |hs| => HolderValue(hs[i]))) }

  function OfficeValue(o: Office): Value {
    var base := (o.rest - {INCOMPATIBLE_OFFICES})
                [OFFICE_ID := String(o.officeId)]
                [SUCCESSION_ORDER := Strings(o.successionOrder)]
                [HOLDER_SET := Holders(o.holderSet)];
    Obj(if o.incompatibleOffices.None? then base
        else base[INCOMPATIBLE_OFFICES := Strings(o.incompatibleOffices.value)])
  }

  function Offices(os: seq<Office>): Value { Arr(seq(|os|, i requires 0 <= i < |os| => OfficeValue(os[i]))) }

  function RequirementValue(r: Requirement): Value {
    Obj(map[ROLE := String(r.role), REQUIRED_SIGNATURES := Num(r.requiredSignatures),
            ELIGIBLE_KEYS := Strings(r.eligibleKeys)])
  }

  function Requirements(rs: seq<Requirement>): Value {
    Arr(seq(|rs|, i requires 0 <= i < |rs| => RequirementValue(rs[i])))
  }

  function PolicyValue(p: Policy): Value { Obj(p.rest[REQUIREMENTS := Requirements(p.requirements)]) }

  function SignatureValue(s: CharterSignature): Value {
    Obj(map[PUBLIC_KEY := String(s.publicKey), ROLE := String(s.role),
            Ascii("signedAt") := String(s.signedAt), SIGNATURE := String(s.signature)])
  }

  function StatusText(s: Status): Str {
    match s
    case Active => Ascii("active")
    case Suspended => Ascii("suspended")
    case Dissolved => Ascii("dissolved")
    case Amending => Ascii("amending")
  }

  /** The hash and the signatures are no part of the body, whatever `rest` holds. */
  function BodyMembers(b: Body): map<Str, Value> {
    (b.rest - {CONTENT_HASH, FOUNDING_SIGNATURES, SIGNATURE})
    [CHARTER_ID := String(b.charterId)][VERSION := String(b.version)]
    [PREVIOUS_VERSION := if b.previousVersion.None? then Null else String(b.previousVersion.value)]
    [NAME := String(b.name)][STATUS := String(StatusText(b.status))]
    [OFFICES := Offices(b.offices)][AMENDMENT_POLICY := PolicyValue(b.amendmentPolicy)]
  }

  function Signatures(sigs: seq<CharterSignature>): Value {
    Arr(seq(|sigs|, i requires 0 <= i < |sigs| => SignatureValue(sigs[i])))
  }

  /** The object whose text is hashed: the body with an empty list of founding signatures. */
  function ContentValue(b: Body): Value { Obj(BodyMembers(b)[FOUNDING_SIGNATURES := Signatures([])]) }

  /** The object whose text the outer signature covers. */
  function SignableValue(b: Body, contentHash: Str, sigs: seq<CharterSignature>): Value {
    Obj(BodyMembers(b)[CONTENT_HASH := String(contentHash)][FOUNDING_SIGNATURES := Signatures(sigs)])
  }

  function CharterValue(ch: CharterCore): Value {
    Obj(SignableValue(ch.body, ch.contentHash, ch.foundingSignatures).members[SIGNATURE := String(ch.signature)])
  }

  // --- Creating and signing --------------------------------------------------

  /** The first id, in order, that also occurs earlier. */
  function FirstDuplicate(ids: seq<Str>): Option<Str> {
    if ids == [] then None
    else
      var before := FirstDuplicate(ids[..|ids| - 1]);
      if before.Some? then before
      else if ids[|ids| - 1] in ids[..|ids| - 1] then Some(ids[|ids| - 1])
      else None
  }

  function OfficeIds(offices: seq<Office>): seq<Str> {
    seq(|offices|, i requires 0 <= i < |offices| => offices[i].officeId)
  }

  /** A duplicate stops creation only when its id is a non-empty string, which JavaScript takes as true. */
  function CreateCharter(c: Crypto, body: Body, founderSecret: Str, founderKey: Str, founderRole: Str, now: Str)
    : Outcome<CharterCore>
  {
    var duplicate := FirstDuplicate(OfficeIds(body.offices));
    if duplicate.Some? && duplicate.value != [] then Failure(DuplicateOffice)
    else
      var content := LegacyForWrite(ContentValue(body));
      if content.Err? then Failure(Unsafe)
      else
        var contentHash := c.hash(content.value);
        var founder := CharterSignature(founderKey, founderRole, now, c.sign(contentHash, founderSecret));
        var canonical := LegacyForWrite(SignableValue(body, contentHash, [founder]));
        if canonical.Err? then Failure(Unsafe)
        else Success(CharterCore(body, contentHash, [founder], c.sign(canonical.value, founderSecret)))
  }

  function SignCharter(c: Crypto, ch: CharterCore, secret: Str, key: Str, role: Str, resigner: Str, now: Str)
    : Outcome<CharterCore>
  {
    if exists i | 0 <= i < |ch.foundingSignatures| :: ch.foundingSignatures[i].publicKey == key then
      Failure(AlreadySigned)
    else
      var sigs := ch.foundingSignatures + [CharterSignature(key, role, now, c.sign(ch.contentHash, secret))];
      var canonical := LegacyForWrite(SignableValue(ch.body, ch.contentHash, sigs));
      if canonical.Err? then Failure(Unsafe)
      else Success(ch.(foundingSignatures := sigs, signature := c.sign(canonical.value, resigner)))
  }

  // --- Verifying -------------------------------------------------------------

  predicate ContentIntegrity(c: Crypto, ch: CharterCore) {
    c.hash(LegacyText(ContentValue(ch.body))) == ch.contentHash
  }

  predicate SignaturesValid(c: Crypto, sigs: seq<CharterSignature>, content: Str) {
    forall i | 0 <= i < |sigs| :: c.verify(content, sigs[i].signature, sigs[i].publicKey)
  }

  function ForThreshold(sigs: seq<CharterSignature>): seq<ApprovalSignature> {
    seq(|sigs|, i requires 0 <= i < |sigs| =>
      ApprovalSignature(sigs[i].publicKey, sigs[i].role, None, sigs[i].signedAt, sigs[i].signature))
  }

  predicate QuorumMet(c: Crypto, ch: CharterCore) {
    Met(c, ch.body.amendmentPolicy.requirements, ForThreshold(ch.foundingSignatures), ch.contentHash)
  }

  /** Every office named as a successor exists. */
  predicate SuccessorsKnown(offices: seq<Office>) {
    forall i, j | 0 <= i < |offices| && 0 <= j < |offices[i].successionOrder| ::
      offices[i].successionOrder[j] in OfficeIds(offices)
  }

  predicate HeldBy(o: Office, key: Str) {
    exists i | 0 <= i < |o.holderSet| :: o.holderSet[i].publicKey == key
  }

  function Incompatible(o: Office): seq<Str> {
    if o.incompatibleOffices.None? then [] else o.incompatibleOffices.value
  }

  /** Someone holds both offices, and the first forbids the second. */
  predicate Clash(a: Office, b: Office) {
    b.officeId in Incompatible(a) && exists i | 0 <= i < |a.holderSet| :: HeldBy(b, a.holderSet[i].publicKey)
  }

  predicate NoClash(offices: seq<Office>) {
    forall i, j | 0 <= i < |offices| && 0 <= j < |offices| :: !Clash(offices[i], offices[j])
  }

  /** Someone with this key holds an office with this id. */
  predicate HoldsOffice(offices: seq<Office>, key: Str, id: Str) {
    exists j | 0 <= j < |offices| :: offices[j].officeId == id && HeldBy(offices[j], key)
  }

  /** The charter cites something. */
  predicate HasCitations(b: Body) {
    CITATIONS in b.rest && b.rest[CITATIONS].Arr? && b.rest[CITATIONS].items != []
  }

  /** Two offices clash when one lists the other's id as incompatible and some key is among the holders of both. */
  lemma {:induction false} ClashMeans(a: Office, b: Office)
    ensures Clash(a, b) <==>
            && a.incompatibleOffices.Some? && b.officeId in a.incompatibleOffices.value
            && exists i, j | 0 <= i < |a.holderSet| && 0 <= j < |b.holderSet| ::
                 a.holderSet[i].publicKey == b.holderSet[j].publicKey
  {
    if i :| 0 <= i < |a.holderSet| && HeldBy(b, a.holderSet[i].publicKey) {
      var j :| 0 <= j < |b.holderSet| && b.holderSet[j].publicKey == a.holderSet[i].publicKey;
      assert a.holderSet[i].publicKey == b.holderSet[j].publicKey;
    }
    if i, j :| 0 <= i < |a.holderSet| && 0 <= j < |b.holderSet| &&
               a.holderSet[i].publicKey == b.holderSet[j].publicKey {
      assert HeldBy(b, a.holderSet[i].publicKey);
    }
  }

  /** Successors are known when each names the id of some office. */
  lemma {:induction false} SuccessorsMean(offices: seq<Office>)
    ensures SuccessorsKnown(offices) <==>
            forall i, j | 0 <= i < |offices| && 0 <= j < |offices[i].successionOrder| ::
              exists l | 0 <= l < |offices| :: offices[l].officeId == offices[i].successionOrder[j]
  {
    var ids := OfficeIds(offices);
    assert |ids| == |offices| && forall l | 0 <= l < |offices| :: ids[l] == offices[l].officeId;
    forall id ensures id in ids <==> exists l | 0 <= l < |offices| :: offices[l].officeId == id {
      if l :| 0 <= l < |offices| && offices[l].officeId == id { assert ids[l] in ids; }
    }
    hide OfficeIds;
  }

  // --- What is reported ------------------------------------------------------

  const HASH_MISMATCH: Str := Ascii("Content hash mismatch")
  const BELOW_THRESHOLD: Str := Ascii("Founding signatures do not meet ") + Ascii("amendment policy threshold")
  const DISSOLVED: Str := Ascii("Charter has been dissolved")
  const NO_RECEIPTS: Str := Ascii("citations present but no receipts supplied")
  const CONSENT: Str := Ascii("AttributionConsent: ")
  const UNKNOWN: Str := Ascii(" succession references unknown ")
  const OFFICE: Str := Ascii("office")
  const INCOMPATIBLE: Str := Ascii("incompatible")

  function BadSignatureText(key: Str): Str { Ascii("Invalid signature from ") + Short(key) }

  function UnknownOfficeText(officeId: Str, successor: Str): Str {
    Ascii("Office ") + officeId + UNKNOWN + (OFFICE + (Ascii(" ") + successor))
  }

  function ClashText(key: Str, officeId: Str, other: Str): Str {
    Ascii("Holder ") + Short(key) + Ascii(" holds ") +
    (INCOMPATIBLE + (Ascii(" offices: ") + officeId + Ascii(" and ") + other))
  }

  function BadSignature(c: Crypto, content: Str): CharterSignature -> seq<Str> {
    (s: CharterSignature) => if c.verify(content, s.signature, s.publicKey) then [] else [BadSignatureText(s.publicKey)]
  }

  function SignatureErrors(c: Crypto, sigs: seq<CharterSignature>, content: Str): seq<Str> {
    FlatMap(sigs, BadSignature(c, content))
  }

  function UnknownSuccessor(ids: seq<Str>, officeId: Str): Str -> seq<Str> {
    id => if id in ids then [] else [UnknownOfficeText(officeId, id)]
  }

  function UnknownSuccessors(ids: seq<Str>): Office -> seq<Str> {
    (o: Office) => FlatMap(o.successionOrder, UnknownSuccessor(ids, o.officeId))
  }

  function SuccessorErrors(offices: seq<Office>): seq<Str> { FlatMap(offices, UnknownSuccessors(OfficeIds(offices))) }

  function ForbiddenOffice(offices: seq<Office>, officeId: Str, key: Str): Str -> seq<Str> {
    id => if HoldsOffice(offices, key, id) then [ClashText(key, officeId, id)] else []
  }

  function ForbiddenOffices(offices: seq<Office>, o: Office): Holder -> seq<Str> {
    (h: Holder) => FlatMap(Incompatible(o), ForbiddenOffice(offices, o.officeId, h.publicKey))
  }

  function OfficeClashes(offices: seq<Office>): Office -> seq<Str> {
    (o: Office) => FlatMap(o.holderSet, ForbiddenOffices(offices, o))
  }

  function ClashErrors(offices: seq<Office>): seq<Str> { FlatMap(offices, OfficeClashes(offices)) }

  lemma {:induction false} SignatureErrorsMean(c: Crypto, sigs: seq<CharterSignature>, content: Str)
    ensures SignatureErrors(c, sigs, content) == [] <==> SignaturesValid(c, sigs, content)
  {
    hide BadSignatureText;
    FlatMapEmpty(sigs, BadSignature(c, content));
    assert forall i | 0 <= i < |sigs| ::
        BadSignature(c, content)(sigs[i]) == [] <==> c.verify(content, sigs[i].signature, sigs[i].publicKey);
  }

  lemma {:induction false} SuccessorErrorsMean(offices: seq<Office>)
    ensures SuccessorErrors(offices) == [] <==> SuccessorsKnown(offices)
  {
    hide UnknownOfficeText;
    var ids := OfficeIds(offices);
    FlatMapEmpty(offices, UnknownSuccessors(ids));
    forall i | 0 <= i < |offices|
      ensures UnknownSuccessors(ids)(offices[i]) == []
              <==> forall j | 0 <= j < |offices[i].successionOrder| :: offices[i].successionOrder[j] in ids
    {
      var order, f := offices[i].successionOrder, UnknownSuccessor(ids, offices[i].officeId);
      FlatMapEmpty(order, f);
      assert forall j | 0 <= j < |order| :: f(order[j]) == [] <==> order[j] in ids;
    }
  }

  /** An office is reported exactly when it clashes with some office. */
  lemma {:induction false} OfficeClashesMean(offices: seq<Office>, o: Office)
    ensures OfficeClashes(offices)(o) == [] <==> forall j | 0 <= j < |offices| :: !Clash(o, offices[j])
  {
    hide ClashText;
    var forbidden := Incompatible(o);
    FlatMapEmpty(o.holderSet, ForbiddenOffices(offices, o));
    forall i | 0 <= i < |o.holderSet|
      ensures ForbiddenOffices(offices, o)(o.holderSet[i]) == [] <==>
              forall j | 0 <= j < |forbidden| :: !HoldsOffice(offices, o.holderSet[i].publicKey, forbidden[j])
    {
      var f := ForbiddenOffice(offices, o.officeId, o.holderSet[i].publicKey);
      FlatMapEmpty(forbidden, f);
      assert forall j | 0 <= j < |forbidden| ::
          f(forbidden[j]) == [] <==> !HoldsOffice(offices, o.holderSet[i].publicKey, forbidden[j]);
    }
    ClashMeansForbidden(offices, o);
  }

  lemma {:induction false} ClashMeansForbidden(offices: seq<Office>, o: Office)
    ensures (forall j | 0 <= j < |offices| :: !Clash(o, offices[j])) <==>
            forall i, j | 0 <= i < |o.holderSet| && 0 <= j < |Incompatible(o)| ::
              !HoldsOffice(offices, o.holderSet[i].publicKey, Incompatible(o)[j])
  {
    if i, j :| 0 <= i < |o.holderSet| && 0 <= j < |Incompatible(o)| &&
               HoldsOffice(offices, o.holderSet[i].publicKey, Incompatible(o)[j]) {
      var key := o.holderSet[i].publicKey;
      var l :| 0 <= l < |offices| && offices[l].officeId == Incompatible(o)[j] && HeldBy(offices[l], key);
      assert Clash(o, offices[l]);
    }
    if l :| 0 <= l < |offices| && Clash(o, offices[l]) {
      var i :| 0 <= i < |o.holderSet| && HeldBy(offices[l], o.holderSet[i].publicKey);
      var j :| 0 <= j < |Incompatible(o)| && Incompatible(o)[j] == offices[l].officeId;
      assert HoldsOffice(offices, o.holderSet[i].publicKey, Incompatible(o)[j]);
    }
  }

  lemma {:induction false} ClashErrorsMean(offices: seq<Office>)
    ensures ClashErrors(offices) == [] <==> NoClash(offices)
  {
    hide OfficeClashes;
    hide Clash;
    FlatMapEmpty(offices, OfficeClashes(offices));
    forall i | 0 <= i < |offices|
      ensures OfficeClashes(offices)(offices[i]) == [] <==>
              forall j | 0 <= j < |offices| :: !Clash(offices[i], offices[j])
    {
      OfficeClashesMean(offices, offices[i]);
    }
  }

  // --- The checks ------------------------------------------------------------

  method CheckSignatures(c: Crypto, sigs: seq<CharterSignature>, content: Str) returns (ok: bool, errors: seq<Str>)
    ensures ok <==> SignaturesValid(c, sigs, content)
    ensures errors == SignatureErrors(c, sigs, content)
  {
    hide BadSignatureText;
    ok, errors := true, [];
    for i := 0 to |sigs|
      invariant ok <==> errors == []
      invariant errors == FlatMap(sigs[..i], BadSignature(c, content))
    {
      FlatMapNext(sigs, BadSignature(c, content), i);
      if !c.verify(content, sigs[i].signature, sigs[i].publicKey) {
        ok, errors := false, errors + [BadSignatureText(sigs[i].publicKey)];
      }
    }
    assert sigs[..|sigs|] == sigs;
    SignatureErrorsMean(c, sigs, content);
  }

  method CheckSuccessors(offices: seq<Office>) returns (ok: bool, errors: seq<Str>)
    ensures ok <==> SuccessorsKnown(offices)
    ensures errors == SuccessorErrors(offices)
  {
    hide UnknownOfficeText;
    ok, errors := true, [];
    var ids := OfficeIds(offices);
    for i := 0 to |offices|
      invariant ok <==> errors == []
      invariant errors == FlatMap(offices[..i], UnknownSuccessors(ids))
    {
      var order := offices[i].successionOrder;
      ghost var before, f := errors, UnknownSuccessor(ids, offices[i].officeId);
      for j := 0 to |order|
        invariant ok <==> errors == []
        invariant errors == before + FlatMap(order[..j], f)
      {
        FlatMapNext(order, f, j);
        if order[j] !in ids { ok, errors := false, errors + [UnknownOfficeText(offices[i].officeId, order[j])]; }
      }
      assert order[..|order|] == order;
      FlatMapNext(offices, UnknownSuccessors(ids), i);
    }
    assert offices[..|offices|] == offices;
    SuccessorErrorsMean(offices);
  }

  function Lookup(held: map<Str, seq<Str>>, key: Str): seq<Str> {
    if key in held then held[key] else []
  }

  /** `held` maps every key to the offices it holds. */
  ghost predicate HeldOffices(held: map<Str, seq<Str>>, offices: seq<Office>) {
    forall key, id :: id in Lookup(held, key) <==> HoldsOffice(offices, key, id)
  }

  /** One office's holders added to the map from keys to the offices they hold. */
  method AddHolders(held: map<Str, seq<Str>>, o: Office) returns (r: map<Str, seq<Str>>)
    ensures forall key, id :: id in Lookup(r, key) <==> id in Lookup(held, key) || (id == o.officeId && HeldBy(o, key))
  {
    r := held;
    for i := 0 to |o.holderSet|
      invariant forall key, id :: id in Lookup(r, key) <==>
                  || id in Lookup(held, key)
                  || (id == o.officeId && exists j | 0 <= j < i :: o.holderSet[j].publicKey == key)
    {
      var mine := o.holderSet[i].publicKey;
      ghost var before := r;
      r := r[mine := Lookup(r, mine) + [o.officeId]];
      assert forall key, id :: id in Lookup(r, key) <==> id in Lookup(before, key) || (key == mine && id == o.officeId);
    }
  }

  method CollectHolders(offices: seq<Office>) returns (held: map<Str, seq<Str>>)
    ensures HeldOffices(held, offices)
  {
    held := map[];
    for n := 0 to |offices|
      invariant HeldOffices(held, offices[..n])
    {
      held := AddHolders(held, offices[n]);
      var before, after := offices[..n], offices[..n + 1];
      forall key, id ensures HoldsOffice(after, key, id) <==>
                             HoldsOffice(before, key, id) || (offices[n].officeId == id && HeldBy(offices[n], key))
      {
        if j :| 0 <= j < |before| && before[j].officeId == id && HeldBy(before[j], key) {
          assert after[j] == before[j];
        }
        if offices[n].officeId == id && HeldBy(offices[n], key) { assert after[n] == offices[n]; }
      }
    }
    assert offices[..|offices|] == offices;
  }

  /** The offices that `o` forbids and the holder of the key holds. */
  method CheckHolder(o: Office, key: Str, held: map<Str, seq<Str>>, ghost offices: seq<Office>)
    returns (errors: seq<Str>)
    requires HeldOffices(held, offices)
    ensures errors == FlatMap(Incompatible(o), ForbiddenOffice(offices, o.officeId, key))
  {
    hide ClashText;
    hide HoldsOffice;
    errors := [];
    var forbidden := Incompatible(o);
    for l := 0 to |forbidden|
      invariant errors == FlatMap(forbidden[..l], ForbiddenOffice(offices, o.officeId, key))
    {
      FlatMapNext(forbidden, ForbiddenOffice(offices, o.officeId, key), l);
      if forbidden[l] in Lookup(held, key) { errors := errors + [ClashText(key, o.officeId, forbidden[l])]; }
    }
    assert forbidden[..|forbidden|] == forbidden;
  }

  /** The same for every holder of the office. */
  method CheckOffice(o: Office, held: map<Str, seq<Str>>, ghost offices: seq<Office>) returns (errors: seq<Str>)
    requires HeldOffices(held, offices)
    ensures errors == OfficeClashes(offices)(o)
  {
    errors := [];
    for i := 0 to |o.holderSet|
      invariant errors == FlatMap(o.holderSet[..i], ForbiddenOffices(offices, o))
    {
      var here := CheckHolder(o, o.holderSet[i].publicKey, held, offices);
      errors := errors + here;
      FlatMapNext(o.holderSet, ForbiddenOffices(offices, o), i);
    }
    assert o.holderSet[..|o.holderSet|] == o.holderSet;
  }

  method CheckIncompatibility(offices: seq<Office>) returns (clean: bool, errors: seq<Str>)
    ensures clean <==> NoClash(offices)
    ensures errors == ClashErrors(offices)
  {
    hide OfficeClashes;
    var held := CollectHolders(offices);
    errors := [];
    for n := 0 to |offices|
      invariant errors == FlatMap(offices[..n], OfficeClashes(offices))
    {
      FlatMapNext(offices, OfficeClashes(offices), n);
      var here := CheckOffice(offices[n], held, offices);
      errors := errors + here;
    }
    assert offices[..|offices|] == offices;
    ClashErrorsMean(offices);
    clean := errors == [];
  }

  datatype Verification = Verification(
    valid: bool, errors: seq<Str>, contentIntegrity: bool, signaturesValid: bool, quorumMet: bool,
    notDissolved: bool, officesValid: bool, incompatibilityClean: bool)

  /** `receipts` is None when no receipts are supplied, else why they fail to cover the citations, if they do. */
  function CitationErrors(b: Body, receipts: Option<Option<Str>>): seq<Str> {
    if !HasCitations(b) then []
    else if receipts.None? then [NO_RECEIPTS]
    else if receipts.value.Some? then [CONSENT + receipts.value.value]
    else []
  }

  function Reported(fine: bool, text: Str): seq<Str> { if fine then [] else [text] }

  /** Everything reported about a charter, in the order of the checks. */
  function CharterErrors(c: Crypto, ch: CharterCore, receipts: Option<Option<Str>>): seq<Str> {
    Reported(ContentIntegrity(c, ch), HASH_MISMATCH) +
    SignatureErrors(c, ch.foundingSignatures, ch.contentHash) +
    Reported(QuorumMet(c, ch), BELOW_THRESHOLD) +
    Reported(!ch.body.status.Dissolved?, DISSOLVED) +
    SuccessorErrors(ch.body.offices) + ClashErrors(ch.body.offices) + CitationErrors(ch.body, receipts)
  }

  /** What a charter has to meet. */
  predicate ValidCharter(c: Crypto, ch: CharterCore, receipts: Option<Option<Str>>) {
    && ContentIntegrity(c, ch) && SignaturesValid(c, ch.foundingSignatures, ch.contentHash) && QuorumMet(c, ch)
    && !ch.body.status.Dissolved? && SuccessorsKnown(ch.body.offices) && NoClash(ch.body.offices)
    && (HasCitations(ch.body) ==> receipts == Some(None))
  }

  lemma {:induction false} CharterErrorsMean(c: Crypto, ch: CharterCore, receipts: Option<Option<Str>>)
    ensures CharterErrors(c, ch, receipts) == [] <==> ValidCharter(c, ch, receipts)
  {
    hide ContentIntegrity;
    hide QuorumMet;
    hide SignatureErrors;
    hide SuccessorErrors;
    hide ClashErrors;
    SignatureErrorsMean(c, ch.foundingSignatures, ch.contentHash);
    SuccessorErrorsMean(ch.body.offices);
    ClashErrorsMean(ch.body.offices);
  }

  method VerifyCharter(c: Crypto, ch: CharterCore, receipts: Option<Option<Str>>) returns (v: Verification)
    ensures v.contentIntegrity <==> ContentIntegrity(c, ch)
    ensures v.signaturesValid <==> SignaturesValid(c, ch.foundingSignatures, ch.contentHash)
    ensures v.quorumMet <==> QuorumMet(c, ch)
    ensures v.notDissolved <==> !ch.body.status.Dissolved?
    ensures v.officesValid <==> SuccessorsKnown(ch.body.offices)
    ensures v.incompatibilityClean <==> NoClash(ch.body.offices)
    ensures v.errors == CharterErrors(c, ch, receipts)
    ensures v.valid <==> ValidCharter(c, ch, receipts)
  {
    hide SignatureErrors;
    hide SuccessorErrors;
    hide ClashErrors;
    hide CitationErrors;
    hide ContentValue;
    hide LegacyText;
    var integrity := c.hash(LegacyText(ContentValue(ch.body))) == ch.contentHash;
    var errors := Reported(integrity, HASH_MISMATCH);
    var signed, invalid := CheckSignatures(c, ch.foundingSignatures, ch.contentHash);
    errors := errors + invalid;
    var quorum := EvaluateThreshold(
      c, ch.body.amendmentPolicy.requirements, ForThreshold(ch.foundingSignatures), ch.contentHash);
    errors := errors + Reported(quorum.met, BELOW_THRESHOLD);
    var alive := !ch.body.status.Dissolved?;
    errors := errors + Reported(alive, DISSOLVED);
    var offices, unknown := CheckSuccessors(ch.body.offices);
    errors := errors + unknown;
    var clean, clashes := CheckIncompatibility(ch.body.offices);
    errors := errors + clashes + CitationErrors(ch.body, receipts);
    CharterErrorsMean(c, ch, receipts);
    v := Verification(errors == [], errors, integrity, signed, quorum.met, alive, offices, clean);
  }

  // --- Signing runs ----------------------------------------------------------

  datatype Signing = Signing(secret: Str, key: Str, role: Str, resigner: Str, now: Str)

  ghost predicate SignedAt(c: Crypto, charters: seq<CharterCore>, steps: seq<Signing>, i: nat)
    requires |charters| == |steps| + 1 && i < |steps|
  {
    var s := steps[i];
    && KeyPair(c, s.secret, s.key)
    && SignCharter(c, charters[i], s.secret, s.key, s.role, s.resigner, s.now) == Success(charters[i + 1])
  }

  /** A charter created by the first signing and then signed successfully by the others, each with a matching key. */
  ghost predicate SigningRun(c: Crypto, body: Body, founder: Signing, charters: seq<CharterCore>, steps: seq<Signing>) {
    && |charters| == |steps| + 1
    && KeyPair(c, founder.secret, founder.key)
    && CreateCharter(c, body, founder.secret, founder.key, founder.role, founder.now) == Success(charters[0])
    && forall i | 0 <= i < |steps| :: SignedAt(c, charters, steps, i)
  }

  ghost predicate DistinctKeys(sigs: seq<CharterSignature>) {
    forall i, j | 0 <= i < j < |sigs| :: sigs[i].publicKey != sigs[j].publicKey
  }

  /** At every point of every run the content hash and all signatures check, and no key signed twice. */
  lemma {:induction false} RunStaysSound(c: Crypto, body: Body, founder: Signing, charters: seq<CharterCore>,
                                         steps: seq<Signing>, i: nat)
    requires SigningRun(c, body, founder, charters, steps) && i < |charters|
    ensures charters[i].body == body && charters[i].contentHash == charters[0].contentHash
    ensures ContentIntegrity(c, charters[i])
    ensures SignaturesValid(c, charters[i].foundingSignatures, charters[i].contentHash)
    ensures DistinctKeys(charters[i].foundingSignatures)
    ensures |charters[i].foundingSignatures| == i + 1
  {
    hide ContentValue;
    hide SignableValue;
    if i == 0 {
    } else {
      RunStaysSound(c, body, founder, charters, steps, i - 1);
      assert SignedAt(c, charters, steps, i - 1);
    }
  }

  lemma {:induction false} QuorumGrows(c: Crypto, ch: CharterCore, later: CharterCore)
    requires ch.body == later.body && ch.contentHash == later.contentHash
             && ch.foundingSignatures <= later.foundingSignatures
    ensures QuorumMet(c, ch) ==> QuorumMet(c, later)
  {
    var before, after := ForThreshold(ch.foundingSignatures), ForThreshold(later.foundingSignatures);
    assert after[..|before|] == before;
    MetMonotone(c, ch.body.amendmentPolicy.requirements, before, after, ch.contentHash);
  }

  /** Signatures are only ever appended, so a quorum once met stays met. */
  lemma {:induction false} QuorumIsKept(c: Crypto, body: Body, founder: Signing, charters: seq<CharterCore>,
                                        steps: seq<Signing>, i: nat, j: nat)
    requires SigningRun(c, body, founder, charters, steps) && i <= j < |charters|
    ensures charters[i].foundingSignatures <= charters[j].foundingSignatures
    ensures QuorumMet(c, charters[i]) ==> QuorumMet(c, charters[j])
    decreases j
  {
    hide QuorumMet;
    hide ContentValue;
    hide SignableValue;
    if i == j {
    } else {
      QuorumIsKept(c, body, founder, charters, steps, i, j - 1);
      assert SignedAt(c, charters, steps, j - 1);
      QuorumGrows(c, charters[j - 1], charters[j]);
    }
  }

  // --- Duplicate office ids --------------------------------------------------

  ghost predicate Distinct(ids: seq<Str>) {
    forall i, j | 0 <= i < j < |ids| :: ids[i] != ids[j]
  }

  /** The id at `j` is the first that occurs earlier too. */
  ghost predicate FirstRepeat(ids: seq<Str>, j: nat)
    requires j < |ids|
  {
    ids[j] in ids[..j] && Distinct(ids[..j])
  }

  lemma {:induction false} FirstDuplicateMeans(ids: seq<Str>)
    ensures FirstDuplicate(ids).None? <==> Distinct(ids)
    ensures forall j | 0 <= j < |ids| && FirstRepeat(ids, j) :: FirstDuplicate(ids) == Some(ids[j])
    ensures FirstDuplicate(ids).Some? ==> exists j | 0 <= j < |ids| :: FirstRepeat(ids, j)
    decreases |ids|
  {
    if ids == [] {
    } else {
      var n := |ids| - 1;
      FirstDuplicateMeans(ids[..n]);
      DistinctSnoc(ids);
      forall j | 0 <= j < n ensures FirstRepeat(ids, j) <==> FirstRepeat(ids[..n], j) {
        assert ids[..n][j] == ids[j] && ids[..n][..j] == ids[..j];
      }
      hide Distinct;
      if FirstDuplicate(ids[..n]).None? && ids[n] in ids[..n] { assert FirstRepeat(ids, n); }
    }
  }

  lemma {:induction false} DistinctSnoc(ids: seq<Str>)
    requires ids != []
    ensures var n := |ids| - 1; Distinct(ids) <==> Distinct(ids[..n]) && ids[n] !in ids[..n]
  {
  }

  /** The check refuses exactly the lists in which the first id that repeats an earlier one is not the empty string. */
  lemma {:induction false} DuplicateCheck(c: Crypto, body: Body, secret: Str, key: Str, role: Str, now: Str)
    ensures var ids := OfficeIds(body.offices);
            CreateCharter(c, body, secret, key, role, now) == Failure(DuplicateOffice)
            <==> exists j | 0 <= j < |ids| :: FirstRepeat(ids, j) && ids[j] != []
  {
    hide ContentValue;
    hide SignableValue;
    FirstDuplicateMeans(OfficeIds(body.offices));
  }

  /** So distinctness is enforced exactly on the bodies whose first repeated id, if any, is not empty. */
  lemma {:induction false} DistinctOrEmpty(c: Crypto, body: Body, secret: Str, key: Str, role: Str, now: Str)
    requires !HasUnsafeInteger(Obj(BodyMembers(body)))
    ensures var ids := OfficeIds(body.offices);
            CreateCharter(c, body, secret, key, role, now).Success? <==>
            Distinct(ids) || exists j | 0 <= j < |ids| :: FirstRepeat(ids, j) && ids[j] == []
  {
    FirstDuplicateMeans(OfficeIds(body.offices));
    hide ContentValue;
    hide SignableValue;
    var contentHash := c.hash(LegacyText(ContentValue(body)));
    SafeToWrite(body, contentHash, [CharterSignature(key, role, now, c.sign(contentHash, secret))]);
  }

  /** Hash and signatures are strings, so only the body can hold an unsafe integer. */
  lemma {:induction false} SafeToWrite(b: Body, contentHash: Str, sigs: seq<CharterSignature>)
    requires !HasUnsafeInteger(Obj(BodyMembers(b)))
    ensures !HasUnsafeInteger(ContentValue(b))
    ensures !HasUnsafeInteger(SignableValue(b, contentHash, sigs))
  {
    hide BodyMembers;
    hide Signatures;
    SafeSignatures([]);
    SafeSignatures(sigs);
  }

  lemma {:induction false} SafeSignatures(sigs: seq<CharterSignature>)
    ensures !HasUnsafeInteger(Signatures(sigs))
  {
    forall s: CharterSignature ensures !HasUnsafeInteger(SignatureValue(s)) {
      assert forall k | k in SignatureValue(s).members :: SignatureValue(s).members[k].String?;
    }
  }

  // --- What verification does not look at ------------------------------------

  /** A charter with the given office ids and nothing else of note. */
  function PlainBody(ids: seq<Str>): Body {
    var offices := seq(|ids|, i requires 0 <= i < |ids| => Office(ids[i], [], [], None, map[]));
    Body([], [], None, [], Active, offices, Policy([], map[]), map[])
  }

  lemma {:induction false} PlainBodySafe(ids: seq<Str>)
    ensures !HasUnsafeInteger(Obj(BodyMembers(PlainBody(ids))))
    ensures OfficeIds(PlainBody(ids).offices) == ids
  {
    var b := PlainBody(ids);
    assert forall k | k in BodyMembers(b) && k !in {OFFICES, AMENDMENT_POLICY} :: !BodyMembers(b)[k].Num?;
    forall i | 0 <= i < |ids| ensures !HasUnsafeInteger(OfficeValue(b.offices[i])) { PlainOfficeSafe(b.offices[i]); }
    hide OfficeValue;
    assert !HasUnsafeInteger(Offices(b.offices));
    assert !HasUnsafeInteger(PolicyValue(b.amendmentPolicy)) by { PlainPolicySafe(b.amendmentPolicy); }
  }

  lemma {:induction false} PlainOfficeSafe(o: Office)
    requires o.rest == map[] && o.successionOrder == [] && o.holderSet == [] && o.incompatibleOffices.None?
    ensures !HasUnsafeInteger(OfficeValue(o))
  {
  }

  lemma {:induction false} PlainPolicySafe(p: Policy)
    requires p == Policy([], map[])
    ensures !HasUnsafeInteger(PolicyValue(p))
  {
  }

  /** The charter passes every check that reads it, whatever ids its offices repeat. */
  lemma {:induction false} PlainBodyPasses(c: Crypto, ids: seq<Str>, ch: CharterCore)
    requires ch.body == PlainBody(ids) && ContentIntegrity(c, ch)
    requires SignaturesValid(c, ch.foundingSignatures, ch.contentHash)
    ensures ValidCharter(c, ch, None)
  {
    hide ContentIntegrity;
  }

  /** Two pairs of offices with equal ids, the first pair empty: created, and verified as valid. */
  lemma {:induction false} EmptyIdsEscape(c: Crypto, secret: Str, key: Str, role: Str, now: Str)
    requires KeyPair(c, secret, key)
    ensures var body := PlainBody([[], [], [1], [1]]);
            var made := CreateCharter(c, body, secret, key, role, now);
            && !Distinct(OfficeIds(body.offices))
            && made.Success? && made.value.body == body && ValidCharter(c, made.value, None)
  {
    hide PlainBody;
    hide ContentValue;
    hide SignableValue;
    var ids: seq<Str> := [[], [], [1], [1]];
    PlainBodySafe(ids);
    assert FirstRepeat(ids, 1) by { assert ids[..1][0] == ids[1]; }
    assert !Distinct(ids) by { assert ids[2] == ids[3]; }
    DistinctOrEmpty(c, PlainBody(ids), secret, key, role, now);
    PlainBodyPasses(c, ids, CreateCharter(c, PlainBody(ids), secret, key, role, now).value);
  }

  /** Verification has no such check at all: every list of office ids, repeated or not, belongs to a valid charter. */
  lemma {:induction false} AnyIdsVerify(c: Crypto, ids: seq<Str>) returns (ch: CharterCore)
    ensures OfficeIds(ch.body.offices) == ids && ValidCharter(c, ch, None)
  {
    hide PlainBody;
    hide ContentValue;
    ch := CharterCore(PlainBody(ids), c.hash(LegacyText(ContentValue(PlainBody(ids)))), [], []);
    PlainBodySafe(ids);
    PlainBodyPasses(c, ids, ch);
  }

  /** Listing an office a second time changes neither finding about offices. */
  lemma {:induction false} RepeatedOfficePasses(offices: seq<Office>, i: nat)
    requires i < |offices|
    ensures SuccessorsKnown(offices + [offices[i]]) <==> SuccessorsKnown(offices)
    ensures NoClash(offices + [offices[i]]) <==> NoClash(offices)
  {
    hide Clash;
    var more := offices + [offices[i]];
    assert forall j | 0 <= j < |offices| :: more[j] == offices[j] && OfficeIds(more)[j] == OfficeIds(offices)[j];
    assert more[|offices|] == offices[i] && OfficeIds(more)[|offices|] == OfficeIds(offices)[i];
    assert forall id :: id in OfficeIds(more) <==> id in OfficeIds(offices);
    if NoClash(offices) {
      forall j, k | 0 <= j < |more| && 0 <= k < |more| ensures !Clash(more[j], more[k]) {
        var j', k' := if j == |offices| then i else j, if k == |offices| then i else k;
        assert !Clash(offices[j'], offices[k']);
      }
    } else {
      var j, k :| 0 <= j < |offices| && 0 <= k < |offices| && Clash(offices[j], offices[k]);
      assert Clash(more[j], more[k]);
    }
  }

  /** The outer signature decides nothing: any other one gives the same findings and reports. */
  lemma {:induction false} OuterSignatureUnread(c: Crypto, ch: CharterCore, signature: Str,
                                                receipts: Option<Option<Str>>)
    ensures var other := ch.(signature := signature);
            && (ContentIntegrity(c, other) <==> ContentIntegrity(c, ch)) && (QuorumMet(c, other) <==> QuorumMet(c, ch))
            && CharterErrors(c, other, receipts) == CharterErrors(c, ch, receipts)
            && (ValidCharter(c, other, receipts) <==> ValidCharter(c, ch, receipts))
  {
  }
}
