/**
  What the hashed and signed texts of charters and amendments say when read back
  by a JSON parser: which member holds what, under its published name.
 */
module CharterText {
  import opened Text
  import opened Json
  import opened JsonText
  import opened CanonicalLegacy
  import opened Threshold
  import opened Charter
  import opened CharterBinding
  import opened Amendment
  import CharterSigning

  /** `v` is an object whose member `name` is `w`. */
  ghost predicate Has(v: Value, name: Str, w: Value) {
    v.Obj? && name in v.members && v.members[name] == w
  }

  ghost predicate Lacks(v: Value, name: Str) { v.Obj? && name !in v.members }

  /** `v` is an object whose member `name` is an array of `n` items. */
  ghost predicate HasList(v: Value, name: Str, n: nat) {
    v.Obj? && name in v.members && v.members[name].Arr? && |v.members[name].items| == n
  }

  ghost predicate OfficeReads(v: Value, o: Office) {
    && Has(v, Ascii("officeId"), String(o.officeId))
    && Has(v, Ascii("successionOrder"), Strings(o.successionOrder))
    && HasList(v, Ascii("holderSet"), |o.holderSet|)
    && (forall i | 0 <= i < |o.holderSet| ::
          Has(v.members[Ascii("holderSet")].items[i], Ascii("publicKey"), String(o.holderSet[i].publicKey)))
    && (if o.incompatibleOffices.None? then Lacks(v, Ascii("incompatibleOffices"))
        else Has(v, Ascii("incompatibleOffices"), Strings(o.incompatibleOffices.value)))
  }

  ghost predicate RequirementReads(v: Value, r: Requirement) {
    && Has(v, Ascii("role"), String(r.role))
    && Has(v, Ascii("requiredSignatures"), Num(r.requiredSignatures))
    && Has(v, Ascii("eligibleKeys"), Strings(r.eligibleKeys))
  }

  ghost predicate PolicyReads(v: Value, p: Policy) {
    && HasList(v, Ascii("requirements"), |p.requirements|)
    && forall i | 0 <= i < |p.requirements| ::
         RequirementReads(v.members[Ascii("requirements")].items[i], p.requirements[i])
  }

  ghost predicate SignatureReads(v: Value, s: CharterSignature) {
    && Has(v, Ascii("publicKey"), String(s.publicKey)) && Has(v, Ascii("role"), String(s.role))
    && Has(v, Ascii("signedAt"), String(s.signedAt)) && Has(v, Ascii("signature"), String(s.signature))
  }

  ghost predicate StatusReads(v: Value, status: Status) {
    && (status == Active ==> Has(v, Ascii("status"), String(Ascii("active"))))
    && (status == Suspended ==> Has(v, Ascii("status"), String(Ascii("suspended"))))
    && (status == Dissolved ==> Has(v, Ascii("status"), String(Ascii("dissolved"))))
    && (status == Amending ==> Has(v, Ascii("status"), String(Ascii("amending"))))
  }

  ghost predicate BodyReads(v: Value, b: Body) {
    && Has(v, Ascii("charterId"), String(b.charterId)) && Has(v, Ascii("version"), String(b.version))
    && Has(v, Ascii("name"), String(b.name)) && StatusReads(v, b.status)
    && (if b.previousVersion.None? then Lacks(v, Ascii("previousVersion"))
        else Has(v, Ascii("previousVersion"), String(b.previousVersion.value)))
    && HasList(v, Ascii("offices"), |b.offices|)
    && (forall i | 0 <= i < |b.offices| :: OfficeReads(v.members[Ascii("offices")].items[i], b.offices[i]))
    && v.Obj? && Ascii("amendmentPolicy") in v.members
    && PolicyReads(v.members[Ascii("amendmentPolicy")], b.amendmentPolicy)
  }

  ghost predicate SignaturesRead(v: Value, name: Str, sigs: seq<CharterSignature>) {
    HasList(v, name, |sigs|) && forall i | 0 <= i < |sigs| :: SignatureReads(v.members[name].items[i], sigs[i])
  }

  // --- Stripping -------------------------------------------------------------

  lemma {:induction false} StrippedHas(m: map<Str, Value>, k: Str)
    requires k in m
    ensures if Nullish(m[k]) then Lacks(Strip(Obj(m)), k) else Has(Strip(Obj(m)), k, Strip(m[k]))
  {
    StrippedMember(m, k);
  }

  lemma {:induction false} StrippedList(m: map<Str, Value>, k: Str, items: seq<Value>)
    requires k in m && m[k] == Arr(items)
    ensures var v := Strip(Obj(m));
            HasList(v, k, |items|) && forall i | 0 <= i < |items| :: v.members[k].items[i] == Strip(items[i])
  {
    StrippedMember(m, k);
  }

  lemma {:induction false} StringsUnstripped(xs: seq<Str>)
    ensures Strip(Strings(xs)) == Strings(xs)
  {
  }

  lemma {:induction false} HolderReadsBack(h: Holder)
    ensures Has(Strip(HolderValue(h)), Ascii("publicKey"), String(h.publicKey))
  {
    StrippedHas(HolderValue(h).members, PUBLIC_KEY);
  }

  lemma {:induction false} OfficeReadsBack(o: Office)
    ensures OfficeReads(Strip(OfficeValue(o)), o)
  {
    hide Ascii;
    OfficeMembers(o);
    var m := OfficeValue(o).members;
    assert OfficeValue(o) == Obj(m);
    hide OfficeValue;
    StrippedHas(m, OFFICE_ID);
    StrippedHas(m, SUCCESSION_ORDER);
    StringsUnstripped(o.successionOrder);
    StrippedList(m, HOLDER_SET, Holders(o.holderSet).items);
    forall i | 0 <= i < |o.holderSet|
      ensures Has(Strip(Holders(o.holderSet).items[i]), Ascii("publicKey"), String(o.holderSet[i].publicKey))
    {
      HolderReadsBack(o.holderSet[i]);
    }
    hide HolderValue;
    if o.incompatibleOffices.Some? {
      StrippedHas(m, INCOMPATIBLE_OFFICES);
      StringsUnstripped(o.incompatibleOffices.value);
    } else {
      StrippedMember(m, INCOMPATIBLE_OFFICES);
    }
    hide Strip;
  }

  lemma {:induction false} RequirementReadsBack(r: Requirement)
    ensures RequirementReads(Strip(RequirementValue(r)), r)
  {
    var m := RequirementValue(r).members;
    assert |ROLE| == 4 && |REQUIRED_SIGNATURES| == 18 && |ELIGIBLE_KEYS| == 12;
    hide Ascii;
    StrippedHas(m, ROLE);
    StrippedHas(m, REQUIRED_SIGNATURES);
    StrippedHas(m, ELIGIBLE_KEYS);
    StringsUnstripped(r.eligibleKeys);
  }

  lemma {:induction false} PolicyReadsBack(p: Policy)
    ensures PolicyReads(Strip(PolicyValue(p)), p)
  {
    hide Ascii;
    hide RequirementReads;
    var m := PolicyValue(p).members;
    StrippedList(m, REQUIREMENTS, Requirements(p.requirements).items);
    forall i | 0 <= i < |p.requirements|
      ensures RequirementReads(Strip(Requirements(p.requirements).items[i]), p.requirements[i])
    {
      RequirementReadsBack(p.requirements[i]);
    }
    hide RequirementValue;
    hide Strip;
  }

  lemma {:induction false} SignatureReadsBack(s: CharterSignature)
    ensures SignatureReads(Strip(SignatureValue(s)), s)
  {
    var m := SignatureValue(s).members;
    assert |PUBLIC_KEY| == 9 && |ROLE| == 4 && |Ascii("signedAt")| == 8 && |SIGNATURE| == 9
           && PUBLIC_KEY[0] != SIGNATURE[0];
    hide Ascii;
    StrippedHas(m, PUBLIC_KEY);
    StrippedHas(m, ROLE);
    StrippedHas(m, Ascii("signedAt"));
    StrippedHas(m, SIGNATURE);
  }

  lemma {:induction false} SignaturesReadBack(m: map<Str, Value>, name: Str, sigs: seq<CharterSignature>)
    requires name in m && m[name] == Signatures(sigs)
    ensures SignaturesRead(Strip(Obj(m)), name, sigs)
  {
    hide SignatureReads;
    StrippedList(m, name, Signatures(sigs).items);
    forall i | 0 <= i < |sigs| ensures SignatureReads(Strip(Signatures(sigs).items[i]), sigs[i]) {
      SignatureReadsBack(sigs[i]);
    }
    hide SignatureValue;
    hide Strip;
  }

  lemma {:induction false} StatusReadsBack(m: map<Str, Value>, status: Status)
    requires STATUS in m && m[STATUS] == String(StatusText(status))
    ensures StatusReads(Strip(Obj(m)), status)
  {
    StrippedHas(m, STATUS);
    hide Ascii;
    hide Strip;
  }

  lemma {:induction false} OfficesReadBack(m: map<Str, Value>, offices: seq<Office>)
    requires OFFICES in m && m[OFFICES] == Offices(offices)
    ensures var v := Strip(Obj(m));
            && HasList(v, Ascii("offices"), |offices|)
            && forall i | 0 <= i < |offices| :: OfficeReads(v.members[Ascii("offices")].items[i], offices[i])
  {
    hide Ascii;
    hide OfficeReads;
    StrippedList(m, OFFICES, Offices(offices).items);
    forall i | 0 <= i < |offices| ensures OfficeReads(Strip(Offices(offices).items[i]), offices[i]) {
      OfficeReadsBack(offices[i]);
    }
    hide OfficeValue;
    hide Strip;
  }

  lemma {:induction false} BodyReadsBack(m: map<Str, Value>, b: Body)
    requires Holds(m, b)
    ensures BodyReads(Strip(Obj(m)), b)
  {
    hide Ascii;
    hide OfficeReads;
    hide PolicyReads;
    hide StatusReads;
    StrippedHas(m, CHARTER_ID);
    StrippedHas(m, VERSION);
    StrippedHas(m, NAME);
    StrippedHas(m, PREVIOUS_VERSION);
    StatusReadsBack(m, b.status);
    OfficesReadBack(m, b.offices);
    StrippedHas(m, AMENDMENT_POLICY);
    PolicyReadsBack(b.amendmentPolicy);
    hide Offices;
    hide StatusText;
  }

  // --- The texts -------------------------------------------------------------

  /** The hashed text reads back as the body with an empty list of founding signatures, and neither hash
      nor signature. */
  lemma {:induction false} ContentReads(b: Body)
    ensures var read := Parse(LegacyText(ContentValue(b)));
            && read.Ok? && BodyReads(read.value, b)
            && Has(read.value, Ascii("foundingSignatures"), Arr([]))
            && Lacks(read.value, Ascii("contentHash")) && Lacks(read.value, Ascii("signature"))
  {
    hide BodyReads;
    hide Parse;
    hide LegacyText;
    LegacyRoundTrip(ContentValue(b));
    BodyHolds(b);
    CharterSigning.OwnNamesFree(b);
    CharterSigning.NameLengths();
    NamesDiffer();
    hide BodyMembers;
    hide Ascii;
    var m := ContentValue(b).members;
    assert Holds(m, b);
    hide Holds;
    BodyReadsBack(m, b);
    StrippedList(m, FOUNDING_SIGNATURES, []);
    StrippedMember(m, CONTENT_HASH);
    StrippedMember(m, SIGNATURE);
    assert Strip(Obj(m)).members[FOUNDING_SIGNATURES].items == [];
  }

  /** A whole charter reads back with its hash, its founding signatures and its outer signature. */
  lemma {:induction false} CharterReads(ch: CharterCore)
    ensures var v := Strip(CharterValue(ch));
            && BodyReads(v, ch.body) && Has(v, Ascii("contentHash"), String(ch.contentHash))
            && SignaturesRead(v, Ascii("foundingSignatures"), ch.foundingSignatures)
            && Has(v, Ascii("signature"), String(ch.signature))
  {
    hide BodyReads;
    hide SignatureReads;
    ValuesHold(ch);
    CharterSigning.NameLengths();
    hide BodyMembers;
    hide Ascii;
    hide Holds;
    var m := CharterValue(ch).members;
    assert CharterValue(ch) == Obj(m);
    BodyReadsBack(m, ch.body);
    StrippedHas(m, CONTENT_HASH);
    SignaturesReadBack(m, FOUNDING_SIGNATURES, ch.foundingSignatures);
    StrippedHas(m, SIGNATURE);
    hide Signatures;
  }

  /** What every amendment signer signs reads back as these five members. */
  lemma {:induction false} AmendmentReads(a: CharterAmendment)
    ensures var read := Parse(Amendment.SignContent(a));
            && read.Ok? && Has(read.value, Ascii("charterId"), String(a.charterId))
            && Has(read.value, Ascii("fromVersion"), String(a.fromVersion))
            && Has(read.value, Ascii("toVersion"), String(a.toVersion))
            && Has(read.value, Ascii("description"), String(a.description))
            && Has(read.value, Ascii("proposedCharter"), Strip(CharterValue(a.proposedCharter)))
            && |read.value.members| == 5
  {
    LegacyRoundTrip(AmendmentValue(a));
    SignedMembers(a);
    SignKeysDiffer();
    hide Parse;
    hide LegacyText;
    hide CharterValue;
    hide Ascii;
    var m := Strip(AmendmentValue(a)).members;
    assert m.Keys == {CHARTER_ID, FROM_VERSION, TO_VERSION, DESCRIPTION, PROPOSED_CHARTER};
    assert |m| == |m.Keys|;
  }
}
