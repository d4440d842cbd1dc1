/**
  What the text of a charter fixes: equal text, after null stripping, means equal
  identity, amendment policy and office structure.
 */
module CharterBinding {
  import opened Text
  import opened Json
  import opened Hashing
  import opened CanonicalLegacy
  import opened Threshold
  import opened Charter

  ghost predicate SameOffice(a: Office, b: Office) {
    && a.officeId == b.officeId && a.successionOrder == b.successionOrder
    && a.incompatibleOffices == b.incompatibleOffices
    && |a.holderSet| == |b.holderSet|
    && forall i | 0 <= i < |a.holderSet| :: a.holderSet[i].publicKey == b.holderSet[i].publicKey
  }

  /** The parts of a charter that its verification reads. */
  ghost predicate SameGovernance(a: Body, b: Body) {
    && a.charterId == b.charterId && a.version == b.version && a.previousVersion == b.previousVersion
    && a.name == b.name && a.status == b.status
    && a.amendmentPolicy.requirements == b.amendmentPolicy.requirements
    && |a.offices| == |b.offices|
    && forall i | 0 <= i < |a.offices| :: SameOffice(a.offices[i], b.offices[i])
  }

  // --- Stripping and members -------------------------------------------------

  /** A member that is not nullish survives stripping; a nullish one is gone. */
  lemma {:induction false} StrippedMember(m: map<Str, Value>, k: Str)
    ensures var s := Strip(Obj(m));
            && s.Obj?
            && (k in s.members <==> k in m && !Nullish(m[k]))
            && (k in s.members ==> s.members[k] == Strip(m[k]))
  {
  }

  /** Two objects equal after stripping agree on every member that is not nullish in both. */
  lemma {:induction false} SameMember(m: map<Str, Value>, n: map<Str, Value>, k: Str)
    requires Strip(Obj(m)) == Strip(Obj(n)) && k in m && k in n && !Nullish(m[k])
    ensures !Nullish(n[k]) && Strip(m[k]) == Strip(n[k])
  {
    StrippedMember(m, k);
    StrippedMember(n, k);
  }

  lemma {:induction false} StrippedArray(xs: seq<Value>, ys: seq<Value>)
    requires Strip(Arr(xs)) == Strip(Arr(ys))
    ensures |xs| == |ys| && forall i | 0 <= i < |xs| :: Strip(xs[i]) == Strip(ys[i])
  {
    var a, b := Strip(Arr(xs)).items, Strip(Arr(ys)).items;
    assert |a| == |xs| && |b| == |ys|;
    forall i | 0 <= i < |xs| ensures Strip(xs[i]) == Strip(ys[i]) { assert a[i] == b[i]; }
  }

  lemma {:induction false} StringsBind(xs: seq<Str>, ys: seq<Str>)
    requires Strip(Strings(xs)) == Strip(Strings(ys))
    ensures xs == ys
  {
    assert Strip(Strings(xs)) == Strings(xs) && Strip(Strings(ys)) == Strings(ys);
    StringsInjective(xs, ys);
  }

  // --- Requirements ----------------------------------------------------------

  lemma {:induction false} RequirementBinds(r: Requirement, s: Requirement)
    requires Strip(RequirementValue(r)) == Strip(RequirementValue(s))
    ensures r == s
  {
    var m, n := RequirementValue(r).members, RequirementValue(s).members;
    SameMember(m, n, ROLE);
    SameMember(m, n, REQUIRED_SIGNATURES);
    SameMember(m, n, ELIGIBLE_KEYS);
    StringsBind(r.eligibleKeys, s.eligibleKeys);
  }

  lemma {:induction false} PolicyBinds(p: Policy, q: Policy)
    requires Strip(PolicyValue(p)) == Strip(PolicyValue(q))
    ensures p.requirements == q.requirements
  {
    hide RequirementValue;
    var rs, ss := p.requirements, q.requirements;
    SameMember(PolicyValue(p).members, PolicyValue(q).members, REQUIREMENTS);
    StrippedArray(Requirements(rs).items, Requirements(ss).items);
    forall i | 0 <= i < |rs| ensures rs[i] == ss[i] {
      assert Strip(Requirements(rs).items[i]) == Strip(Requirements(ss).items[i]);
      RequirementBinds(rs[i], ss[i]);
    }
  }

  // --- Offices ---------------------------------------------------------------

  lemma {:induction false} HolderBinds(a: Holder, b: Holder)
    requires Strip(HolderValue(a)) == Strip(HolderValue(b))
    ensures a.publicKey == b.publicKey
  {
    SameMember(HolderValue(a).members, HolderValue(b).members, PUBLIC_KEY);
  }

  lemma {:induction false} HoldersBind(cs: seq<Holder>, bs: seq<Holder>)
    requires Strip(Holders(cs)) == Strip(Holders(bs))
    ensures |cs| == |bs| && forall i | 0 <= i < |cs| :: cs[i].publicKey == bs[i].publicKey
  {
    hide HolderValue;
    StrippedArray(Holders(cs).items, Holders(bs).items);
    forall i | 0 <= i < |cs| ensures cs[i].publicKey == bs[i].publicKey {
      assert Strip(Holders(cs).items[i]) == Strip(Holders(bs).items[i]);
      HolderBinds(cs[i], bs[i]);
    }
  }

  /** The named members of an office's object. */
  lemma {:induction false} OfficeMembers(o: Office)
    ensures var m := OfficeValue(o).members;
            && OFFICE_ID in m && m[OFFICE_ID] == String(o.officeId)
            && SUCCESSION_ORDER in m && m[SUCCESSION_ORDER] == Strings(o.successionOrder)
            && HOLDER_SET in m && m[HOLDER_SET] == Holders(o.holderSet)
            && (INCOMPATIBLE_OFFICES in m <==> o.incompatibleOffices.Some?)
            && (o.incompatibleOffices.Some? ==> m[INCOMPATIBLE_OFFICES] == Strings(o.incompatibleOffices.value))
  {
    hide Strings;
    hide Holders;
  }

  lemma {:induction false} OfficeBinds(a: Office, b: Office)
    requires Strip(OfficeValue(a)) == Strip(OfficeValue(b))
    ensures SameOffice(a, b)
  {
    OfficeMembers(a);
    OfficeMembers(b);
    var m, n := OfficeValue(a).members, OfficeValue(b).members;
    assert OfficeValue(a) == Obj(m) && OfficeValue(b) == Obj(n);
    hide OfficeValue;
    SameMember(m, n, OFFICE_ID);
    SameMember(m, n, SUCCESSION_ORDER);
    SameMember(m, n, HOLDER_SET);
    StringsBind(a.successionOrder, b.successionOrder);
    HoldersBind(a.holderSet, b.holderSet);
    StrippedMember(m, INCOMPATIBLE_OFFICES);
    StrippedMember(n, INCOMPATIBLE_OFFICES);
    if a.incompatibleOffices.Some? && b.incompatibleOffices.Some? {
      StringsBind(a.incompatibleOffices.value, b.incompatibleOffices.value);
    }
  }

  lemma {:induction false} OfficesBind(cs: seq<Office>, bs: seq<Office>)
    requires Strip(Offices(cs)) == Strip(Offices(bs))
    ensures |cs| == |bs| && forall i | 0 <= i < |cs| :: SameOffice(cs[i], bs[i])
  {
    hide OfficeValue;
    StrippedArray(Offices(cs).items, Offices(bs).items);
    forall i | 0 <= i < |cs| ensures SameOffice(cs[i], bs[i]) {
      assert Strip(Offices(cs).items[i]) == Strip(Offices(bs).items[i]);
      OfficeBinds(cs[i], bs[i]);
    }
  }

  // --- Bodies ----------------------------------------------------------------

  lemma {:induction false} StatusBinds(a: Status, b: Status)
    requires StatusText(a) == StatusText(b)
    ensures a == b
  {
    assert |Ascii("active")| == 6 && |Ascii("amending")| == 8;
    assert Ascii("suspended")[0] != Ascii("dissolved")[0];
  }

  /** `m` holds the members of `b`, whatever else it holds. */
  ghost predicate Holds(m: map<Str, Value>, b: Body) {
    && CHARTER_ID in m && m[CHARTER_ID] == String(b.charterId)
    && VERSION in m && m[VERSION] == String(b.version)
    && PREVIOUS_VERSION in m
    && m[PREVIOUS_VERSION] == (if b.previousVersion.None? then Null else String(b.previousVersion.value))
    && NAME in m && m[NAME] == String(b.name)
    && STATUS in m && m[STATUS] == String(StatusText(b.status))
    && OFFICES in m && m[OFFICES] == Offices(b.offices)
    && AMENDMENT_POLICY in m && m[AMENDMENT_POLICY] == PolicyValue(b.amendmentPolicy)
  }

  lemma {:induction false} NamesDiffer()
    ensures CHARTER_ID !in {VERSION, PREVIOUS_VERSION, NAME, STATUS, OFFICES, AMENDMENT_POLICY}
    ensures VERSION !in {PREVIOUS_VERSION, NAME, STATUS, OFFICES, AMENDMENT_POLICY}
    ensures PREVIOUS_VERSION !in {NAME, STATUS, OFFICES, AMENDMENT_POLICY}
    ensures NAME !in {STATUS, OFFICES, AMENDMENT_POLICY} && STATUS !in {OFFICES, AMENDMENT_POLICY}
            && OFFICES != AMENDMENT_POLICY
    ensures {CONTENT_HASH, FOUNDING_SIGNATURES, SIGNATURE} !!
            {CHARTER_ID, VERSION, PREVIOUS_VERSION, NAME, STATUS, OFFICES, AMENDMENT_POLICY}
  {
    assert VERSION[0] != OFFICES[0] && PREVIOUS_VERSION[0] != AMENDMENT_POLICY[0] && SIGNATURE[0] != CHARTER_ID[0];
  }

  lemma {:induction false} BodyHolds(b: Body)
    ensures Holds(BodyMembers(b), b)
  {
    hide Offices;
    hide PolicyValue;
    hide StatusText;
    NamesDiffer();
  }

  lemma {:induction false} ValuesHold(ch: CharterCore)
    ensures ContentValue(ch.body).Obj? && Holds(ContentValue(ch.body).members, ch.body)
    ensures CharterValue(ch).Obj? && Holds(CharterValue(ch).members, ch.body)
  {
    hide Offices;
    hide PolicyValue;
    hide StatusText;
    hide BodyMembers;
    BodyHolds(ch.body);
    NamesDiffer();
  }

  lemma {:induction false} MembersBind(m: map<Str, Value>, n: map<Str, Value>, a: Body, b: Body)
    requires Holds(m, a) && Holds(n, b) && Strip(Obj(m)) == Strip(Obj(n))
    ensures SameGovernance(a, b)
  {
    SameMember(m, n, CHARTER_ID);
    SameMember(m, n, VERSION);
    SameMember(m, n, NAME);
    SameMember(m, n, STATUS);
    StatusBinds(a.status, b.status);
    SameMember(m, n, OFFICES);
    OfficesBind(a.offices, b.offices);
    SameMember(m, n, AMENDMENT_POLICY);
    PolicyBinds(a.amendmentPolicy, b.amendmentPolicy);
    StrippedMember(m, PREVIOUS_VERSION);
    StrippedMember(n, PREVIOUS_VERSION);
  }

  /** Intact charters with one content hash share identity, policy and offices, or their texts collide. */
  lemma {:induction false} ContentHashBinds(c: Crypto, x: CharterCore, y: CharterCore)
    requires ContentIntegrity(c, x) && ContentIntegrity(c, y) && x.contentHash == y.contentHash
    ensures (SameGovernance(x.body, y.body) && Strip(ContentValue(x.body)) == Strip(ContentValue(y.body)))
            || Collides(c.hash, {LegacyText(ContentValue(x.body))}, {LegacyText(ContentValue(y.body))})
  {
    hide ContentValue;
    hide LegacyText;
    hide Strip;
    var v, w := ContentValue(x.body), ContentValue(y.body);
    if LegacyText(v) == LegacyText(w) {
      LegacyKernel(v, w);
      ValuesHold(x);
      ValuesHold(y);
      MembersBind(v.members, w.members, x.body, y.body);
    } else {
      assert LegacyText(v) in {LegacyText(v)} && LegacyText(w) in {LegacyText(w)};
    }
  }

  /** Whole charters equal after stripping share identity, policy and offices. */
  lemma {:induction false} CharterValueBinds(x: CharterCore, y: CharterCore)
    requires Strip(CharterValue(x)) == Strip(CharterValue(y))
    ensures SameGovernance(x.body, y.body)
  {
    hide CharterValue;
    hide Strip;
    ValuesHold(x);
    ValuesHold(y);
    MembersBind(CharterValue(x).members, CharterValue(y).members, x.body, y.body);
  }
}
