/**
  The legacy serializer of src/core/canonical.ts on plain trees: null and
  undefined members are dropped, everything else is printed as RFC 8785 does.
 */
module CanonicalLegacy {
  import opened Text
  import opened Json
  import opened JsonText
  import CanonicalJcs

  predicate Nullish(v: Value) { v.Null? || v.Undefined? }

  /** The value that legacy text stands for: nullish members gone, other undefined read as null. */
  function Strip(v: Value): Value {
    match v
    case Undefined => Null
    case Arr(items) => Arr(seq(|items|, i requires 0 <= i < |items| => Strip(items[i])))
    case Obj(m) => Obj(map k | k in m && !Nullish(m[k]) :: Strip(m[k]))
    case _ => v
  }

  /** `keys.filter(key => obj[key] is neither null nor undefined)`. */
  function Kept(m: map<Str, Value>, keys: seq<Str>): (r: seq<Str>)
    requires forall i | 0 <= i < |keys| :: keys[i] in m
    ensures forall i | 0 <= i < |r| :: r[i] in m && !Nullish(m[r[i]]) && r[i] in keys
  {
    if keys == [] then []
    else if Nullish(m[keys[0]]) then Kept(m, keys[1..])
    else [keys[0]] + Kept(m, keys[1..])
  }

  /** What canonicalize prints for a tree. */
  function LegacyText(v: Value): Str {
    match v
    case Undefined => NULL
    case Arr(items) =>
      [LBRACKET] + Join(seq(|items|, i requires 0 <= i < |items| => LegacyText(items[i])), [COMMA]) + [RBRACKET]
    case Obj(m) =>
      var keys := Kept(m, Keys(m));
      var members := seq(|keys|, i requires 0 <= i < |keys| => Stringify(keys[i]) + [COLON] + LegacyText(m[keys[i]]));
      [LBRACE] + Join(members, [COMMA]) + [RBRACE]
    case _ => Print(v)
  }

  // --- The kernel theorem ----------------------------------------------------

  lemma {:induction false} KeptInOrder(m: map<Str, Value>, keys: seq<Str>, lt: (Str, Str) -> bool)
    requires forall i | 0 <= i < |keys| :: keys[i] in m
    requires StrictlyBy(keys, lt)
    ensures StrictlyBy(Kept(m, keys), lt)
  {
    if keys == [] {
    } else {
      KeptInOrder(m, keys[1..], lt);
      if !Nullish(m[keys[0]]) {
        var rest := Kept(m, keys[1..]);
        forall j | 0 <= j < |rest| ensures lt(keys[0], rest[j]) {
          assert rest[j] in keys[1..];
          var l :| 0 <= l < |keys[1..]| && keys[1..][l] == rest[j];
          assert keys[l + 1] == rest[j];
        }
        PrependStrict(keys[0], rest, lt);
      }
    }
  }

  lemma {:induction false} KeptComplete(m: map<Str, Value>, keys: seq<Str>, i: nat)
    requires forall i | 0 <= i < |keys| :: keys[i] in m
    requires i < |keys| && !Nullish(m[keys[i]])
    ensures keys[i] in Kept(m, keys)
  {
    if i == 0 {
    } else {
      KeptComplete(m, keys[1..], i - 1);
    }
  }

  /** Filtering the sorted keys gives the sorted keys of the stripped object. */
  lemma {:induction false} KeptKeys(m: map<Str, Value>)
    ensures Kept(m, Keys(m)) == Keys(Strip(Obj(m)).members)
  {
    var stripped := Strip(Obj(m)).members;
    var kept, keys := Kept(m, Keys(m)), Keys(stripped);
    SortedKeysAscending(m.Keys);
    SortedKeysAscending(stripped.Keys);
    KeptInOrder(m, Keys(m), UnitLt);
    forall x ensures x in kept <==> x in keys {
      if x in keys { KeptComplete(m, Keys(m), KeyIndex(m.Keys, x)); }
      if x in kept { var i := KeyIndex(stripped.Keys, x); }
    }
    UnitLtAsymmetric();
    StrictUnique(kept, keys, UnitLt);
  }

  /** Legacy text is the canonical text of the stripped value. */
  lemma {:induction false} LegacyIsPrintOfStrip(v: Value)
    ensures LegacyText(v) == Print(Strip(v))
    decreases v
  {
    match v
    case Arr(items) =>
      var stripped := Strip(v).items;
      forall i | 0 <= i < |items| ensures LegacyText(items[i]) == Print(stripped[i]) {
        LegacyIsPrintOfStrip(items[i]);
      }
      assert seq(|items|, i requires 0 <= i < |items| => LegacyText(items[i])) == ItemTexts(stripped);
      PrintArr(stripped);
    case Obj(m) =>
      var stripped := Strip(v).members;
      KeptKeys(m);
      var keys := Keys(stripped);
      forall i | 0 <= i < |keys|
        ensures Stringify(keys[i]) + [COLON] + LegacyText(m[keys[i]]) == MemberText(stripped, keys[i])
      {
        LegacyIsPrintOfStrip(m[keys[i]]);
      }
      assert seq(|keys|, i requires 0 <= i < |keys| => Stringify(keys[i]) + [COLON] + LegacyText(m[keys[i]]))
             == MemberTexts(stripped, keys);
      PrintObj(stripped);
    case _ =>
  }

  lemma {:induction false} StripHasNoUndefined(v: Value)
    ensures !HasUndefined(Strip(v))
    decreases v
  {
    match v
    case Arr(items) =>
      forall i | 0 <= i < |items| ensures !HasUndefined(Strip(v).items[i]) { StripHasNoUndefined(items[i]); }
    case Obj(m) =>
      forall k | k in Strip(v).members ensures !HasUndefined(Strip(v).members[k]) { StripHasNoUndefined(m[k]); }
    case _ =>
  }

  /** For every value: legacy text parses back to the stripped value. */
  lemma {:induction false} LegacyRoundTrip(v: Value)
    ensures Parse(LegacyText(v)) == Ok(Strip(v))
  {
    LegacyIsPrintOfStrip(v);
    StripHasNoUndefined(v);
    RoundTrip(Strip(v));
  }

  /** Read back, legacy text holds exactly the members that are neither null nor undefined, each as its
      own text reads. */
  lemma {:induction false} LegacyObjectReads(m: map<Str, Value>)
    ensures var read := Parse(LegacyText(Obj(m)));
            && read.Ok? && read.value.Obj?
            && (forall k :: k in read.value.members <==> k in m && m[k] != Null && m[k] != Undefined)
            && forall k | k in read.value.members :: Parse(LegacyText(m[k])) == Ok(read.value.members[k])
  {
    hide LegacyText;
    hide Parse;
    LegacyRoundTrip(Obj(m));
    forall k | k in m ensures Parse(LegacyText(m[k])) == Ok(Strip(m[k])) { LegacyRoundTrip(m[k]); }
  }

  /** Arrays keep every item; an undefined one reads back as null. Atoms read back as they are. */
  lemma {:induction false} LegacyItemsRead(items: seq<Value>, atom: Value)
    requires !atom.Arr? && !atom.Obj?
    ensures var read := Parse(LegacyText(Arr(items)));
            && read.Ok? && read.value.Arr? && |read.value.items| == |items|
            && forall i | 0 <= i < |items| :: Parse(LegacyText(items[i])) == Ok(read.value.items[i])
    ensures Parse(LegacyText(atom)) == Ok(if atom == Undefined then Null else atom)
  {
    LegacyRoundTrip(Arr(items));
    LegacyRoundTrip(atom);
    hide LegacyText;
    hide Parse;
    forall i | 0 <= i < |items| ensures Parse(LegacyText(items[i])) == Ok(Strip(items[i])) {
      LegacyRoundTrip(items[i]);
    }
  }

  /** Equal legacy bytes mean exactly equality after stripping. */
  lemma {:induction false} LegacyKernel(v: Value, w: Value)
    ensures LegacyText(v) == LegacyText(w) <==> Strip(v) == Strip(w)
  {
    LegacyIsPrintOfStrip(v);
    LegacyIsPrintOfStrip(w);
    LegacyRoundTrip(v);
    LegacyRoundTrip(w);
  }

  /** The two serializers agree on the stripped value exactly when it has no unpaired surrogate. */
  lemma {:induction false} LegacyVersusJcs(v: Value)
    ensures CanonicalJcs.Jcs(Strip(v)) == Ok(LegacyText(v)) <==> !HasLoneSurrogate(Strip(v))
  {
    LegacyIsPrintOfStrip(v);
    StripHasNoUndefined(v);
  }

  /** Hashing and signing encode the text as UTF-8; no unpaired surrogate is ever left in it. */
  lemma {:induction false} LegacyWellFormed(v: Value)
    ensures WellFormed(LegacyText(v))
  {
    LegacyIsPrintOfStrip(v);
    CanonicalJcs.PrintWellFormed(Strip(v));
  }

  /** What canonicalizeForWrite returns for a tree (see LegacyHeap.CanonicalizeForWriteRoot). */
  function LegacyForWrite(v: Value): Result<Str> {
    if HasUnsafeInteger(v) then Err(UnsafeInteger) else Ok(LegacyText(v))
  }
}
