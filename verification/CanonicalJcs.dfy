/**
  The RFC 8785 serializer of src/core/canonical-jcs.ts, its single-pass write
  twin, and the independent string printer of the revocation fixtures.
 */
module CanonicalJcs {
  import opened Text
  import opened Json
  import opened JsonText

  /** What canonicalizeJCS returns: undefined is looked for first, over the whole value. */
  function Jcs(v: Value): Result<Str> {
    if HasUndefined(v) then Err(UndefinedValue)
    else if HasLoneSurrogate(v) then Err(LoneSurrogate)
    else Ok(Print(v))
  }

  /** `e` names a defect that `v` really has; unsafe integers are defects only when writing. */
  predicate Blames(v: Value, e: Error, write: bool) {
    match e
    case UndefinedValue => HasUndefined(v)
    case LoneSurrogate => HasLoneSurrogate(v)
    case UnsafeInteger => write && HasUnsafeInteger(v)
    case _ => false
  }

  /** Free of every defect that the emitter refuses. */
  predicate Emittable(v: Value, write: bool) {
    match v
    case Undefined => false
    case Num(n) => !(write && IsUnsafeWriteInteger(n))
    case String(s) => WellFormed(s)
    case Arr(items) => forall i | 0 <= i < |items| :: Emittable(items[i], write)
    case Obj(m) => forall k | k in m :: WellFormed(k) && Emittable(m[k], write)
    case _ => true
  }

  lemma {:induction false} EmittableMeans(v: Value, write: bool)
    ensures Emittable(v, write) <==> !HasUndefined(v) && !HasLoneSurrogate(v) && !(write && HasUnsafeInteger(v))
    decreases v
  {
    match v
    case Arr(items) =>
      forall i | 0 <= i < |items| { EmittableMeans(items[i], write); }
    case Obj(m) =>
      forall k | k in m { EmittableMeans(m[k], write); }
    case _ =>
  }

  /** A well-formed prefix grows by a pair, or by a unit that is no surrogate. */
  lemma {:induction false} PairedUpTo(s: Str, i: nat, k: nat)
    requires i + k <= |s| && WellFormed(s[..i])
    requires (k == 1 && !High(s[i]) && !Low(s[i])) || (k == 2 && High(s[i]) && Low(s[i + 1]))
    ensures WellFormed(s[..i + k])
  {
    assert s[..i + k] == s[..i] + s[i..i + k];
    if k == 2 { assert s[i..i + k] == [s[i], s[i + 1]]; WellFormedPair(s[i], s[i + 1]); }
    WellFormedConcat(s[..i], s[i..i + k]);
  }

  /** After a well-formed prefix, a low surrogate or an unfollowed high one is unpaired. */
  lemma {:induction false} LoneAt(s: Str, i: nat)
    requires i < |s| && WellFormed(s[..i])
    requires Low(s[i]) || (High(s[i]) && (i + 1 == |s| || !Low(s[i + 1])))
    ensures !WellFormed(s)
  {
    if Low(s[i]) {
      WellFormedTail(s, i);
      assert !PairedAt(s[i..], 0);
    } else {
      assert !PairedAt(s, i);
    }
  }

  method NoLoneSurrogate(s: Str) returns (ok: bool)
    ensures ok <==> WellFormed(s)
  {
    var i := 0;
    while i < |s|
      invariant 0 <= i <= |s|
      invariant WellFormed(s[..i])
    {
      if High(s[i]) {
        if i + 1 < |s| && Low(s[i + 1]) {
          PairedUpTo(s, i, 2);
          i := i + 2;
          continue;
        }
        LoneAt(s, i);
        return false;
      }
      if Low(s[i]) {
        LoneAt(s, i);
        return false;
      }
      PairedUpTo(s, i, 1);
      i := i + 1;
    }
    assert s[..|s|] == s;
    return true;
  }

  /** The whole-value walk; the order in which an object's keys come up does not matter. */
  method NoUndefined(v: Value) returns (ok: bool)
    ensures ok <==> !HasUndefined(v)
    decreases v
  {
    match v
    case Undefined => return false;
    case Arr(items) =>
      for i := 0 to |items|
        invariant forall j | 0 <= j < i :: !HasUndefined(items[j])
      {
        var inner := NoUndefined(items[i]);
        if !inner { return false; }
      }
      return true;
    case Obj(m) =>
      var todo := m.Keys;
      while todo != {}
        invariant todo <= m.Keys
        invariant forall k | k in m && k !in todo :: !HasUndefined(m[k])
        decreases |todo|
      {
        var k :| k in todo;
        var inner := NoUndefined(m[k]);
        if !inner { return false; }
        todo := todo - {k};
      }
      return true;
    case _ => return true;
  }

  /** The emitter; `write` is the write path, which also refuses unsafe integers. */
  method CanonicalizeValue(v: Value, write: bool) returns (r: Result<Str>)
    ensures r.Ok? <==> Emittable(v, write)
    ensures r.Ok? ==> r.value == Print(v)
    ensures r.Err? ==> Blames(v, r.error, write)
    decreases v
  {
    match v
    case Null => return Ok(NULL);
    case Undefined => return Err(UndefinedValue);
    case Bool(b) => return Ok(if b then TRUE else FALSE);
    case Num(n) =>
      if write && IsUnsafeWriteInteger(n) { return Err(UnsafeInteger); }
      return Ok(PrintInt(n));
    case String(s) =>
      var paired := NoLoneSurrogate(s);
      if !paired { return Err(LoneSurrogate); }
      return Ok(Stringify(s));
    case Arr(items) => r := CanonicalizeItems(items, write);
    case Obj(m) => r := CanonicalizeMembers(v, write);
  }

  method CanonicalizeItems(items: seq<Value>, write: bool) returns (r: Result<Str>)
    ensures r.Ok? <==> Emittable(Arr(items), write)
    ensures r.Ok? ==> r.value == Print(Arr(items))
    ensures r.Err? ==> Blames(Arr(items), r.error, write)
    decreases items, 0
  {
    var parts: seq<Str> := [];
    for i := 0 to |items|
      invariant |parts| == i && forall j | 0 <= j < i :: parts[j] == Print(items[j])
      invariant forall j | 0 <= j < i :: Emittable(items[j], write)
    {
      var part := CanonicalizeValue(items[i], write);
      if part.Err? { return part; }
      parts := parts + [part.value];
    }
    PrintArr(items);
    assert parts == ItemTexts(items);
    return Ok([LBRACKET] + Join(parts, [COMMA]) + [RBRACKET]);
  }

  predicate MemberEmittable(v: Value, key: Str, write: bool)
    requires v.Obj? && key in v.members
  {
    WellFormed(key) && Emittable(v.members[key], write)
  }

  /** `"key":value` for one member, or the first defect found in it. */
  method CanonicalizePair(v: Value, key: Str, write: bool) returns (r: Result<Str>)
    requires v.Obj? && key in v.members
    ensures r.Ok? <==> MemberEmittable(v, key, write)
    ensures r.Ok? ==> r.value == MemberText(v.members, key)
    ensures r.Err? ==> Blames(v, r.error, write)
    decreases v, 0
  {
    var paired := NoLoneSurrogate(key);
    if !paired { return Err(LoneSurrogate); }
    var val := CanonicalizeValue(v.members[key], write);
    if val.Err? { return val; }
    return Ok(Stringify(key) + [COLON] + val.value);
  }

  /** The loop over the sorted keys; it stops at the first defect. */
  method CanonicalizePairs(v: Value, write: bool) returns (r: Result<seq<Str>>)
    requires v.Obj?
    ensures r.Ok? ==> r.value == MemberTexts(v.members, Keys(v.members))
    ensures r.Ok? ==> forall i | 0 <= i < |Keys(v.members)| :: MemberEmittable(v, Keys(v.members)[i], write)
    ensures r.Err? ==> Blames(v, r.error, write) && exists k | k in v.members :: !MemberEmittable(v, k, write)
    decreases v, 1
  {
    var keys := Keys(v.members);
    var pairs: seq<Str> := [];
    for i := 0 to |keys|
      invariant |pairs| == i && forall j | 0 <= j < i :: pairs[j] == MemberText(v.members, keys[j])
      invariant forall j | 0 <= j < i :: MemberEmittable(v, keys[j], write)
    {
      var pair := CanonicalizePair(v, keys[i], write);
      if pair.Err? { return Err(pair.error); }
      pairs := pairs + [pair.value];
    }
    return Ok(pairs);
  }

  method CanonicalizeMembers(v: Value, write: bool) returns (r: Result<Str>)
    requires v.Obj?
    ensures r.Ok? <==> Emittable(v, write)
    ensures r.Ok? ==> r.value == Print(v)
    ensures r.Err? ==> Blames(v, r.error, write)
    decreases v, 2
  {
    var pairs := CanonicalizePairs(v, write);
    if pairs.Err? { return Err(pairs.error); }
    forall k | k in v.members ensures MemberEmittable(v, k, write) { var i := KeyIndex(v.members.Keys, k); }
    PrintObj(v.members);
    return Ok([LBRACE] + Join(pairs.value, [COMMA]) + [RBRACE]);
  }

  method CanonicalizeJCS(v: Value) returns (r: Result<Str>)
    ensures r == Jcs(v)
  {
    var defined := NoUndefined(v);
    if !defined { return Err(UndefinedValue); }
    EmittableMeans(v, false);
    r := CanonicalizeValue(v, false);
  }

  /** The write twin: the read twin's bytes, refusing beyond it exactly the unsafe integers. */
  method CanonicalizeJCSForWrite(v: Value) returns (r: Result<Str>)
    ensures r.Ok? <==> Jcs(v).Ok? && !HasUnsafeInteger(v)
    ensures r.Ok? ==> r == Jcs(v)
    ensures r.Err? ==> Blames(v, r.error, true)
  {
    EmittableMeans(v, true);
    EmittableMeans(v, false);
    r := CanonicalizeValue(v, true);
  }

  /** An undefined anywhere is reported first, then a lone surrogate anywhere; any other value prints. */
  lemma {:induction false} JcsMeans(v: Value)
    ensures Jcs(v) == if Within(Undefined, v) then Err(UndefinedValue)
                      else if LoneWithin(v) then Err(LoneSurrogate) else Ok(Print(v))
  {
    UndefinedWithin(v);
    LoneSurrogateWithin(v);
    hide Within;
    hide LoneWithin;
  }

  /** Equal bytes mean equal values. */
  lemma {:induction false} JcsInjective(v: Value, w: Value)
    requires Jcs(v).Ok? && Jcs(v) == Jcs(w)
    ensures v == w
  {
    PrintInjective(v, w);
  }

  /** A payload survives "parse, canonicalize, compare" exactly when some value canonicalizes to it. */
  lemma {:induction false} PayloadCheck(payload: Str)
    ensures (Parse(payload).Ok? && Jcs(Parse(payload).value) == Ok(payload))
            <==> exists v :: Jcs(v) == Ok(payload)
    ensures forall v | Jcs(v) == Ok(payload) :: Parse(payload) == Ok(v)
  {
    forall v | Jcs(v) == Ok(payload) ensures Parse(payload) == Ok(v) {
      RoundTrip(v);
    }
  }

  // --- Canonical text always has a UTF-8 encoding ----------------------------

  lemma {:induction false} JoinWellFormed(parts: seq<Str>)
    requires forall i | 0 <= i < |parts| :: WellFormed(parts[i])
    ensures WellFormed(Join(parts, [COMMA]))
  {
    if |parts| < 2 {
    } else {
      JoinWellFormed(parts[1..]);
      WellFormedConcat(parts[0], [COMMA]);
      WellFormedConcat(parts[0] + [COMMA], Join(parts[1..], [COMMA]));
    }
  }

  lemma {:induction false} BracketWellFormed(open: Unit, s: Str, close: Unit)
    requires WellFormed(s) && open < 0x80 && close < 0x80
    ensures WellFormed([open] + s + [close])
  {
    WellFormedConcat([open], s);
    WellFormedConcat([open] + s, [close]);
  }

  /** No unpaired surrogate reaches the hash or the signature, even for values that hold one. */
  lemma {:induction false} PrintWellFormed(v: Value)
    ensures WellFormed(Print(v))
    decreases v
  {
    match v
    case String(s) =>
      StringifyWellFormed(s);
      BracketWellFormed(QUOTE, Escaped(s), QUOTE);
    case Arr(items) =>
      forall i | 0 <= i < |items| ensures WellFormed(ItemTexts(items)[i]) { PrintWellFormed(items[i]); }
      JoinWellFormed(ItemTexts(items));
      BracketWellFormed(LBRACKET, Join(ItemTexts(items), [COMMA]), RBRACKET);
      PrintArr(items);
    case Obj(m) =>
      var keys := Keys(m);
      forall i | 0 <= i < |keys| ensures WellFormed(MemberTexts(m, keys)[i]) {
        PrintWellFormed(m[keys[i]]);
        StringifyWellFormed(keys[i]);
        BracketWellFormed(QUOTE, Escaped(keys[i]), QUOTE);
        WellFormedConcat(Stringify(keys[i]), [COLON]);
        WellFormedConcat(Stringify(keys[i]) + [COLON], Print(m[keys[i]]));
      }
      JoinWellFormed(MemberTexts(m, keys));
      BracketWellFormed(LBRACE, Join(MemberTexts(m, keys), [COMMA]), RBRACE);
      PrintObj(m);
    case _ =>
  }

  // --- The independent printer of the fixtures -------------------------------

  /** The chain of escapes in section 3.2.2.2 of RFC 8785. */
  function Spelled(code: Unit): Str {
    if code == 0x22 then [0x5C, 0x22]
    else if code == 0x5C then [0x5C, 0x5C]
    else if code == 0x08 then [0x5C, 0x62]
    else if code == 0x0C then [0x5C, 0x66]
    else if code == 0x0A then [0x5C, 0x6E]
    else if code == 0x0D then [0x5C, 0x72]
    else if code == 0x09 then [0x5C, 0x74]
    else if code < 0x20 then [0x5C, 0x75] + Hex4(code)
    else [code]
  }

  lemma {:induction false} SpelledIsEscape(code: Unit)
    requires !High(code) && !Low(code)
    ensures Spelled(code) == EscapeUnit(code)
  {
  }

  lemma {:induction false} EscapedFrom(s: Str, i: nat)
    requires i < |s|
    ensures if High(s[i]) && i + 1 < |s| && Low(s[i + 1])
            then Escaped(s[i..]) == [s[i], s[i + 1]] + Escaped(s[i + 2..])
            else Escaped(s[i..]) == EscapeUnit(s[i]) + Escaped(s[i + 1..])
  {
    var rest := s[i..];
    assert rest[0] == s[i] && rest[1..] == s[i + 1..];
    if High(s[i]) && i + 1 < |s| && Low(s[i + 1]) {
      assert rest[..2] == [s[i], s[i + 1]] && rest[2..] == s[i + 2..];
    }
  }

  /** Printing refuses unpaired surrogates and otherwise quotes as `JSON.stringify` does. */
  method JcsString(value: Str) returns (r: Result<Str>)
    ensures r == if WellFormed(value) then Ok(Stringify(value)) else Err(LoneSurrogate)
  {
    var out: Str := [QUOTE];
    var i := 0;
    while i < |value|
      invariant 0 <= i <= |value|
      invariant WellFormed(value[..i])
      invariant out + Escaped(value[i..]) == [QUOTE] + Escaped(value)
    {
      var code := value[i];
      EscapedFrom(value, i);
      if High(code) {
        if i + 1 >= |value| || !Low(value[i + 1]) {
          LoneAt(value, i);
          return Err(LoneSurrogate);
        }
        PairedUpTo(value, i, 2);
        assert out + ([value[i], value[i + 1]] + Escaped(value[i + 2..]))
               == out + [value[i], value[i + 1]] + Escaped(value[i + 2..]);
        out := out + [value[i], value[i + 1]];
        i := i + 2;
      } else if Low(code) {
        LoneAt(value, i);
        return Err(LoneSurrogate);
      } else {
        SpelledIsEscape(code);
        PairedUpTo(value, i, 1);
        assert out + (Spelled(code) + Escaped(value[i + 1..])) == out + Spelled(code) + Escaped(value[i + 1..]);
        out := out + Spelled(code);
        i := i + 1;
      }
    }
    assert value[..i] == value && value[i..] == [];
    assert out == [QUOTE] + Escaped(value);
    return Ok(out + [QUOTE]);
  }

  /** Objects whose members are all strings. */
  predicate FlatStrings(m: map<Str, Value>) {
    forall k | k in m :: m[k].String?
  }

  predicate PlainMember(k: Str, v: Value) {
    WellFormed(k) && v.String? && WellFormed(v.s)
  }

  lemma {:induction false} FlatJcs(m: map<Str, Value>)
    ensures FlatStrings(m) && Jcs(Obj(m)).Ok? <==> forall k | k in m :: PlainMember(k, m[k])
  {
    EmittableMeans(Obj(m), false);
    if FlatStrings(m) && Jcs(Obj(m)).Ok? {
      forall k | k in m ensures PlainMember(k, m[k]) { assert Emittable(m[k], false); }
    }
    if forall k | k in m :: PlainMember(k, m[k]) {
      forall k | k in m ensures WellFormed(k) && Emittable(m[k], false) { assert PlainMember(k, m[k]); }
    }
  }

  lemma {:induction false} PlainMemberText(m: map<Str, Value>, k: Str)
    requires k in m && PlainMember(k, m[k])
    ensures MemberText(m, k) == Stringify(k) + [COLON] + Stringify(m[k].s)
  {
  }

  /** One member of a flat string object. */
  method JcsPair(k: Str, v: Value) returns (r: Result<Str>)
    ensures r.Ok? <==> PlainMember(k, v)
    ensures r.Ok? ==> r.value == Stringify(k) + [COLON] + Stringify(v.s)
  {
    if !v.String? { return Err(NotAString); }
    var key := JcsString(k);
    if key.Err? { return key; }
    var text := JcsString(v.s);
    if text.Err? { return text; }
    return Ok(key.value + [COLON] + text.value);
  }

  /** On flat string objects the independent printer agrees with the serializer, and refuses all others. */
  method JcsStringOnlyObject(m: map<Str, Value>) returns (r: Result<Str>)
    ensures r.Ok? <==> FlatStrings(m) && Jcs(Obj(m)).Ok?
    ensures r.Ok? ==> r == Jcs(Obj(m))
  {
    hide PlainMember;
    hide Escaped;
    hide Emittable;
    hide Print;
    FlatJcs(m);
    var keys := Keys(m);
    var pairs: seq<Str> := [];
    for i := 0 to |keys|
      invariant |pairs| == i && forall j | 0 <= j < i :: pairs[j] == MemberText(m, keys[j])
      invariant forall j | 0 <= j < i :: PlainMember(keys[j], m[keys[j]])
    {
      var pair := JcsPair(keys[i], m[keys[i]]);
      if pair.Err? { return pair; }
      assert MemberText(m, keys[i]) == pair.value by { PlainMemberText(m, keys[i]); }
      pairs := pairs + [pair.value];
    }
    PrintObj(m);
    assert pairs == MemberTexts(m, keys);
    forall k | k in m ensures PlainMember(k, m[k]) { var i := KeyIndex(m.Keys, k); }
    return Ok([LBRACE] + Join(pairs, [COMMA]) + [RBRACE]);
  }
}
