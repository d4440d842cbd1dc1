/**
  src/core/action-ref.ts: scopes in code-point order and the content-addressed
  identity of a request.
 */
module ActionRef {
  import opened Text
  import opened Json
  import opened Hashing
  import JsonText
  import CanonicalJcs

  // --- Code points -----------------------------------------------------------

  predicate PairAt(s: Str, i: nat) { i + 1 < |s| && High(s[i]) && Low(s[i + 1]) }

  /** `s.codePointAt(i)`: a surrogate pair is one code point, anything else is its own unit. */
  function CodePointAt(s: Str, i: nat): int
    requires i < |s|
  {
    var unit: int := s[i];
    if PairAt(s, i) then
      var next: int := s[i + 1];
      0x10000 + (unit - 0xD800) * 0x400 + (next - 0xDC00)
    else unit
  }

  function Width(cp: int): nat { if cp > 0xFFFF then 2 else 1 }

  /** The code points of a string, read left to right. */
  function Decode(s: Str): seq<int>
    decreases |s|
  {
    if s == [] then []
    else [CodePointAt(s, 0)] + Decode(s[Width(CodePointAt(s, 0))..])
  }

  /** The UTF-16 form of a code point, section 2.1 of RFC 2781. */
  function Encode(cp: int): Str
    requires 0 <= cp <= 0x10FFFF
  {
    if cp < 0x10000 then [cp] else [0xD800 + (cp - 0x10000) / 0x400, 0xDC00 + (cp - 0x10000) % 0x400]
  }

  /** Every code point reads back as itself. */
  lemma {:induction false} DecodeEncode(cp: int)
    requires 0 <= cp <= 0x10FFFF
    ensures Decode(Encode(cp)) == [cp]
  {
    var s := Encode(cp);
    if cp >= 0x10000 {
      var x := cp - 0x10000;
      assert x == x / 0x400 * 0x400 + x % 0x400 && 0 <= x / 0x400 < 0x400;
      assert PairAt(s, 0) && CodePointAt(s, 0) == cp;
      assert s[2..] == [];
    } else {
      assert s[1..] == [];
    }
  }

  /** Characters outside the basic plane come after all others, unlike in code-unit order. */
  lemma {:induction false} AstralComesLast(a: Str, b: Str)
    requires PairAt(a, 0) && b != [] && !PairAt(b, 0)
    ensures CodePointLt(b, a)
  {
    assert CodePointAt(a, 0) >= 0x10000 > CodePointAt(b, 0);
  }

  predicate CodePointLe(a: Str, b: Str) { LexLe(Decode(a), Decode(b)) }

  predicate CodePointLt(a: Str, b: Str) { CodePointLe(a, b) && a != b }

  /** A code point determines the units it was read from. */
  lemma {:induction false} FirstUnits(a: Str, b: Str)
    requires a != [] && b != [] && CodePointAt(a, 0) == CodePointAt(b, 0)
    ensures var w := Width(CodePointAt(a, 0)); w <= |a| && w <= |b| && a[..w] == b[..w]
  {
    if PairAt(a, 0) {
      assert PairAt(b, 0);
      var x: int, y: int := a[0] - 0xD800, b[0] - 0xD800;
      var u: int, v: int := a[1] - 0xDC00, b[1] - 0xDC00;
      assert x * 0x400 + u == y * 0x400 + v && 0 <= u < 0x400 && 0 <= v < 0x400;
      assert x == y && u == v;
      assert a[..2] == [a[0], a[1]] && b[..2] == [b[0], b[1]];
    } else {
      assert a[..1] == [a[0]] && b[..1] == [b[0]];
    }
  }

  /** Distinct strings, paired surrogates or not, have distinct code points. */
  lemma {:induction false} DecodeInjective(a: Str, b: Str)
    requires Decode(a) == Decode(b)
    ensures a == b
    decreases |a|
  {
    if a == [] || b == [] {
    } else {
      assert Decode(a)[0] == CodePointAt(a, 0) && Decode(b)[0] == CodePointAt(b, 0);
      FirstUnits(a, b);
      var w := Width(CodePointAt(a, 0));
      assert Decode(a)[1..] == Decode(a[w..]) && Decode(b)[1..] == Decode(b[w..]);
      DecodeInjective(a[w..], b[w..]);
      assert a == a[..w] + a[w..] && b == b[..w] + b[w..];
    }
  }

  lemma {:induction false} CodePointTotalOrder()
    ensures TotalOrder(CodePointLe)
  {
    forall x: Str, y: Str ensures CodePointLe(x, y) || CodePointLe(y, x) { LexTotal(Decode(x), Decode(y)); }
    forall x: Str, y: Str | CodePointLe(x, y) && CodePointLe(y, x) ensures x == y {
      LexAntisymmetric(Decode(x), Decode(y));
      DecodeInjective(x, y);
    }
    forall x: Str, y: Str, z: Str | CodePointLe(x, y) && CodePointLe(y, z) ensures CodePointLe(x, z) {
      LexTransitive(Decode(x), Decode(y), Decode(z));
    }
  }

  /** Comparing from a common prefix on. */
  lemma {:induction false} DecodeStep(s: Str, i: nat)
    requires i < |s|
    ensures var w := Width(CodePointAt(s, i));
            i + w <= |s| && Decode(s[i..]) == [CodePointAt(s, i)] + Decode(s[i + w..])
  {
    var rest, w := s[i..], Width(CodePointAt(s, i));
    assert PairAt(rest, 0) <==> PairAt(s, i);
    assert CodePointAt(rest, 0) == CodePointAt(s, i);
    assert rest[w..] == s[i + w..];
  }

  /** Negative, zero or positive as `a` comes before, is, or comes after `b` in code-point order. */
  method CompareCodePoints(a: Str, b: Str) returns (r: int)
    ensures r < 0 <==> CodePointLt(a, b)
    ensures r == 0 <==> a == b
    ensures r > 0 <==> CodePointLt(b, a)
  {
    CodePointTotalOrder();
    var i, j := 0, 0;
    assert a[0..] == a && b[0..] == b;
    while i < |a| && j < |b|
      invariant 0 <= i <= |a| && 0 <= j <= |b|
      invariant i == j && a[..i] == b[..j]
      invariant CodePointLe(a, b) <==> LexLe(Decode(a[i..]), Decode(b[j..]))
      decreases |a| - i
    {
      var ca, cb := CodePointAt(a, i), CodePointAt(b, j);
      DecodeStep(a, i);
      DecodeStep(b, j);
      if ca != cb {
        FirstPointDecides(a, b, i, ca, cb);
        return ca - cb;
      }
      SamePointAdvances(a, b, i);
      i := i + if ca > 0xFFFF then 2 else 1;
      j := j + if cb > 0xFFFF then 2 else 1;
    }
    ExhaustedDecides(a, b, i);
    return (|a| - i) - (|b| - j);
  }

  lemma {:induction false} FirstPointDecides(a: Str, b: Str, i: nat, ca: int, cb: int)
    requires i < |a| && i < |b| && a[..i] == b[..i]
    requires ca == CodePointAt(a, i) && cb == CodePointAt(b, i) && ca != cb
    requires CodePointLe(a, b) <==> LexLe(Decode(a[i..]), Decode(b[i..]))
    ensures a != b && (CodePointLe(a, b) <==> ca < cb)
  {
    DecodeStep(a, i);
    DecodeStep(b, i);
  }

  lemma {:induction false} SamePointAdvances(a: Str, b: Str, i: nat)
    requires i < |a| && i < |b| && a[..i] == b[..i]
    requires CodePointAt(a, i) == CodePointAt(b, i)
    ensures var n := i + Width(CodePointAt(a, i));
            && n <= |a| && n <= |b| && a[..n] == b[..n]
            && (LexLe(Decode(a[i..]), Decode(b[i..])) <==> LexLe(Decode(a[n..]), Decode(b[n..])))
  {
    var w := Width(CodePointAt(a, i));
    DecodeStep(a, i);
    DecodeStep(b, i);
    assert PairAt(a[i..], 0) == PairAt(a, i) && PairAt(b[i..], 0) == PairAt(b, i);
    FirstUnits(a[i..], b[i..]);
    assert a[..i + w] == a[..i] + a[i..][..w] && b[..i + w] == b[..i] + b[i..][..w];
    var da, db := Decode(a[i..]), Decode(b[i..]);
    assert da[1..] == Decode(a[i + w..]) && db[1..] == Decode(b[i + w..]);
  }

  lemma {:induction false} ExhaustedDecides(a: Str, b: Str, i: nat)
    requires i <= |a| && i <= |b| && (i == |a| || i == |b|) && a[..i] == b[..i]
    requires CodePointLe(a, b) <==> LexLe(Decode(a[i..]), Decode(b[i..]))
    ensures a == b <==> |a| == |b|
    ensures CodePointLe(a, b) <==> |a| <= |b|
  {
    assert a == a[..i] + a[i..] && b == b[..i] + b[i..];
    if i < |a| { DecodeStep(a, i); }
  }

  // --- Scopes ----------------------------------------------------------------

  type Normalizer = Str -> Str

  function Normalized(nfc: Normalizer, scope: seq<Str>): seq<Str> {
    seq(|scope|, i requires 0 <= i < |scope| => nfc(scope[i]))
  }

  predicate HasDuplicate(xs: seq<Str>) {
    exists i, j | 0 <= i < j < |xs| :: xs[i] == xs[j]
  }

  /** Normalizing, refusing duplicates and sorting; the result is strictly ascending in code-point order. */
  method CanonicalizeScopeRequired(nfc: Normalizer, scope: seq<Str>) returns (r: Option<seq<Str>>)
    ensures r == CanonicalScope(nfc, scope)
    ensures r.None? <==> HasDuplicate(Normalized(nfc, scope))
    ensures r.Some? ==> StrictlyBy(r.value, CodePointLt) && multiset(r.value) == multiset(Normalized(nfc, scope))
  {
    var normalized := Normalized(nfc, scope);
    var seen: set<Str> := {};
    for i := 0 to |normalized|
      invariant forall x :: x in seen <==> exists j | 0 <= j < i :: normalized[j] == x
      invariant forall j, k | 0 <= j < k < i :: normalized[j] != normalized[k]
    {
      if normalized[i] in seen { return None; }
      seen := seen + {normalized[i]};
    }
    SortedScope(normalized);
    return Some(SortBy(normalized, CodePointLe));
  }

  function CanonicalScope(nfc: Normalizer, scope: seq<Str>): Option<seq<Str>> {
    var normalized := Normalized(nfc, scope);
    if HasDuplicate(normalized) then None else Some(SortBy(normalized, CodePointLe))
  }

  /** Equal multisets repeat elements alike. */
  lemma {:induction false} DuplicateMeansTwice(xs: seq<Str>, i: nat, j: nat)
    requires i < j < |xs| && xs[i] == xs[j]
    ensures multiset(xs)[xs[i]] >= 2
  {
    assert xs == xs[..j] + [xs[j]] + xs[j + 1..];
    assert xs[..j][i] == xs[i];
    assert xs[i] in multiset(xs[..j]);
  }

  lemma {:induction false} TwiceMeansDuplicate(xs: seq<Str>, x: Str)
    requires multiset(xs)[x] >= 2
    ensures HasDuplicate(xs)
  {
    assert x in multiset(xs);
    var j :| 0 <= j < |xs| && xs[j] == x;
    assert xs == xs[..j] + [xs[j]] + xs[j + 1..];
    assert x in multiset(xs[..j]) || x in multiset(xs[j + 1..]);
    if x in multiset(xs[..j]) {
      var i :| 0 <= i < j && xs[..j][i] == x;
      assert xs[i] == xs[j];
    } else {
      var i :| 0 <= i < |xs[j + 1..]| && xs[j + 1..][i] == x;
      assert xs[j] == xs[j + 1 + i];
    }
  }

  lemma {:induction false} SortedScope(xs: seq<Str>)
    requires !HasDuplicate(xs)
    ensures StrictlyBy(SortBy(xs, CodePointLe), CodePointLt)
    ensures multiset(SortBy(xs, CodePointLe)) == multiset(xs)
  {
    hide CodePointLe;
    CodePointTotalOrder();
    SortByCorrect(xs, CodePointLe);
    var sorted := SortBy(xs, CodePointLe);
    forall i, j | 0 <= i < j < |sorted| ensures CodePointLt(sorted[i], sorted[j]) {
      if sorted[i] == sorted[j] {
        DuplicateMeansTwice(sorted, i, j);
        TwiceMeansDuplicate(xs, sorted[i]);
      }
    }
  }

  /** Two accepted lists canonicalize alike exactly when their normalized scopes are permutations of each other. */
  lemma {:induction false} SameScopeIffPermutation(nfc: Normalizer, s: seq<Str>, t: seq<Str>)
    requires CanonicalScope(nfc, s).Some? && CanonicalScope(nfc, t).Some?
    ensures CanonicalScope(nfc, s) == CanonicalScope(nfc, t) <==>
            multiset(Normalized(nfc, s)) == multiset(Normalized(nfc, t))
  {
    hide CodePointLe;
    CodePointTotalOrder();
    SortByPermutation(Normalized(nfc, s), Normalized(nfc, t), CodePointLe);
  }

  // --- The identity of a request ---------------------------------------------

  const AGENT_ID: Str := Ascii("agentId")
  const ACTION_TYPE: Str := Ascii("actionType")
  const SCOPE_REQUIRED: Str := Ascii("scopeRequired")
  const TIMESTAMP: Str := Ascii("timestamp")

  /** Neither a string nor an array of strings; such values pass through unchanged. */
  type OtherShape = v: Value |
    !v.String? && !(v.Arr? && forall i | 0 <= i < |v.items| :: v.items[i].String?) witness Null
  datatype Scope = One(s: Str) | Many(scopes: seq<Str>) | Other(v: OtherShape)

  /** `timestamp` is the already normalized time. */
  datatype Intent = Intent(agentId: Str, actionType: Str, scope: Scope, timestamp: Str)

  /** What canonicalizeScopeRequired gives for any shape; None when it rejects duplicates. */
  function ScopeValue(nfc: Normalizer, scope: Scope): Option<Value> {
    match scope
    case One(s) => Some(String(nfc(s)))
    case Many(scopes) =>
      var canonical := CanonicalScope(nfc, scopes);
      if canonical.None? then None else Some(Strings(canonical.value))
    case Other(v) => (var w: Value := v; Some(w))
  }

  function IntentValue(i: Intent, scope: Value): Value {
    Obj(map[AGENT_ID := String(i.agentId), ACTION_TYPE := String(i.actionType),
            SCOPE_REQUIRED := scope, TIMESTAMP := String(i.timestamp)])
  }

  /** The text that is hashed, when there is one. */
  function Preimage(nfc: Normalizer, i: Intent): Option<Str> {
    var scope := ScopeValue(nfc, i.scope);
    if scope.None? then None
    else
      var text := CanonicalJcs.Jcs(IntentValue(i, scope.value));
      if text.Err? then None else Some(text.value)
  }

  function ActionRefOf(h: Hash, nfc: Normalizer, i: Intent): Option<Digest> {
    var text := Preimage(nfc, i);
    if text.None? then None else Some(h(text.value))
  }

  /** The same scopes once normalized, whatever their order. */
  ghost predicate SameScope(nfc: Normalizer, s: Scope, t: Scope) {
    match (s, t)
    case (One(a), One(b)) => nfc(a) == nfc(b)
    case (Many(xs), Many(ys)) => multiset(Normalized(nfc, xs)) == multiset(Normalized(nfc, ys))
    case (Other(v), Other(w)) => v == w
    case _ => false
  }

  ghost predicate SameRequest(nfc: Normalizer, i: Intent, j: Intent) {
    && i.agentId == j.agentId && i.actionType == j.actionType && i.timestamp == j.timestamp
    && SameScope(nfc, i.scope, j.scope)
  }

  lemma {:induction false} ScopeValueBinds(nfc: Normalizer, s: Scope, t: Scope)
    requires ScopeValue(nfc, s).Some? && ScopeValue(nfc, s) == ScopeValue(nfc, t)
    ensures SameScope(nfc, s, t)
  {
    hide CodePointLe;
    match (s, t)
    case (Many(xs), Many(ys)) =>
      StringsInjective(CanonicalScope(nfc, xs).value, CanonicalScope(nfc, ys).value);
      SameScopeIffPermutation(nfc, xs, ys);
    case _ =>
  }

  lemma {:induction false} IntentValueInjective(i: Intent, j: Intent, s: Value, t: Value)
    requires IntentValue(i, s) == IntentValue(j, t)
    ensures i.agentId == j.agentId && i.actionType == j.actionType && i.timestamp == j.timestamp && s == t
  {
    assert |AGENT_ID| != |ACTION_TYPE|;
    var m, n := IntentValue(i, s).members, IntentValue(j, t).members;
    assert m[AGENT_ID] == n[AGENT_ID] && m[ACTION_TYPE] == n[ACTION_TYPE] && m[TIMESTAMP] == n[TIMESTAMP];
    assert m[SCOPE_REQUIRED] == n[SCOPE_REQUIRED];
  }

  /** None of the code points is a surrogate. */
  ghost predicate AllScalar(cps: seq<int>) {
    forall i | 0 <= i < |cps| :: !(0xD800 <= cps[i] < 0xE000)
  }

  lemma {:induction false} AllScalarCons(cp: int, rest: seq<int>)
    ensures AllScalar([cp] + rest) <==> !(0xD800 <= cp < 0xE000) && AllScalar(rest)
  {
    var all := [cp] + rest;
    assert all[0] == cp && forall i | 0 <= i < |rest| :: all[i + 1] == rest[i];
  }

  /** A string has a UTF-8 encoding exactly when no code point in it is a surrogate. */
  lemma {:induction false} WellFormedMeans(s: Str)
    ensures WellFormed(s) <==> AllScalar(Decode(s))
    decreases |s|
  {
    if s == [] {
    } else {
      var k := Width(CodePointAt(s, 0));
      WellFormedMeans(s[k..]);
      AllScalarCons(CodePointAt(s, 0), Decode(s[k..]));
      hide AllScalar;
      if PairAt(s, 0) {
        assert s[..2] == [s[0], s[1]];
        WellFormedPair(s[0], s[1]);
        WellFormedTail(s, 2);
      } else if High(s[0]) || Low(s[0]) {
        assert !PairedAt(s, 0);
      } else {
        assert WellFormed(s[..1]);
        WellFormedTail(s, 1);
      }
    }
  }

  /** What the scope member holds: the normalized string; the normalized strings in ascending order of code points; or
      the value as given. */
  ghost predicate ScopeHeld(nfc: Normalizer, scope: Scope, v: Value) {
    match scope
    case One(s) => v == String(nfc(s))
    case Many(scopes) =>
      exists ys | multiset(ys) == multiset(Normalized(nfc, scopes)) :: StrictlyBy(ys, CodePointLt) && v == Strings(ys)
    case Other(w) => v == w
  }

  lemma {:induction false} ScopeValueHeld(nfc: Normalizer, scope: Scope)
    requires ScopeValue(nfc, scope).Some?
    ensures ScopeHeld(nfc, scope, ScopeValue(nfc, scope).value)
  {
    hide CodePointLe;
    if scope.Many? { SortedScope(Normalized(nfc, scope.scopes)); }
  }

  /** The hashed text reads back as an object of these four members, and the action_ref is its digest. */
  lemma {:induction false} PreimageReads(h: Hash, nfc: Normalizer, i: Intent)
    requires Preimage(nfc, i).Some?
    ensures ActionRefOf(h, nfc, i) == Some(h(Preimage(nfc, i).value))
    ensures var read := JsonText.Parse(Preimage(nfc, i).value);
            && read.Ok? && read.value.Obj?
            && read.value.members.Keys
               == {Ascii("agentId"), Ascii("actionType"), Ascii("scopeRequired"), Ascii("timestamp")}
            && read.value.members[Ascii("agentId")] == String(i.agentId)
            && read.value.members[Ascii("actionType")] == String(i.actionType)
            && read.value.members[Ascii("timestamp")] == String(i.timestamp)
            && ScopeHeld(nfc, i.scope, read.value.members[Ascii("scopeRequired")])
  {
    hide Ascii;
    hide ScopeValue;
    hide ScopeHeld;
    hide IntentValue;
    hide WellFormed;
    hide JsonText.Parse;
    hide JsonText.Print;
    hide HasUndefined;
    hide HasLoneSurrogate;
    var scope := ScopeValue(nfc, i.scope).value;
    JsonText.RoundTrip(IntentValue(i, scope));
    IntentMembers(i, scope);
    ScopeValueHeld(nfc, i.scope);
  }

  /** There is no action_ref exactly when two scopes coincide once normalized, or a string that cannot be encoded or an
      undefined value is among the members. */
  lemma {:induction false} NoPreimageMeans(nfc: Normalizer, i: Intent)
    ensures Preimage(nfc, i).None? <==>
            || (i.scope.Many? && HasDuplicate(Normalized(nfc, i.scope.scopes)))
            || !WellFormed(i.agentId) || !WellFormed(i.actionType) || !WellFormed(i.timestamp)
            || (var v := ScopeValue(nfc, i.scope).value; HasUndefined(v) || HasLoneSurrogate(v))
  {
    var scope := ScopeValue(nfc, i.scope);
    assert scope.None? <==> i.scope.Many? && HasDuplicate(Normalized(nfc, i.scope.scopes));
    hide ScopeValue;
    hide IntentValue;
    if scope.Some? {
      IntentUndefined(i, scope.value);
      IntentLone(i, scope.value);
    }
  }

  lemma {:induction false} IntentMembers(i: Intent, scope: Value)
    ensures var v := IntentValue(i, scope);
            && v.Obj? && v.members.Keys == {AGENT_ID, ACTION_TYPE, SCOPE_REQUIRED, TIMESTAMP}
            && v.members[AGENT_ID] == String(i.agentId) && v.members[ACTION_TYPE] == String(i.actionType)
            && v.members[TIMESTAMP] == String(i.timestamp) && v.members[SCOPE_REQUIRED] == scope
    ensures WellFormed(AGENT_ID) && WellFormed(ACTION_TYPE) && WellFormed(SCOPE_REQUIRED) && WellFormed(TIMESTAMP)
  {
    assert |AGENT_ID| == 7 && |ACTION_TYPE| == 10 && |SCOPE_REQUIRED| == 13 && |TIMESTAMP| == 9;
  }

  lemma {:induction false} IntentUndefined(i: Intent, scope: Value)
    ensures HasUndefined(IntentValue(i, scope)) <==> HasUndefined(scope)
  {
    IntentMembers(i, scope);
    hide IntentValue;
    hide WellFormed;
    hide Ascii;
    var m := IntentValue(i, scope).members;
    if HasUndefined(scope) { assert HasUndefined(m[SCOPE_REQUIRED]); }
  }

  lemma {:induction false} IntentLone(i: Intent, scope: Value)
    ensures HasLoneSurrogate(IntentValue(i, scope)) <==>
            !WellFormed(i.agentId) || !WellFormed(i.actionType) || !WellFormed(i.timestamp) || HasLoneSurrogate(scope)
  {
    IntentMembers(i, scope);
    hide IntentValue;
    hide WellFormed;
    hide Ascii;
    var m := IntentValue(i, scope).members;
    if HasLoneSurrogate(scope) { assert HasLoneSurrogate(m[SCOPE_REQUIRED]); }
    if !WellFormed(i.agentId) { assert HasLoneSurrogate(m[AGENT_ID]); }
    if !WellFormed(i.actionType) { assert HasLoneSurrogate(m[ACTION_TYPE]); }
    if !WellFormed(i.timestamp) { assert HasLoneSurrogate(m[TIMESTAMP]); }
  }

  /** One action_ref, one request: same agent, type, time and set of scopes, or the two preimages collide. */
  lemma {:induction false} ActionRefBinds(h: Hash, nfc: Normalizer, i: Intent, j: Intent)
    requires ActionRefOf(h, nfc, i).Some? && ActionRefOf(h, nfc, i) == ActionRefOf(h, nfc, j)
    ensures || SameRequest(nfc, i, j)
            || Collides(h, {Preimage(nfc, i).value}, {Preimage(nfc, j).value})
  {
    hide ScopeValue;
    hide IntentValue;
    var p, q := Preimage(nfc, i).value, Preimage(nfc, j).value;
    if p == q {
      var s, t := ScopeValue(nfc, i.scope).value, ScopeValue(nfc, j.scope).value;
      CanonicalJcs.JcsInjective(IntentValue(i, s), IntentValue(j, t));
      IntentValueInjective(i, j, s, t);
      ScopeValueBinds(nfc, i.scope, j.scope);
    } else {
      assert p in {p} && q in {q};
    }
  }

  /** The same scopes once normalized canonicalize alike, refused ones included. */
  lemma {:induction false} SameScopeSameValue(nfc: Normalizer, a: Scope, b: Scope)
    requires SameScope(nfc, a, b)
    ensures ScopeValue(nfc, a) == ScopeValue(nfc, b)
  {
    hide CodePointLe;
    match (a, b)
    case (Many(xs), Many(ys)) =>
      var s, t := Normalized(nfc, xs), Normalized(nfc, ys);
      if k, l :| 0 <= k < l < |s| && s[k] == s[l] {
        DuplicateMeansTwice(s, k, l);
        TwiceMeansDuplicate(t, s[k]);
      } else if k, l :| 0 <= k < l < |t| && t[k] == t[l] {
        DuplicateMeansTwice(t, k, l);
        TwiceMeansDuplicate(s, t[k]);
      } else {
        SameScopeIffPermutation(nfc, xs, ys);
      }
    case _ =>
  }

  /** The converse of ActionRefBinds: one request has one action_ref, or none, however its scopes are spelled or
      ordered. */
  lemma {:induction false} SameRequestSameRef(h: Hash, nfc: Normalizer, i: Intent, j: Intent)
    requires SameRequest(nfc, i, j)
    ensures ActionRefOf(h, nfc, i) == ActionRefOf(h, nfc, j)
  {
    hide ScopeValue;
    hide CanonicalJcs.Jcs;
    SameScopeSameValue(nfc, i.scope, j.scope);
  }

  /** In particular, reordering the scopes as given changes nothing. */
  lemma {:induction false} ActionRefIgnoresOrder(h: Hash, nfc: Normalizer, i: Intent, j: Intent)
    requires i.agentId == j.agentId && i.actionType == j.actionType && i.timestamp == j.timestamp
    requires i.scope.Many? && j.scope.Many? && multiset(i.scope.scopes) == multiset(j.scope.scopes)
    ensures ActionRefOf(h, nfc, i) == ActionRefOf(h, nfc, j)
  {
    hide ActionRefOf;
    NormalizedPermutation(nfc, i.scope.scopes, j.scope.scopes);
    SameRequestSameRef(h, nfc, i, j);
  }

  function Without(xs: seq<Str>, k: nat): seq<Str>
    requires k < |xs|
  {
    xs[..k] + xs[k + 1..]
  }

  lemma {:induction false} RemoveAt(xs: seq<Str>, k: nat)
    requires k < |xs|
    ensures multiset(xs) == multiset(Without(xs, k)) + multiset{xs[k]}
  {
    assert xs == xs[..k] + [xs[k]] + xs[k + 1..];
  }

  lemma {:induction false} CancelOne(a: multiset<Str>, b: multiset<Str>, x: Str)
    requires a + multiset{x} == b + multiset{x}
    ensures a == b
  {
    assert a == (a + multiset{x}) - multiset{x} && b == (b + multiset{x}) - multiset{x};
  }

  lemma {:induction false} NormalizedRemoveAt(nfc: Normalizer, xs: seq<Str>, k: nat)
    requires k < |xs|
    ensures multiset(Normalized(nfc, xs)) == multiset(Normalized(nfc, Without(xs, k))) + multiset{nfc(xs[k])}
  {
    var all := Normalized(nfc, xs);
    RemoveAt(all, k);
    assert Without(all, k) == Normalized(nfc, Without(xs, k));
  }

  /** Taking one occurrence of an element out of both lists keeps them permutations. */
  lemma {:induction false} RemoveFromBoth(s: seq<Str>, t: seq<Str>, k: nat)
    requires s != [] && k < |t| && t[k] == s[0] && multiset(s) == multiset(t)
    ensures multiset(Without(s, 0)) == multiset(Without(t, k))
  {
    RemoveAt(s, 0);
    RemoveAt(t, k);
    CancelOne(multiset(Without(s, 0)), multiset(Without(t, k)), s[0]);
  }

  lemma {:induction false} NormalizedPermutation(nfc: Normalizer, s: seq<Str>, t: seq<Str>)
    requires multiset(s) == multiset(t)
    ensures multiset(Normalized(nfc, s)) == multiset(Normalized(nfc, t))
    decreases |s|
  {
    hide Normalized;
    assert |multiset(s)| == |s| && |multiset(t)| == |t|;
    if s == [] {
      assert t == [];
    } else {
      assert s[0] in multiset(s) && s[0] in t;
      var k :| 0 <= k < |t| && t[k] == s[0];
      RemoveFromBoth(s, t, k);
      NormalizedPermutation(nfc, Without(s, 0), Without(t, k));
      NormalizedRemoveAt(nfc, s, 0);
      NormalizedRemoveAt(nfc, t, k);
    }
  }
}
