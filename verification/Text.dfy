/**
  Strings as JavaScript sees them: sequences of 16-bit code units, with the
  default (code-unit) order, sorting, splitting and joining.
 */
module Text {

  type Unit = u: int | 0 <= u < 0x10000
  type Str = seq<Unit>

  datatype Option<+T> = None | Some(value: T)

  /** The code units of a literal made of ASCII characters; any other character becomes U+FFFD. */
  function Ascii(s: string): (r: Str)
    ensures |r| == |s|
    ensures forall i | 0 <= i < |s| :: r[i] == if s[i] < 128 as char then s[i] as int else 0xFFFD
  {
    seq(|s|, i requires 0 <= i < |s| => if s[i] < 128 as char then s[i] as int else 0xFFFD)
  }

  // --- Lexicographic order ---------------------------------------------------

  /** Lexicographic order on integer sequences (code units or code points). */
  predicate LexLe(a: seq<int>, b: seq<int>) {
    a == [] || (b != [] && (a[0] < b[0] || (a[0] == b[0] && LexLe(a[1..], b[1..]))))
  }

  /** The order of `Array.prototype.sort` without a comparator. */
  predicate UnitLe(a: Str, b: Str) {
    LexLe(a, b)
  }

  lemma {:induction false} LexReflexive(a: seq<int>)
    ensures LexLe(a, a)
  {
    if a == [] {
    } else {
      LexReflexive(a[1..]);
    }
  }

  lemma {:induction false} LexAntisymmetric(a: seq<int>, b: seq<int>)
    requires LexLe(a, b) && LexLe(b, a)
    ensures a == b
  {
    if a == [] {
    } else {
      LexAntisymmetric(a[1..], b[1..]);
      assert a == [a[0]] + a[1..] && b == [b[0]] + b[1..];
    }
  }

  lemma {:induction false} LexTransitive(a: seq<int>, b: seq<int>, c: seq<int>)
    requires LexLe(a, b) && LexLe(b, c)
    ensures LexLe(a, c)
  {
    if a == [] || a[0] != b[0] || b[0] != c[0] {
    } else {
      LexTransitive(a[1..], b[1..], c[1..]);
    }
  }

  lemma {:induction false} LexTotal(a: seq<int>, b: seq<int>)
    ensures LexLe(a, b) || LexLe(b, a)
  {
    if a == [] || b == [] || a[0] != b[0] {
    } else {
      LexTotal(a[1..], b[1..]);
    }
  }

  ghost predicate TotalOrder<T(!new)>(le: (T, T) -> bool) {
    && (forall x, y :: le(x, y) || le(y, x))
    && (forall x, y :: le(x, y) && le(y, x) ==> x == y)
    && (forall x, y, z :: le(x, y) && le(y, z) ==> le(x, z))
  }

  lemma {:induction false} UnitLeTotalOrder()
    ensures TotalOrder(UnitLe)
  {
    forall x: Str, y: Str ensures UnitLe(x, y) || UnitLe(y, x) { LexTotal(x, y); }
    forall x: Str, y: Str | UnitLe(x, y) && UnitLe(y, x) ensures x == y { LexAntisymmetric(x, y); }
    forall x: Str, y: Str, z: Str | UnitLe(x, y) && UnitLe(y, z) ensures UnitLe(x, z) { LexTransitive(x, y, z); }
  }

  lemma {:induction false} SubsetSize<T>(a: set<T>, b: set<T>)
    requires a <= b
    ensures |a| <= |b|
  {
    if a == {} {
    } else {
      var x :| x in a;
      SubsetSize(a - {x}, b - {x});
    }
  }

  // --- Sorting ---------------------------------------------------------------

  ghost predicate SortedBy<T>(xs: seq<T>, le: (T, T) -> bool) {
    forall i, j | 0 <= i < j < |xs| :: le(xs[i], xs[j])
  }

  function Insert<T>(x: T, xs: seq<T>, le: (T, T) -> bool): (r: seq<T>)
    ensures |r| == |xs| + 1
  {
    if xs == [] || le(x, xs[0]) then [x] + xs else [xs[0]] + Insert(x, xs[1..], le)
  }

  /** The result of sorting `xs` by the order `le`. */
  function SortBy<T>(xs: seq<T>, le: (T, T) -> bool): (r: seq<T>)
    ensures |r| == |xs|
  {
    if xs == [] then [] else Insert(xs[0], SortBy(xs[1..], le), le)
  }

  lemma {:induction false} InsertElements<T>(x: T, xs: seq<T>, le: (T, T) -> bool)
    ensures multiset(Insert(x, xs, le)) == multiset(xs) + multiset{x}
  {
    if xs == [] || le(x, xs[0]) {
    } else {
      InsertElements(x, xs[1..], le);
      assert xs == [xs[0]] + xs[1..];
    }
  }

  lemma {:induction false} InsertSorted<T(!new)>(x: T, xs: seq<T>, le: (T, T) -> bool)
    requires TotalOrder(le) && SortedBy(xs, le)
    ensures SortedBy(Insert(x, xs, le), le)
  {
    if xs == [] || le(x, xs[0]) {
    } else {
      InsertSorted(x, xs[1..], le);
      InsertElements(x, xs[1..], le);
      var rest := Insert(x, xs[1..], le);
      forall j | 0 <= j < |rest| ensures le(xs[0], rest[j]) {
        assert rest[j] in multiset(rest);
        assert rest[j] == x || rest[j] in xs[1..];
      }
    }
  }

  lemma {:induction false} SortByCorrect<T(!new)>(xs: seq<T>, le: (T, T) -> bool)
    requires TotalOrder(le)
    ensures SortedBy(SortBy(xs, le), le)
    ensures multiset(SortBy(xs, le)) == multiset(xs)
  {
    if xs == [] {
    } else {
      var rest := SortBy(xs[1..], le);
      SortByCorrect(xs[1..], le);
      InsertSorted(xs[0], rest, le);
      InsertElements(xs[0], rest, le);
      assert xs == [xs[0]] + xs[1..];
    }
  }

  lemma {:induction false} DropHead<T>(a: seq<T>)
    requires a != []
    ensures multiset(a[1..]) == multiset(a) - multiset{a[0]}
  {
    assert a == [a[0]] + a[1..];
  }

  lemma {:induction false} SameHead<T(!new)>(a: seq<T>, b: seq<T>, le: (T, T) -> bool)
    requires TotalOrder(le) && SortedBy(a, le) && SortedBy(b, le)
    requires multiset(a) == multiset(b) && a != []
    ensures b != [] && a[0] == b[0]
    ensures multiset(a[1..]) == multiset(b[1..])
  {
    assert |multiset(a)| == |a| && |multiset(b)| == |b|;
    assert a[0] in multiset(b) && b[0] in multiset(a);
    var i :| 0 <= i < |b| && b[i] == a[0];
    var j :| 0 <= j < |a| && a[j] == b[0];
    assert i > 0 ==> le(b[0], a[0]);
    assert j > 0 ==> le(a[0], b[0]);
    DropHead(a);
    DropHead(b);
  }

  /** A sorted arrangement of a multiset is unique. */
  lemma {:induction false} SortedUnique<T(!new)>(a: seq<T>, b: seq<T>, le: (T, T) -> bool)
    requires TotalOrder(le) && SortedBy(a, le) && SortedBy(b, le)
    requires multiset(a) == multiset(b)
    ensures a == b
  {
    if a == [] {
      assert |multiset(b)| == |b|;
    } else {
      SameHead(a, b, le);
      SortedUnique(a[1..], b[1..], le);
      assert a == [a[0]] + a[1..] && b == [b[0]] + b[1..];
    }
  }

  lemma {:induction false} SortByPermutation<T(!new)>(a: seq<T>, b: seq<T>, le: (T, T) -> bool)
    requires TotalOrder(le)
    ensures SortBy(a, le) == SortBy(b, le) <==> multiset(a) == multiset(b)
  {
    SortByCorrect(a, le);
    SortByCorrect(b, le);
    if multiset(a) == multiset(b) {
      SortedUnique(SortBy(a, le), SortBy(b, le), le);
    }
  }

  predicate UnitLt(a: Str, b: Str) { UnitLe(a, b) && a != b }

  ghost predicate StrictlyBy(xs: seq<Str>, lt: (Str, Str) -> bool) {
    forall i, j | 0 <= i < j < |xs| :: lt(xs[i], xs[j])
  }

  /** Strictly ascending by code unit; such a list has no duplicates. */
  ghost predicate Ascending(xs: seq<Str>) { StrictlyBy(xs, UnitLt) }

  ghost predicate Asymmetric(lt: (Str, Str) -> bool) {
    forall x, y :: lt(x, y) ==> !lt(y, x)
  }

  lemma {:induction false} UnitLtAsymmetric()
    ensures Asymmetric(UnitLt)
  {
    forall x: Str, y: Str | UnitLt(x, y) ensures !UnitLt(y, x) {
      if UnitLt(y, x) { LexAntisymmetric(x, y); }
    }
  }

  /** Two strictly ordered lists with the same elements start alike, and so do their tails. */
  lemma {:induction false} StrictHead(a: seq<Str>, b: seq<Str>, lt: (Str, Str) -> bool)
    requires Asymmetric(lt) && StrictlyBy(a, lt) && StrictlyBy(b, lt)
    requires a != [] && b != [] && forall x :: x in a <==> x in b
    ensures a[0] == b[0]
    ensures forall x :: x in a[1..] <==> x in b[1..]
  {
    assert a[0] in b && b[0] in a;
    var i :| 0 <= i < |b| && b[i] == a[0];
    var j :| 0 <= j < |a| && a[j] == b[0];
    assert forall p | 0 < p < |b| :: lt(b[0], b[p]);
    assert forall p | 0 < p < |a| :: lt(a[0], a[p]);
    forall x ensures x in a[1..] <==> x in b[1..] {
      if x in a[1..] { assert x in a && lt(a[0], x); }
      if x in b[1..] { assert x in b && lt(b[0], x); }
    }
  }

  /** A strictly ordered list is determined by its elements. */
  lemma {:induction false} StrictUnique(a: seq<Str>, b: seq<Str>, lt: (Str, Str) -> bool)
    requires Asymmetric(lt) && StrictlyBy(a, lt) && StrictlyBy(b, lt)
    requires forall x :: x in a <==> x in b
    ensures a == b
  {
    assert b != [] ==> b[0] in b;
    if a == [] {
    } else {
      assert a[0] in b;
      StrictHead(a, b, lt);
      StrictUnique(a[1..], b[1..], lt);
      assert a == [a[0]] + a[1..] && b == [b[0]] + b[1..];
    }
  }

  predicate IsLeast(k: Str, s: set<Str>) {
    k in s && forall j | j in s :: UnitLe(k, j)
  }

  lemma {:induction false} LeastExists(s: set<Str>)
    requires s != {}
    ensures exists k :: IsLeast(k, s)
  {
    var x :| x in s;
    LexReflexive(x);
    if s == {x} {
      assert IsLeast(x, s);
    } else {
      LeastExists(s - {x});
      var k: Str :| IsLeast(k, s - {x});
      LexTotal(x, k);
      var least := if UnitLe(x, k) then x else k;
      forall j | j in s ensures UnitLe(least, j) {
        if j != x {
          assert j in s - {x};
          if UnitLe(x, k) { LexTransitive(x, k, j); }
        }
      }
      assert IsLeast(least, s);
    }
  }

  /** The least of a non-empty set of strings. */
  function Least(s: set<Str>): (k: Str)
    requires s != {}
    ensures IsLeast(k, s)
  {
    LeastExists(s);
    assert forall k, l | IsLeast(k, s) && IsLeast(l, s) :: k == l by {
      forall k: Str, l: Str | IsLeast(k, s) && IsLeast(l, s) ensures k == l { LexAntisymmetric(k, l); }
    }
    var k: Str :| k in s && IsLeast(k, s);
    k
  }

  /** `Object.keys(o).sort()`: the keys in code-unit order, RFC 8785 section 3.2.3. */
  function SortedKeys(s: set<Str>): (r: seq<Str>)
    ensures forall i | 0 <= i < |r| :: r[i] in s
  {
    if s == {} then [] else [Least(s)] + SortedKeys(s - {Least(s)})
  }

  /** Where a key stands in the sorted list. */
  ghost function KeyIndex(s: set<Str>, k: Str): (i: nat)
    requires k in s
    ensures i < |SortedKeys(s)| && SortedKeys(s)[i] == k
  {
    if k == Least(s) then 0 else 1 + KeyIndex(s - {Least(s)}, k)
  }

  lemma {:induction false} PrependStrict(x: Str, xs: seq<Str>, lt: (Str, Str) -> bool)
    requires StrictlyBy(xs, lt) && forall j | 0 <= j < |xs| :: lt(x, xs[j])
    ensures StrictlyBy([x] + xs, lt)
  {
  }

  lemma {:induction false} SortedKeysAscending(s: set<Str>)
    ensures Ascending(SortedKeys(s))
  {
    if s == {} {
    } else {
      var k := Least(s);
      SortedKeysAscending(s - {k});
      var rest := SortedKeys(s - {k});
      forall j | 0 <= j < |rest| ensures UnitLt(k, rest[j]) {
        assert rest[j] in s - {k};
      }
      PrependStrict(k, rest, UnitLt);
    }
  }

  // --- The order of units, said with indices ---------------------------------

  /** The strings agree up to `k`, where `a` ends or has the smaller unit. */
  ghost predicate LowerAt(a: Str, b: Str, k: nat) {
    k <= |a| && k < |b| && a[..k] == b[..k] && (k == |a| || a[k] < b[k])
  }

  /** `a` comes before `b` in the order of UTF-16 code units. */
  ghost predicate Before(a: Str, b: Str) {
    exists k :: LowerAt(a, b, k)
  }

  lemma {:induction false} UnitLtIsBefore(a: Str, b: Str)
    ensures UnitLt(a, b) <==> Before(a, b)
    decreases |a|
  {
    if a == [] || b == [] {
      if b != [] { assert LowerAt(a, b, 0); }
    } else {
      UnitLtIsBefore(a[1..], b[1..]);
      assert a == [a[0]] + a[1..] && b == [b[0]] + b[1..];
      if a[0] < b[0] { assert LowerAt(a, b, 0); }
      if a[0] == b[0] && Before(a[1..], b[1..]) {
        var k: nat :| LowerAt(a[1..], b[1..], k);
        assert a[..k + 1] == [a[0]] + a[1..][..k] && b[..k + 1] == [b[0]] + b[1..][..k];
        assert LowerAt(a, b, k + 1);
      }
      if Before(a, b) { LowerTail(a, b); }
    }
  }

  lemma {:induction false} LowerTail(a: Str, b: Str)
    requires a != [] && b != [] && Before(a, b)
    ensures a[0] < b[0] || (a[0] == b[0] && Before(a[1..], b[1..]))
  {
    var k: nat :| LowerAt(a, b, k);
    if k > 0 {
      assert a[..k][0] == b[..k][0];
      assert a[1..][..k - 1] == a[..k][1..] && b[1..][..k - 1] == b[..k][1..];
      assert LowerAt(a[1..], b[1..], k - 1);
    }
  }

  /** The sorted keys are the keys, each once, every one before all that follow it. */
  lemma {:induction false} SortedKeysInOrder(s: set<Str>)
    ensures forall k :: k in SortedKeys(s) <==> k in s
    ensures forall i, j | 0 <= i < j < |SortedKeys(s)| :: Before(SortedKeys(s)[i], SortedKeys(s)[j])
  {
    var keys := SortedKeys(s);
    SortedKeysAscending(s);
    forall k | k in s ensures k in keys { var i := KeyIndex(s, k); }
    forall i, j | 0 <= i < j < |keys| ensures Before(keys[i], keys[j]) {
      assert UnitLt(keys[i], keys[j]);
      UnitLtIsBefore(keys[i], keys[j]);
    }
  }

  lemma {:induction false} BeforeAsymmetric(a: Str, b: Str)
    requires Before(a, b)
    ensures !Before(b, a) && a != b
  {
    UnitLtIsBefore(a, b);
    UnitLtIsBefore(b, a);
    if UnitLt(b, a) { LexAntisymmetric(a, b); }
  }

  /** Of two keys, the one that ends first or has the smaller unit where they differ is listed first. */
  lemma {:induction false} LowerKeyFirst(s: set<Str>, a: Str, b: Str, k: nat)
    requires a in s && b in s && LowerAt(a, b, k)
    ensures KeyIndex(s, a) < KeyIndex(s, b)
  {
    assert Before(a, b);
    BeforeAsymmetric(a, b);
    SortedKeysInOrder(s);
  }

  // --- Splitting and joining -------------------------------------------------

  /** `parts.join(sep)`. */
  function Join(parts: seq<Str>, sep: Str): Str {
    if parts == [] then []
    else if |parts| == 1 then parts[0]
    else parts[0] + sep + Join(parts[1..], sep)
  }

  /** `s.split(c)` for a one-unit separator. */
  function Split(s: Str, c: Unit): (parts: seq<Str>)
    ensures |parts| >= 1
    ensures forall p | p in parts :: c !in p
  {
    if s == [] then [[]]
    else
      var rest := Split(s[1..], c);
      if s[0] == c then [[]] + rest
      else
        assert rest[0] in rest;
        [[s[0]] + rest[0]] + rest[1..]
  }

  lemma {:induction false} JoinLonger(pre: Str, parts: seq<Str>, sep: Str)
    requires parts != []
    ensures Join([pre + parts[0]] + parts[1..], sep) == pre + Join(parts, sep)
  {
    var longer := [pre + parts[0]] + parts[1..];
    assert longer[1..] == parts[1..];
    if |parts| > 1 {
      assert pre + parts[0] + sep + Join(parts[1..], sep) == pre + (parts[0] + sep + Join(parts[1..], sep));
    }
  }

  lemma {:induction false} JoinSplit(s: Str, c: Unit)
    ensures Join(Split(s, c), [c]) == s
  {
    if s == [] {
    } else {
      JoinSplit(s[1..], c);
      var rest, parts := Split(s[1..], c), Split(s, c);
      assert s == [s[0]] + s[1..];
      if s[0] == c {
        assert parts[1..] == rest;
      } else {
        assert parts[1..] == rest[1..] && parts[0] == [s[0]] + rest[0];
        JoinLonger([s[0]], rest, [c]);
      }
    }
  }

  /** Splitting undoes joining when no part holds the separator. */
  lemma {:induction false} SplitJoin(parts: seq<Str>, c: Unit)
    requires |parts| >= 1
    requires forall p | p in parts :: c !in p
    ensures Split(Join(parts, [c]), c) == parts
    decreases |parts|, |parts[0]|
  {
    var s := Join(parts, [c]);
    assert parts[0] in parts;
    if parts[0] == [] {
      if |parts| > 1 {
        assert s == [c] + Join(parts[1..], [c]);
        assert s[1..] == Join(parts[1..], [c]);
        SplitJoin(parts[1..], c);
        assert parts == [[]] + parts[1..];
      } else {
        assert parts == [[]];
      }
    } else {
      var less := [parts[0][1..]] + parts[1..];
      forall p | p in less ensures c !in p {
        if p != parts[0][1..] { assert p in parts; }
      }
      SplitJoin(less, c);
      assert less[1..] == parts[1..];
      assert s == [parts[0][0]] + Join(less, [c]);
      assert s[1..] == Join(less, [c]);
      assert [parts[0][0]] + less[0] == parts[0];
    }
  }

  // --- Cutting at a separator ------------------------------------------------

  /** The first occurrence of a separator cuts a text in one way only. */
  lemma {:induction false} FirstSeparator(c: Unit, a: Str, s: Str, b: Str, t: Str)
    requires c !in a && c !in b && a + [c] + s == b + [c] + t
    ensures a == b && s == t
  {
    SeparatorAt(c, a, s);
    SeparatorAt(c, b, t);
    var text := a + [c] + s;
    assert forall i | 0 <= i < |a| :: text[i] == a[i] && a[i] in a;
    assert forall i | 0 <= i < |b| :: text[i] == b[i] && b[i] in b;
  }

  /** And so does the last one. */
  lemma {:induction false} LastSeparator(c: Unit, a: Str, s: Str, b: Str, t: Str)
    requires c !in s && c !in t && a + [c] + s == b + [c] + t
    ensures a == b && s == t
  {
    SeparatorAt(c, a, s);
    SeparatorAt(c, b, t);
    var text := a + [c] + s;
    NoneAfter(c, a, s);
    NoneAfter(c, b, t);
  }

  lemma {:induction false} SeparatorAt(c: Unit, a: Str, s: Str)
    ensures var text := a + [c] + s;
            text[|a|] == c && text[..|a|] == a && text[|a| + 1..] == s
  {
  }

  lemma {:induction false} NoneAfter(c: Unit, a: Str, s: Str)
    requires c !in s
    ensures var text := a + [c] + s; forall i | |a| < i < |text| :: text[i] != c
  {
    var text := a + [c] + s;
    forall i | |a| < i < |text| ensures text[i] != c {
      assert text[i] == s[i - |a| - 1];
    }
  }

  // --- Searching -------------------------------------------------------------

  predicate At(s: Str, part: Str, k: nat) { k + |part| <= |s| && s[k..k + |part|] == part }

  method IndexOf(s: Str, part: Str, from: nat) returns (idx: int)
    requires from <= |s|
    ensures idx == -1 <==> forall k: nat | from <= k :: !At(s, part, k)
    ensures idx != -1 ==> from <= idx && At(s, part, idx) && forall k: nat | from <= k < idx :: !At(s, part, k)
  {
    var k := from;
    while k + |part| <= |s|
      invariant from <= k
      invariant forall j: nat | from <= j < k :: !At(s, part, j)
    {
      if At(s, part, k) { return k; }
      k := k + 1;
    }
    return -1;
  }

  // --- Collecting ------------------------------------------------------------

  /** What `f` gives for each element, in order, put together. */
  function FlatMap<T, U>(xs: seq<T>, f: T -> seq<U>): seq<U> {
    if xs == [] then [] else FlatMap(xs[..|xs| - 1], f) + f(xs[|xs| - 1])
  }

  lemma {:induction false} FlatMapNothing<T, U>(f: T -> seq<U>)
    ensures FlatMap([], f) == []
  {
  }

  lemma {:induction false} FlatMapNext<T, U>(xs: seq<T>, f: T -> seq<U>, i: nat)
    requires i < |xs|
    ensures FlatMap(xs[..i + 1], f) == FlatMap(xs[..i], f) + f(xs[i])
  {
    assert xs[..i + 1][..i] == xs[..i];
  }

  lemma {:induction false} FlatMapEmpty<T, U>(xs: seq<T>, f: T -> seq<U>)
    ensures FlatMap(xs, f) == [] <==> forall i | 0 <= i < |xs| :: f(xs[i]) == []
    decreases |xs|
  {
    if xs == [] {
    } else {
      var before := xs[..|xs| - 1];
      FlatMapEmpty(before, f);
      assert forall i | 0 <= i < |before| :: f(before[i]) == f(xs[i]);
    }
  }

  /** Everything collected was given for some element. */
  lemma {:induction false} FlatMapFrom<T, U>(xs: seq<T>, f: T -> seq<U>, y: U) returns (x: T)
    requires y in FlatMap(xs, f)
    ensures x in xs && y in f(x)
    decreases |xs|
  {
    var n := |xs| - 1;
    if y in f(xs[n]) {
      x := xs[n];
    } else {
      x := FlatMapFrom(xs[..n], f, y);
    }
  }
}
