/**
  JSON values and the text that `JSON.stringify` gives their atoms: decimal
  integers and quoted strings, with a decoder for each.
 */
module Json {
  import opened Text

  /** A JavaScript value that the serializers meet; objects are finite maps, numbers are integers. */
  datatype Value =
    | Undefined
    | Null
    | Bool(b: bool)
    | Num(n: int)
    | String(s: Str)
    | Arr(items: seq<Value>)
    | Obj(members: map<Str, Value>)

  datatype Result<+T> = Ok(value: T) | Err(error: Error)
  datatype Error = UndefinedValue | LoneSurrogate | UnsafeInteger | CircularReference | NotAString | SyntaxError

  /** A decoder's outcome: a value and the unread text. */
  datatype Parsed<+T> = Fail | Read(value: T, rest: Str)

  /** An array of strings. */
  function Strings(xs: seq<Str>): Value { Arr(seq(|xs|, i requires 0 <= i < |xs| => String(xs[i]))) }

  lemma {:induction false} StringsInjective(xs: seq<Str>, ys: seq<Str>)
    requires Strings(xs) == Strings(ys)
    ensures xs == ys
  {
    var a, b := Strings(xs).items, Strings(ys).items;
    assert |a| == |xs| && |b| == |ys|;
    forall i | 0 <= i < |xs| ensures xs[i] == ys[i] { assert a[i] == b[i]; }
  }

  // --- What a value holds ----------------------------------------------------

  predicate HasUndefined(v: Value) {
    match v
    case Undefined => true
    case Arr(items) => exists i | 0 <= i < |items| :: HasUndefined(items[i])
    case Obj(m) => exists k | k in m :: HasUndefined(m[k])
    case _ => false
  }

  predicate High(u: Unit) { 0xD800 <= u <= 0xDBFF }
  predicate Low(u: Unit) { 0xDC00 <= u <= 0xDFFF }

  /** A high surrogate at `i` is followed by a low one; a low one there is preceded by a high one. */
  predicate PairedAt(s: Str, i: nat)
    requires i < |s|
  {
    && (High(s[i]) ==> i + 1 < |s| && Low(s[i + 1]))
    && (Low(s[i]) ==> i > 0 && High(s[i - 1]))
  }

  predicate WellFormed(s: Str) {
    forall i | 0 <= i < |s| :: PairedAt(s, i)
  }

  lemma {:induction false} WellFormedConcat(s: Str, t: Str)
    requires WellFormed(s) && WellFormed(t)
    ensures WellFormed(s + t)
  {
    forall i | 0 <= i < |s + t| ensures PairedAt(s + t, i) {
      if i < |s| { assert PairedAt(s, i); } else { assert PairedAt(t, i - |s|); }
    }
  }

  /** Reading left to right: a leading pair, or a leading unit that is no surrogate, can be dropped. */
  lemma {:induction false} WellFormedTail(s: Str, k: nat)
    requires k <= |s| && WellFormed(s[..k])
    ensures WellFormed(s) <==> WellFormed(s[k..])
  {
    assert s == s[..k] + s[k..];
    if WellFormed(s[k..]) {
      WellFormedConcat(s[..k], s[k..]);
    }
    if WellFormed(s) {
      forall i | 0 <= i < |s[k..]| ensures PairedAt(s[k..], i) {
        assert PairedAt(s, i + k);
        if i == 0 && k > 0 { assert PairedAt(s[..k], k - 1); }
      }
    }
  }

  lemma {:induction false} WellFormedPair(hi: Unit, lo: Unit)
    requires High(hi) && Low(lo)
    ensures WellFormed([hi, lo])
  {
    assert PairedAt([hi, lo], 0) && PairedAt([hi, lo], 1);
  }

  predicate HasLoneSurrogate(v: Value) {
    match v
    case String(s) => !WellFormed(s)
    case Arr(items) => exists i | 0 <= i < |items| :: HasLoneSurrogate(items[i])
    case Obj(m) => exists k | k in m :: !WellFormed(k) || HasLoneSurrogate(m[k])
    case _ => false
  }

  const MAX_SAFE_WRITE_INTEGER := 9007199254740991

  predicate IsUnsafeWriteInteger(n: int) {
    n > MAX_SAFE_WRITE_INTEGER || -n > MAX_SAFE_WRITE_INTEGER
  }

  predicate HasUnsafeInteger(v: Value) {
    match v
    case Num(n) => IsUnsafeWriteInteger(n)
    case Arr(items) => exists i | 0 <= i < |items| :: HasUnsafeInteger(items[i])
    case Obj(m) => exists k | k in m :: HasUnsafeInteger(m[k])
    case _ => false
  }

  // --- The same, as what occurs somewhere inside -----------------------------

  /** `w` is `v` or occurs in it at some depth. */
  ghost predicate Within(w: Value, v: Value)
    decreases v
  {
    w == v ||
    match v
    case Arr(items) => exists i | 0 <= i < |items| :: Within(w, items[i])
    case Obj(m) => exists k | k in m :: Within(w, m[k])
    case _ => false
  }

  lemma {:induction false} UndefinedWithin(v: Value)
    ensures HasUndefined(v) <==> Within(Undefined, v)
    decreases v
  {
    match v
    case Arr(items) =>
      forall i | 0 <= i < |items| ensures HasUndefined(items[i]) <==> Within(Undefined, items[i]) {
        UndefinedWithin(items[i]);
      }
    case Obj(m) =>
      forall k | k in m ensures HasUndefined(m[k]) <==> Within(Undefined, m[k]) { UndefinedWithin(m[k]); }
    case _ =>
  }

  /** Beyond 2^53 in either direction. */
  ghost predicate UnsafeWithin(v: Value) {
    exists n | n >= 0x20_0000_0000_0000 || n <= -0x20_0000_0000_0000 :: Within(Num(n), v)
  }

  lemma {:induction false} UnsafeIntegerWithin(v: Value)
    ensures HasUnsafeInteger(v) <==> UnsafeWithin(v)
    decreases v
  {
    match v
    case Arr(items) =>
      forall i | 0 <= i < |items| ensures HasUnsafeInteger(items[i]) <==> UnsafeWithin(items[i]) {
        UnsafeIntegerWithin(items[i]);
      }
    case Obj(m) =>
      forall k | k in m ensures HasUnsafeInteger(m[k]) <==> UnsafeWithin(m[k]) { UnsafeIntegerWithin(m[k]); }
    case Num(n) => assert Within(Num(n), v);
    case _ =>
  }

  /** A string value, or the key of an object, that is not well formed. */
  ghost predicate LoneWithin(v: Value) {
    || (exists s | Within(String(s), v) :: !WellFormed(s))
    || exists m | Within(Obj(m), v) :: exists k | k in m :: !WellFormed(k)
  }

  lemma {:induction false} LoneWithinParts(v: Value)
    ensures LoneWithin(v) <==>
            match v
            case String(s) => !WellFormed(s)
            case Arr(items) => exists i | 0 <= i < |items| :: LoneWithin(items[i])
            case Obj(m) => exists k | k in m :: !WellFormed(k) || LoneWithin(m[k])
            case _ => false
  {
    match v
    case String(s) => assert Within(String(s), v);
    case Arr(items) =>
      forall i | 0 <= i < |items| && LoneWithin(items[i]) ensures LoneWithin(v) {
        if s :| Within(String(s), items[i]) && !WellFormed(s) { assert Within(String(s), v); }
        if m :| Within(Obj(m), items[i]) && exists k | k in m :: !WellFormed(k) { assert Within(Obj(m), v); }
      }
    case Obj(m) =>
      assert Within(Obj(m), v);
      forall k | k in m && LoneWithin(m[k]) ensures LoneWithin(v) {
        if s :| Within(String(s), m[k]) && !WellFormed(s) { assert Within(String(s), v); }
        if o :| Within(Obj(o), m[k]) && exists j | j in o :: !WellFormed(j) { assert Within(Obj(o), v); }
      }
    case _ =>
  }

  lemma {:induction false} LoneSurrogateWithin(v: Value)
    ensures HasLoneSurrogate(v) <==> LoneWithin(v)
    decreases v
  {
    hide WellFormed;
    LoneWithinParts(v);
    hide LoneWithin;
    match v
    case Arr(items) =>
      forall i | 0 <= i < |items| ensures HasLoneSurrogate(items[i]) <==> LoneWithin(items[i]) {
        LoneSurrogateWithin(items[i]);
      }
    case Obj(m) =>
      forall k | k in m ensures HasLoneSurrogate(m[k]) <==> LoneWithin(m[k]) { LoneSurrogateWithin(m[k]); }
    case _ =>
  }

  // --- Integers --------------------------------------------------------------

  predicate IsDigit(u: Unit) { 0x30 <= u <= 0x39 }

  function PrintNat(n: nat): (r: Str)
    ensures |r| >= 1 && forall i | 0 <= i < |r| :: IsDigit(r[i])
    ensures r[0] == 0x30 ==> n == 0 && |r| == 1
  {
    if n < 10 then [0x30 + n] else PrintNat(n / 10) + [0x30 + n % 10]
  }

  function PrintInt(n: int): Str {
    if n < 0 then [0x2D] + PrintNat(-n) else PrintNat(n)
  }

  function DigitsValue(ds: Str): int {
    if ds == [] then 0 else 10 * DigitsValue(ds[..|ds| - 1]) + ds[|ds| - 1] - 0x30
  }

  function DigitRun(s: Str): (k: nat)
    ensures k <= |s|
    ensures forall i | 0 <= i < k :: IsDigit(s[i])
    ensures k == |s| || !IsDigit(s[k])
  {
    if s == [] || !IsDigit(s[0]) then 0 else 1 + DigitRun(s[1..])
  }

  /** JSON numbers without fraction or exponent: no leading zero. */
  function ParseNat(s: Str): (r: Parsed<int>)
    ensures r.Read? ==> |r.rest| < |s|
  {
    var k := DigitRun(s);
    if k == 0 || (k > 1 && s[0] == 0x30) then Fail else Read(DigitsValue(s[..k]), s[k..])
  }

  function ParseInt(s: Str): (r: Parsed<int>)
    ensures r.Read? ==> |r.rest| < |s|
  {
    if s != [] && s[0] == 0x2D then
      var p := ParseNat(s[1..]);
      if p.Fail? then Fail else Read(-p.value, p.rest)
    else ParseNat(s)
  }

  lemma {:induction false} PrintNatValue(n: nat)
    ensures DigitsValue(PrintNat(n)) == n
  {
    if n >= 10 {
      PrintNatValue(n / 10);
      assert PrintNat(n)[..|PrintNat(n)| - 1] == PrintNat(n / 10);
    } else {
      assert PrintNat(n)[..0] == [];
    }
  }

  predicate NoDigitFirst(rest: Str) { rest == [] || !IsDigit(rest[0]) }

  lemma {:induction false} DigitRunConcat(ds: Str, rest: Str)
    requires forall i | 0 <= i < |ds| :: IsDigit(ds[i])
    requires NoDigitFirst(rest)
    ensures DigitRun(ds + rest) == |ds|
  {
    assert forall i | 0 <= i < |ds| :: (ds + rest)[i] == ds[i];
    assert rest != [] ==> (ds + rest)[|ds|] == rest[0];
  }

  lemma {:induction false} ParsePrintNat(n: nat, rest: Str)
    requires NoDigitFirst(rest)
    ensures ParseNat(PrintNat(n) + rest) == Read(n, rest)
  {
    var ds := PrintNat(n);
    DigitRunConcat(ds, rest);
    PrintNatValue(n);
    assert (ds + rest)[..|ds|] == ds && (ds + rest)[|ds|..] == rest;
  }

  lemma {:induction false} ParseNegative(s: Str)
    ensures ParseInt([0x2D] + s) == match ParseNat(s) case Fail => Fail case Read(n, rest) => Read(-n, rest)
  {
    assert ([0x2D] + s)[1..] == s;
  }

  lemma {:induction false} ParseUnsigned(s: Str)
    requires s != [] && IsDigit(s[0])
    ensures ParseInt(s) == ParseNat(s)
  {
  }

  lemma {:induction false} ParsePrintInt(n: int, rest: Str)
    requires NoDigitFirst(rest)
    ensures ParseInt(PrintInt(n) + rest) == Read(n, rest)
  {
    hide PrintNat;
    hide ParseNat;
    var ds := PrintNat(if n < 0 then -n else n);
    ParsePrintNat(if n < 0 then -n else n, rest);
    if n < 0 {
      ParseNegative(ds + rest);
      assert [0x2D] + ds + rest == [0x2D] + (ds + rest);
    } else {
      ParseUnsigned(ds + rest);
    }
  }

  lemma {:induction false} PrintIntInjective(m: int, n: int)
    requires PrintInt(m) == PrintInt(n)
    ensures m == n
  {
    ParsePrintInt(m, []);
    ParsePrintInt(n, []);
  }

  // --- Strings ---------------------------------------------------------------

  const QUOTE: Unit := 0x22
  const BACKSLASH: Unit := 0x5C

  function HexDigit(d: int): Unit
    requires 0 <= d < 16
  {
    if d < 10 then 0x30 + d else 0x57 + d
  }

  function Hex4(u: Unit): Str {
    [HexDigit(u / 4096), HexDigit(u / 256 % 16), HexDigit(u / 16 % 16), HexDigit(u % 16)]
  }

  /** The value of a hexadecimal digit in either case, or -1. */
  function HexValue(u: Unit): (d: int)
    ensures -1 <= d < 16
  {
    if IsDigit(u) then u - 0x30
    else if 0x61 <= u <= 0x66 then u - 0x57
    else if 0x41 <= u <= 0x46 then u - 0x37
    else -1
  }

  /** The letter after the backslash of a two-unit escape, or 0. */
  function ShortEscape(u: Unit): Unit {
    if u == QUOTE || u == BACKSLASH then u
    else if u == 0x08 then 0x62
    else if u == 0x0C then 0x66
    else if u == 0x0A then 0x6E
    else if u == 0x0D then 0x72
    else if u == 0x09 then 0x74
    else 0
  }

  /** Seven short escapes, \u00xx for the other controls, \udxxx for a surrogate on its own, else literal. */
  function EscapeUnit(u: Unit): Str {
    if ShortEscape(u) != 0 then [BACKSLASH, ShortEscape(u)]
    else if u < 0x20 || High(u) || Low(u) then [BACKSLASH, 0x75] + Hex4(u)
    else [u]
  }

  /** The body of `JSON.stringify(s)`; an unpaired surrogate becomes a \u escape. */
  function Escaped(s: Str): Str {
    if s == [] then []
    else if High(s[0]) && |s| > 1 && Low(s[1]) then s[..2] + Escaped(s[2..])
    else EscapeUnit(s[0]) + Escaped(s[1..])
  }

  function Stringify(s: Str): Str { [QUOTE] + Escaped(s) + [QUOTE] }

  /** The unit named by a two-unit escape, or 0. */
  function ShortUnescape(u: Unit): Unit {
    if u == QUOTE || u == BACKSLASH || u == 0x2F then u
    else if u == 0x62 then 0x08
    else if u == 0x66 then 0x0C
    else if u == 0x6E then 0x0A
    else if u == 0x72 then 0x0D
    else if u == 0x74 then 0x09
    else 0
  }

  function FourHex(s: Str): Parsed<Unit> {
    if |s| >= 4 && HexValue(s[0]) >= 0 && HexValue(s[1]) >= 0 && HexValue(s[2]) >= 0 && HexValue(s[3]) >= 0
    then Read(HexValue(s[0]) * 4096 + HexValue(s[1]) * 256 + HexValue(s[2]) * 16 + HexValue(s[3]), s[4..])
    else Fail
  }

  function Prepend(u: Unit, r: Parsed<Str>): Parsed<Str> {
    match r case Fail => Fail case Read(t, rest) => Read([u] + t, rest)
  }

  /** The rest of a JSON string after its opening quote. */
  function ParseChars(s: Str): (r: Parsed<Str>)
    ensures r.Read? ==> |r.rest| < |s|
    decreases |s|
  {
    if s == [] then Fail
    else if s[0] == QUOTE then Read([], s[1..])
    else if s[0] < 0x20 then Fail
    else if s[0] != BACKSLASH then Prepend(s[0], ParseChars(s[1..]))
    else if |s| == 1 then Fail
    else if s[1] == 0x75 then
      var p := FourHex(s[2..]);
      if p.Fail? then Fail else Prepend(p.value, ParseChars(s[6..]))
    else if ShortUnescape(s[1]) == 0 then Fail
    else Prepend(ShortUnescape(s[1]), ParseChars(s[2..]))
  }

  lemma {:induction false} HexDigitValue(d: int)
    requires 0 <= d < 16
    ensures HexValue(HexDigit(d)) == d
  {
  }

  lemma {:induction false} Hex4Value(u: Unit, t: Str)
    ensures FourHex(Hex4(u) + t) == Read(u, t)
  {
    hide HexDigit;
    hide HexValue;
    var s := Hex4(u) + t;
    assert s[4..] == t;
    HexDigitValue(u / 4096);
    HexDigitValue(u / 256 % 16);
    HexDigitValue(u / 16 % 16);
    HexDigitValue(u % 16);
    assert u / 256 == u / 4096 * 16 + u / 256 % 16;
    assert u / 16 == u / 256 * 16 + u / 16 % 16;
  }

  lemma {:induction false} ParseHexEscape(u: Unit, t: Str)
    ensures ParseChars([BACKSLASH, 0x75] + Hex4(u) + t) == Prepend(u, ParseChars(t))
  {
    var s := [BACKSLASH, 0x75] + Hex4(u) + t;
    Hex4Value(u, t);
    assert s[2..] == Hex4(u) + t && s[6..] == t;
  }

  lemma {:induction false} ParseEscapedUnit(u: Unit, t: Str)
    ensures ParseChars(EscapeUnit(u) + t) == Prepend(u, ParseChars(t))
  {
    var s := EscapeUnit(u) + t;
    if ShortEscape(u) != 0 {
      assert s[1] == ShortEscape(u) && s[2..] == t;
    } else if u < 0x20 || High(u) || Low(u) {
      ParseHexEscape(u, t);
    } else {
      assert s[1..] == t;
    }
  }

  lemma {:induction false} ParsePair(hi: Unit, lo: Unit, t: Str)
    requires High(hi) && Low(lo)
    ensures ParseChars([hi, lo] + t) == Prepend(hi, Prepend(lo, ParseChars(t)))
  {
    var s := [hi, lo] + t;
    assert s[1..] == [lo] + t && s[1..][1..] == t;
  }

  lemma {:induction false} ParseClosingQuote(rest: Str)
    ensures ParseChars([QUOTE] + rest) == Read([], rest)
  {
    assert ([QUOTE] + rest)[1..] == rest;
  }

  lemma {:induction false} PrependSplits(s: Str, k: nat, rest: Str)
    requires 1 <= k <= 2 && k <= |s|
    ensures k == 1 ==> Prepend(s[0], Read(s[1..], rest)) == Read(s, rest)
    ensures k == 2 ==> Prepend(s[0], Prepend(s[1], Read(s[2..], rest))) == Read(s, rest)
  {
    assert s == [s[0]] + s[1..];
    if k == 2 { assert s[1..] == [s[1]] + s[2..]; }
  }

  /** Where the text of a string splits after its first unit or pair. */
  lemma {:induction false} EscapedStep(s: Str, rest: Str)
    ensures s == [] ==> Escaped(s) + [QUOTE] + rest == [QUOTE] + rest
    ensures s != [] ==>
              if High(s[0]) && |s| > 1 && Low(s[1])
              then Escaped(s) + [QUOTE] + rest == [s[0], s[1]] + (Escaped(s[2..]) + [QUOTE] + rest)
              else Escaped(s) + [QUOTE] + rest == EscapeUnit(s[0]) + (Escaped(s[1..]) + [QUOTE] + rest)
  {
  }

  lemma {:induction false} ParseEscaped(s: Str, rest: Str)
    ensures ParseChars(Escaped(s) + [QUOTE] + rest) == Read(s, rest)
    decreases |s|
  {
    EscapedStep(s, rest);
    if s == [] {
      ParseClosingQuote(rest);
    } else if High(s[0]) && |s| > 1 && Low(s[1]) {
      ParseEscaped(s[2..], rest);
      ParsePair(s[0], s[1], Escaped(s[2..]) + [QUOTE] + rest);
      PrependSplits(s, 2, rest);
    } else {
      ParseEscaped(s[1..], rest);
      ParseEscapedUnit(s[0], Escaped(s[1..]) + [QUOTE] + rest);
      PrependSplits(s, 1, rest);
    }
  }

  /** Reading back a quoted string, surrogates paired or not. */
  lemma {:induction false} ParseStringify(s: Str, rest: Str)
    ensures (Stringify(s) + rest)[0] == QUOTE
    ensures ParseChars((Stringify(s) + rest)[1..]) == Read(s, rest)
  {
    ParseEscaped(s, rest);
    assert (Stringify(s) + rest)[1..] == Escaped(s) + [QUOTE] + rest;
  }

  /** Quoted text always has a UTF-8 encoding, whatever the string holds. */
  lemma {:induction false} StringifyWellFormed(s: Str)
    ensures WellFormed(Escaped(s))
    decreases |s|
  {
    if s == [] {
    } else if High(s[0]) && |s| > 1 && Low(s[1]) {
      StringifyWellFormed(s[2..]);
      WellFormedPair(s[0], s[1]);
      assert s[..2] == [s[0], s[1]];
      WellFormedConcat(s[..2], Escaped(s[2..]));
    } else {
      StringifyWellFormed(s[1..]);
      WellFormedConcat(EscapeUnit(s[0]), Escaped(s[1..]));
    }
  }

  // --- The same texts, spelled out -------------------------------------------

  const DIGITS: Str := Ascii("0123456789")
  const HEX: Str := Ascii("0123456789abcdef")

  /** Decimal notation: digits from the most significant on, no leading zero, a minus sign before a negative number. */
  lemma {:induction false} PrintIntText(n: nat)
    ensures PrintInt(n) == (if n < 10 then [] else PrintInt(n / 10)) + [DIGITS[n % 10]]
    ensures n > 0 ==> PrintInt(0 - n) == Ascii("-") + PrintInt(n)
  {
    assert forall d | 0 <= d < 10 :: DIGITS[d] == 0x30 + d;
    assert Ascii("-") == [0x2D];
  }

  /** The seven short escapes. */
  lemma {:induction false} ShortEscapes()
    ensures EscapeUnit(0x22) == Ascii("\\\"") && EscapeUnit(0x5C) == Ascii("\\\\") && EscapeUnit(0x08) == Ascii("\\b")
    ensures EscapeUnit(0x0C) == Ascii("\\f") && EscapeUnit(0x0A) == Ascii("\\n") && EscapeUnit(0x0D) == Ascii("\\r")
    ensures EscapeUnit(0x09) == Ascii("\\t")
  {
  }

  /** Lower-case hexadecimal for the other controls and for a lone surrogate; any other unit stands for itself. */
  lemma {:induction false} LongEscapes(u: Unit)
    requires u !in {0x08, 0x09, 0x0A, 0x0C, 0x0D, 0x22, 0x5C}
    ensures EscapeUnit(u) ==
            if u < 0x20 || 0xD800 <= u < 0xE000
            then Ascii("\\u") + [HEX[u / 4096], HEX[u / 256 % 16], HEX[u / 16 % 16], HEX[u % 16]]
            else [u]
  {
    HexDigits();
    hide HexDigit;
    assert Ascii("\\u") == [BACKSLASH, 0x75];
    assert u < 0x10000;
  }

  lemma {:induction false} HexDigits()
    ensures forall d | 0 <= d < 16 :: HEX[d] == HexDigit(d)
  {
  }

  /** Text that needs no escape is quoted as it is. */
  lemma {:induction false} PlainText(s: Str)
    requires forall i | 0 <= i < |s| :: 0x20 <= s[i] < 0xD800 && s[i] != 0x22 && s[i] != 0x5C
    ensures Stringify(s) == Ascii("\"") + s + Ascii("\"")
  {
    PlainEscaped(s);
    assert Ascii("\"") == [QUOTE];
  }

  lemma {:induction false} PlainEscaped(s: Str)
    requires forall i | 0 <= i < |s| :: 0x20 <= s[i] < 0xD800 && s[i] != 0x22 && s[i] != 0x5C
    ensures Escaped(s) == s
  {
    if s == [] {
    } else {
      PlainEscaped(s[1..]);
      assert EscapeUnit(s[0]) == [s[0]];
      assert s == [s[0]] + s[1..];
    }
  }

  /** A surrogate pair is kept as it is; any other unit is escaped by the table. */
  lemma {:induction false} EscapedText(s: Str)
    requires s != []
    ensures Escaped(s) ==
            if |s| > 1 && 0xD800 <= s[0] < 0xDC00 && 0xDC00 <= s[1] < 0xE000 then [s[0], s[1]] + Escaped(s[2..])
            else EscapeUnit(s[0]) + Escaped(s[1..])
  {
    if |s| > 1 { assert s[..2] == [s[0], s[1]]; }
  }
}
