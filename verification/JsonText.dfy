/**
  The canonical text of a JSON value (RFC 8785), a JSON parser, and the round
  trip between them.
 */
module JsonText {
  import opened Text
  import opened Json

  const COMMA: Unit := 0x2C
  const COLON: Unit := 0x3A
  const LBRACKET: Unit := 0x5B
  const RBRACKET: Unit := 0x5D
  const LBRACE: Unit := 0x7B
  const RBRACE: Unit := 0x7D
  const NULL: Str := [0x6E, 0x75, 0x6C, 0x6C]
  const TRUE: Str := [0x74, 0x72, 0x75, 0x65]
  const FALSE: Str := [0x66, 0x61, 0x6C, 0x73, 0x65]

  // --- Printing --------------------------------------------------------------

  /** Canonical text: keys in code-unit order, no white space, nulls kept. */
  function Print(v: Value): Str {
    match v
    case Undefined => NULL
    case Null => NULL
    case Bool(b) => if b then TRUE else FALSE
    case Num(n) => PrintInt(n)
    case String(s) => Stringify(s)
    case Arr(items) =>
      [LBRACKET] + Join(seq(|items|, i requires 0 <= i < |items| => Print(items[i])), [COMMA]) + [RBRACKET]
    case Obj(m) =>
      var keys := SortedKeys(m.Keys);
      var members := seq(|keys|, i requires 0 <= i < |keys| => Stringify(keys[i]) + [COLON] + Print(m[keys[i]]));
      [LBRACE] + Join(members, [COMMA]) + [RBRACE]
  }

  function ItemTexts(items: seq<Value>): seq<Str> {
    seq(|items|, i requires 0 <= i < |items| => Print(items[i]))
  }

  function MemberText(m: map<Str, Value>, k: Str): Str
    requires k in m
  {
    Stringify(k) + [COLON] + Print(m[k])
  }

  function MemberTexts(m: map<Str, Value>, keys: seq<Str>): seq<Str>
    requires forall i | 0 <= i < |keys| :: keys[i] in m
  {
    seq(|keys|, i requires 0 <= i < |keys| => MemberText(m, keys[i]))
  }

  function Keys(m: map<Str, Value>): (keys: seq<Str>)
    ensures forall i | 0 <= i < |keys| :: keys[i] in m
  {
    SortedKeys(m.Keys)
  }

  lemma {:induction false} PrintArr(items: seq<Value>)
    ensures Print(Arr(items)) == [LBRACKET] + Join(ItemTexts(items), [COMMA]) + [RBRACKET]
  {
    assert ItemTexts(items) == seq(|items|, i requires 0 <= i < |items| => Print(items[i]));
  }

  lemma {:induction false} PrintObj(m: map<Str, Value>)
    ensures Print(Obj(m)) == [LBRACE] + Join(MemberTexts(m, Keys(m)), [COMMA]) + [RBRACE]
  {
    var keys := SortedKeys(m.Keys);
    assert MemberTexts(m, Keys(m))
           == seq(|keys|, i requires 0 <= i < |keys| => Stringify(keys[i]) + [COLON] + Print(m[keys[i]]));
  }

  // --- The same texts, spelled out -------------------------------------------

  lemma {:induction false} PrintWords()
    ensures Print(Null) == Ascii("null") && Print(Bool(true)) == Ascii("true") && Print(Bool(false)) == Ascii("false")
  {
  }

  lemma {:induction false} PrintArrayText(items: seq<Value>)
    ensures Print(Arr(items)) == Ascii("[") + Join(ItemTexts(items), Ascii(",")) + Ascii("]")
  {
    PrintArr(items);
    hide Print;
    assert Ascii("[") == [LBRACKET] && Ascii(",") == [COMMA] && Ascii("]") == [RBRACKET];
  }

  /** An object's members are separated by commas, each key before all that follow it in the order of code units. */
  lemma {:induction false} PrintObjectText(m: map<Str, Value>)
    ensures var keys := Keys(m);
            && (forall k :: k in keys <==> k in m)
            && (forall i, j | 0 <= i < j < |keys| :: Before(keys[i], keys[j]))
            && Print(Obj(m)) == Ascii("{") + Join(MemberTexts(m, keys), Ascii(",")) + Ascii("}")
            && forall k | k in m :: MemberText(m, k) == Stringify(k) + Ascii(":") + Print(m[k])
  {
    SortedKeysInOrder(m.Keys);
    PrintObj(m);
    hide Print;
    hide Before;
    assert Ascii("{") == [LBRACE] && Ascii(",") == [COMMA] && Ascii("}") == [RBRACE] && Ascii(":") == [COLON];
  }

  lemma {:induction false} JoinAround(parts: seq<Str>, sep: Str, i: nat) returns (pre: Str)
    requires i < |parts|
    ensures Join(parts, sep) == pre + Join(parts[i..], sep)
  {
    if i == 0 {
      pre := [];
      assert parts[0..] == parts;
    } else {
      var inner := JoinAround(parts[1..], sep, i - 1);
      pre := parts[0] + sep + inner;
      assert parts[1..][i - 1..] == parts[i..];
    }
  }

  lemma {:induction false} JoinStarts(parts: seq<Str>, sep: Str) returns (post: Str)
    requires parts != []
    ensures Join(parts, sep) == parts[0] + post
  {
    post := if |parts| == 1 then [] else sep + Join(parts[1..], sep);
  }

  /** Of two members, the one whose key ends first or has the smaller unit where the keys differ is printed first. */
  lemma {:induction false} LowerKeyPrintedFirst(m: map<Str, Value>, a: Str, b: Str, k: nat)
    returns (pre: Str, mid: Str, post: Str)
    requires a in m && b in m && LowerAt(a, b, k)
    ensures Print(Obj(m)) == pre + MemberText(m, a) + mid + MemberText(m, b) + post
  {
    hide Print;
    hide MemberText;
    hide Join;
    hide SortedKeys;
    hide KeyIndex;
    PrintObj(m);
    LowerKeyFirst(m.Keys, a, b, k);
    hide LowerAt;
    var i, j := KeyIndex(m.Keys, a), KeyIndex(m.Keys, b);
    var texts := MemberTexts(m, Keys(m));
    assert texts[i] == MemberText(m, a) && texts[j] == MemberText(m, b);
    var before, after;
    before, mid, after := JoinPair(texts, [COMMA], i, j);
    pre, post := [LBRACE] + before, after + [RBRACE];
    hide MemberTexts;
    assert [LBRACE] + (before + texts[i] + mid + texts[j] + after) + [RBRACE] == pre + texts[i] + mid + texts[j] + post;
  }

  lemma {:induction false} JoinPair(parts: seq<Str>, sep: Str, i: nat, j: nat)
    returns (pre: Str, mid: Str, post: Str)
    requires i < j < |parts|
    ensures Join(parts, sep) == pre + parts[i] + mid + parts[j] + post
  {
    pre := JoinAround(parts, sep, i);
    var rest := parts[i..];
    assert Join(rest, sep) == rest[0] + sep + Join(rest[1..], sep);
    hide Join;
    var more := JoinAround(rest[1..], sep, j - i - 1);
    var last := rest[1..][j - i - 1..];
    assert last == parts[j..];
    post := JoinStarts(last, sep);
    mid := sep + more;
    assert Join(parts, sep) == pre + (parts[i] + sep + (more + (parts[j] + post)));
  }

  // --- Parsing ---------------------------------------------------------------

  predicate IsWhite(u: Unit) { u == 0x20 || u == 0x09 || u == 0x0A || u == 0x0D }

  function SkipWhite(s: Str): (r: Str)
    ensures |r| <= |s|
  {
    if s != [] && IsWhite(s[0]) then SkipWhite(s[1..]) else s
  }

  /** A JSON value at the front of `s`; of a repeated key the last member wins, as in `JSON.parse`. */
  function ParseValue(s: Str): (r: Parsed<Value>)
    ensures r.Read? ==> |r.rest| < |s|
    decreases |s|, 1
  {
    var t := SkipWhite(s);
    if t == [] then Fail
    else if t[0] == LBRACE then
      var u := SkipWhite(t[1..]);
      if u != [] && u[0] == RBRACE then Read(Obj(map[]), u[1..]) else ParseMembers(u, map[])
    else if t[0] == LBRACKET then
      var u := SkipWhite(t[1..]);
      if u != [] && u[0] == RBRACKET then Read(Arr([]), u[1..]) else ParseItems(u, [])
    else if t[0] == QUOTE then
      var p := ParseChars(t[1..]);
      if p.Fail? then Fail else Read(String(p.value), p.rest)
    else if NULL <= t then Read(Null, t[4..])
    else if TRUE <= t then Read(Bool(true), t[4..])
    else if FALSE <= t then Read(Bool(false), t[5..])
    else
      var p := ParseInt(t);
      if p.Fail? then Fail else Read(Num(p.value), p.rest)
  }

  function ParseItems(s: Str, acc: seq<Value>): (r: Parsed<Value>)
    ensures r.Read? ==> |r.rest| < |s|
    decreases |s|, 2
  {
    var p := ParseValue(s);
    if p.Fail? then Fail
    else
      var t := SkipWhite(p.rest);
      if t == [] then Fail
      else if t[0] == RBRACKET then Read(Arr(acc + [p.value]), t[1..])
      else if t[0] == COMMA then ParseItems(t[1..], acc + [p.value])
      else Fail
  }

  function ParseMembers(s: Str, acc: map<Str, Value>): (r: Parsed<Value>)
    ensures r.Read? ==> |r.rest| < |s|
    decreases |s|, 2
  {
    var t := SkipWhite(s);
    if t == [] || t[0] != QUOTE then Fail
    else
      var k := ParseChars(t[1..]);
      if k.Fail? then Fail
      else
        var u := SkipWhite(k.rest);
        if u == [] || u[0] != COLON then Fail
        else
          var p := ParseValue(u[1..]);
          if p.Fail? then Fail
          else
            var w := SkipWhite(p.rest);
            if w == [] then Fail
            else if w[0] == RBRACE then Read(Obj(acc[k.value := p.value]), w[1..])
            else if w[0] == COMMA then ParseMembers(w[1..], acc[k.value := p.value])
            else Fail
  }

  /** `JSON.parse`: one value and nothing after it. */
  function Parse(s: Str): Result<Value> {
    var p := ParseValue(s);
    if p.Read? && SkipWhite(p.rest) == [] then Ok(p.value) else Err(SyntaxError)
  }

  // --- Round trip ------------------------------------------------------------

  predicate Solid(s: Str) { s != [] && !IsWhite(s[0]) && s[0] != RBRACKET && s[0] != RBRACE }

  /** Printed text starts with a token that opens a value. */
  lemma {:induction false} PrintSolid(v: Value)
    ensures Solid(Print(v))
  {
  }

  /** Text that starts with a digit or a minus sign is read as a number. */
  lemma {:induction false} NumberAhead(s: Str)
    requires s != [] && (IsDigit(s[0]) || s[0] == 0x2D)
    ensures ParseValue(s) == match ParseInt(s) case Fail => Fail case Read(n, rest) => Read(Num(n), rest)
  {
    hide ParseInt;
    hide ParseChars;
    hide ParseItems;
    hide ParseMembers;
    assert SkipWhite(s) == s;
    assert NULL[0] == 0x6E && TRUE[0] == 0x74 && FALSE[0] == 0x66;
  }

  lemma {:induction false} PrintIntStarts(n: int, rest: Str)
    ensures var s := PrintInt(n) + rest; s != [] && (IsDigit(s[0]) || s[0] == 0x2D)
  {
    var digits := PrintNat(if n < 0 then -n else n);
    assert IsDigit(digits[0]);
  }

  lemma {:induction false} ParseNumber(n: int, rest: Str)
    requires NoDigitFirst(rest)
    ensures ParseValue(PrintInt(n) + rest) == Read(Num(n), rest)
  {
    hide ParseValue;
    hide ParseInt;
    hide PrintInt;
    ParsePrintInt(n, rest);
    PrintIntStarts(n, rest);
    NumberAhead(PrintInt(n) + rest);
  }

  lemma {:induction false} ParseWord(v: Value, rest: Str)
    requires v.Null? || v.Bool?
    ensures ParseValue(Print(v) + rest) == Read(v, rest)
  {
    hide ParseInt;
    hide ParseChars;
    var s := Print(v) + rest;
    assert SkipWhite(s) == s;
    match v
    case Null => assert s[4..] == rest && NULL <= s;
    case Bool(b) =>
      if b { assert s[4..] == rest && TRUE <= s; } else { assert s[5..] == rest && FALSE <= s; }
  }

  lemma {:induction false} ParseString(t: Str, rest: Str)
    ensures ParseValue(Stringify(t) + rest) == Read(String(t), rest)
  {
    ParseStringify(t, rest);
    assert SkipWhite(Stringify(t) + rest) == Stringify(t) + rest;
    hide ParseChars;
  }

  lemma {:induction false} ParseAtom(v: Value, rest: Str)
    requires !v.Arr? && !v.Obj? && !v.Undefined?
    requires NoDigitFirst(rest)
    ensures ParseValue(Print(v) + rest) == Read(v, rest)
  {
    hide ParseValue;
    match v
    case String(t) => ParseString(t, rest);
    case Num(n) => ParseNumber(n, rest);
    case _ => ParseWord(v, rest);
  }

  lemma {:induction false} JoinFirst(parts: seq<Str>, sep: Str, tail: Str)
    requires |parts| >= 2
    ensures Join(parts, sep) + tail == parts[0] + (sep + (Join(parts[1..], sep) + tail))
  {
  }

  lemma {:induction false} SplitHead(u: Unit, s: Str)
    ensures ([u] + s)[0] == u && ([u] + s)[1..] == s
  {
  }

  /** Reading back the tail of an array. */
  lemma {:induction false} ParseItemsBack(items: seq<Value>, acc: seq<Value>, rest: Str)
    requires items != []
    requires forall i | 0 <= i < |items| :: !HasUndefined(items[i])
    ensures ParseItems(Join(ItemTexts(items), [COMMA]) + ([RBRACKET] + rest), acc) == Read(Arr(acc + items), rest)
    decreases items, 1
  {
    var texts := ItemTexts(items);
    var close := [RBRACKET] + rest;
    if |items| == 1 {
      ParseBack(items[0], close);
      SplitHead(RBRACKET, rest);
      assert acc + items == acc + [items[0]];
    } else {
      var more := Join(texts[1..], [COMMA]) + close;
      assert texts[1..] == ItemTexts(items[1..]);
      JoinFirst(texts, [COMMA], close);
      SplitHead(COMMA, more);
      ParseBack(items[0], [COMMA] + more);
      ParseItemsBack(items[1..], acc + [items[0]], rest);
      assert acc + [items[0]] + items[1..] == acc + items;
    }
  }

  ghost predicate Covers(m: map<Str, Value>, acc: map<Str, Value>, keys: seq<Str>) {
    && (forall i | 0 <= i < |keys| :: keys[i] in m)
    && (forall k | k in acc :: k in m && acc[k] == m[k])
    && (forall k | k in m :: k in acc || k in keys)
  }

  lemma {:induction false} CoversNext(m: map<Str, Value>, acc: map<Str, Value>, keys: seq<Str>)
    requires keys != [] && Covers(m, acc, keys)
    ensures Covers(m, acc[keys[0] := m[keys[0]]], keys[1..])
    ensures |keys| == 1 ==> acc[keys[0] := m[keys[0]]] == m
  {
    var acc' := acc[keys[0] := m[keys[0]]];
    forall k | k in m ensures k in acc' || k in keys[1..] {
      if k in keys && k != keys[0] {
        var i :| 0 <= i < |keys| && keys[i] == k;
        assert keys[1..][i - 1] == k;
      }
    }
  }

  /** One round of ParseMembers, given what its parts read. */
  lemma {:induction false} MembersRound(s: Str, k: Str, after: Str, v: Value, rest: Str, acc: map<Str, Value>)
    requires s != [] && s[0] == QUOTE && ParseChars(s[1..]) == Read(k, after)
    requires after != [] && after[0] == COLON && ParseValue(after[1..]) == Read(v, rest)
    requires rest != [] && !IsWhite(rest[0])
    ensures ParseMembers(s, acc) ==
            if rest[0] == RBRACE then Read(Obj(acc[k := v]), rest[1..])
            else if rest[0] == COMMA then ParseMembers(rest[1..], acc[k := v])
            else Fail
  {
    assert SkipWhite(s) == s && SkipWhite(after) == after && SkipWhite(rest) == rest;
  }

  /** The first member of an object's text, read up to what follows its value. */
  lemma {:induction false} ParseMemberStep(m: map<Str, Value>, k: Str, acc: map<Str, Value>, rest: Str)
    requires k in m && rest != [] && !IsWhite(rest[0])
    requires ParseValue(Print(m[k]) + rest) == Read(m[k], rest)
    ensures ParseMembers(MemberText(m, k) + rest, acc) ==
            if rest[0] == RBRACE then Read(Obj(acc[k := m[k]]), rest[1..])
            else if rest[0] == COMMA then ParseMembers(rest[1..], acc[k := m[k]])
            else Fail
  {
    hide ParseMembers;
    hide ParseValue;
    hide ParseChars;
    hide Print;
    hide Escaped;
    var text := Print(m[k]) + rest;
    var after := [COLON] + text;
    assert MemberText(m, k) + rest == Stringify(k) + after;
    ParseStringify(k, after);
    SplitHead(COLON, text);
    MembersRound(Stringify(k) + after, k, after, m[k], rest, acc);
  }

  lemma {:induction false} ParseMembersBack(v: Value, keys: seq<Str>, acc: map<Str, Value>, rest: Str)
    requires v.Obj? && !HasUndefined(v)
    requires keys != [] && Covers(v.members, acc, keys)
    ensures ParseMembers(Join(MemberTexts(v.members, keys), [COMMA]) + ([RBRACE] + rest), acc) == Read(v, rest)
    decreases v, 0, |keys|
  {
    var m, k := v.members, keys[0];
    var texts := MemberTexts(m, keys);
    var close := [RBRACE] + rest;
    CoversNext(m, acc, keys);
    if |keys| == 1 {
      ParseBack(m[k], close);
      ParseMemberStep(m, k, acc, close);
      SplitHead(RBRACE, rest);
    } else {
      var more := Join(texts[1..], [COMMA]) + close;
      assert texts[1..] == MemberTexts(m, keys[1..]);
      JoinFirst(texts, [COMMA], close);
      SplitHead(COMMA, more);
      ParseBack(m[k], [COMMA] + more);
      ParseMemberStep(m, k, acc, [COMMA] + more);
      ParseMembersBack(v, keys[1..], acc[k := m[k]], rest);
    }
  }

  lemma {:induction false} JoinSolid(parts: seq<Str>, tail: Str)
    requires parts != [] && Solid(parts[0])
    ensures Solid(Join(parts, [COMMA]) + tail)
  {
  }

  lemma {:induction false} ParseArrBack(items: seq<Value>, rest: Str)
    requires forall i | 0 <= i < |items| :: !HasUndefined(items[i])
    ensures ParseValue(Print(Arr(items)) + rest) == Read(Arr(items), rest)
    decreases items, 2
  {
    var inner := Join(ItemTexts(items), [COMMA]) + ([RBRACKET] + rest);
    PrintArr(items);
    var s := [LBRACKET] + inner;
    assert Print(Arr(items)) + rest == s;
    assert s[0] == LBRACKET && s[1..] == inner && SkipWhite(s) == s;
    if items == [] {
      assert inner == [RBRACKET] + rest;
      SplitHead(RBRACKET, rest);
      assert !IsWhite(inner[0]);
      assert SkipWhite(inner) == inner;
    } else {
      PrintSolid(items[0]);
      JoinSolid(ItemTexts(items), [RBRACKET] + rest);
      ParseItemsBack(items, [], rest);
      assert [] + items == items;
    }
  }

  lemma {:induction false} ParseObjBack(v: Value, rest: Str)
    requires v.Obj? && !HasUndefined(v)
    ensures ParseValue(Print(v) + rest) == Read(v, rest)
    decreases v, 1, 0
  {
    var m := v.members;
    var keys := Keys(m);
    var inner := Join(MemberTexts(m, keys), [COMMA]) + ([RBRACE] + rest);
    PrintObj(m);
    var s := [LBRACE] + inner;
    assert Print(v) + rest == s;
    assert s[0] == LBRACE && s[1..] == inner && SkipWhite(s) == s;
    if keys == [] {
      forall k ensures k !in m { if k in m { var i := KeyIndex(m.Keys, k); } }
      assert m == map[];
      assert inner == [RBRACE] + rest;
      SplitHead(RBRACE, rest);
    } else {
      JoinSolid(MemberTexts(m, keys), [RBRACE] + rest);
      forall k | k in m ensures k in keys { var i := KeyIndex(m.Keys, k); }
      ParseMembersBack(v, keys, map[], rest);
    }
  }

  /** Reading back the text of any value, whatever non-digit follows it. */
  lemma {:induction false} ParseBack(v: Value, rest: Str)
    requires !HasUndefined(v)
    requires NoDigitFirst(rest)
    ensures ParseValue(Print(v) + rest) == Read(v, rest)
    decreases v, 2, 0
  {
    match v
    case Arr(items) => ParseArrBack(items, rest);
    case Obj(_) => ParseObjBack(v, rest);
    case _ => ParseAtom(v, rest);
  }

  /** Canonical text parses back to the value it was printed from. */
  lemma {:induction false} RoundTrip(v: Value)
    requires !HasUndefined(v)
    ensures Parse(Print(v)) == Ok(v)
  {
    ParseBack(v, []);
    assert Print(v) + [] == Print(v);
  }

  /** Equal canonical bytes mean equal values. */
  lemma {:induction false} PrintInjective(v: Value, w: Value)
    requires !HasUndefined(v) && !HasUndefined(w)
    ensures Print(v) == Print(w) <==> v == w
  {
    RoundTrip(v);
    RoundTrip(w);
  }
}
