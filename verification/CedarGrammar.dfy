/**
  The patterns of src/adapters/ibac-cedar.ts as a grammar: what each regular
  expression and each printed text is, spelled out, and that the readers of
  Cedar and CedarPolicy accept exactly that.
 */
module CedarGrammar {
  import opened Text
  import opened Cedar
  import opened CedarPolicy

  // --- White space -----------------------------------------------------------

  /** The units that `\s` matches. */
  lemma {:induction false} SpaceUnits(u: Unit)
    ensures IsSpace(u) <==>
            || u in {0x09, 0x0A, 0x0B, 0x0C, 0x0D, 0x20, 0xA0, 0x1680, 0x2000, 0x2001, 0x2002, 0x2003, 0x2004, 0x2005}
            || u in {0x2006, 0x2007, 0x2008, 0x2009, 0x200A, 0x2028, 0x2029, 0x202F, 0x205F, 0x3000, 0xFEFF}
  {
  }

  lemma {:induction false} SkipSpaceSplits(s: Str) returns (blank: Str)
    ensures Blank(blank) && s == blank + SkipSpace(s)
    ensures SkipSpace(s) == [] || !IsSpace(SkipSpace(s)[0])
  {
    if s == [] || !IsSpace(s[0]) {
      blank := [];
    } else {
      var more := SkipSpaceSplits(s[1..]);
      blank := [s[0]] + more;
    }
  }

  lemma {:induction false} TrimEndSplits(s: Str) returns (blank: Str)
    ensures Blank(blank) && s == TrimEnd(s) + blank
    ensures TrimEnd(s) == [] || !IsSpace(TrimEnd(s)[|TrimEnd(s)| - 1])
  {
    if s == [] || !IsSpace(s[|s| - 1]) {
      blank := [];
    } else {
      var more := TrimEndSplits(s[..|s| - 1]);
      blank := more + [s[|s| - 1]];
    }
  }

  /** Trimming cuts white space off both ends, and all of it. */
  lemma {:induction false} TrimMeans(s: Str) returns (left: Str, right: Str)
    ensures Blank(left) && Blank(right) && s == left + Trim(s) + right
    ensures var t := Trim(s); t == [] || (!IsSpace(t[0]) && !IsSpace(t[|t| - 1]))
  {
    left := SkipSpaceSplits(s);
    right := TrimEndSplits(SkipSpace(s));
    var t := Trim(s);
    hide SkipSpace;
    hide TrimEnd;
    assert t + right == SkipSpace(s);
    if t != [] { assert t[0] == SkipSpace(s)[0]; }
  }

  // --- The permit pattern ----------------------------------------------------

  /** White space, then `lit`, then `rest`. */
  ghost predicate Follows(s: Str, lit: Str, rest: Str) {
    exists blank | Blank(blank) :: s == blank + (lit + rest)
  }

  lemma {:induction false} NextMeans(s: Str, lit: Str, rest: Str)
    requires Solid(lit)
    ensures Next(s, lit) == Some(rest) <==> Follows(s, lit, rest)
  {
    if Next(s, lit) == Some(rest) {
      var blank := SkipSpaceSplits(s);
      assert SkipSpace(s) == lit + rest;
      assert s == blank + (lit + rest);
    }
    if blank :| Blank(blank) && s == blank + (lit + rest) { NextReads(blank, lit, rest); }
  }

  /** `name == "value"` with a non-empty value that holds no quote, white space allowed before each token. */
  ghost predicate MemberFollows(s: Str, name: Str, value: Str, rest: Str) {
    && value != [] && QUOTE !in value
    && exists a, b ::
         && Follows(s, name, a) && Follows(a, Ascii("=="), b)
         && Follows(b, Ascii("\""), value + (Ascii("\"") + rest))
  }

  lemma {:induction false} MemberMeans(s: Str, name: Str, value: Str, rest: Str)
    requires Solid(name)
    ensures ReadMember(s, name) == Some((value, rest)) <==> MemberFollows(s, name, value, rest)
  {
    hide Follows;
    hide Next;
    assert Ascii("\"") == [QUOTE] && EQUALS == Ascii("==") && Solid(EQUALS) && Solid([QUOTE]);
    hide Ascii;
    if ReadMember(s, name) == Some((value, rest)) {
      var a := Next(s, name).value;
      var b := Next(a, EQUALS).value;
      var c := Next(b, [QUOTE]).value;
      NextMeans(s, name, a);
      NextMeans(a, EQUALS, b);
      NextMeans(b, [QUOTE], c);
      var n := QuoteIndex(c);
      assert c == c[..n] + ([c[n]] + c[n + 1..]);
    }
    if MemberFollows(s, name, value, rest) {
      var a, b :| Follows(s, name, a) && Follows(a, EQUALS, b) && Follows(b, [QUOTE], value + ([QUOTE] + rest));
      NextMeans(s, name, a);
      NextMeans(a, EQUALS, b);
      NextMeans(b, [QUOTE], value + ([QUOTE] + rest));
      QuoteEnds(value, rest);
    }
  }

  /** The texts left after "permit", the parenthesis, and each member and comma in turn. */
  ghost predicate PermitSteps(s: Str, t: Tuple, x: seq<Str>) {
    && |x| == 8
    && s == Ascii("permit") + x[0] && Follows(x[0], Ascii("("), x[1])
    && MemberFollows(x[1], Ascii("principal"), t.principal, x[2]) && Follows(x[2], Ascii(","), x[3])
    && MemberFollows(x[3], Ascii("action"), t.action, x[4]) && Follows(x[4], Ascii(","), x[5])
    && MemberFollows(x[5], Ascii("resource"), t.resource, x[6]) && Follows(x[6], Ascii(")"), x[7])
  }

  lemma {:induction false} TokensSolid()
    ensures OPEN == Ascii("permit") && PAREN == Ascii("(") && CLOSE == Ascii(")") && COMMA == Ascii(",")
    ensures PRINCIPAL == Ascii("principal") && ACTION == Ascii("action") && RESOURCE == Ascii("resource")
    ensures Solid(PAREN) && Solid(CLOSE) && Solid(COMMA) && Solid(PRINCIPAL) && Solid(ACTION) && Solid(RESOURCE)
  {
  }

  /** The reader accepts exactly the texts that begin with the pattern, and reads its three values. */
  lemma {:induction false} PermitMeans(s: Str, t: Tuple)
    ensures PermitHere(s) == Some(t) <==> exists x :: PermitSteps(s, t, x)
  {
    if PermitHere(s) == Some(t) { var x := StepsOfPermit(s, t); }
    if x :| PermitSteps(s, t, x) { PermitOfSteps(s, t, x); }
  }

  lemma {:induction false} StepsOfPermit(s: Str, t: Tuple) returns (x: seq<Str>)
    requires PermitHere(s) == Some(t)
    ensures PermitSteps(s, t, x)
  {
    TokensSolid();
    hide Ascii;
    hide Follows;
    hide MemberFollows;
    hide ReadMember;
    hide Next;
    var x0 := Literal(s, OPEN).value;
    var x1 := Next(x0, PAREN).value;
    var x2 := ReadMember(x1, PRINCIPAL).value.1;
    var x3 := Next(x2, COMMA).value;
    var x4 := ReadMember(x3, ACTION).value.1;
    var x5 := Next(x4, COMMA).value;
    var x6 := ReadMember(x5, RESOURCE).value.1;
    var x7 := Next(x6, CLOSE).value;
    NextMeans(x0, PAREN, x1);
    MemberMeans(x1, PRINCIPAL, t.principal, x2);
    NextMeans(x2, COMMA, x3);
    MemberMeans(x3, ACTION, t.action, x4);
    NextMeans(x4, COMMA, x5);
    MemberMeans(x5, RESOURCE, t.resource, x6);
    NextMeans(x6, CLOSE, x7);
    x := [x0, x1, x2, x3, x4, x5, x6, x7];
  }

  lemma {:induction false} PermitOfSteps(s: Str, t: Tuple, x: seq<Str>)
    requires PermitSteps(s, t, x)
    ensures PermitHere(s) == Some(t)
  {
    TokensSolid();
    hide Ascii;
    hide Follows;
    hide MemberFollows;
    hide ReadMember;
    hide Next;
    assert s[|OPEN|..] == x[0];
    NextMeans(x[0], PAREN, x[1]);
    MemberMeans(x[1], PRINCIPAL, t.principal, x[2]);
    NextMeans(x[2], COMMA, x[3]);
    MemberMeans(x[3], ACTION, t.action, x[4]);
    NextMeans(x[4], COMMA, x[5]);
    MemberMeans(x[5], RESOURCE, t.resource, x[6]);
    NextMeans(x[6], CLOSE, x[7]);
  }

  /** The search finds the leftmost place where the pattern stands. */
  lemma {:induction false} FindPermitMeans(line: Str)
    ensures FindPermit(line).None? <==> forall k | 0 <= k <= |line| :: PermitHere(line[k..]).None?
    ensures forall k | 0 <= k <= |line| && PermitHere(line[k..]).Some?
            && (forall j | 0 <= j < k :: PermitHere(line[j..]).None?) ::
              FindPermit(line) == PermitHere(line[k..])
    decreases |line|
  {
    hide PermitHere;
    assert line[0..] == line;
    if line == [] || PermitHere(line).Some? {
    } else {
      FindPermitMeans(line[1..]);
      assert forall k | 1 <= k <= |line| :: line[1..][k - 1..] == line[k..];
      assert forall k | 0 <= k <= |line[1..]| :: line[1..][k..] == line[k + 1..];
    }
  }

  // --- The when clause -------------------------------------------------------

  /** "when", white space, a brace, a non-empty text without a closing brace, a closing brace. */
  ghost predicate WhenFollows(s: Str, clause: Str, rest: Str) {
    && clause != [] && 0x7D !in clause
    && exists a :: s == Ascii("when") + a && Follows(a, Ascii("{"), clause + (Ascii("}") + rest))
  }

  lemma {:induction false} WhenMeans(s: Str, clause: Str)
    ensures WhenHere(s) == Some(clause) <==> exists rest :: WhenFollows(s, clause, rest)
  {
    hide Follows;
    hide Next;
    assert Ascii("{") == [BRACE] && Ascii("}") == [CLOSING] && WHEN == Ascii("when") && Solid([BRACE]);
    hide Ascii;
    if WhenHere(s) == Some(clause) {
      var a := Literal(s, WHEN).value;
      var b := Next(a, [BRACE]).value;
      NextMeans(a, [BRACE], b);
      var n := ClosingIndex(b);
      assert b == clause + ([b[n]] + b[n + 1..]);
      assert s == WHEN + a;
      assert WhenFollows(s, clause, b[n + 1..]);
    }
    if rest :| WhenFollows(s, clause, rest) {
      var a :| s == WHEN + a && Follows(a, [BRACE], clause + ([CLOSING] + rest));
      var b := clause + ([CLOSING] + rest);
      NextMeans(a, [BRACE], b);
      assert s[|WHEN|..] == a;
      assert b[|clause|] == CLOSING && forall j | 0 <= j < |clause| :: b[j] == clause[j] && clause[j] in clause;
      assert ClosingIndex(b) == |clause| && b[..|clause|] == clause;
    }
  }

  /** The search finds the leftmost clause. */
  lemma {:induction false} FindWhenMeans(line: Str)
    ensures FindWhen(line).None? <==> forall k | 0 <= k <= |line| :: WhenHere(line[k..]).None?
    ensures forall k | 0 <= k <= |line| && WhenHere(line[k..]).Some?
            && (forall j | 0 <= j < k :: WhenHere(line[j..]).None?) ::
              FindWhen(line) == WhenHere(line[k..])
    decreases |line|
  {
    hide WhenHere;
    assert line[0..] == line;
    if line == [] || WhenHere(line).Some? {
    } else {
      FindWhenMeans(line[1..]);
      assert forall k | 1 <= k <= |line| :: line[1..][k - 1..] == line[k..];
      assert forall k | 0 <= k <= |line[1..]| :: line[1..][k..] == line[k + 1..];
    }
  }

  // --- Comparisons -----------------------------------------------------------

  /** One of the five operators stands at `i`. */
  ghost predicate Compares(s: Str, i: nat) {
    || At(s, Ascii("<="), i) || At(s, Ascii(">="), i) || At(s, Ascii("=="), i)
    || At(s, Ascii("<"), i) || At(s, Ascii(">"), i)
  }

  /** `left`, the first operator of the text, taken as long as possible, and `right`. */
  ghost predicate Comparison(s: Str, left: Str, op: Str, right: Str) {
    && s == left + op + right && op in {Ascii("<="), Ascii(">="), Ascii("=="), Ascii("<"), Ascii(">")}
    && (forall j | 0 <= j < |left| :: !Compares(s, j))
    && (|op| == 1 ==> right == [] || right[0] != 0x3D)
  }

  lemma {:induction false} ComparesMeans(s: Str, i: nat)
    ensures OperatorAt(s, i) <==> Compares(s, i)
  {
    assert Ascii("<=") == [LESS, EQUAL] && Ascii(">=") == [GREATER, EQUAL] && Ascii("==") == [EQUAL, EQUAL];
    assert Ascii("<") == [LESS] && Ascii(">") == [GREATER];
    if i < |s| { assert s[i..i + 1] == [s[i]]; }
    if i + 1 < |s| { assert s[i..i + 2] == [s[i], s[i + 1]]; }
  }

  /** Where a comparison is cut. */
  lemma {:induction false} ComparisonCut(s: Str, left: Str, op: Str, right: Str)
    requires Comparison(s, left, op, right)
    ensures FirstOperator(s) == |left| < |s| && OperatorLength(s, |left|) == |op|
    ensures s[..|left|] == left && s[|left| + |op|..] == right
  {
    assert s[|left|..|left| + |op|] == op;
    assert Compares(s, |left|);
    forall j | 0 <= j <= |left| ensures OperatorAt(s, j) <==> j == |left| { ComparesMeans(s, j); }
    hide Compares;
    assert OperatorAt(s, |left|) && FirstOperator(s) == |left|;
    OperatorSizes();
    hide Ascii;
    hide OperatorAt;
    if |op| == 2 {
      assert s[|left| + 1] == op[1];
    } else if right != [] {
      assert s[|left| + 1] == right[0];
    }
  }

  lemma {:induction false} OperatorSizes()
    ensures forall op: Str | op in {Ascii("<="), Ascii(">="), Ascii("==")} :: |op| == 2 && op[1] == EQUAL
    ensures forall op: Str | op in {Ascii("<"), Ascii(">")} :: |op| == 1
  {
  }

  /** And every text with an operator in it is one. */
  lemma {:induction false} CutComparison(s: Str) returns (left: Str, op: Str, right: Str)
    requires FirstOperator(s) < |s|
    ensures Comparison(s, left, op, right) && |left| == FirstOperator(s)
  {
    var i := FirstOperator(s);
    var n := OperatorLength(s, i);
    left, op, right := s[..i], s[i..i + n], s[i + n..];
    assert Ascii("<=") == [LESS, EQUAL] && Ascii(">=") == [GREATER, EQUAL] && Ascii("==") == [EQUAL, EQUAL];
    assert Ascii("<") == [LESS] && Ascii(">") == [GREATER];
    hide Ascii;
    forall j | 0 <= j < i ensures !Compares(s, j) { ComparesMeans(s, j); }
    hide Compares;
    if n == 2 { assert op == [s[i], s[i + 1]]; } else { assert op == [s[i]]; }
  }

  /** A pair binds its key exactly when it is a comparison of a word with something that is not blank. */
  lemma {:induction false} BindingMeans(isNumber: NumberTest, pair: Str, key: Str, value: Scalar)
    ensures Binding(isNumber, pair) == Some((key, value)) <==>
            exists left, op, right | Comparison(pair, left, op, right) ::
              && key == Trim(left) && Word(key) && Trim(right) != []
              && value == if isNumber(Trim(right)) then Numeric(Trim(right)) else Words(WithoutQuotes(Trim(right)))
  {
    hide Trim;
    hide Word;
    hide WithoutQuotes;
    if FirstOperator(pair) < |pair| {
      var left, op, right := CutComparison(pair);
      ComparisonCut(pair, left, op, right);
      assert Comparison(pair, left, op, right);
    }
    forall left, op, right | Comparison(pair, left, op, right)
      ensures FirstOperator(pair) == |left| < |pair| && pair[..|left|] == left
      ensures OperatorLength(pair, |left|) == |op| && pair[|left| + |op|..] == right
    {
      ComparisonCut(pair, left, op, right);
    }
    hide Comparison;
    hide FirstOperator;
    hide OperatorLength;
  }

  /** A pair of a clause sets a key when it binds it once trimmed; `__proto__` cannot be set. */
  lemma {:induction false} SettingMeans(isNumber: NumberTest, pair: Str, key: Str)
    ensures Binds(isNumber, pair, key) <==>
            key != Ascii("__proto__") && exists value :: Binding(isNumber, Trim(pair)) == Some((key, value))
  {
    hide Binding;
    hide Trim;
    var b := Binding(isNumber, Trim(pair));
    if b.Some? { assert b == Some((b.value.0, b.value.1)); }
  }

  /** The characters of a key. */
  lemma {:induction false} WordUnits(u: Unit)
    ensures WordUnit(u) <==>
            || u in Ascii("ABCDEFGHIJKLMNOPQRSTUVWXYZ") || u in Ascii("abcdefghijklmnopqrstuvwxyz")
            || u in Ascii("0123456789") || u in Ascii("_")
  {
    Uppercase(u);
    Lowercase(u);
    Digits(u);
    assert Ascii("_") == [UNDERSCORE];
    hide Ascii;
  }

  lemma {:induction false} Uppercase(u: Unit)
    ensures u in Ascii("ABCDEFGHIJKLMNOPQRSTUVWXYZ") <==> 0x41 <= u <= 0x5A
  {
    var upper := Ascii("ABCDEFGHIJKLMNOPQRSTUVWXYZ");
    assert forall i | 0 <= i < 26 :: upper[i] == 0x41 + i;
    if 0x41 <= u <= 0x5A { assert upper[u - 0x41] == u; }
  }

  lemma {:induction false} Lowercase(u: Unit)
    ensures u in Ascii("abcdefghijklmnopqrstuvwxyz") <==> 0x61 <= u <= 0x7A
  {
    var lower := Ascii("abcdefghijklmnopqrstuvwxyz");
    assert forall i | 0 <= i < 26 :: lower[i] == 0x61 + i;
    if 0x61 <= u <= 0x7A { assert lower[u - 0x61] == u; }
  }

  lemma {:induction false} Digits(u: Unit)
    ensures u in Ascii("0123456789") <==> 0x30 <= u <= 0x39
  {
    var digits := Ascii("0123456789");
    assert forall i | 0 <= i < 10 :: digits[i] == 0x30 + i;
    if 0x30 <= u <= 0x39 { assert digits[u - 0x30] == u; }
  }

  /** Dropping quotes keeps everything else, in order. */
  lemma {:induction false} WithoutQuotesMeans(a: Str, b: Str)
    ensures WithoutQuotes(a + b) == WithoutQuotes(a) + WithoutQuotes(b)
    ensures QUOTE !in a ==> WithoutQuotes(a) == a
    ensures WithoutQuotes(Ascii("\"")) == []
    decreases |a|
  {
    assert Ascii("\"") == [QUOTE] && [QUOTE][1..] == [];
    if a == [] {
      assert a + b == b;
    } else {
      WithoutQuotesMeans(a[1..], b);
      assert (a + b)[1..] == a[1..] + b;
      assert a == [a[0]] + a[1..];
    }
  }

  // --- One piece of a policy -------------------------------------------------

  /** A piece contributes a tuple exactly when the pattern stands in it once trimmed, with the constraints of its
      clause. */
  lemma {:induction false} PieceMeans(isNumber: NumberTest, piece: Str)
    ensures var line := Trim(piece);
            PieceTuples(isNumber)(piece) ==
            if FindPermit(line).None? then []
            else [IbacTuple(FindPermit(line).value, Constraints(isNumber, line))]
  {
    hide Constraints;
    hide Trim;
    if Trim(piece) == [] { NothingPermits(); }
  }

  lemma {:induction false} NothingPermits()
    ensures FindPermit([]).None?
  {
  }

  /** Some pair sets a key. */
  ghost predicate SetsSomething(isNumber: NumberTest, pairs: seq<Str>) {
    exists i, key | 0 <= i < |pairs| :: Binds(isNumber, pairs[i], key)
  }

  lemma {:induction false} EmptyMapMeans(isNumber: NumberTest, pairs: seq<Str>)
    ensures ConstraintMap(isNumber, pairs) != map[] <==> SetsSomething(isNumber, pairs)
  {
    hide Binds;
    hide ConstraintMap;
    var m := ConstraintMap(isNumber, pairs);
    if key :| key in m {
      LastPairWins(isNumber, pairs, key);
      var i :| 0 <= i < |pairs| && Binds(isNumber, pairs[i], key);
    }
    if i, key :| 0 <= i < |pairs| && Binds(isNumber, pairs[i], key) {
      LastPairWins(isNumber, pairs, key);
      assert key in m;
    }
  }

  /** The constraints are those set by the comma-separated pairs of the leftmost clause, if any pair sets one. */
  lemma {:induction false} ConstraintsMean(isNumber: NumberTest, line: Str)
    ensures Constraints(isNumber, line) ==
            if FindWhen(line).None? then None
            else
              var pairs := Split(FindWhen(line).value, Ascii(",")[0]);
              if SetsSomething(isNumber, pairs) then Some(ConstraintMap(isNumber, pairs)) else None
  {
    assert Ascii(",")[0] == COMMA_UNIT;
    hide FindWhen;
    hide SetsSomething;
    hide ConstraintMap;
    if FindWhen(line).Some? { EmptyMapMeans(isNumber, Split(FindWhen(line).value, COMMA_UNIT)); }
  }

  // --- Printed texts ---------------------------------------------------------

  /** One statement, spelled out. */
  lemma {:induction false} StatementText(principal: Str, action: Str, resource: Str)
    ensures Statement(principal, action, resource) ==
            Ascii("permit(\n  principal == \"") + (principal + (Ascii("\",\n  action == \"") + (action +
            (Ascii("\",\n  resource == \"") + (resource + Ascii("\"\n)"))))))
  {
    PrintedTokens();
    PrintedEnd();
    PrintedAction();
    PrintedResource();
    hide Ascii;
    var z := NEWLINE + CLOSE;
    var y := COMMA + (INDENT + (Member(RESOURCE, resource) + z));
    var x := COMMA + (INDENT + (Member(ACTION, action) + y));
    MemberText(OPEN + PAREN, PRINCIPAL, principal, x);
    MemberText([QUOTE] + COMMA, ACTION, action, y);
    MemberText([QUOTE] + COMMA, RESOURCE, resource, z);
    hide Member;
    assert Statement(principal, action, resource) == OPEN + PAREN + (INDENT + (Member(PRINCIPAL, principal) + x));
    assert [QUOTE] + x == [QUOTE] + COMMA + (INDENT + (Member(ACTION, action) + y));
    assert [QUOTE] + y == [QUOTE] + COMMA + (INDENT + (Member(RESOURCE, resource) + z));
  }

  lemma {:induction false} PrintedTokens()
    ensures Ascii("permit(\n  principal == \"") == OPEN + PAREN + INDENT + PRINCIPAL + Ascii(" == ") + [QUOTE]
  {
    assert Ascii("permit(\n  ") == OPEN + PAREN + INDENT;
    assert Ascii("principal == \"") == PRINCIPAL + Ascii(" == ") + [QUOTE];
    assert Ascii("permit(\n  principal == \"") == Ascii("permit(\n  ") + Ascii("principal == \"");
    hide Ascii;
  }

  lemma {:induction false} PrintedEnd()
    ensures Ascii("\"\n)") == [QUOTE] + (NEWLINE + CLOSE)
  {
  }

  lemma {:induction false} PrintedAction()
    ensures Ascii("\",\n  action == \"") == [QUOTE] + COMMA + INDENT + ACTION + Ascii(" == ") + [QUOTE]
  {
  }

  lemma {:induction false} PrintedResource()
    ensures Ascii("\",\n  resource == \"") == [QUOTE] + COMMA + INDENT + RESOURCE + Ascii(" == ") + [QUOTE]
  {
  }

  lemma {:induction false} MemberText(pre: Str, name: Str, value: Str, post: Str)
    ensures pre + (INDENT + (Member(name, value) + post)) ==
            (pre + INDENT + name + Ascii(" == ") + [QUOTE]) + (value + ([QUOTE] + post))
  {
    hide Ascii;
  }

  /** The policy is the statements, one per scope in order, each ended by a semicolon, with a blank line between. */
  lemma {:induction false} PolicyText(agent: Str, scopes: seq<Str>)
    ensures var statements := Statements(agent, scopes);
            && DelegationToCedarPolicy(agent, scopes) == Join(statements, Ascii(";\n\n")) + Ascii(";")
            && |statements| == |scopes|
            && forall i | 0 <= i < |scopes| :: var (action, resource) := ActionAndResource(scopes[i]);
                 statements[i] == Statement(Ascii("agent:") + agent, action, resource)
  {
    assert Ascii(";") == [SEMICOLON] && Ascii(";\n\n") == [SEMICOLON] + Ascii("\n\n");
    hide Statement;
  }

  /** What a scope is printed as: its second part is the action, the rest, or a wildcard, the resource. */
  lemma {:induction false} ScopeParts(p: Str, v: Str, rest: Str)
    requires 0x3A !in p && 0x3A !in v
    ensures ActionAndResource(p + Ascii(":") + v + Ascii(":") + rest) == (Ascii("tool:") + v, rest)
    ensures ActionAndResource(p + Ascii(":") + v) == (Ascii("tool:") + v, p + Ascii(":*"))
    ensures ActionAndResource(v) == (Ascii("tool:") + v, Ascii("*"))
  {
    assert Ascii(":") == [COLON] && Ascii("tool:") == TOOL;
    ShortScopes(p, v);
    var tail := Split(rest, COLON);
    var parts := [p, v] + tail;
    JoinSplit(rest, COLON);
    assert parts[1..] == [v] + tail && parts[1..][1..] == tail && parts[2..] == tail;
    assert Join(parts, [COLON]) == p + [COLON] + v + [COLON] + rest;
    SplitJoin(parts, COLON);
    hide Ascii;
  }

  /** The table of verbs; any other verb is a data scope of its own name. */
  lemma {:induction false} VerbPrefixes(verb: Str)
    ensures Prefix(Ascii("read")) == Ascii("data:read") && Prefix(Ascii("query")) == Ascii("data:read")
    ensures Prefix(Ascii("write")) == Ascii("data:write") && Prefix(Ascii("send")) == Ascii("comms:send")
    ensures Prefix(Ascii("delete")) == Ascii("admin:delete")
    ensures verb !in {Ascii("read"), Ascii("query"), Ascii("write"), Ascii("send"), Ascii("delete")} ==>
              Prefix(verb) == Ascii("data:") + verb
  {
    VerbTable();
    hide Ascii;
  }

  /** Scopes of actions and of tuples, spelled out. */
  lemma {:induction false} ScopeTexts(a: Action, p: Str, verb: Str)
    ensures ScopeOf(a) == Prefix(a.verb) + Ascii(":") + a.resource
    ensures TupleToScope(Tuple(p, Ascii("tool:") + verb, a.resource)) == Prefix(verb) + Ascii(":") + a.resource
    ensures !(Ascii("tool:") <= verb) ==>
              TupleToScope(Tuple(p, verb, a.resource)) == Prefix(verb) + Ascii(":") + a.resource
  {
    assert Ascii(":") == [COLON] && Ascii("tool:") == TOOL;
    assert (TOOL + verb)[|TOOL|..] == verb;
    hide Prefix;
  }

  /** Actions and tuples are mapped one by one, in order. */
  lemma {:induction false} MappedInOrder(actions: seq<Action>, tuples: seq<Tuple>)
    ensures |IntentToScope(actions)| == |actions| && |TuplesToScope(tuples)| == |tuples|
    ensures forall i | 0 <= i < |actions| :: IntentToScope(actions)[i] == ScopeOf(actions[i])
    ensures forall i | 0 <= i < |tuples| :: TuplesToScope(tuples)[i] == TupleToScope(tuples[i])
  {
  }
}
