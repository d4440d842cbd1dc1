/**
  cedarPolicyToTuples of src/adapters/ibac-cedar.ts: the permit pattern of each
  statement together with the constraints of its `when` clause.
 */
module CedarPolicy {
  import opened Text
  import opened Cedar

  const LESS: Unit := 0x3C
  const EQUAL: Unit := 0x3D
  const GREATER: Unit := 0x3E
  const BRACE: Unit := 0x7B
  const COMMA_UNIT: Unit := 0x2C
  const UNDERSCORE: Unit := 0x5F
  const WHEN: Str := Ascii("when")
  const PROTO: Str := Ascii("__proto__")

  /** `Numeric(raw)` is the number that JavaScript reads from `raw`; any other text is kept without its quotes. */
  datatype Scalar = Numeric(raw: Str) | Words(text: Str)
  datatype IbacTuple = IbacTuple(permit: Tuple, constraints: Option<map<Str, Scalar>>)

  /** Whether JavaScript reads a text as a number. */
  type NumberTest = Str -> bool

  // --- One comparison --------------------------------------------------------

  /** One of `<=`, `>=`, `==`, `<`, `>` stands at `i`. */
  predicate OperatorAt(s: Str, i: nat) {
    i < |s| && (s[i] == LESS || s[i] == GREATER || (s[i] == EQUAL && i + 1 < |s| && s[i + 1] == EQUAL))
  }

  /** The first place where an operator stands, or the length of the text. */
  function FirstOperator(s: Str): (i: nat)
    ensures i <= |s| && (i < |s| <==> exists j :: OperatorAt(s, j))
    ensures i < |s| ==> OperatorAt(s, i)
    ensures forall j: nat | j < i :: !OperatorAt(s, j)
  {
    OperatorFrom(s, 0)
  }

  function OperatorFrom(s: Str, from: nat): (i: nat)
    requires from <= |s|
    ensures from <= i <= |s|
    ensures i < |s| ==> OperatorAt(s, i)
    ensures forall j: nat | from <= j < i :: !OperatorAt(s, j)
    decreases |s| - from
  {
    if from == |s| || OperatorAt(s, from) then from else OperatorFrom(s, from + 1)
  }

  /** An equals sign after its first character belongs to the operator. */
  function OperatorLength(s: Str, i: nat): nat { if i + 1 < |s| && s[i + 1] == EQUAL then 2 else 1 }

  const OPERATORS: seq<Str> := [[LESS, EQUAL], [GREATER, EQUAL], [EQUAL, EQUAL], [LESS], [GREATER]]

  lemma {:induction false} OperatorsAt(s: Str, i: nat)
    ensures OperatorAt(s, i) <==> exists k | 0 <= k < |OPERATORS| :: At(s, OPERATORS[k], i)
    ensures forall k | 0 <= k < 3 && At(s, OPERATORS[k], i) :: OperatorLength(s, i) == 2
    ensures OperatorAt(s, i) && OperatorLength(s, i) == 2 ==> exists k | 0 <= k < 3 :: At(s, OPERATORS[k], i)
  {
    forall k | 0 <= k < 3
      ensures At(s, OPERATORS[k], i) <==> i + 1 < |s| && s[i] == OPERATORS[k][0] && s[i + 1] == EQUAL
    {
      if i + 1 < |s| { assert s[i..i + 2] == [s[i], s[i + 1]]; }
    }
    forall k | 3 <= k < 5 ensures At(s, OPERATORS[k], i) <==> i < |s| && s[i] == OPERATORS[k][0] {
      if i < |s| { assert s[i..i + 1] == [s[i]]; }
    }
    if OperatorAt(s, i) {
      if i + 1 < |s| && s[i + 1] == EQUAL {
        var k := if s[i] == LESS then 0 else if s[i] == GREATER then 1 else 2;
        assert At(s, OPERATORS[k], i);
      } else {
        assert At(s, OPERATORS[if s[i] == LESS then 3 else 4], i);
      }
    }
  }

  /** The search over all operators finds the first place where one stands, and the longest one there. */
  method FindOperator(s: Str) returns (opIndex: int, opFound: Str)
    ensures if opIndex == -1 then FirstOperator(s) == |s|
            else opIndex == FirstOperator(s) < |s| && |opFound| == OperatorLength(s, opIndex) && At(s, opFound, opIndex)
  {
    opIndex, opFound := -1, [];
    ghost var m := 0;
    for k := 0 to |OPERATORS|
      invariant opIndex == -1 ==> forall l, j: nat | 0 <= l < k :: !At(s, OPERATORS[l], j)
      invariant opIndex != -1 ==> 0 <= opIndex && 0 <= m < k && opFound == OPERATORS[m] && At(s, opFound, opIndex)
      invariant opIndex != -1 ==> forall l, j: nat | 0 <= l < k && j < opIndex :: !At(s, OPERATORS[l], j)
      invariant opIndex != -1 ==> forall l | 0 <= l < m :: !At(s, OPERATORS[l], opIndex)
    {
      var idx := IndexOf(s, OPERATORS[k], 0);
      if idx != -1 && (opIndex == -1 || idx < opIndex) {
        opIndex, opFound, m := idx, OPERATORS[k], k;
      }
    }
    if opIndex == -1 {
      forall j: nat ensures !OperatorAt(s, j) { OperatorsAt(s, j); }
    } else {
      forall j: nat | j <= opIndex ensures OperatorAt(s, j) <==> j == opIndex { OperatorsAt(s, j); }
      OperatorsAt(s, opIndex);
    }
  }

  // --- A pair and its binding ------------------------------------------------

  predicate WordUnit(u: Unit) {
    0x41 <= u <= 0x5A || 0x61 <= u <= 0x7A || 0x30 <= u <= 0x39 || u == UNDERSCORE
  }

  predicate Word(s: Str) { s != [] && forall i | 0 <= i < |s| :: WordUnit(s[i]) }

  function WithoutQuotes(s: Str): Str {
    if s == [] then [] else (if s[0] == QUOTE then [] else [s[0]]) + WithoutQuotes(s[1..])
  }

  function ScalarOf(isNumber: NumberTest, raw: Str): Scalar {
    if isNumber(raw) then Numeric(raw) else Words(WithoutQuotes(raw))
  }

  /** The key and value of `key op value`; the key must be a word and the value not empty. */
  function Binding(isNumber: NumberTest, pair: Str): Option<(Str, Scalar)> {
    var i := FirstOperator(pair);
    if i == |pair| then None
    else
      var key, raw := Trim(pair[..i]), Trim(pair[i + OperatorLength(pair, i)..]);
      if Word(key) && raw != [] then Some((key, ScalarOf(isNumber, raw))) else None
  }

  /** The pair sets this key; setting `__proto__` to a number or a string has no effect. */
  predicate Binds(isNumber: NumberTest, pair: Str, key: Str) {
    var b := Binding(isNumber, Trim(pair)); b.Some? && b.value.0 == key && key != PROTO
  }

  ghost predicate LastToBind(isNumber: NumberTest, pairs: seq<Str>, key: Str, i: nat)
    requires i < |pairs|
  {
    Binds(isNumber, pairs[i], key) && forall j | i < j < |pairs| :: !Binds(isNumber, pairs[j], key)
  }

  function ConstraintMap(isNumber: NumberTest, pairs: seq<Str>): map<Str, Scalar> {
    if pairs == [] then map[]
    else
      var n := |pairs| - 1;
      var before, b := ConstraintMap(isNumber, pairs[..n]), Binding(isNumber, Trim(pairs[n]));
      if b.Some? && b.value.0 != PROTO then before[b.value.0 := b.value.1] else before
  }

  /** A key is set exactly when some pair sets it, and then to the value of the last such pair. */
  lemma {:induction false} LastPairWins(isNumber: NumberTest, pairs: seq<Str>, key: Str)
    ensures key in ConstraintMap(isNumber, pairs) <==> exists i | 0 <= i < |pairs| :: Binds(isNumber, pairs[i], key)
    ensures forall i | 0 <= i < |pairs| && LastToBind(isNumber, pairs, key, i) ::
              ConstraintMap(isNumber, pairs)[key] == Binding(isNumber, Trim(pairs[i])).value.1
    decreases |pairs|
  {
    hide Binding;
    hide Trim;
    if pairs == [] {
    } else {
      var n := |pairs| - 1;
      LastPairWins(isNumber, pairs[..n], key);
      MapAfterLast(isNumber, pairs, key);
      hide Binds;
      hide ConstraintMap;
      assert forall i | 0 <= i < n :: pairs[..n][i] == pairs[i];
      forall i | 0 <= i < n && LastToBind(isNumber, pairs, key, i) ensures LastToBind(isNumber, pairs[..n], key, i) {}
    }
  }

  /** The last pair sets its own key and leaves every other as it was. */
  lemma {:induction false} MapAfterLast(isNumber: NumberTest, pairs: seq<Str>, key: Str)
    requires pairs != []
    ensures var n := |pairs| - 1;
            var before, after := ConstraintMap(isNumber, pairs[..n]), ConstraintMap(isNumber, pairs);
            if Binds(isNumber, pairs[n], key) then
              key in after && after[key] == Binding(isNumber, Trim(pairs[n])).value.1
            else (key in after <==> key in before) && (key in before ==> after[key] == before[key])
  {
    hide Binding;
    hide Trim;
  }

  // --- The when clause -------------------------------------------------------

  const CLOSING: Unit := 0x7D

  function ClosingIndex(s: Str): (i: nat)
    ensures i <= |s| && (forall j | 0 <= j < i :: s[j] != CLOSING) && (i < |s| ==> s[i] == CLOSING)
  {
    if s == [] || s[0] == CLOSING then 0 else 1 + ClosingIndex(s[1..])
  }

  /** The text between the braces of a clause at the front of `s`; it must not be empty. */
  function WhenHere(s: Str): Option<Str> {
    var a := Literal(s, WHEN);
    if a.None? then None
    else
      var b := Next(a.value, [BRACE]);
      if b.None? then None
      else
        var n := ClosingIndex(b.value);
        if n == 0 || n == |b.value| then None else Some(b.value[..n])
  }

  /** The leftmost clause of a line. */
  function FindWhen(line: Str): Option<Str> {
    if WhenHere(line).Some? then WhenHere(line)
    else if line == [] then None
    else FindWhen(line[1..])
  }

  /** The constraints of a line; None when there is no clause or nothing in it can be read. */
  function Constraints(isNumber: NumberTest, line: Str): Option<map<Str, Scalar>> {
    var clause := FindWhen(line);
    if clause.None? then None
    else
      var m := ConstraintMap(isNumber, Split(clause.value, COMMA_UNIT));
      if m == map[] then None else Some(m)
  }

  method ParsePair(isNumber: NumberTest, pair: Str) returns (b: Option<(Str, Scalar)>)
    ensures b == Binding(isNumber, pair)
  {
    hide Trim;
    var opIndex, opFound := FindOperator(pair);
    if opIndex == -1 { return None; }
    var key, rawVal := Trim(pair[..opIndex]), Trim(pair[opIndex + |opFound|..]);
    if !Word(key) || rawVal == [] { return None; }
    return Some((key, ScalarOf(isNumber, rawVal)));
  }

  method ParseConstraints(isNumber: NumberTest, line: Str) returns (r: Option<map<Str, Scalar>>)
    ensures r == Constraints(isNumber, line)
  {
    hide FindWhen;
    hide Binding;
    var clause := FindWhen(line);
    if clause.None? { return None; }
    var pairs := Split(clause.value, COMMA_UNIT);
    var constraints: map<Str, Scalar> := map[];
    for i := 0 to |pairs|
      invariant constraints == ConstraintMap(isNumber, pairs[..i])
    {
      assert pairs[..i + 1][..i] == pairs[..i];
      var pair := Trim(pairs[i]);
      if pair == [] {
        NothingBinds(isNumber);
        continue;
      }
      var b := ParsePair(isNumber, pair);
      if b.Some? && b.value.0 != PROTO { constraints := constraints[b.value.0 := b.value.1]; }
    }
    assert pairs[..|pairs|] == pairs;
    return if constraints == map[] then None else Some(constraints);
  }

  lemma {:induction false} NothingBinds(isNumber: NumberTest)
    ensures Binding(isNumber, []).None?
  {
  }

  // --- The whole policy ------------------------------------------------------

  /** What one piece between semicolons contributes. */
  function PieceTuples(isNumber: NumberTest): Str -> seq<IbacTuple> {
    piece =>
      var line := Trim(piece);
      if line == [] || FindPermit(line).None? then []
      else [IbacTuple(FindPermit(line).value, Constraints(isNumber, line))]
  }

  function ParsedPolicy(isNumber: NumberTest, policy: Str): seq<IbacTuple> {
    FlatMap(Split(policy, SEMICOLON), PieceTuples(isNumber))
  }

  method CedarPolicyToTuples(isNumber: NumberTest, policy: Str) returns (tuples: seq<IbacTuple>)
    ensures tuples == ParsedPolicy(isNumber, policy)
  {
    hide FindPermit;
    hide Constraints;
    hide Trim;
    var pieces := Split(policy, SEMICOLON);
    tuples := [];
    for i := 0 to |pieces|
      invariant tuples == FlatMap(pieces[..i], PieceTuples(isNumber))
    {
      FlatMapNext(pieces, PieceTuples(isNumber), i);
      var line := Trim(pieces[i]);
      if line == [] { continue; }
      var found := FindPermit(line);
      if found.None? { continue; }
      var constraints := ParseConstraints(isNumber, line);
      tuples := tuples + [IbacTuple(found.value, constraints)];
    }
    assert pieces[..|pieces|] == pieces;
  }

  function Permits(tuples: seq<IbacTuple>): seq<Tuple> {
    seq(|tuples|, i requires 0 <= i < |tuples| => tuples[i].permit)
  }

  /** Constraints aside, the parser yields the leftmost permit pattern of each piece. */
  lemma {:induction false} PermitsAreTuples(isNumber: NumberTest, pieces: seq<Str>)
    ensures Permits(FlatMap(pieces, PieceTuples(isNumber))) == TuplesOf(pieces)
    decreases |pieces|
  {
    hide FindPermit;
    hide Constraints;
    hide Trim;
    if pieces == [] {
    } else {
      var n := |pieces| - 1;
      PermitsAreTuples(isNumber, pieces[..n]);
      TuplesSnoc(pieces[..n], pieces[n]);
      assert pieces[..n] + [pieces[n]] == pieces;
    }
  }

  // --- Printed policies carry no constraints ---------------------------------

  lemma {:induction false} NoBraceNoClause(line: Str)
    requires BRACE !in line
    ensures FindWhen(line).None?
    decreases |line|
  {
    assert WhenHere(line).None? by {
      if Literal(line, WHEN).Some? { NextIsWithin(line[|WHEN|..], BRACE); }
    }
    if line == [] {
    } else {
      NoBraceNoClause(line[1..]);
    }
  }

  lemma {:induction false} NextIsWithin(s: Str, u: Unit)
    ensures Next(s, [u]).Some? ==> u in s
  {
    SkipSpaceWithin(s);
    if Next(s, [u]).Some? { assert SkipSpace(s)[0] == u; }
  }

  lemma {:induction false} SkipSpaceWithin(s: Str)
    ensures forall u | u in SkipSpace(s) :: u in s
    decreases |s|
  {
    if s == [] || !IsSpace(s[0]) {
    } else {
      SkipSpaceWithin(s[1..]);
    }
  }

  lemma {:induction false} TrimEndWithin(s: Str)
    ensures forall u | u in TrimEnd(s) :: u in s
    decreases |s|
  {
    if s == [] || !IsSpace(s[|s| - 1]) {
    } else {
      TrimEndWithin(s[..|s| - 1]);
    }
  }

  lemma {:induction false} PiecesWithin(s: Str, c: Unit, piece: Str)
    requires piece in Split(s, c)
    ensures forall u | u in piece :: u in s
  {
    var parts := Split(s, c);
    var i :| 0 <= i < |parts| && parts[i] == piece;
    JoinSplit(s, c);
    PartWithin(parts, [c], i);
  }

  lemma {:induction false} PartWithin(parts: seq<Str>, sep: Str, i: nat)
    requires i < |parts|
    ensures forall u | u in parts[i] :: u in Join(parts, sep)
    decreases |parts|
  {
    if |parts| == 1 || i == 0 {
    } else {
      PartWithin(parts[1..], sep, i - 1);
    }
  }

  /** A policy without an opening brace gives every tuple without constraints. */
  lemma {:induction false} NoBraceNoConstraints(isNumber: NumberTest, policy: Str, i: nat)
    requires BRACE !in policy && i < |ParsedPolicy(isNumber, policy)|
    ensures ParsedPolicy(isNumber, policy)[i].constraints.None?
  {
    hide FindPermit;
    hide FindWhen;
    hide ConstraintMap;
    var t := ParsedPolicy(isNumber, policy)[i];
    var piece := FlatMapFrom(Split(policy, SEMICOLON), PieceTuples(isNumber), t);
    PiecesWithin(policy, SEMICOLON, piece);
    SkipSpaceWithin(piece);
    TrimEndWithin(SkipSpace(piece));
    NoBraceNoClause(Trim(piece));
  }

  lemma {:induction false} WordsHaveNoBrace()
    ensures BRACE !in OPEN && BRACE !in PAREN && BRACE !in INDENT && BRACE !in COMMA && BRACE !in NEWLINE
    ensures BRACE !in CLOSE && BRACE !in PRINCIPAL && BRACE !in ACTION && BRACE !in RESOURCE
    ensures BRACE !in Ascii(" == ") && BRACE !in AGENT && BRACE !in TOOL && BRACE !in Ascii("\n\n")
    ensures BRACE !in Ascii(":*") && BRACE !in Ascii("*")
  {
  }

  lemma {:induction false} StatementHasNoBrace(principal: Str, action: Str, resource: Str)
    requires BRACE !in principal && BRACE !in action && BRACE !in resource
    ensures BRACE !in Statement(principal, action, resource)
  {
    WordsHaveNoBrace();
    assert BRACE !in Member(PRINCIPAL, principal) && BRACE !in Member(ACTION, action)
           && BRACE !in Member(RESOURCE, resource);
    hide Member;
  }

  lemma {:induction false} JoinWithin(parts: seq<Str>, sep: Str, u: Unit)
    requires u !in sep && forall p | p in parts :: u !in p
    ensures u !in Join(parts, sep)
    decreases |parts|
  {
    if |parts| <= 1 {
    } else {
      JoinWithin(parts[1..], sep, u);
    }
  }

  lemma {:induction false} ScopeHasNoBrace(agent: Str, scope: Str)
    requires BRACE !in agent && BRACE !in scope
    ensures BRACE !in ScopeStatement(agent, scope)
  {
    hide Statement;
    WordsHaveNoBrace();
    var parts := Split(scope, COLON);
    forall p | p in parts ensures BRACE !in p { PiecesWithin(scope, COLON, p); }
    if |parts| >= 3 { JoinWithin(parts[2..], [COLON], BRACE); }
    var (action, resource) := ActionAndResource(scope);
    assert BRACE !in action && BRACE !in resource;
    StatementHasNoBrace(AGENT + agent, action, resource);
  }

  lemma {:induction false} PrintedHasNoBrace(agent: Str, scopes: seq<Str>)
    requires BRACE !in agent && forall i | 0 <= i < |scopes| :: BRACE !in scopes[i]
    ensures BRACE !in DelegationToCedarPolicy(agent, scopes)
  {
    hide ScopeStatement;
    WordsHaveNoBrace();
    forall i | 0 <= i < |scopes| ensures BRACE !in Statements(agent, scopes)[i] { ScopeHasNoBrace(agent, scopes[i]); }
    JoinWithin(Statements(agent, scopes), [SEMICOLON] + Ascii("\n\n"), BRACE);
  }

  /** Parsing a printed intent gives back its scopes in order, and no tuple gains a constraint. */
  lemma {:induction false} FullRoundTrip(isNumber: NumberTest, agent: Str, actions: seq<Action>)
    requires Clean(agent) && forall i | 0 <= i < |actions| :: Printable(actions[i])
    requires BRACE !in agent
    requires forall i | 0 <= i < |actions| :: BRACE !in actions[i].verb && BRACE !in actions[i].resource
    ensures var parsed := ParsedPolicy(isNumber, DelegationToCedarPolicy(agent, IntentToScope(actions)));
            && TuplesToScope(Permits(parsed)) == IntentToScope(actions)
            && forall i | 0 <= i < |parsed| :: parsed[i].constraints.None?
  {
    hide ParsedPolicy;
    hide DelegationToCedarPolicy;
    hide Printable;
    hide Clean;
    var scopes := IntentToScope(actions);
    var policy := DelegationToCedarPolicy(agent, scopes);
    RoundTrip(agent, actions);
    assert Permits(ParsedPolicy(isNumber, policy)) == TuplesOf(Split(policy, SEMICOLON)) by {
      ParsedPermits(isNumber, policy);
    }
    forall i | 0 <= i < |actions| ensures BRACE !in scopes[i] { IntentHasNoBrace(actions[i]); }
    PrintedHasNoBrace(agent, scopes);
    forall i | 0 <= i < |ParsedPolicy(isNumber, policy)| ensures ParsedPolicy(isNumber, policy)[i].constraints.None? {
      NoBraceNoConstraints(isNumber, policy, i);
    }
  }

  lemma {:induction false} ParsedPermits(isNumber: NumberTest, policy: Str)
    ensures Permits(ParsedPolicy(isNumber, policy)) == TuplesOf(Split(policy, SEMICOLON))
  {
    PermitsAreTuples(isNumber, Split(policy, SEMICOLON));
  }

  lemma {:induction false} IntentHasNoBrace(a: Action)
    requires BRACE !in a.verb && BRACE !in a.resource
    ensures BRACE !in ScopeOf(a)
  {
    assert BRACE !in DATA_READ && BRACE !in DATA_WRITE && BRACE !in COMMS_SEND;
    assert BRACE !in ADMIN_DELETE && BRACE !in DATA_COLON;
    if KnownVerb(a.verb) { VerbTable(); }
  }
}
