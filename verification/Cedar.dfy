/**
  The Cedar bridge: the printer and the parser of src/adapters/ibac-cedar.ts and
  the verb mapping of src/adapters/ibac.ts.
 */
module Cedar {
  import opened Text

  const SEMICOLON: Unit := 0x3B
  const COLON: Unit := 0x3A
  const QUOTE: Unit := 0x22
  const TOOL: Str := Ascii("tool:")
  const READ: Str := Ascii("read")
  const QUERY: Str := Ascii("query")
  const WRITE: Str := Ascii("write")
  const SEND: Str := Ascii("send")
  const DELETE: Str := Ascii("delete")
  const DATA_READ: Str := Ascii("data:read")
  const DATA_WRITE: Str := Ascii("data:write")
  const COMMS_SEND: Str := Ascii("comms:send")
  const ADMIN_DELETE: Str := Ascii("admin:delete")
  const DATA: Str := Ascii("data")
  const COMMS: Str := Ascii("comms")
  const ADMIN: Str := Ascii("admin")
  const DATA_COLON: Str := Ascii("data:")
  const AGENT: Str := Ascii("agent:")

  datatype Tuple = Tuple(principal: Str, action: Str, resource: Str)

  // --- Verbs and scopes ------------------------------------------------------

  const VERB_PREFIX: map<Str, Str> := map[
    READ := DATA_READ,
    QUERY := DATA_READ,
    WRITE := DATA_WRITE,
    SEND := COMMS_SEND,
    DELETE := ADMIN_DELETE]

  function Prefix(verb: Str): Str {
    if verb in VERB_PREFIX then VERB_PREFIX[verb] else DATA_COLON + verb
  }

  datatype Action = Action(verb: Str, resource: Str)

  function ScopeOf(a: Action): Str { Prefix(a.verb) + [COLON] + a.resource }

  /** ibacIntentToScope. */
  function IntentToScope(actions: seq<Action>): seq<Str> {
    seq(|actions|, i requires 0 <= i < |actions| => ScopeOf(actions[i]))
  }

  /** The scope that ibacTuplesToDelegation gives a tuple: one leading "tool:" is dropped. */
  function TupleToScope(t: Tuple): Str {
    var verb := if TOOL <= t.action then t.action[|TOOL|..] else t.action;
    Prefix(verb) + [COLON] + t.resource
  }

  function TuplesToScope(ts: seq<Tuple>): seq<Str> {
    seq(|ts|, i requires 0 <= i < |ts| => TupleToScope(ts[i]))
  }

  // --- Printing --------------------------------------------------------------

  /** The action and resource that a scope stands for. */
  function ActionAndResource(scope: Str): (Str, Str) {
    var parts := Split(scope, COLON);
    if |parts| >= 3 then (TOOL + parts[1], Join(parts[2..], [COLON]))
    else if |parts| == 2 then (TOOL + parts[1], parts[0] + Ascii(":*"))
    else (TOOL + scope, Ascii("*"))
  }

  function Member(name: Str, value: Str): Str { name + Ascii(" == ") + [QUOTE] + value + [QUOTE] }

  const OPEN: Str := Ascii("permit")
  const PAREN: Str := Ascii("(")
  const CLOSE: Str := Ascii(")")
  const COMMA: Str := Ascii(",")
  const EQUALS: Str := Ascii("==")
  const INDENT: Str := Ascii("\n  ")
  const NEWLINE: Str := Ascii("\n")
  const PRINCIPAL: Str := Ascii("principal")
  const ACTION: Str := Ascii("action")
  const RESOURCE: Str := Ascii("resource")

  function Statement(principal: Str, action: Str, resource: Str): Str {
    OPEN + (PAREN + (INDENT + (Member(PRINCIPAL, principal) + (COMMA + (INDENT + (Member(ACTION, action) +
    (COMMA + (INDENT + (Member(RESOURCE, resource) + (NEWLINE + CLOSE))))))))))
  }

  function ScopeStatement(agent: Str, scope: Str): Str {
    var (action, resource) := ActionAndResource(scope);
    Statement(AGENT + agent, action, resource)
  }

  function Statements(agent: Str, scopes: seq<Str>): seq<Str> {
    seq(|scopes|, i requires 0 <= i < |scopes| => ScopeStatement(agent, scopes[i]))
  }

  /** delegationToCedarPolicy. */
  function DelegationToCedarPolicy(agent: Str, scopes: seq<Str>): Str {
    Join(Statements(agent, scopes), [SEMICOLON] + Ascii("\n\n")) + [SEMICOLON]
  }

  // --- Parsing ---------------------------------------------------------------

  /** The white space of `\s` and of `trim`. */
  predicate IsSpace(u: Unit) {
    || 0x09 <= u <= 0x0D || u == 0x20 || u == 0xA0 || u == 0x1680 || 0x2000 <= u <= 0x200A
    || u == 0x2028 || u == 0x2029 || u == 0x202F || u == 0x205F || u == 0x3000 || u == 0xFEFF
  }

  function SkipSpace(s: Str): Str {
    if s != [] && IsSpace(s[0]) then SkipSpace(s[1..]) else s
  }

  function TrimEnd(s: Str): Str {
    if s != [] && IsSpace(s[|s| - 1]) then TrimEnd(s[..|s| - 1]) else s
  }

  function Trim(s: Str): Str { TrimEnd(SkipSpace(s)) }

  /** Drops a literal at the front. */
  function Literal(s: Str, lit: Str): Option<Str> {
    if lit <= s then Some(s[|lit|..]) else None
  }

  /** White space, then a literal. */
  function Next(s: Str, lit: Str): Option<Str> { Literal(SkipSpace(s), lit) }

  function QuoteIndex(s: Str): (i: nat)
    ensures i <= |s|
    ensures forall j | 0 <= j < i :: s[j] != QUOTE
    ensures i < |s| ==> s[i] == QUOTE
  {
    if s == [] || s[0] == QUOTE then 0 else 1 + QuoteIndex(s[1..])
  }

  /** `name == "value"` with a non-empty value: the value and the unread text. */
  function ReadMember(s: Str, name: Str): Option<(Str, Str)> {
    var a := Next(s, name);
    if a.None? then None
    else
      var b := Next(a.value, EQUALS);
      if b.None? then None
      else
        var c := Next(b.value, [QUOTE]);
        if c.None? then None
        else
          var n := QuoteIndex(c.value);
          if n == 0 || n == |c.value| then None else Some((c.value[..n], c.value[n + 1..]))
  }

  /** The permit pattern matched at the front of `s`; its spaces and quotes leave nothing to backtrack over. */
  function PermitHere(s: Str): Option<Tuple> {
    var a := Literal(s, OPEN);
    if a.None? then None
    else
      var b := Next(a.value, PAREN);
      if b.None? then None
      else
        var principal := ReadMember(b.value, PRINCIPAL);
        if principal.None? then None
        else
          var c := Next(principal.value.1, COMMA);
          if c.None? then None
          else
            var action := ReadMember(c.value, ACTION);
            if action.None? then None
            else
              var d := Next(action.value.1, COMMA);
              if d.None? then None
              else
                var resource := ReadMember(d.value, RESOURCE);
                if resource.None? then None
                else if Next(resource.value.1, CLOSE).None? then None
                else Some(Tuple(principal.value.0, action.value.0, resource.value.0))
  }

  /** `line.match(...)`: the leftmost match. */
  function FindPermit(line: Str): Option<Tuple> {
    if PermitHere(line).Some? then PermitHere(line)
    else if line == [] then None
    else FindPermit(line[1..])
  }

  /** The tuples of the statements, in order; pieces that match nothing are skipped. */
  function TuplesOf(pieces: seq<Str>): seq<Tuple> {
    if pieces == [] then []
    else
      var found := FindPermit(Trim(pieces[0]));
      (if Trim(pieces[0]) != [] && found.Some? then [found.value] else []) + TuplesOf(pieces[1..])
  }

  lemma {:induction false} TuplesSnoc(pieces: seq<Str>, piece: Str)
    ensures var found := FindPermit(Trim(piece));
            TuplesOf(pieces + [piece]) ==
            TuplesOf(pieces) + if Trim(piece) != [] && found.Some? then [found.value] else []
  {
    hide FindPermit;
    hide Trim;
    if pieces == [] {
      assert pieces + [piece] == [piece];
    } else {
      TuplesSnoc(pieces[1..], piece);
      assert (pieces + [piece])[1..] == pieces[1..] + [piece];
    }
  }

  // --- Reading back one statement --------------------------------------------

  predicate Solid(s: Str) { s != [] && !IsSpace(s[0]) }

  predicate Blank(s: Str) { forall i | 0 <= i < |s| :: IsSpace(s[i]) }

  lemma {:induction false} SkipBlank(blank: Str, s: Str)
    requires Blank(blank) && Solid(s)
    ensures SkipSpace(blank + s) == s
  {
    if blank == [] {
      assert blank + s == s;
    } else {
      SkipBlank(blank[1..], s);
      assert (blank + s)[1..] == blank[1..] + s;
    }
  }

  lemma {:induction false} NextReads(blank: Str, lit: Str, rest: Str)
    requires Blank(blank) && Solid(lit)
    ensures Next(blank + (lit + rest), lit) == Some(rest)
  {
    SkipBlank(blank, lit + rest);
    assert (lit + rest)[|lit|..] == rest;
  }

  /** A value that the pattern can read back: not empty, no quote. */
  predicate Readable(value: Str) { value != [] && QUOTE !in value }

  /** Neither a quote nor a semicolon. */
  predicate Clean(s: Str) { QUOTE !in s && SEMICOLON !in s }

  lemma {:induction false} MemberReads(blank: Str, name: Str, value: Str, rest: Str)
    requires Blank(blank) && Solid(name) && Readable(value)
    ensures ReadMember(blank + (Member(name, value) + rest), name) == Some((value, rest))
  {
    var space := Ascii(" ");
    var quoted := value + ([QUOTE] + rest);
    var afterName := space + (EQUALS + (space + ([QUOTE] + quoted)));
    assert Ascii(" == ") == space + EQUALS + space;
    assert Member(name, value) + rest == name + afterName;
    NextReads(blank, name, afterName);
    NextReads(space, EQUALS, space + ([QUOTE] + quoted));
    NextReads(space, [QUOTE], quoted);
    QuoteEnds(value, rest);
  }

  lemma {:induction false} QuoteEnds(value: Str, rest: Str)
    requires QUOTE !in value
    ensures var s := value + ([QUOTE] + rest);
            QuoteIndex(s) == |value| && s[..|value|] == value && s[|value| + 1..] == rest
  {
    var s := value + ([QUOTE] + rest);
    assert forall j | 0 <= j < |value| :: s[j] == value[j];
    assert s[|value|] == QUOTE;
  }

  lemma {:induction false} StatementReads(principal: Str, action: Str, resource: Str)
    requires Readable(principal) && Readable(action) && Readable(resource)
    ensures PermitHere(Statement(principal, action, resource)) == Some(Tuple(principal, action, resource))
  {
    hide Member;
    hide ReadMember;
    hide Next;
    var end := NEWLINE + CLOSE;
    var third := INDENT + (Member(RESOURCE, resource) + end);
    var second := INDENT + (Member(ACTION, action) + (COMMA + third));
    var first := INDENT + (Member(PRINCIPAL, principal) + (COMMA + second));
    assert Statement(principal, action, resource) == OPEN + (PAREN + first);
    assert (OPEN + (PAREN + first))[|OPEN|..] == PAREN + first;
    NextReads([], PAREN, first);
    assert [] + (PAREN + first) == PAREN + first;
    MemberReads(INDENT, PRINCIPAL, principal, COMMA + second);
    NextReads([], COMMA, second);
    assert [] + (COMMA + second) == COMMA + second;
    MemberReads(INDENT, ACTION, action, COMMA + third);
    NextReads([], COMMA, third);
    assert [] + (COMMA + third) == COMMA + third;
    MemberReads(INDENT, RESOURCE, resource, end);
    NextReads(NEWLINE, CLOSE, []);
    assert NEWLINE + (CLOSE + []) == end;
  }

  // --- Reading back a policy -------------------------------------------------

  lemma {:induction false} TrimStatement(blank: Str, st: Str)
    requires Blank(blank) && Solid(st) && !IsSpace(st[|st| - 1])
    ensures Trim(blank + st) == st
  {
    SkipBlank(blank, st);
  }

  lemma {:induction false} TrimNothing()
    ensures Trim([]) == []
  {
  }

  /** The pieces between semicolons: every statement after the first is preceded by a blank line, and nothing follows
      the last. */
  function Pieces(statements: seq<Str>): seq<Str>
    requires statements != []
  {
    [statements[0]] +
    seq(|statements| - 1, i requires 0 <= i < |statements| - 1 => Ascii("\n\n") + statements[i + 1]) + [[]]
  }

  lemma {:induction false} PolicyIsJoined(statements: seq<Str>)
    requires statements != []
    ensures Join(statements, [SEMICOLON] + Ascii("\n\n")) + [SEMICOLON] == Join(Pieces(statements), [SEMICOLON])
  {
    var pieces := Pieces(statements);
    if |statements| == 1 {
      assert pieces == [statements[0], []];
      assert pieces[1..] == [[]];
    } else {
      var rest := statements[1..];
      PolicyIsJoined(rest);
      var more := Pieces(rest);
      assert pieces[1..] == [Ascii("\n\n") + more[0]] + more[1..];
      JoinLonger(Ascii("\n\n"), more, [SEMICOLON]);
      var sep := [SEMICOLON] + Ascii("\n\n");
      assert Join(statements, sep) + [SEMICOLON]
             == statements[0] + [SEMICOLON] + (Ascii("\n\n") + (Join(rest, sep) + [SEMICOLON]));
    }
  }

  /** Text that is one readable statement, so that its piece yields its tuple. */
  ghost predicate Yields(st: Str, t: Tuple) {
    && SEMICOLON !in st && Solid(st) && !IsSpace(st[|st| - 1]) && FindPermit(st) == Some(t)
  }

  lemma {:induction false} PieceYields(blank: Str, st: Str, t: Tuple)
    requires Blank(blank) && Yields(st, t)
    ensures Trim(blank + st) != [] && FindPermit(Trim(blank + st)) == Some(t)
  {
    TrimStatement(blank, st);
  }

  lemma {:induction false} TuplesOfPieces(pieces: seq<Str>, tuples: seq<Tuple>)
    requires |pieces| == |tuples| + 1 && pieces[|tuples|] == []
    requires forall i | 0 <= i < |tuples| :: Trim(pieces[i]) != [] && FindPermit(Trim(pieces[i])) == Some(tuples[i])
    ensures TuplesOf(pieces) == tuples
  {
    hide FindPermit;
    hide Trim;
    if tuples == [] {
      assert pieces == [[]] && pieces[1..] == [];
      TrimNothing();
    } else {
      TuplesOfPieces(pieces[1..], tuples[1..]);
      assert tuples == [tuples[0]] + tuples[1..];
    }
  }

  lemma {:induction false} WordsHaveNoSemicolon()
    ensures SEMICOLON !in OPEN && SEMICOLON !in PAREN && SEMICOLON !in INDENT && SEMICOLON !in COMMA
            && SEMICOLON !in NEWLINE
    ensures SEMICOLON !in CLOSE && SEMICOLON !in PRINCIPAL && SEMICOLON !in ACTION && SEMICOLON !in RESOURCE
    ensures SEMICOLON !in Ascii(" == ") && SEMICOLON !in AGENT && SEMICOLON !in TOOL
    ensures QUOTE !in AGENT && QUOTE !in TOOL
  {
  }

  lemma {:induction false} StatementHasNoSemicolon(principal: Str, action: Str, resource: Str)
    requires Clean(principal) && Clean(action) && Clean(resource)
    ensures SEMICOLON !in Statement(principal, action, resource)
  {
    WordsHaveNoSemicolon();
    MemberHasNoSemicolon(PRINCIPAL, principal);
    MemberHasNoSemicolon(ACTION, action);
    MemberHasNoSemicolon(RESOURCE, resource);
    hide Member;
  }

  lemma {:induction false} MemberHasNoSemicolon(name: Str, value: Str)
    requires SEMICOLON !in name && SEMICOLON !in value
    ensures SEMICOLON !in Member(name, value)
  {
    WordsHaveNoSemicolon();
  }

  lemma {:induction false} StatementYields(principal: Str, action: Str, resource: Str)
    requires Readable(principal) && Readable(action) && Readable(resource)
    requires Clean(principal) && Clean(action) && Clean(resource)
    ensures Yields(Statement(principal, action, resource), Tuple(principal, action, resource))
  {
    hide PermitHere;
    StatementReads(principal, action, resource);
    StatementHasNoSemicolon(principal, action, resource);
    StatementEnds(principal, action, resource);
  }

  lemma {:induction false} StatementEnds(principal: Str, action: Str, resource: Str)
    ensures var st := Statement(principal, action, resource); |st| > 0 && st[0] == 0x70 && st[|st| - 1] == 0x29
  {
    hide Member;
    assert CLOSE[|CLOSE| - 1] == 0x29 && OPEN[0] == 0x70;
  }

  // --- Reading back scopes ---------------------------------------------------

  lemma {:induction false} VerbTable()
    ensures Prefix(READ) == DATA_READ && Prefix(QUERY) == DATA_READ
    ensures Prefix(WRITE) == DATA_WRITE && Prefix(SEND) == COMMS_SEND
    ensures Prefix(DELETE) == ADMIN_DELETE
  {
    assert READ[0] != SEND[0] && QUERY[0] != WRITE[0];
  }

  predicate KnownVerb(verb: Str) {
    verb == READ || verb == QUERY || verb == WRITE || verb == SEND || verb == DELETE
  }

  lemma {:induction false} OtherVerb(verb: Str)
    requires !KnownVerb(verb)
    ensures Prefix(verb) == DATA + [COLON] + verb
  {
    assert verb !in VERB_PREFIX;
    assert DATA_COLON == DATA + [COLON];
  }

  lemma {:induction false} PrefixTexts()
    ensures DATA_READ == DATA + [COLON] + READ
    ensures DATA_WRITE == DATA + [COLON] + WRITE
    ensures COMMS_SEND == COMMS + [COLON] + SEND
    ensures ADMIN_DELETE == ADMIN + [COLON] + DELETE
  {
  }

  lemma {:induction false} GroupsHaveNoColon()
    ensures COLON !in DATA && COLON !in COMMS && COLON !in ADMIN
    ensures COLON !in READ && Clean(READ)
  {
  }

  /** A verb's prefix is a group and a verb with that same prefix, neither holding a colon. */
  lemma {:induction false} PrefixSplits(verb: Str) returns (group: Str, canonical: Str)
    requires COLON !in verb
    ensures Prefix(verb) == group + [COLON] + canonical && Prefix(canonical) == Prefix(verb)
    ensures COLON !in group && COLON !in canonical
    ensures Clean(verb) ==> Clean(canonical)
  {
    hide Prefix;
    hide Clean;
    VerbTable();
    PrefixTexts();
    GroupsHaveNoColon();
    group := if verb == SEND then COMMS else if verb == DELETE then ADMIN else DATA;
    canonical := if verb == QUERY then READ else verb;
    if !KnownVerb(verb) { OtherVerb(verb); }
  }

  /** What the printer makes of an action's scope; mapping it back gives the scope. */
  lemma {:induction false} ScopeReads(a: Action)
    requires COLON !in a.verb
    ensures var (action, resource) := ActionAndResource(ScopeOf(a));
            && resource == a.resource
            && (forall p :: TupleToScope(Tuple(p, action, resource)) == ScopeOf(a))
            && TOOL <= action
            && (Clean(a.verb) ==> Clean(action))
  {
    hide Prefix;
    var group, canonical := PrefixSplits(a.verb);
    var tail := Split(a.resource, COLON);
    var parts := [group, canonical] + tail;
    JoinSplit(a.resource, COLON);
    assert parts[1..] == [canonical] + tail && parts[1..][1..] == tail;
    assert ScopeOf(a) == Join(parts, [COLON]);
    SplitJoin(parts, COLON);
    assert parts[2..] == tail;
    assert (TOOL + canonical)[|TOOL|..] == canonical;
    WordsHaveNoSemicolon();
  }

  /** Scopes with one colon or none, which no intent produces, are printed with a wildcard resource. */
  lemma {:induction false} ShortScopes(p: Str, v: Str)
    requires COLON !in p && COLON !in v
    ensures ActionAndResource(p + [COLON] + v) == (TOOL + v, p + Ascii(":*"))
    ensures ActionAndResource(v) == (TOOL + v, Ascii("*"))
  {
    SplitJoin([p, v], COLON);
    assert [p, v][1..] == [v];
    SplitJoin([v], COLON);
  }

  /** An action whose text survives the bridge. */
  predicate Printable(a: Action) {
    COLON !in a.verb && Clean(a.verb) && Clean(a.resource) && a.resource != []
  }

  ghost function TupleFor(agent: Str, scope: Str): Tuple {
    var (action, resource) := ActionAndResource(scope);
    Tuple(AGENT + agent, action, resource)
  }

  lemma {:induction false} ActionYields(agent: Str, a: Action)
    requires Clean(agent) && Printable(a)
    ensures Yields(ScopeStatement(agent, ScopeOf(a)), TupleFor(agent, ScopeOf(a)))
    ensures TupleToScope(TupleFor(agent, ScopeOf(a))) == ScopeOf(a)
  {
    hide ActionAndResource;
    hide TupleToScope;
    hide Yields;
    hide Statement;
    ScopeReads(a);
    WordsHaveNoSemicolon();
    var (action, resource) := ActionAndResource(ScopeOf(a));
    StatementYields(AGENT + agent, action, resource);
  }

  lemma {:induction false} PiecesHoldNoSemicolon(statements: seq<Str>, tuples: seq<Tuple>)
    requires |statements| == |tuples| > 0
    requires forall i | 0 <= i < |tuples| :: Yields(statements[i], tuples[i])
    ensures forall p | p in Pieces(statements) :: SEMICOLON !in p
  {
    hide FindPermit;
    var pieces, blank := Pieces(statements), Ascii("\n\n");
    assert SEMICOLON !in blank;
    forall p | p in pieces ensures SEMICOLON !in p {
      var i :| 0 <= i < |pieces| && pieces[i] == p;
      if i < |statements| {
        assert Yields(statements[i], tuples[i]);
        assert p == statements[i] || p == blank + statements[i];
      }
    }
  }

  lemma {:induction false} PiecesYield(statements: seq<Str>, tuples: seq<Tuple>)
    requires |statements| == |tuples| > 0
    requires forall i | 0 <= i < |tuples| :: Yields(statements[i], tuples[i])
    ensures var pieces := Pieces(statements);
            && |pieces| == |tuples| + 1 && pieces[|tuples|] == []
            && forall i | 0 <= i < |tuples| :: Trim(pieces[i]) != [] && FindPermit(Trim(pieces[i])) == Some(tuples[i])
  {
    hide FindPermit;
    hide Trim;
    hide Yields;
    var pieces := Pieces(statements);
    forall i | 0 <= i < |tuples| ensures Trim(pieces[i]) != [] && FindPermit(Trim(pieces[i])) == Some(tuples[i]) {
      var blank := if i == 0 then [] else Ascii("\n\n");
      PieceYields(blank, statements[i], tuples[i]);
      assert pieces[i] == blank + statements[i];
    }
  }

  lemma {:induction false} StatementsReadBack(statements: seq<Str>, tuples: seq<Tuple>)
    requires |statements| == |tuples|
    requires forall i | 0 <= i < |tuples| :: Yields(statements[i], tuples[i])
    ensures TuplesOf(Split(Join(statements, [SEMICOLON] + Ascii("\n\n")) + [SEMICOLON], SEMICOLON)) == tuples
  {
    hide FindPermit;
    hide Trim;
    hide Yields;
    if statements == [] {
      assert Join(statements, [SEMICOLON] + Ascii("\n\n")) + [SEMICOLON] == [SEMICOLON];
      NothingReadsBack();
    } else {
      var pieces := Pieces(statements);
      PolicyIsJoined(statements);
      PiecesHoldNoSemicolon(statements, tuples);
      SplitJoin(pieces, SEMICOLON);
      PiecesYield(statements, tuples);
      TuplesOfPieces(pieces, tuples);
    }
  }

  lemma {:induction false} NothingReadsBack()
    ensures TuplesOf(Split([SEMICOLON], SEMICOLON)) == []
  {
    var empty: Str := [SEMICOLON][1..];
    assert empty == [] && Split(empty, SEMICOLON) == [[]];
    var pieces := Split([SEMICOLON], SEMICOLON);
    assert pieces == [[], []];
    TuplesOfPieces([[]], []);
    assert pieces[1..] == [[]];
    TrimNothing();
  }

  /** Printing an intent's scopes, parsing the policy and mapping back gives the same scopes in the same order. */
  lemma {:induction false} RoundTrip(agent: Str, actions: seq<Action>)
    requires Clean(agent)
    requires forall i | 0 <= i < |actions| :: Printable(actions[i])
    ensures var policy := DelegationToCedarPolicy(agent, IntentToScope(actions));
            TuplesToScope(TuplesOf(Split(policy, SEMICOLON))) == IntentToScope(actions)
  {
    hide ScopeStatement;
    hide ScopeOf;
    hide TupleFor;
    hide TupleToScope;
    hide Yields;
    hide Printable;
    var scopes := IntentToScope(actions);
    var statements := Statements(agent, scopes);
    var tuples := seq(|actions|, i requires 0 <= i < |actions| => TupleFor(agent, ScopeOf(actions[i])));
    forall i | 0 <= i < |actions| ensures Yields(statements[i], tuples[i]) && TupleToScope(tuples[i]) == scopes[i] {
      ActionYields(agent, actions[i]);
    }
    StatementsReadBack(statements, tuples);
    assert TuplesToScope(tuples) == scopes;
  }

  // --- Empty resources -------------------------------------------------------

  lemma {:induction false} FoundResource(line: Str)
    ensures FindPermit(line).Some? ==> FindPermit(line).value.resource != []
    decreases |line|
  {
    if PermitHere(line).Some? || line == [] {
    } else {
      FoundResource(line[1..]);
    }
  }

  lemma {:induction false} ParsedResources(pieces: seq<Str>, i: nat)
    requires i < |TuplesOf(pieces)|
    ensures TuplesOf(pieces)[i].resource != []
    decreases |pieces|
  {
    hide FindPermit;
    hide Trim;
    FoundResource(Trim(pieces[0]));
    var here := if Trim(pieces[0]) != [] && FindPermit(Trim(pieces[0])).Some? then 1 else 0;
    if i < here {
    } else {
      ParsedResources(pieces[1..], i - here);
    }
  }

  /** Every prefix has a colon after a group that holds none. */
  lemma {:induction false} PrefixHasColon(verb: Str) returns (group: Str, rest: Str)
    ensures Prefix(verb) == group + [COLON] + rest && COLON !in group
  {
    GroupsHaveNoColon();
    if KnownVerb(verb) {
      hide Prefix;
      VerbTable();
      PrefixTexts();
      group := if verb == SEND then COMMS else if verb == DELETE then ADMIN else DATA;
      rest := if verb == QUERY then READ else verb;
    } else {
      OtherVerb(verb);
      group, rest := DATA, verb;
    }
  }

  /** No tuple with a resource maps to the scope of an action without one. */
  lemma {:induction false} NoTupleForEmpty(t: Tuple, a: Action)
    requires t.resource != [] && a.resource == [] && COLON !in a.verb
    ensures TupleToScope(t) != ScopeOf(a)
  {
    hide Prefix;
    var verb := if TOOL <= t.action then t.action[|TOOL|..] else t.action;
    var group, canonical := PrefixSplits(a.verb);
    var group', rest := PrefixHasColon(verb);
    if TupleToScope(t) == ScopeOf(a) {
      assert ScopeOf(a) == group + [COLON] + (canonical + [COLON]);
      assert TupleToScope(t) == group' + [COLON] + (rest + [COLON] + t.resource);
      FirstSeparator(COLON, group, canonical + [COLON], group', rest + [COLON] + t.resource);
      ColonComesLast(canonical, rest, t.resource);
    }
  }

  lemma {:induction false} ColonComesLast(v: Str, w: Str, r: Str)
    requires COLON !in v && r != []
    ensures v + [COLON] != w + [COLON] + r
  {
    if |w| < |v| {
      SeparatorAt(COLON, w, r);
      assert (v + [COLON])[|w|] == v[|w|] && v[|w|] in v;
    }
  }

  /** Without quotes, semicolons or colons in the way, the round trip holds exactly when no resource is empty. */
  lemma {:induction false} RoundTripExactly(agent: Str, actions: seq<Action>)
    requires Clean(agent)
    requires forall i | 0 <= i < |actions| ::
             COLON !in actions[i].verb && Clean(actions[i].verb) && Clean(actions[i].resource)
    ensures var policy := DelegationToCedarPolicy(agent, IntentToScope(actions));
            TuplesToScope(TuplesOf(Split(policy, SEMICOLON))) == IntentToScope(actions)
            <==> forall i | 0 <= i < |actions| :: actions[i].resource != []
  {
    hide Clean;
    hide ScopeOf;
    hide TupleToScope;
    hide DelegationToCedarPolicy;
    if forall i | 0 <= i < |actions| :: actions[i].resource != [] {
      RoundTrip(agent, actions);
    } else {
      var i :| 0 <= i < |actions| && actions[i].resource == [];
      var pieces := Split(DelegationToCedarPolicy(agent, IntentToScope(actions)), SEMICOLON);
      if i < |TuplesOf(pieces)| {
        ParsedResources(pieces, i);
        NoTupleForEmpty(TuplesOf(pieces)[i], actions[i]);
        assert TuplesToScope(TuplesOf(pieces))[i] != IntentToScope(actions)[i];
      }
    }
  }
}
