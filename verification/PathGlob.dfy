/**
  The path glob of src/core/aps-txt.ts and the resolution of path overrides.
 */
module PathGlob {
  import opened Text
  import DidPattern

  const SLASH: Unit := 0x2F
  const ONE: Str := [0x2A]
  const ANY: Str := [0x2A, 0x2A]

  // --- What a glob means -----------------------------------------------------

  /** `**` stands for any run of segments, `*` for exactly one, anything else for itself. */
  predicate Covers(part: Str, run: seq<Str>) {
    part == ANY || (if part == ONE then |run| == 1 else run == [part])
  }

  ghost function Flatten(runs: seq<seq<Str>>): seq<Str> {
    if runs == [] then [] else runs[0] + Flatten(runs[1..])
  }

  /** The path is cut into one consecutive run of segments per pattern part, each covered by its part. */
  ghost predicate CutInto(pat: seq<Str>, path: seq<Str>, runs: seq<seq<Str>>) {
    |runs| == |pat| && Flatten(runs) == path && forall i | 0 <= i < |pat| :: Covers(pat[i], runs[i])
  }

  ghost predicate Globs(pat: seq<Str>, path: seq<Str>) {
    exists runs :: CutInto(pat, path, runs)
  }

  // --- The same, one part at a time ------------------------------------------

  ghost predicate Step(pat: seq<Str>, path: seq<Str>, k: nat)
    requires pat != [] && k <= |path|
    decreases |pat|, 0
  {
    Covers(pat[0], path[..k]) && Stepwise(pat[1..], path[k..])
  }

  ghost predicate Stepwise(pat: seq<Str>, path: seq<Str>)
    decreases |pat|, 1
  {
    if pat == [] then path == []
    else exists k | 0 <= k <= |path| :: Step(pat, path, k)
  }

  lemma {:induction false} RunsFromSteps(pat: seq<Str>, path: seq<Str>) returns (runs: seq<seq<Str>>)
    requires Stepwise(pat, path)
    ensures CutInto(pat, path, runs)
    decreases |pat|
  {
    if pat == [] {
      runs := [];
    } else {
      var k :| 0 <= k <= |path| && Step(pat, path, k);
      var rest := RunsFromSteps(pat[1..], path[k..]);
      runs := [path[..k]] + rest;
      assert runs[1..] == rest;
      assert path == path[..k] + path[k..];
    }
  }

  lemma {:induction false} StepsFromRuns(pat: seq<Str>, path: seq<Str>, runs: seq<seq<Str>>)
    requires CutInto(pat, path, runs)
    ensures Stepwise(pat, path)
    decreases |pat|
  {
    if pat == [] {
    } else {
      var k := |runs[0]|;
      assert path[..k] == runs[0] && path[k..] == Flatten(runs[1..]);
      StepsFromRuns(pat[1..], path[k..], runs[1..]);
      assert Step(pat, path, k);
    }
  }

  lemma {:induction false} GlobsStepwise(pat: seq<Str>, path: seq<Str>)
    ensures Globs(pat, path) <==> Stepwise(pat, path)
  {
    if runs :| CutInto(pat, path, runs) {
      StepsFromRuns(pat, path, runs);
    }
    if Stepwise(pat, path) {
      var runs := RunsFromSteps(pat, path);
    }
  }

  /** A part other than `**` uses up exactly one segment. */
  lemma {:induction false} OneSegment(pat: seq<Str>, path: seq<Str>)
    requires pat != [] && pat[0] != ANY
    ensures Stepwise(pat, path) <==>
            path != [] && (pat[0] == ONE || pat[0] == path[0]) && Stepwise(pat[1..], path[1..])
  {
    forall k | 0 <= k <= |path| && Step(pat, path, k) ensures k == 1 {
      assert |path[..k]| == 1;
    }
    if path != [] {
      assert path[..1] == [path[0]];
      assert Step(pat, path, 1) <==> (pat[0] == ONE || pat[0] == path[0]) && Stepwise(pat[1..], path[1..]);
    }
  }

  /** Nothing is left to match: only `**` parts match nothing. */
  lemma {:induction false} OnlyAny(pat: seq<Str>)
    requires pat != []
    ensures Stepwise(pat, []) <==> pat[0] == ANY && Stepwise(pat[1..], [])
  {
    var empty: seq<Str> := [];
    assert empty[..0] == [] && empty[0..] == [];
    assert Step(pat, empty, 0) <==> pat[0] == ANY && Stepwise(pat[1..], []);
    assert Stepwise(pat, empty) <==> Step(pat, empty, 0);
  }

  // --- The matcher -----------------------------------------------------------

  method GlobPartsMatch(pat: seq<Str>, pi0: nat, path: seq<Str>, xi0: nat) returns (matched: bool)
    requires pi0 <= |pat| && xi0 <= |path|
    ensures matched <==> Stepwise(pat[pi0..], path[xi0..])
    decreases |pat| - pi0
  {
    var pi, xi := pi0, xi0;
    while pi < |pat| && xi < |path|
      invariant pi0 <= pi <= |pat| && xi0 <= xi <= |path|
      invariant Stepwise(pat[pi0..], path[xi0..]) <==> Stepwise(pat[pi..], path[xi..])
    {
      assert pat[pi..][0] == pat[pi] && pat[pi..][1..] == pat[pi + 1..];
      assert path[xi..][0] == path[xi] && path[xi..][1..] == path[xi + 1..];
      if pat[pi] == ANY {
        for skip := 0 to |path| - xi + 1
          invariant forall j | 0 <= j < skip :: !Step(pat[pi..], path[xi..], j)
        {
          var inner := GlobPartsMatch(pat, pi + 1, path, xi + skip);
          assert path[xi..][skip..] == path[xi + skip..];
          if inner {
            assert Step(pat[pi..], path[xi..], skip);
            return true;
          }
        }
        return false;
      }
      OneSegment(pat[pi..], path[xi..]);
      if pat[pi] == ONE {
        pi, xi := pi + 1, xi + 1;
        continue;
      }
      if pat[pi] != path[xi] { return false; }
      pi, xi := pi + 1, xi + 1;
    }
    while pi < |pat| && pat[pi] == ANY
      invariant pi0 <= pi <= |pat| && xi0 <= xi <= |path| && (pi == |pat| || xi == |path|)
      invariant Stepwise(pat[pi0..], path[xi0..]) <==> Stepwise(pat[pi..], path[xi..])
    {
      assert path[xi..] == [];
      OnlyAny(pat[pi..]);
      assert pat[pi..][1..] == pat[pi + 1..];
      pi := pi + 1;
    }
    if pi < |pat| {
      assert path[xi..] == [];
      OnlyAny(pat[pi..]);
    }
    return pi == |pat| && xi == |path|;
  }

  /** A path matches when its segments can be cut into runs that the pattern's parts cover. */
  method MatchGlob(pattern: Str, path: Str) returns (matched: bool)
    ensures matched <==> Globs(Split(pattern, SLASH), Split(path, SLASH))
  {
    var pat, segments := Split(pattern, SLASH), Split(path, SLASH);
    assert pat[0..] == pat && segments[0..] == segments;
    GlobsStepwise(pat, segments);
    matched := GlobPartsMatch(pat, 0, segments, 0);
  }

  // --- Overrides -------------------------------------------------------------

  /** Terms are records; a later record overlays an earlier one field by field. */
  type Terms = map<Str, Str>

  /** An absent user_agent, like an absent agent DID, is the empty string: JavaScript treats both as false. */
  datatype PathOverride = PathOverride(pattern: Str, terms: Terms, userAgent: Str)

  ghost predicate Applies(o: PathOverride, path: Str, agentDid: Str) {
    && Globs(Split(o.pattern, SLASH), Split(path, SLASH))
    && (o.userAgent != [] ==>
          agentDid != [] && (o.userAgent == DidPattern.DID_STAR || DidPattern.Matches(o.userAgent, agentDid)))
  }

  method OverrideApplies(o: PathOverride, path: Str, agentDid: Str) returns (b: bool)
    ensures b <==> Applies(o, path, agentDid)
  {
    var pathMatch := MatchGlob(o.pattern, path);
    if o.userAgent != [] {
      if pathMatch && agentDid != [] {
        b := DidPattern.MatchDidPattern(o.userAgent, agentDid);
        return;
      }
      return false;
    }
    return pathMatch;
  }

  /** Exactly the first override that applies is laid over the default terms. */
  method ResolveTermsForPath(defaults: Terms, overrides: seq<PathOverride>, path: Str, agentDid: Str)
    returns (terms: Terms)
    ensures (forall i | 0 <= i < |overrides| :: !Applies(overrides[i], path, agentDid)) ==> terms == defaults
    ensures forall i | 0 <= i < |overrides| && Applies(overrides[i], path, agentDid)
                       && (forall j | 0 <= j < i :: !Applies(overrides[j], path, agentDid)) ::
              terms == defaults + overrides[i].terms
  {
    for n := 0 to |overrides|
      invariant forall j | 0 <= j < n :: !Applies(overrides[j], path, agentDid)
    {
      var applies := OverrideApplies(overrides[n], path, agentDid);
      if applies { return defaults + overrides[n].terms; }
    }
    return defaults;
  }

  // --- Spelled out -----------------------------------------------------------

  /** A pattern part `**` covers any run of segments, `*` exactly one, any other text itself; parts and segments are
      what stands between slashes. */
  lemma {:induction false} PartsMean(part: Str, run: seq<Str>)
    ensures Covers(Ascii("**"), run)
    ensures Covers(Ascii("*"), run) <==> |run| == 1
    ensures part != Ascii("**") && part != Ascii("*") ==> (Covers(part, run) <==> run == [part])
    ensures Ascii("/") == [SLASH]
  {
    assert Ascii("*") == ONE && Ascii("**") == ANY;
  }

  /** Without a user agent only the path decides; with one, an agent must be given and match it. */
  lemma {:induction false} AppliesMeans(pattern: Str, terms: Terms, userAgent: Str, path: Str, agentDid: Str)
    ensures var onPath := Globs(Split(pattern, Ascii("/")[0]), Split(path, Ascii("/")[0]));
            && (Applies(PathOverride(pattern, terms, []), path, agentDid) <==> onPath)
            && (userAgent != [] ==> !Applies(PathOverride(pattern, terms, userAgent), path, []))
            && (userAgent != [] && agentDid != [] ==>
                  (Applies(PathOverride(pattern, terms, userAgent), path, agentDid) <==>
                   onPath && (userAgent == Ascii("did:*") || DidPattern.Matches(userAgent, agentDid))))
  {
    assert Ascii("/")[0] == SLASH;
  }
}
