/**
  matchDidPattern of src/core/aps-txt.ts: a greedy left-to-right matcher for
  patterns with any number of `*`.
 */
module DidPattern {
  import opened Text

  const STAR: Unit := 0x2A
  const DID_STAR: Str := Ascii("did:*")

  // --- What a pattern means --------------------------------------------------

  function Stars(pattern: Str): nat {
    if pattern == [] then 0 else (if pattern[0] == STAR then 1 else 0) + Stars(pattern[1..])
  }

  /** The pattern with its stars replaced, in order, by the given texts. */
  ghost function Fill(pattern: Str, gaps: seq<Str>): Str
    requires |gaps| == Stars(pattern)
  {
    if pattern == [] then []
    else if pattern[0] == STAR then gaps[0] + Fill(pattern[1..], gaps[1..])
    else [pattern[0]] + Fill(pattern[1..], gaps)
  }

  ghost predicate Matches(pattern: Str, did: Str) {
    exists gaps | |gaps| == Stars(pattern) :: Fill(pattern, gaps) == did
  }

  // --- The pattern cut at its stars ------------------------------------------

  ghost function Interleave(parts: seq<Str>, gaps: seq<Str>): Str
    requires |parts| == |gaps| + 1
  {
    if gaps == [] then parts[0] else parts[0] + (gaps[0] + Interleave(parts[1..], gaps[1..]))
  }

  lemma {:induction false} FillIsInterleave(pattern: Str, gaps: seq<Str>)
    requires |gaps| == Stars(pattern)
    ensures |Split(pattern, STAR)| == |gaps| + 1
    ensures Fill(pattern, gaps) == Interleave(Split(pattern, STAR), gaps)
  {
    if pattern == [] {
    } else {
      var parts := Split(pattern, STAR);
      if pattern[0] == STAR {
        FillIsInterleave(pattern[1..], gaps[1..]);
        assert parts[1..] == Split(pattern[1..], STAR);
      } else {
        FillIsInterleave(pattern[1..], gaps);
        assert parts[1..] == Split(pattern[1..], STAR)[1..];
      }
    }
  }

  // --- Matching what follows the first part ----------------------------------

  predicate EndsWith(s: Str, part: Str) { |part| <= |s| && s[|s| - |part|..] == part }

  /** `s` is some text, the first part, some text, the second part, and so on, ending with the last part. */
  ghost predicate Tail(parts: seq<Str>, s: Str)
    requires parts != []
  {
    if |parts| == 1 then EndsWith(s, parts[0])
    else exists k: nat | At(s, parts[0], k) :: Tail(parts[1..], s[k + |parts[0]|..])
  }

  /** The text before the first part can always be longer. */
  lemma {:induction false} TailAbsorbs(parts: seq<Str>, s: Str, k: nat)
    requires parts != [] && k <= |s|
    requires Tail(parts, s[k..])
    ensures Tail(parts, s)
  {
    if |parts| > 1 {
      var j: nat :| At(s[k..], parts[0], j) && Tail(parts[1..], s[k..][j + |parts[0]|..]);
      assert s[k..][j..j + |parts[0]|] == s[k + j..k + j + |parts[0]|];
      assert s[k..][j + |parts[0]|..] == s[k + j + |parts[0]|..];
      assert At(s, parts[0], k + j);
    }
  }

  /** Taking the leftmost occurrence loses no match. */
  lemma {:induction false} LeftmostSuffices(parts: seq<Str>, s: Str, k: nat)
    requires |parts| > 1
    requires At(s, parts[0], k) && forall j: nat | j < k :: !At(s, parts[0], j)
    ensures Tail(parts, s) <==> Tail(parts[1..], s[k + |parts[0]|..])
  {
    if Tail(parts, s) {
      var j: nat :| At(s, parts[0], j) && Tail(parts[1..], s[j + |parts[0]|..]);
      var rest := s[k + |parts[0]|..];
      assert rest[j - k..] == s[j + |parts[0]|..];
      TailAbsorbs(parts[1..], rest, j - k);
    }
  }

  lemma {:induction false} TailFromGaps(parts: seq<Str>, gaps: seq<Str>, s: Str)
    requires |parts| == |gaps| + 1 && |parts| > 1
    requires parts[0] + s == Interleave(parts, gaps)
    ensures Tail(parts[1..], s)
  {
    var first, rest := gaps[0], parts[1..];
    var inner := Interleave(rest, gaps[1..]);
    assert (parts[0] + s)[|parts[0]|..] == s;
    assert (parts[0] + (first + inner))[|parts[0]|..] == first + inner;
    if |rest| == 1 {
      assert s[|s| - |rest[0]|..] == rest[0];
    } else {
      var s' := inner[|rest[0]|..];
      assert inner == rest[0] + s';
      TailFromGaps(rest, gaps[1..], s');
      assert s[|first|..|first| + |rest[0]|] == rest[0];
      assert s[|first| + |rest[0]|..] == s';
      assert At(s, rest[0], |first|);
    }
  }

  lemma {:induction false} GapsFromTail(parts: seq<Str>, s: Str) returns (gaps: seq<Str>)
    requires |parts| > 1 && Tail(parts[1..], s)
    ensures |parts| == |gaps| + 1
    ensures parts[0] + s == Interleave(parts, gaps)
  {
    var rest := parts[1..];
    if |rest| == 1 {
      gaps := [s[..|s| - |rest[0]|]];
      assert s == gaps[0] + rest[0];
      assert gaps[1..] == [];
      assert Interleave(rest, []) == rest[0];
    } else {
      var k: nat :| At(s, rest[0], k) && Tail(rest[1..], s[k + |rest[0]|..]);
      var more := GapsFromTail(rest, s[k + |rest[0]|..]);
      gaps := [s[..k]] + more;
      assert gaps[1..] == more;
      assert s == s[..k] + (rest[0] + s[k + |rest[0]|..]);
    }
  }

  /** Matching is: begin with the first part, then the rest in order with text between. */
  lemma {:induction false} MatchesByParts(pattern: Str, did: Str)
    ensures var parts := Split(pattern, STAR);
            Matches(pattern, did) <==>
            if |parts| == 1 then pattern == did
            else parts[0] <= did && Tail(parts[1..], did[|parts[0]|..])
  {
    var parts := Split(pattern, STAR);
    FillIsInterleave(pattern, seq(Stars(pattern), _ => []));
    if gaps :| |gaps| == Stars(pattern) && Fill(pattern, gaps) == did {
      FillIsInterleave(pattern, gaps);
      if |parts| == 1 {
        JoinSplit(pattern, STAR);
      } else {
        assert parts[0] <= did && did == parts[0] + did[|parts[0]|..];
        TailFromGaps(parts, gaps, did[|parts[0]|..]);
      }
    }
    if |parts| == 1 {
      JoinSplit(pattern, STAR);
      if pattern == did {
        FillIsInterleave(pattern, []);
        assert Matches(pattern, did);
      }
    } else if parts[0] <= did && Tail(parts[1..], did[|parts[0]|..]) {
      var gaps := GapsFromTail(parts, did[|parts[0]|..]);
      assert did == parts[0] + did[|parts[0]|..];
      FillIsInterleave(pattern, gaps);
    }
  }

  // --- The matcher -----------------------------------------------------------

  /** `s.indexOf(part, from)`. */
  lemma {:induction false} AtShift(s: Str, pos: nat, part: Str, k: nat)
    requires pos <= |s|
    ensures At(s[pos..], part, k) <==> At(s, part, pos + k)
  {
    if pos + k + |part| <= |s| {
      assert s[pos..][k..k + |part|] == s[pos + k..pos + k + |part|];
    }
  }

  /** Skipping past the leftmost occurrence of a middle part, or failing when there is none. */
  lemma {:induction false} SkipPart(parts: seq<Str>, did: Str, pos: nat, idx: int)
    requires |parts| > 1 && pos <= |did|
    requires idx == -1 <==> forall k: nat | pos <= k :: !At(did, parts[0], k)
    requires idx != -1 ==>
             pos <= idx && At(did, parts[0], idx) && forall k: nat | pos <= k < idx :: !At(did, parts[0], k)
    ensures Tail(parts, did[pos..]) <==> idx != -1 && Tail(parts[1..], did[idx + |parts[0]|..])
  {
    var s := did[pos..];
    forall k: nat ensures At(s, parts[0], k) <==> At(did, parts[0], pos + k) { AtShift(did, pos, parts[0], k); }
    if idx != -1 {
      assert At(s, parts[0], idx - pos);
      LeftmostSuffices(parts, s, idx - pos);
      assert s[idx - pos + |parts[0]|..] == did[idx + |parts[0]|..];
    }
  }

  /** The loop over the parts: the first is a prefix, the last a suffix, the others leftmost in turn. */
  method MatchParts(parts: seq<Str>, did: Str) returns (matched: bool)
    requires |parts| > 1
    ensures matched <==> parts[0] <= did && Tail(parts[1..], did[|parts[0]|..])
  {
    var pos := 0;
    for i := 0 to |parts|
      invariant 0 <= pos <= |did|
      invariant i > 0 ==> parts[0] <= did
      invariant 0 < i < |parts| ==> (Tail(parts[1..], did[|parts[0]|..]) <==> Tail(parts[i..], did[pos..]))
      invariant i == |parts| ==> Tail(parts[1..], did[|parts[0]|..])
    {
      var part := parts[i];
      if i == 0 {
        if !(part <= did) { return false; }
        pos := |part|;
      } else if i == |parts| - 1 {
        assert parts[i..] == [part];
        if !EndsWith(did[pos..], part) { return false; }
      } else {
        var idx := IndexOf(did, part, pos);
        SkipPart(parts[i..], did, pos, idx);
        assert parts[i..][1..] == parts[i + 1..];
        if idx == -1 { return false; }
        pos := idx + |part|;
      }
    }
    return true;
  }

  /** The greedy matcher decides Matches, except that `did:*` is also taken to match any text. */
  method MatchDidPattern(pattern: Str, did: Str) returns (matched: bool)
    ensures matched <==> pattern == Ascii("did:*") || Matches(pattern, did)
  {
    if pattern == [STAR] || pattern == DID_STAR {
      if pattern == [STAR] { LoneStarMatches(did); }
      return true;
    }
    var parts := Split(pattern, STAR);
    MatchesByParts(pattern, did);
    if |parts| == 1 { return pattern == did; }
    matched := MatchParts(parts, did);
  }

  lemma {:induction false} LoneStarMatches(did: Str)
    ensures Matches([STAR], did)
  {
    assert Stars([STAR]) == 1;
    assert [STAR][1..] == [] && [did][1..] == [];
    assert Fill([STAR], [did]) == did + [];
  }

  /** The shortcut for `did:*` agrees with the pattern exactly on texts that begin with `did:`. */
  lemma {:induction false} DidStarShortcut(did: Str)
    ensures Matches(Ascii("did:*"), did) <==> Ascii("did:") <= did
  {
    var parts := [Ascii("did:"), []];
    assert DID_STAR == Join(parts, [STAR]) by {
      assert parts[1..] == [[]];
      assert DID_STAR == Ascii("did:") + [STAR];
    }
    SplitJoin(parts, STAR);
    MatchesByParts(DID_STAR, did);
    assert parts[1..] == [[]];
    if parts[0] <= did {
      assert did[4..][|did[4..]|..] == [];
    }
  }

  /** A pattern without a star stands for itself; one with a single star for its two parts with any text
      between them. */
  lemma {:induction false} SimplePatterns(a: Str, b: Str, did: Str)
    requires Ascii("*")[0] !in a && Ascii("*")[0] !in b
    ensures Matches(a, did) <==> did == a
    ensures Matches(a + Ascii("*") + b, did) <==> |a| + |b| <= |did| && a <= did && EndsWith(did, b)
  {
    assert Ascii("*") == [STAR];
    SplitJoin([a], STAR);
    MatchesByParts(a, did);
    assert [a, b][1..] == [b] && Join([a, b], [STAR]) == a + [STAR] + b;
    SplitJoin([a, b], STAR);
    MatchesByParts(a + [STAR] + b, did);
    if a <= did && |a| + |b| <= |did| { assert did[|a|..][|did| - |a| - |b|..] == did[|did| - |b|..]; }
  }
}
