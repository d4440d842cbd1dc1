/**
  evaluateThreshold of src/core/charter.ts: a multi-class M-of-N policy counts,
  per class, the distinct eligible keys that carry a verifying signature.
 */
module Threshold {
  import opened Text
  import opened Hashing
  import Json

  datatype ApprovalSignature = ApprovalSignature(
    publicKey: Str, keyClass: Str, officeId: Option<Str>, signedAt: Str, signature: Str)
  datatype Requirement = Requirement(role: Str, requiredSignatures: int, eligibleKeys: seq<Str>)
  datatype ClassStatus = ClassStatus(role: Str, required: int, collected: nat, satisfied: bool)
  datatype Evaluation = Evaluation(
    met: bool, classStatus: seq<ClassStatus>, totalValid: int, totalRequired: int, expired: bool, errors: seq<Str>)

  predicate Verifies(c: Crypto, s: ApprovalSignature, content: Str) {
    s.signature != [] && c.verify(content, s.signature, s.publicKey)
  }

  /** This signature is one that the class accepts. */
  predicate Counts(c: Crypto, req: Requirement, s: ApprovalSignature, content: Str) {
    s.keyClass == req.role && s.publicKey in req.eligibleKeys && Verifies(c, s, content)
  }

  /** The distinct keys counted for a class. */
  function CountedKeys(c: Crypto, req: Requirement, sigs: seq<ApprovalSignature>, content: Str): set<Str> {
    set s | s in sigs && Counts(c, req, s, content) :: s.publicKey
  }

  predicate ClassMet(c: Crypto, req: Requirement, sigs: seq<ApprovalSignature>, content: Str) {
    |CountedKeys(c, req, sigs, content)| >= req.requiredSignatures
  }

  predicate Met(c: Crypto, reqs: seq<Requirement>, sigs: seq<ApprovalSignature>, content: Str) {
    forall i | 0 <= i < |reqs| :: ClassMet(c, reqs[i], sigs, content)
  }

  function StatusOf(c: Crypto, req: Requirement, sigs: seq<ApprovalSignature>, content: Str): ClassStatus {
    var collected := |CountedKeys(c, req, sigs, content)|;
    ClassStatus(req.role, req.requiredSignatures, collected, collected >= req.requiredSignatures)
  }

  function TotalCollected(status: seq<ClassStatus>): int {
    if status == [] then 0 else TotalCollected(status[..|status| - 1]) + status[|status| - 1].collected
  }

  function TotalRequired(status: seq<ClassStatus>): int {
    if status == [] then 0 else TotalRequired(status[..|status| - 1]) + status[|status| - 1].required
  }

  // --- What is reported ------------------------------------------------------

  /** The first eight characters of a key, followed by dots. */
  function Short(key: Str): Str { (if |key| <= 8 then key else key[..8]) + Ascii("...") }

  function ClassPrefix(role: Str): Str { Ascii("Class '") + role + Ascii("': ") }

  function IneligibleText(role: Str, key: Str): Str {
    ClassPrefix(role) + Ascii("key ") + Short(key) + Ascii(" is not eligible")
  }

  function InvalidText(role: Str, key: Str): Str { ClassPrefix(role) + Ascii("invalid signature from ") + Short(key) }

  function ShortfallText(role: Str, collected: int, required: int): Str {
    ClassPrefix(role) + Json.PrintInt(collected) + Ascii("/") + Json.PrintInt(required) + Ascii(" signatures")
  }

  /** Why a signature of this class is left uncounted. */
  function Excluded(c: Crypto, req: Requirement, content: Str): ApprovalSignature -> seq<Str> {
    (s: ApprovalSignature) =>
      if s.keyClass != req.role then []
      else if s.publicKey !in req.eligibleKeys then [IneligibleText(req.role, s.publicKey)]
      else if !Verifies(c, s, content) then [InvalidText(req.role, s.publicKey)]
      else []
  }

  function Shortfall(status: ClassStatus): seq<Str> {
    if status.satisfied then [] else [ShortfallText(status.role, status.collected, status.required)]
  }

  function ClassErrors(c: Crypto, sigs: seq<ApprovalSignature>, content: Str): Requirement -> seq<Str> {
    req => FlatMap(sigs, Excluded(c, req, content)) + Shortfall(StatusOf(c, req, sigs, content))
  }

  /** Nothing is reported exactly when the policy is met and no signature of one of its classes was left out. */
  lemma {:induction false} NoErrorsMeans(c: Crypto, reqs: seq<Requirement>, sigs: seq<ApprovalSignature>, content: Str)
    ensures FlatMap(reqs, ClassErrors(c, sigs, content)) == [] <==>
            && Met(c, reqs, sigs, content)
            && forall i, j | 0 <= i < |reqs| && 0 <= j < |sigs| && sigs[j].keyClass == reqs[i].role ::
                 Counts(c, reqs[i], sigs[j], content)
  {
    hide CountedKeys;
    FlatMapEmpty(reqs, ClassErrors(c, sigs, content));
    forall i | 0 <= i < |reqs|
      ensures ClassErrors(c, sigs, content)(reqs[i]) == [] <==>
              && ClassMet(c, reqs[i], sigs, content)
              && forall j | 0 <= j < |sigs| && sigs[j].keyClass == reqs[i].role :: Counts(c, reqs[i], sigs[j], content)
    {
      FlatMapEmpty(sigs, Excluded(c, reqs[i], content));
      assert forall j | 0 <= j < |sigs| ::
          Excluded(c, reqs[i], content)(sigs[j]) == []
          <==> (sigs[j].keyClass == reqs[i].role ==> Counts(c, reqs[i], sigs[j], content));
    }
  }

  // --- The loops -------------------------------------------------------------

  method VerifyEach(c: Crypto, sigs: seq<ApprovalSignature>, content: Str) returns (valid: seq<bool>)
    ensures |valid| == |sigs|
    ensures forall i | 0 <= i < |sigs| :: valid[i] <==> Verifies(c, sigs[i], content)
  {
    valid := [];
    for i := 0 to |sigs|
      invariant |valid| == i
      invariant forall j | 0 <= j < i :: valid[j] <==> Verifies(c, sigs[j], content)
    {
      valid := valid + [sigs[i].signature != [] && c.verify(content, sigs[i].signature, sigs[i].publicKey)];
    }
  }

  lemma {:induction false} CountedSnoc(c: Crypto, req: Requirement, sigs: seq<ApprovalSignature>, s: ApprovalSignature,
                                       content: Str)
    ensures CountedKeys(c, req, sigs + [s], content) ==
            CountedKeys(c, req, sigs, content) + if Counts(c, req, s, content) then {s.publicKey} else {}
  {
    assert s in sigs + [s];
    forall k | k in CountedKeys(c, req, sigs, content) ensures k in CountedKeys(c, req, sigs + [s], content) {
      var t :| t in sigs && Counts(c, req, t, content) && t.publicKey == k;
      assert t in sigs + [s];
    }
  }

  method CountClass(c: Crypto, req: Requirement, sigs: seq<ApprovalSignature>, content: Str, valid: seq<bool>)
    returns (counted: set<Str>, errors: seq<Str>)
    requires |valid| == |sigs| && forall i | 0 <= i < |sigs| :: valid[i] <==> Verifies(c, sigs[i], content)
    ensures counted == CountedKeys(c, req, sigs, content)
    ensures errors == FlatMap(sigs, Excluded(c, req, content))
  {
    hide CountedKeys;
    hide IneligibleText;
    hide InvalidText;
    counted, errors := {}, [];
    assert CountedKeys(c, req, sigs[..0], content) == {} by { NothingCounted(c, req, content); }
    for i := 0 to |sigs|
      invariant counted == CountedKeys(c, req, sigs[..i], content)
      invariant errors == FlatMap(sigs[..i], Excluded(c, req, content))
    {
      var s := sigs[i];
      assert sigs[..i + 1] == sigs[..i] + [s];
      CountedSnoc(c, req, sigs[..i], s, content);
      FlatMapNext(sigs, Excluded(c, req, content), i);
      if s.keyClass != req.role { continue; }
      if s.publicKey !in req.eligibleKeys {
        errors := errors + [IneligibleText(req.role, s.publicKey)];
        continue;
      }
      if !valid[i] {
        errors := errors + [InvalidText(req.role, s.publicKey)];
        continue;
      }
      counted := counted + {s.publicKey};
    }
    assert sigs[..|sigs|] == sigs;
  }

  lemma {:induction false} NothingCounted(c: Crypto, req: Requirement, content: Str)
    ensures CountedKeys(c, req, [], content) == {}
  {
  }

  /** One pass of the loop over the classes. */
  method EvaluateClass(c: Crypto, req: Requirement, sigs: seq<ApprovalSignature>, content: Str, valid: seq<bool>)
    returns (status: ClassStatus, errors: seq<Str>)
    requires |valid| == |sigs| && forall i | 0 <= i < |sigs| :: valid[i] <==> Verifies(c, sigs[i], content)
    ensures status == StatusOf(c, req, sigs, content)
    ensures errors == ClassErrors(c, sigs, content)(req)
  {
    hide CountedKeys;
    hide ShortfallText;
    var counted, excluded := CountClass(c, req, sigs, content, valid);
    var collected := |counted|;
    var satisfied := collected >= req.requiredSignatures;
    errors := excluded;
    if !satisfied { errors := errors + [ShortfallText(req.role, collected, req.requiredSignatures)]; }
    status := ClassStatus(req.role, req.requiredSignatures, collected, satisfied);
  }

  method EvaluateThreshold(c: Crypto, reqs: seq<Requirement>, sigs: seq<ApprovalSignature>, content: Str)
    returns (e: Evaluation)
    ensures e.met <==> Met(c, reqs, sigs, content)
    ensures |e.classStatus| == |reqs|
    ensures forall i | 0 <= i < |reqs| :: e.classStatus[i] == StatusOf(c, reqs[i], sigs, content)
    ensures e.totalValid == TotalCollected(e.classStatus) && e.totalRequired == TotalRequired(e.classStatus)
    ensures !e.expired && e.errors == FlatMap(reqs, ClassErrors(c, sigs, content))
  {
    hide CountedKeys;
    hide ClassErrors;
    var valid := VerifyEach(c, sigs, content);
    var status: seq<ClassStatus>, totalValid, totalRequired, errors: seq<Str> := [], 0, 0, [];
    for i := 0 to |reqs|
      invariant |status| == i
      invariant forall j | 0 <= j < i :: status[j] == StatusOf(c, reqs[j], sigs, content)
      invariant totalValid == TotalCollected(status) && totalRequired == TotalRequired(status)
      invariant errors == FlatMap(reqs[..i], ClassErrors(c, sigs, content))
    {
      var here, found := EvaluateClass(c, reqs[i], sigs, content, valid);
      FlatMapNext(reqs, ClassErrors(c, sigs, content), i);
      errors := errors + found;
      assert (status + [here])[..i] == status;
      status := status + [here];
      totalValid, totalRequired := totalValid + here.collected, totalRequired + here.required;
    }
    assert reqs[..|reqs|] == reqs;
    var met := forall i | 0 <= i < |status| :: status[i].satisfied;
    assert forall i | 0 <= i < |reqs| :: status[i].satisfied <==> ClassMet(c, reqs[i], sigs, content);
    return Evaluation(met, status, totalValid, totalRequired, false, errors);
  }

  // --- What being met means --------------------------------------------------

  /** These keys are eligible and each of them signed for the class. */
  ghost predicate Endorse(c: Crypto, req: Requirement, sigs: seq<ApprovalSignature>, content: Str, keys: set<Str>) {
    forall k | k in keys ::
      && k in req.eligibleKeys
      && exists i | 0 <= i < |sigs| ::
           && sigs[i].publicKey == k && sigs[i].keyClass == req.role
           && sigs[i].signature != [] && c.verify(content, sigs[i].signature, k)
  }

  /** A class is met exactly when enough distinct eligible keys carry a verifying signature. */
  lemma {:induction false} ClassMetMeans(c: Crypto, req: Requirement, sigs: seq<ApprovalSignature>, content: Str)
    ensures ClassMet(c, req, sigs, content)
            <==> exists keys | Endorse(c, req, sigs, content, keys) :: |keys| >= req.requiredSignatures
  {
    MostEndorse(c, req, sigs, content);
    hide Endorse;
    hide CountedKeys;
  }

  /** More signatures never lose a class, and neither order nor repetition matters. */
  lemma {:induction false} MetMonotone(c: Crypto, reqs: seq<Requirement>, sigs: seq<ApprovalSignature>,
                                       more: seq<ApprovalSignature>, content: Str)
    requires forall s | s in sigs :: s in more
    ensures Met(c, reqs, sigs, content) ==> Met(c, reqs, more, content)
    ensures (forall s | s in more :: s in sigs) ==>
              forall i | 0 <= i < |reqs| :: StatusOf(c, reqs[i], sigs, content) == StatusOf(c, reqs[i], more, content)
  {
    forall i | 0 <= i < |reqs|
      ensures CountedKeys(c, reqs[i], sigs, content) <= CountedKeys(c, reqs[i], more, content)
    {
    }
    forall i | 0 <= i < |reqs| && ClassMet(c, reqs[i], sigs, content) ensures ClassMet(c, reqs[i], more, content) {
      SubsetSize(CountedKeys(c, reqs[i], sigs, content), CountedKeys(c, reqs[i], more, content));
    }
    if forall s | s in more :: s in sigs {
      forall i | 0 <= i < |reqs| ensures StatusOf(c, reqs[i], sigs, content) == StatusOf(c, reqs[i], more, content) {
        assert CountedKeys(c, reqs[i], sigs, content) == CountedKeys(c, reqs[i], more, content);
      }
    }
  }

  /** The lines of the evaluation: how many keys a class needs and has, and whether that is enough. */
  lemma {:induction false} StatusMeans(c: Crypto, req: Requirement, sigs: seq<ApprovalSignature>, content: Str)
    ensures var status := StatusOf(c, req, sigs, content);
            && status.role == req.role && status.required == req.requiredSignatures
            && (status.satisfied <==> status.collected >= req.requiredSignatures)
            && (exists keys | Endorse(c, req, sigs, content, keys) :: |keys| == status.collected)
            && forall keys | Endorse(c, req, sigs, content, keys) :: |keys| <= status.collected
  {
    MostEndorse(c, req, sigs, content);
  }

  /** The counted keys endorse the class, and no larger set does. */
  lemma {:induction false} MostEndorse(c: Crypto, req: Requirement, sigs: seq<ApprovalSignature>, content: Str)
    ensures Endorse(c, req, sigs, content, CountedKeys(c, req, sigs, content))
    ensures forall keys | Endorse(c, req, sigs, content, keys) :: |keys| <= |CountedKeys(c, req, sigs, content)|
  {
    var counted := CountedKeys(c, req, sigs, content);
    forall keys | Endorse(c, req, sigs, content, keys) ensures |keys| <= |counted| {
      EndorsedAreCounted(c, req, sigs, content, keys);
      SubsetSize(keys, counted);
    }
    forall k | k in counted
      ensures k in req.eligibleKeys && exists i | 0 <= i < |sigs| ::
                && sigs[i].publicKey == k && sigs[i].keyClass == req.role
                && sigs[i].signature != [] && c.verify(content, sigs[i].signature, k)
    {
      var s :| s in sigs && Counts(c, req, s, content) && s.publicKey == k;
      var i :| 0 <= i < |sigs| && sigs[i] == s;
    }
  }

  lemma {:induction false} EndorsedAreCounted(c: Crypto, req: Requirement, sigs: seq<ApprovalSignature>, content: Str,
                                              keys: set<Str>)
    requires Endorse(c, req, sigs, content, keys)
    ensures keys <= CountedKeys(c, req, sigs, content)
  {
    forall k | k in keys ensures k in CountedKeys(c, req, sigs, content) {
      var i :| 0 <= i < |sigs| && sigs[i].publicKey == k && sigs[i].keyClass == req.role
               && sigs[i].signature != [] && c.verify(content, sigs[i].signature, k);
      assert Counts(c, req, sigs[i], content);
    }
  }

  /** The totals add up the lines, in any grouping. */
  lemma {:induction false} TotalsAdd(a: seq<ClassStatus>, b: seq<ClassStatus>, s: ClassStatus)
    ensures TotalCollected(a + b) == TotalCollected(a) + TotalCollected(b)
    ensures TotalRequired(a + b) == TotalRequired(a) + TotalRequired(b)
    ensures TotalCollected([s]) == s.collected && TotalRequired([s]) == s.required
    decreases |b|
  {
    assert [s][..0] == [];
    if b == [] {
      assert a + b == a;
    } else {
      TotalsAdd(a, b[..|b| - 1], s);
      assert (a + b)[..|a + b| - 1] == a + b[..|b| - 1];
    }
  }

  /** Which report a signature gets, and when a class falls short. */
  lemma {:induction false} ReportsMean(c: Crypto, req: Requirement, sigs: seq<ApprovalSignature>, content: Str,
                                       s: ApprovalSignature)
    ensures Excluded(c, req, content)(s) ==
            if s.keyClass != req.role || Counts(c, req, s, content) then []
            else if s.publicKey !in req.eligibleKeys then [IneligibleText(req.role, s.publicKey)]
            else [InvalidText(req.role, s.publicKey)]
    ensures ClassErrors(c, sigs, content)(req) ==
            var counted := |CountedKeys(c, req, sigs, content)|;
            FlatMap(sigs, Excluded(c, req, content)) +
            if counted >= req.requiredSignatures then [] else [ShortfallText(req.role, counted, req.requiredSignatures)]
  {
    hide CountedKeys;
    hide IneligibleText;
    hide InvalidText;
    hide ShortfallText;
  }

  /** The reports, spelled out. */
  lemma {:induction false} ReportTexts(role: Str, key: Str, collected: int, required: int)
    requires |key| >= 8
    ensures IneligibleText(role, key) ==
            Ascii("Class '") + role + Ascii("': ") + Ascii("key ") + (key[..8] + Ascii("..."))
            + Ascii(" is not eligible")
    ensures InvalidText(role, key) ==
            Ascii("Class '") + role + Ascii("': ") + Ascii("invalid signature from ") + (key[..8] + Ascii("..."))
    ensures ShortfallText(role, collected, required) ==
            Ascii("Class '") + role + Ascii("': ") + Json.PrintInt(collected) + Ascii("/") + Json.PrintInt(required)
            + Ascii(" signatures")
  {
    hide Ascii;
    assert Short(key) == key[..8] + Ascii("...");
  }
}
