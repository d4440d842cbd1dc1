/**
  The approval lifecycle of src/core/charter.ts. Requests are values: every step
  returns a new one and the old ones stay usable, so a run is a growing pool in
  which each step may start from any earlier request.
 */
module Approval {
  import opened Text
  import opened Hashing
  import opened Threshold
  import Json

  datatype RequestStatus = Pending | Approved | Rejected | Expired

  /** `expiresAt` is in milliseconds; None stands for a timestamp that cannot be read. */
  datatype ApprovalRequest = ApprovalRequest(
    requestId: Str, policyId: Str, subject: Str, requestedBy: Str, expiresAt: Option<int>,
    signatures: seq<ApprovalSignature>, status: RequestStatus)

  datatype Kind = ThresholdKind | RoleRequired | Sequential | Unanimous
  datatype ApprovalPolicy = ApprovalPolicy(
    kind: Kind, threshold: Option<seq<Requirement>>, requiredRoles: Option<seq<Str>>, sequentialOrder: Option<seq<Str>>)

  datatype Refusal = NotPending | UnreadableExpiry | PastExpiry | DuplicateSigner
  datatype Attempt = Done(request: ApprovalRequest) | Refused(why: Refusal)

  function CreateApprovalRequest(
    id: Str, policyId: Str, subject: Str, requestedBy: Str, timeoutSeconds: int, now: int): ApprovalRequest
  {
    ApprovalRequest(id, policyId, subject, requestedBy, Some(now + timeoutSeconds * 1000), [], Pending)
  }

  const COLON: Unit := 0x3A

  function SignContent(r: ApprovalRequest): Str { r.requestId + [COLON] + r.subject }

  function AddApprovalSignature(c: Crypto, r: ApprovalRequest, secret: Str, key: Str, keyClass: Str,
                                office: Option<Str>, signedAt: Str, now: int): Attempt {
    if !r.status.Pending? then Refused(NotPending)
    else if r.expiresAt.None? then Refused(UnreadableExpiry)
    else if r.expiresAt.value < now then Refused(PastExpiry)
    else if exists i | 0 <= i < |r.signatures| :: r.signatures[i].publicKey == key then Refused(DuplicateSigner)
    else
      var signature := ApprovalSignature(key, keyClass, office, signedAt, c.sign(SignContent(r), secret));
      Done(r.(signatures := r.signatures + [signature]))
  }

  ghost predicate HasSigned(r: ApprovalRequest, key: Str) {
    exists i | 0 <= i < |r.signatures| :: r.signatures[i].publicKey == key
  }

  /** A signature is accepted exactly on a pending request, not after its readable expiry, from a key that has not
      signed; then it is the signer's over id, colon and subject, and nothing else changes. */
  lemma {:induction false} AddedExactly(c: Crypto, r: ApprovalRequest, secret: Str, key: Str, keyClass: Str,
                                        office: Option<Str>, signedAt: Str, now: int)
    ensures var a := AddApprovalSignature(c, r, secret, key, keyClass, office, signedAt, now);
            && (a.Done? <==> r.status == Pending && r.expiresAt.Some? && now <= r.expiresAt.value && !HasSigned(r, key))
            && (r.status != Pending ==> a == Refused(NotPending))
            && (r.status == Pending && r.expiresAt.None? ==> a == Refused(UnreadableExpiry))
            && (r.status == Pending && r.expiresAt.Some? && r.expiresAt.value < now ==> a == Refused(PastExpiry))
            && (a.Done? ==>
                  var added := a.request.signatures;
                  && a.request == r.(signatures := added)
                  && |added| == |r.signatures| + 1 && added[..|r.signatures|] == r.signatures
                  && var s := added[|r.signatures|];
                     && s.publicKey == key && s.keyClass == keyClass && s.officeId == office && s.signedAt == signedAt
                     && s.signature == c.sign(r.requestId + Ascii(":") + r.subject, secret))
            && (a.Refused? && a.why == DuplicateSigner ==> HasSigned(r, key))
  {
    assert Ascii(":") == [COLON];
  }

  // --- What the signed content names -----------------------------------------

  ghost predicate SameSubject(r: ApprovalRequest, s: ApprovalRequest) {
    r.requestId == s.requestId && r.subject == s.subject
  }

  /** The id of `s` goes on where the id of `r` ends, past a colon and into the subject of `r`. */
  ghost predicate RunsOn(r: ApprovalRequest, s: ApprovalRequest) {
    exists mid :: s.requestId == r.requestId + [COLON] + mid && r.subject == mid + [COLON] + s.subject
  }

  lemma {:induction false} LongerIdRunsOn(r: ApprovalRequest, s: ApprovalRequest)
    requires SignContent(r) == SignContent(s) && |r.requestId| < |s.requestId|
    ensures RunsOn(r, s)
  {
    var n, text := |r.requestId|, SignContent(r);
    var mid := s.requestId[n + 1..];
    assert s.requestId[..n] == text[..n] == r.requestId && s.requestId[n] == text[n] == COLON;
    assert s.requestId == r.requestId + [COLON] + mid;
    assert r.subject == text[n + 1..] == mid + [COLON] + s.subject;
  }

  /** Two requests share signed content exactly when they are one, or the colons allow the text to be cut
      in both ways. */
  lemma {:induction false} SignContentBinds(r: ApprovalRequest, s: ApprovalRequest)
    ensures SignContent(r) == SignContent(s) <==> SameSubject(r, s) || RunsOn(r, s) || RunsOn(s, r)
  {
    if SignContent(r) == SignContent(s) {
      if |r.requestId| < |s.requestId| {
        LongerIdRunsOn(r, s);
      } else if |s.requestId| < |r.requestId| {
        LongerIdRunsOn(s, r);
      } else {
        var n, text := |r.requestId|, SignContent(r);
        assert r.requestId == text[..n] == s.requestId && r.subject == text[n + 1..] == s.subject;
      }
    }
    if RunsOn(r, s) { RunningOnShares(r, s); }
    if RunsOn(s, r) { RunningOnShares(s, r); }
  }

  lemma {:induction false} RunningOnShares(r: ApprovalRequest, s: ApprovalRequest)
    requires RunsOn(r, s)
    ensures SignContent(r) == SignContent(s)
  {
    var mid :| s.requestId == r.requestId + [COLON] + mid && r.subject == mid + [COLON] + s.subject;
    assert SignContent(s) == r.requestId + [COLON] + (mid + [COLON] + s.subject);
  }

  lemma {:induction false} RunningOnNeedsColons(r: ApprovalRequest, s: ApprovalRequest)
    requires RunsOn(r, s)
    ensures COLON in s.requestId && COLON in r.subject
  {
    var mid :| s.requestId == r.requestId + [COLON] + mid && r.subject == mid + [COLON] + s.subject;
    assert s.requestId[|r.requestId|] == COLON && r.subject[|mid|] == COLON;
  }

  /** Ids without a colon, such as the generated ones, leave one way to cut the text. */
  lemma {:induction false} PlainIdsBind(r: ApprovalRequest, s: ApprovalRequest)
    requires COLON !in r.requestId && COLON !in s.requestId && SignContent(r) == SignContent(s)
    ensures SameSubject(r, s)
  {
    SignContentBinds(r, s);
  }

  /** The content names its request among all others exactly when neither id nor subject holds a colon. */
  lemma {:induction false} ContentIdentifies(r: ApprovalRequest)
    ensures (forall s | SignContent(s) == SignContent(r) :: SameSubject(r, s)) <==>
            COLON !in r.requestId && COLON !in r.subject
  {
    if i :| 0 <= i < |r.requestId| && r.requestId[i] == COLON {
      var s := r.(requestId := r.requestId[..i], subject := r.requestId[i + 1..] + [COLON] + r.subject);
      assert r.requestId == s.requestId + [COLON] + r.requestId[i + 1..];
      RunningOnShares(s, r);
    } else if i :| 0 <= i < |r.subject| && r.subject[i] == COLON {
      var s := r.(requestId := r.requestId + [COLON] + r.subject[..i], subject := r.subject[i + 1..]);
      assert r.subject == r.subject[..i] + [COLON] + s.subject;
      RunningOnShares(r, s);
    } else {
      forall s | SignContent(s) == SignContent(r) ensures SameSubject(r, s) {
        SignContentBinds(r, s);
        if RunsOn(r, s) { RunningOnNeedsColons(r, s); }
        if RunsOn(s, r) { RunningOnNeedsColons(s, r); }
      }
    }
  }

  // --- Evaluation ------------------------------------------------------------

  predicate IsExpired(r: ApprovalRequest, now: int) { r.expiresAt.None? || r.expiresAt.value < now }

  predicate SignedByOffice(sigs: seq<ApprovalSignature>, office: Str) {
    office != [] && exists i | 0 <= i < |sigs| :: sigs[i].officeId == Some(office)
  }

  predicate InOrder(sigs: seq<ApprovalSignature>, order: seq<Str>) {
    forall i | 0 <= i < |order| :: i < |sigs| && sigs[i].officeId == Some(order[i])
  }

  predicate ByThreshold(p: ApprovalPolicy) { p.kind.ThresholdKind? && p.threshold.Some? }

  predicate ByRole(p: ApprovalPolicy) { p.kind.RoleRequired? && p.requiredRoles.Some? }

  predicate ByOrder(p: ApprovalPolicy) { p.kind.Sequential? && p.sequentialOrder.Some? }

  /** What the policy asks for; a policy that lacks the field its kind needs falls back to "at least one signature". */
  predicate Satisfied(c: Crypto, p: ApprovalPolicy, r: ApprovalRequest) {
    if ByThreshold(p) then Met(c, p.threshold.value, r.signatures, SignContent(r))
    else if ByRole(p) then
      forall i | 0 <= i < |p.requiredRoles.value| :: SignedByOffice(r.signatures, p.requiredRoles.value[i])
    else if ByOrder(p) then InOrder(r.signatures, p.sequentialOrder.value)
    else |r.signatures| > 0
  }

  /** A threshold policy is satisfied when each class has enough distinct eligible keys that signed id, colon and
      subject. */
  lemma {:induction false} ThresholdSatisfied(c: Crypto, p: ApprovalPolicy, r: ApprovalRequest)
    requires p.kind == ThresholdKind && p.threshold.Some?
    ensures Satisfied(c, p, r) <==>
            forall i | 0 <= i < |p.threshold.value| :: Endorsed(c, p.threshold.value[i], r)
  {
    var reqs := p.threshold.value;
    assert Ascii(":") == [COLON];
    forall i | 0 <= i < |reqs|
      ensures ClassMet(c, reqs[i], r.signatures, SignContent(r)) <==> Endorsed(c, reqs[i], r)
    {
      ClassMetMeans(c, reqs[i], r.signatures, SignContent(r));
    }
    hide ClassMet;
    hide Endorsed;
  }

  ghost predicate Endorsed(c: Crypto, req: Requirement, r: ApprovalRequest) {
    exists keys | Endorse(c, req, r.signatures, r.requestId + Ascii(":") + r.subject, keys) ::
      |keys| >= req.requiredSignatures
  }

  /** A role policy is satisfied when every required office, none of them unnamed, has signed. */
  lemma {:induction false} RolesSatisfied(c: Crypto, p: ApprovalPolicy, r: ApprovalRequest)
    requires p.kind == RoleRequired && p.requiredRoles.Some?
    ensures Satisfied(c, p, r) <==>
            forall office | office in p.requiredRoles.value ::
              office != [] && exists s | s in r.signatures :: s.officeId == Some(office)
  {
    var roles := p.requiredRoles.value;
    forall office: Str
      ensures SignedByOffice(r.signatures, office) <==>
              office != [] && exists s | s in r.signatures :: s.officeId == Some(office)
    {
      if i :| 0 <= i < |r.signatures| && r.signatures[i].officeId == Some(office) {
        assert r.signatures[i] in r.signatures;
      }
    }
    hide SignedByOffice;
    if Satisfied(c, p, r) {
      forall office | office in roles ensures SignedByOffice(r.signatures, office) {
        var i :| 0 <= i < |roles| && roles[i] == office;
      }
    } else {
      var i :| 0 <= i < |roles| && !SignedByOffice(r.signatures, roles[i]);
      assert roles[i] in roles;
    }
  }

  /** A sequential policy is satisfied when the signatures begin with those of the offices, in order; a policy of the
      last kind, or one that lacks the field its kind needs, by any signature. */
  lemma {:induction false} OrderSatisfied(c: Crypto, p: ApprovalPolicy, r: ApprovalRequest)
    ensures p.kind == Sequential && p.sequentialOrder.Some? ==>
              (Satisfied(c, p, r) <==>
               && |p.sequentialOrder.value| <= |r.signatures|
               && forall i | 0 <= i < |p.sequentialOrder.value| ::
                    r.signatures[i].officeId == Some(p.sequentialOrder.value[i]))
    ensures p.kind == Unanimous || (p.kind == ThresholdKind && p.threshold.None?)
            || (p.kind == RoleRequired && p.requiredRoles.None?)
            || (p.kind == Sequential && p.sequentialOrder.None?) ==>
              (Satisfied(c, p, r) <==> r.signatures != [])
  {
    if ByOrder(p) && InOrder(r.signatures, p.sequentialOrder.value) && |p.sequentialOrder.value| > 0 {
      var last := |p.sequentialOrder.value| - 1;
      assert p.sequentialOrder.value[last] == p.sequentialOrder.value[last];
    }
  }

  /** The lines of the report for offices and for places: one signature wanted, and whether it is there. */
  lemma {:induction false} LinesMean(sigs: seq<ApprovalSignature>, order: seq<Str>, i: nat)
    requires i < |order|
    ensures var has := order[i] != [] && exists s | s in sigs :: s.officeId == Some(order[i]);
            RoleStatus(sigs, order[i]) == ClassStatus(order[i], 1, if has then 1 else 0, has)
    ensures var has := i < |sigs| && sigs[i].officeId == Some(order[i]);
            PlaceStatus(sigs, order, i) == ClassStatus(order[i], 1, if has then 1 else 0, has)
  {
    if j :| 0 <= j < |sigs| && sigs[j].officeId == Some(order[i]) { assert sigs[j] in sigs; }
  }

  /** Which offices and places are reported. */
  lemma {:induction false} ReportsMean(sigs: seq<ApprovalSignature>, order: seq<Str>, i: nat)
    requires i < |order|
    ensures Unsigned(sigs)(order[i]) == if SignedByOffice(sigs, order[i]) then [] else [order[i]]
    ensures Misplaced(sigs, order)(i) ==
            if i < |sigs| && sigs[i].officeId == Some(order[i]) then [] else [PlaceText(i, order[i])]
    ensures |Places(order)| == |order| && Places(order)[i] == i
    ensures |MissingTexts(order)| == |order| && MissingTexts(order)[i] == MissingText(order[i])
  {
    hide PlaceText;
    hide MissingText;
  }

  /** The reports, spelled out. */
  lemma {:induction false} ReportTexts(i: nat, office: Str)
    ensures MissingText(office) == Ascii("Missing signature from office: ") + office
    ensures PlaceText(i, office) == Ascii("Position ") + Json.PrintInt(i) + Ascii(": expected office ") + office
    ensures NO_SIGNATURES == Ascii("No signatures collected")
  {
  }

  function StatusAt(c: Crypto, p: ApprovalPolicy, r: ApprovalRequest, now: int): RequestStatus {
    if IsExpired(r, now) then Expired else if Satisfied(c, p, r) then Approved else Pending
  }

  /** A signature added with a matching key counts for its class wherever the key is eligible. */
  lemma {:induction false} AddedSignatureCounts(c: Crypto, r: ApprovalRequest, secret: Str, key: Str, keyClass: Str,
                                                office: Option<Str>, signedAt: Str, now: int, req: Requirement)
    requires KeyPair(c, secret, key) && req.role == keyClass && key in req.eligibleKeys
    ensures var a := AddApprovalSignature(c, r, secret, key, keyClass, office, signedAt, now);
            a.Done? ==>
              && CountedKeys(c, req, a.request.signatures, SignContent(a.request))
                 == CountedKeys(c, req, r.signatures, SignContent(r)) + {key}
              && r.signatures < a.request.signatures
              && (forall i | 0 <= i < |r.signatures| :: r.signatures[i].publicKey != key)
  {
    var a := AddApprovalSignature(c, r, secret, key, keyClass, office, signedAt, now);
    if a.Done? {
      var s := a.request.signatures[|r.signatures|];
      CountedSnoc(c, req, r.signatures, s, SignContent(r));
    }
  }

  /** One line of the report for a required office. */
  function RoleStatus(sigs: seq<ApprovalSignature>, office: Str): ClassStatus {
    var signed := SignedByOffice(sigs, office);
    ClassStatus(office, 1, if signed then 1 else 0, signed)
  }

  /** One line of the report for a place in the required order. */
  function PlaceStatus(sigs: seq<ApprovalSignature>, order: seq<Str>, i: nat): ClassStatus
    requires i < |order|
  {
    var here := i < |sigs| && sigs[i].officeId == Some(order[i]);
    ClassStatus(order[i], 1, if here then 1 else 0, here)
  }

  const NO_SIGNATURES: Str := Ascii("No signatures collected")

  function MissingText(office: Str): Str { Ascii("Missing signature from office: ") + office }

  function PlaceText(i: nat, office: Str): Str {
    Ascii("Position ") + Json.PrintInt(i) + Ascii(": expected office ") + office
  }

  function Unsigned(sigs: seq<ApprovalSignature>): Str -> seq<Str> {
    office => if SignedByOffice(sigs, office) then [] else [office]
  }

  function MissingOffices(sigs: seq<ApprovalSignature>, roles: seq<Str>): seq<Str> { FlatMap(roles, Unsigned(sigs)) }

  function MissingTexts(missing: seq<Str>): seq<Str> {
    seq(|missing|, i requires 0 <= i < |missing| => MissingText(missing[i]))
  }

  function Places(order: seq<Str>): seq<nat> { seq(|order|, i => i) }

  function Misplaced(sigs: seq<ApprovalSignature>, order: seq<Str>): nat -> seq<Str> {
    (i: nat) => if i >= |order| || PlaceStatus(sigs, order, i).satisfied then [] else [PlaceText(i, order[i])]
  }

  // --- The evaluator ---------------------------------------------------------

  method MissingRoles(sigs: seq<ApprovalSignature>, roles: seq<Str>)
    returns (missing: seq<Str>, status: seq<ClassStatus>)
    ensures missing == MissingOffices(sigs, roles)
    ensures missing == [] <==> forall i | 0 <= i < |roles| :: SignedByOffice(sigs, roles[i])
    ensures |status| == |roles|
    ensures forall i | 0 <= i < |roles| :: status[i] == RoleStatus(sigs, roles[i])
  {
    var signed := set s | s in sigs && s.officeId.Some? && s.officeId.value != [] :: s.officeId.value;
    missing, status := [], [];
    for i := 0 to |roles|
      invariant missing == MissingOffices(sigs, roles[..i])
      invariant |status| == i
      invariant forall j | 0 <= j < i :: status[j] == RoleStatus(sigs, roles[j])
    {
      var has := roles[i] in signed;
      assert has <==> SignedByOffice(sigs, roles[i]);
      FlatMapNext(roles, Unsigned(sigs), i);
      if !has { missing := missing + [roles[i]]; }
      status := status + [ClassStatus(roles[i], 1, if has then 1 else 0, has)];
    }
    assert roles[..|roles|] == roles;
    FlatMapEmpty(roles, Unsigned(sigs));
    assert forall i | 0 <= i < |roles| :: Unsigned(sigs)(roles[i]) == [] <==> SignedByOffice(sigs, roles[i]);
  }

  method OrderKept(sigs: seq<ApprovalSignature>, order: seq<Str>)
    returns (met: bool, status: seq<ClassStatus>, errors: seq<Str>)
    ensures met <==> InOrder(sigs, order)
    ensures |status| == |order|
    ensures forall i | 0 <= i < |order| :: status[i] == PlaceStatus(sigs, order, i)
    ensures errors == FlatMap(Places(order), Misplaced(sigs, order))
  {
    hide PlaceText;
    hide FlatMap;
    met, status, errors := true, [], [];
    assert FlatMap(Places(order)[..0], Misplaced(sigs, order)) == [] by { FlatMapNothing(Misplaced(sigs, order)); }
    for i := 0 to |order|
      invariant met <==> forall j | 0 <= j < i :: j < |sigs| && sigs[j].officeId == Some(order[j])
      invariant |status| == i
      invariant forall j | 0 <= j < i :: status[j] == PlaceStatus(sigs, order, j)
      invariant errors == FlatMap(Places(order)[..i], Misplaced(sigs, order))
    {
      FlatMapNext(Places(order), Misplaced(sigs, order), i);
      var here := i < |sigs| && sigs[i].officeId == Some(order[i]);
      if !here { met, errors := false, errors + [PlaceText(i, order[i])]; }
      status := status + [ClassStatus(order[i], 1, if here then 1 else 0, here)];
    }
    assert Places(order)[..|order|] == Places(order);
  }

  /** What an evaluation reports for each kind of policy. */
  ghost predicate Reports(c: Crypto, p: ApprovalPolicy, r: ApprovalRequest, e: Evaluation) {
    if ByThreshold(p) then
      && |e.classStatus| == |p.threshold.value|
      && (forall i | 0 <= i < |e.classStatus| ::
            e.classStatus[i] == StatusOf(c, p.threshold.value[i], r.signatures, SignContent(r)))
      && e.totalValid == TotalCollected(e.classStatus) && e.totalRequired == TotalRequired(e.classStatus)
      && e.errors == FlatMap(p.threshold.value, ClassErrors(c, r.signatures, SignContent(r)))
    else if ByRole(p) then
      && |e.classStatus| == |p.requiredRoles.value| == e.totalRequired && e.totalValid == |r.signatures|
      && (forall i | 0 <= i < |e.classStatus| :: e.classStatus[i] == RoleStatus(r.signatures, p.requiredRoles.value[i]))
      && e.errors == MissingTexts(MissingOffices(r.signatures, p.requiredRoles.value))
    else if ByOrder(p) then
      && |e.classStatus| == |p.sequentialOrder.value| == e.totalRequired && e.totalValid == |r.signatures|
      && (forall i | 0 <= i < |e.classStatus| ::
            e.classStatus[i] == PlaceStatus(r.signatures, p.sequentialOrder.value, i))
      && e.errors == FlatMap(Places(p.sequentialOrder.value), Misplaced(r.signatures, p.sequentialOrder.value))
    else
      && e.classStatus == [] && e.totalValid == |r.signatures| && e.totalRequired == 1
      && e.errors == if r.signatures == [] then [NO_SIGNATURES] else []
  }

  /** Only the status changes. A threshold evaluation reports its count even when expired; the other kinds do not. */
  method EvaluateApprovalRequest(c: Crypto, r: ApprovalRequest, p: ApprovalPolicy, now: int)
    returns (next: ApprovalRequest, e: Evaluation)
    ensures next == r.(status := StatusAt(c, p, r, now))
    ensures e.expired <==> IsExpired(r, now)
    ensures e.met <==> Satisfied(c, p, r) && (ByThreshold(p) || !e.expired)
    ensures Reports(c, p, r, e)
  {
    hide ClassErrors;
    hide StatusOf;
    hide Met;
    hide Misplaced;
    var sigs, expired := r.signatures, r.expiresAt.None? || r.expiresAt.value < now;
    if ByThreshold(p) {
      e := EvaluateThreshold(c, p.threshold.value, sigs, SignContent(r));
      e := e.(expired := expired);
      next := r.(status := if expired then Expired else if e.met then Approved else Pending);
      return;
    }
    if ByRole(p) {
      var missing, status := MissingRoles(sigs, p.requiredRoles.value);
      var met := |missing| == 0;
      e := Evaluation(met && !expired, status, |sigs|, |p.requiredRoles.value|, expired, MissingTexts(missing));
      next := r.(status := if expired then Expired else if met then Approved else Pending);
      return;
    }
    if ByOrder(p) {
      var met, status, errors := OrderKept(sigs, p.sequentialOrder.value);
      e := Evaluation(met && !expired, status, |sigs|, |p.sequentialOrder.value|, expired, errors);
      next := r.(status := if expired then Expired else if met then Approved else Pending);
      return;
    }
    var some := |sigs| > 0;
    e := Evaluation(some && !expired, [], |sigs|, 1, expired, if some then [] else [NO_SIGNATURES]);
    next := r.(status := if expired then Expired else if some then Approved else Pending);
  }

  // --- Runs ------------------------------------------------------------------

  datatype Event =
    | Add(from: nat, secret: Str, key: Str, keyClass: Str, office: Option<Str>, signedAt: Str, now: int)
    | Evaluate(from: nat, policy: ApprovalPolicy, now: int)

  /** What a step yields when it starts from the request at `e.from` of the pool. */
  ghost function Outcome(c: Crypto, pool: seq<ApprovalRequest>, e: Event): Attempt
    requires e.from < |pool|
  {
    var r := pool[e.from];
    match e
    case Add(_, secret, key, keyClass, office, signedAt, now) =>
      AddApprovalSignature(c, r, secret, key, keyClass, office, signedAt, now)
    case Evaluate(_, policy, now) => Done(r.(status := StatusAt(c, policy, r, now)))
  }

  /** The requests that exist after the events, oldest first; a refused step adds none. */
  ghost function Pool(c: Crypto, r0: ApprovalRequest, events: seq<Event>): (pool: seq<ApprovalRequest>)
    ensures |pool| >= 1
  {
    if events == [] then [r0]
    else
      var pool := Pool(c, r0, events[..|events| - 1]);
      var e := events[|events| - 1];
      if e.from < |pool| && Outcome(c, pool, e).Done? then pool + [Outcome(c, pool, e).request] else pool
  }

  ghost predicate ClockNonDecreasing(events: seq<Event>) {
    forall i, j | 0 <= i < j < |events| :: events[i].now <= events[j].now
  }

  ghost predicate DistinctSigners(sigs: seq<ApprovalSignature>) {
    forall i, j | 0 <= i < j < |sigs| :: sigs[i].publicKey != sigs[j].publicKey
  }

  /** `r` comes from `r0`: same identity and expiry, its signatures extend r0's, no key twice. */
  ghost predicate Descends(r0: ApprovalRequest, r: ApprovalRequest) {
    && r.requestId == r0.requestId && r.subject == r0.subject && r.expiresAt == r0.expiresAt
    && r.policyId == r0.policyId && r.requestedBy == r0.requestedBy
    && r0.signatures <= r.signatures && DistinctSigners(r.signatures)
  }

  lemma {:induction false} StepDescends(c: Crypto, r0: ApprovalRequest, pool: seq<ApprovalRequest>, e: Event)
    requires e.from < |pool| && Descends(r0, pool[e.from]) && Outcome(c, pool, e).Done?
    ensures Descends(r0, Outcome(c, pool, e).request)
    ensures pool[e.from].signatures <= Outcome(c, pool, e).request.signatures
  {
  }

  /** Every request of every run keeps identity and expiry, only gains signatures, and no key signs twice. */
  lemma {:induction false} PoolDescends(c: Crypto, r0: ApprovalRequest, events: seq<Event>, i: nat)
    requires DistinctSigners(r0.signatures) && i < |Pool(c, r0, events)|
    ensures Descends(r0, Pool(c, r0, events)[i])
    decreases |events|
  {
    if events == [] {
    } else {
      var before := events[..|events| - 1];
      var pool, e := Pool(c, r0, before), events[|events| - 1];
      if i < |pool| {
        PoolDescends(c, r0, before, i);
      } else {
        PoolDescends(c, r0, before, e.from);
        StepDescends(c, r0, pool, e);
      }
    }
  }

  /** A new request is pending and unsigned. In every run from it, each request keeps its id and subject, is signed by
      distinct keys, and expires exactly when the timeout of the first has passed. */
  lemma {:induction false} CreatedRequest(c: Crypto, id: Str, policyId: Str, subject: Str, requestedBy: Str,
                                          timeoutSeconds: int, now: int, events: seq<Event>, i: nat, later: int)
    requires i < |Pool(c, CreateApprovalRequest(id, policyId, subject, requestedBy, timeoutSeconds, now), events)|
    ensures var r0 := CreateApprovalRequest(id, policyId, subject, requestedBy, timeoutSeconds, now);
            var r := Pool(c, r0, events)[i];
            && r0.status.Pending? && r0.signatures == []
            && r.requestId == id && r.subject == subject && r.policyId == policyId && r.requestedBy == requestedBy
            && DistinctSigners(r.signatures)
            && (IsExpired(r, later) <==> later - now > timeoutSeconds * 1000)
  {
    PoolDescends(c, CreateApprovalRequest(id, policyId, subject, requestedBy, timeoutSeconds, now), events, i);
  }

  // --- Ancestry --------------------------------------------------------------

  /** For each request of the pool, the one it was made from; the first stands for itself. */
  ghost function Origins(c: Crypto, r0: ApprovalRequest, events: seq<Event>): (origins: seq<nat>)
    ensures |origins| == |Pool(c, r0, events)|
  {
    if events == [] then [0]
    else
      var before, e := events[..|events| - 1], events[|events| - 1];
      var pool := Pool(c, r0, before);
      if e.from < |pool| && Outcome(c, pool, e).Done? then Origins(c, r0, before) + [e.from] else Origins(c, r0, before)
  }

  /** Request `b` is request `a`, or was made from it in one or more steps. */
  ghost predicate MadeFrom(origins: seq<nat>, a: nat, b: nat)
    requires b < |origins|
  {
    a == b || (origins[b] < b && MadeFrom(origins, a, origins[b]))
  }

  lemma {:induction false} MadeFromEarlier(origins: seq<nat>, more: seq<nat>, a: nat, b: nat)
    requires b < |origins| && origins <= more
    ensures MadeFrom(more, a, b) <==> MadeFrom(origins, a, b)
    decreases b
  {
    if a == b || origins[b] >= b {
    } else {
      MadeFromEarlier(origins, more, a, origins[b]);
    }
  }

  /** `later` is the same request with, perhaps, more signatures. */
  ghost predicate Extends(r: ApprovalRequest, later: ApprovalRequest) {
    && later.requestId == r.requestId && later.subject == r.subject && later.expiresAt == r.expiresAt
    && r.signatures <= later.signatures
  }

  lemma {:induction false} StepExtends(c: Crypto, pool: seq<ApprovalRequest>, e: Event)
    requires e.from < |pool| && Outcome(c, pool, e).Done?
    ensures Extends(pool[e.from], Outcome(c, pool, e).request)
  {
  }

  /** Whatever was made from a request extends it. */
  lemma {:induction false} MadeFromExtends(c: Crypto, r0: ApprovalRequest, events: seq<Event>, a: nat, b: nat)
    requires b < |Pool(c, r0, events)| && MadeFrom(Origins(c, r0, events), a, b)
    ensures a <= b && Extends(Pool(c, r0, events)[a], Pool(c, r0, events)[b])
    decreases |events|
  {
    hide Outcome;
    if events == [] {
    } else {
      var before, e := events[..|events| - 1], events[|events| - 1];
      var pool := Pool(c, r0, before);
      MadeFromBelow(Origins(c, r0, events), a, b);
      if b < |pool| {
        MadeFromEarlier(Origins(c, r0, before), Origins(c, r0, events), a, b);
        MadeFromExtends(c, r0, before, a, b);
      } else if a < b {
        MadeFromEarlier(Origins(c, r0, before), Origins(c, r0, events), a, e.from);
        MadeFromExtends(c, r0, before, a, e.from);
        StepExtends(c, pool, e);
      }
    }
  }

  lemma {:induction false} MadeFromBelow(origins: seq<nat>, a: nat, b: nat)
    requires b < |origins| && MadeFrom(origins, a, b)
    ensures a <= b
    decreases b
  {
    if a == b {
    } else {
      MadeFromBelow(origins, a, origins[b]);
    }
  }

  /** The pool only grows. */
  lemma {:induction false} PoolGrows(c: Crypto, r0: ApprovalRequest, events: seq<Event>, i: nat)
    requires i <= |events|
    ensures Pool(c, r0, events[..i]) <= Pool(c, r0, events)
    decreases |events|
  {
    hide Outcome;
    if i == |events| {
      assert events[..i] == events;
    } else {
      var before := events[..|events| - 1];
      PoolGrows(c, r0, before, i);
      assert before[..i] == events[..i];
    }
  }

  /** What the event at `i` of a run yielded. */
  ghost predicate Yields(c: Crypto, r0: ApprovalRequest, events: seq<Event>, i: nat, a: Attempt)
    requires i < |events|
  {
    var pool := Pool(c, r0, events[..i]);
    events[i].from < |pool| && Outcome(c, pool, events[i]) == a
  }

  // --- What the runs let in --------------------------------------------------

  /** In every run from a new request, a signature is accepted exactly while the request it starts from is pending, the
      timeout has not passed, and the key is new to that request. */
  lemma {:induction false} AcceptedUntilTimeout(c: Crypto, id: Str, policyId: Str, subject: Str, requestedBy: Str,
                                                timeoutSeconds: int, now: int, events: seq<Event>, e: Event)
    requires e.Add?
    requires e.from < |Pool(c, CreateApprovalRequest(id, policyId, subject, requestedBy, timeoutSeconds, now), events)|
    ensures var r0 := CreateApprovalRequest(id, policyId, subject, requestedBy, timeoutSeconds, now);
            var pool := Pool(c, r0, events);
            Outcome(c, pool, e).Done? <==>
            && pool[e.from].status == Pending && e.now - now <= timeoutSeconds * 1000
            && !HasSigned(pool[e.from], e.key)
  {
    var r0 := CreateApprovalRequest(id, policyId, subject, requestedBy, timeoutSeconds, now);
    CreatedRequest(c, id, policyId, subject, requestedBy, timeoutSeconds, now, events, e.from, e.now);
    PoolDescends(c, r0, events, e.from);
    AddedExactly(c, Pool(c, r0, events)[e.from], e.secret, e.key, e.keyClass, e.office, e.signedAt, e.now);
  }

  /** Every request but the first is what one event made of an earlier one. */
  lemma {:induction false} MadeByEvent(c: Crypto, r0: ApprovalRequest, events: seq<Event>, b: nat) returns (i: nat)
    requires 0 < b < |Pool(c, r0, events)|
    ensures i < |events| && |Pool(c, r0, events[..i])| == b
    ensures Yields(c, r0, events, i, Done(Pool(c, r0, events)[b]))
    decreases |events|
  {
    hide Outcome;
    var n := |events| - 1;
    if b < |Pool(c, r0, events[..n])| {
      i := MadeByEvent(c, r0, events[..n], b);
      assert events[..n][..i] == events[..i];
    } else {
      i := n;
    }
  }

  /** In a run from a pending request, an approved one was approved by the evaluation that made it, while its policy was
      satisfied and its time not over; and no signature can be added to it. */
  lemma {:induction false} ApprovedIsClosed(c: Crypto, r0: ApprovalRequest, events: seq<Event>, b: nat, e: Event)
    returns (i: nat)
    requires r0.status == Pending && b < |Pool(c, r0, events)| && Pool(c, r0, events)[b].status == Approved
    requires e.Add? && e.from == b
    ensures i < |events| && events[i].Evaluate? && events[i].from < |Pool(c, r0, events[..i])|
    ensures var r := Pool(c, r0, events[..i])[events[i].from];
            Satisfied(c, events[i].policy, r) && !IsExpired(r, events[i].now)
    ensures Outcome(c, Pool(c, r0, events), e) == Refused(NotPending)
  {
    hide Satisfied;
    FirstIsFirst(c, r0, events);
    i := MadeByEvent(c, r0, events, b);
  }

  lemma {:induction false} FirstIsFirst(c: Crypto, r0: ApprovalRequest, events: seq<Event>)
    ensures Pool(c, r0, events)[0] == r0
    decreases |events|
  {
    hide Outcome;
    if events == [] {
    } else {
      FirstIsFirst(c, r0, events[..|events| - 1]);
    }
  }

  // --- Approval and expiry over runs -----------------------------------------

  /** An evaluation changes only the status: expired exactly after expiry, before it approved exactly when the policy is
      satisfied, and pending otherwise. */
  lemma {:induction false} ApprovedOnlyInTime(c: Crypto, r0: ApprovalRequest, events: seq<Event>, i: nat,
                                              r: ApprovalRequest)
    requires DistinctSigners(r0.signatures) && i < |events| && events[i].Evaluate?
    requires Yields(c, r0, events, i, Done(r))
    ensures r.status.Expired? <==> IsExpired(r0, events[i].now)
    ensures r.status.Approved? <==> !IsExpired(r0, events[i].now) && Satisfied(c, events[i].policy, r)
    ensures r.status.Pending? <==> !IsExpired(r0, events[i].now) && !Satisfied(c, events[i].policy, r)
    ensures r == Pool(c, r0, events[..i])[events[i].from].(status := r.status)
  {
    PoolDescends(c, r0, events[..i], events[i].from);
  }

  /** Once any evaluation has reported expired, no later step adds a signature or approves, whichever request it starts
      from. */
  lemma {:induction false} ExpiredIsFinal(c: Crypto, r0: ApprovalRequest, events: seq<Event>, i: nat,
                                          r: ApprovalRequest, j: nat, a: Attempt)
    requires DistinctSigners(r0.signatures) && ClockNonDecreasing(events) && i < j < |events|
    requires events[i].Evaluate? && Yields(c, r0, events, i, Done(r)) && r.status.Expired?
    requires Yields(c, r0, events, j, a)
    ensures events[j].Add? ==> a.Refused?
    ensures events[j].Evaluate? ==> a.Done? && a.request.status.Expired?
  {
    ApprovedOnlyInTime(c, r0, events, i, r);
    PoolDescends(c, r0, events[..j], events[j].from);
  }

  /** Signatures that satisfy a policy of any kind still do after more have been appended. */
  lemma {:induction false} SatisfiedIsKept(c: Crypto, p: ApprovalPolicy, r: ApprovalRequest, later: ApprovalRequest)
    requires Satisfied(c, p, r) && SignContent(r) == SignContent(later) && r.signatures <= later.signatures
    ensures Satisfied(c, p, later)
  {
    var before, after := r.signatures, later.signatures;
    assert forall s | s in before :: s in after;
    if ByThreshold(p) {
      MetMonotone(c, p.threshold.value, before, after, SignContent(r));
    } else if ByRole(p) {
      forall i | 0 <= i < |p.requiredRoles.value| ensures SignedByOffice(after, p.requiredRoles.value[i]) {
        assert SignedByOffice(before, p.requiredRoles.value[i]);
        var k :| 0 <= k < |before| && before[k].officeId == Some(p.requiredRoles.value[i]);
        assert after[k] == before[k];
      }
    } else if ByOrder(p) {
      assert forall i | 0 <= i < |before| :: after[i] == before[i];
    }
  }

  /** An approval holds on every later evaluation under its policy, of the request or of any made from it,
      until expiry. */
  lemma {:induction false} ApprovalIsStable(c: Crypto, r0: ApprovalRequest, events: seq<Event>, i: nat, j: nat,
                                            approved: ApprovalRequest, later: ApprovalRequest)
    requires i < j < |events| && events[i].Evaluate? && events[j].Evaluate? && events[i].policy == events[j].policy
    requires Yields(c, r0, events, i, Done(approved)) && approved.status.Approved?
    requires Yields(c, r0, events, j, Done(later))
    requires MadeFrom(Origins(c, r0, events[..j]), events[i].from, events[j].from)
    ensures later.status == if IsExpired(approved, events[j].now) then Expired else Approved
  {
    hide Satisfied;
    var p, a, b := events[i].policy, events[i].from, events[j].from;
    var before, after := Pool(c, r0, events[..i]), Pool(c, r0, events[..j]);
    assert events[..j][..i] == events[..i];
    PoolGrows(c, r0, events[..j], i);
    MadeFromExtends(c, r0, events[..j], a, b);
    assert before[a] == after[a];
    SatisfiedIsKept(c, p, before[a], after[b]);
  }
}
