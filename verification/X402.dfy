/**
  The x402 payment gate of integrations/x402-adapter/x402-governance.ts: four
  checks, then an in-place increment of the chosen delegation's spend. The
  configured list may hold one delegation object several times.
 */
module X402 {
  import opened Text

  /** Prices are parsed from digits and dots, so they are never negative. */
  type Price = r: real | r >= 0.0

  datatype Payment = Payment(price: Price, network: Str, scheme: Str, payTo: Str)
  datatype Gate = Identity | DelegationGate | Merchant | Spend
  datatype Receipt = Authorized(payment: Payment, remainingBudget: real) | Denied(payment: Payment, blockedBy: Gate)

  /** What a delegation allows; an expiry that cannot be read is None. */
  datatype Terms = Terms(id: Str, scopes: seq<Str>, spendLimit: real,
                         approvedMerchants: seq<Str>, approvedNetworks: seq<Str>, expiresAt: Option<int>)

  class Delegation {
    const terms: Terms
    var spentAmount: real

    constructor (terms: Terms, spent: real)
      ensures this.terms == terms && spentAmount == spent
    {
      this.terms := terms;
      spentAmount := spent;
    }
  }

  // --- The decision ----------------------------------------------------------

  /** The filter of findDelegation, budget test included. */
  predicate Covers(t: Terms, spent: real, p: Payment, now: int) {
    && (Ascii("*") in t.scopes || p.scheme in t.scopes || Ascii("x402") in t.scopes || Ascii("api_access") in t.scopes)
    && (t.approvedNetworks == [] || p.network in t.approvedNetworks)
    && t.expiresAt.Some? && t.expiresAt.value > now
    && spent + p.price <= t.spendLimit
  }

  predicate MerchantOk(t: Terms, p: Payment) { t.approvedMerchants == [] || p.payTo in t.approvedMerchants }

  predicate Lapsed(t: Terms, now: int) { t.expiresAt.Some? && t.expiresAt.value < now }

  /** The configured list, by identity, and what each delegation allows. */
  datatype Config<!K> = Config(key: Str, order: seq<K>, terms: map<K, Terms>)

  /** How much each delegation has spent, and the receipts so far. */
  datatype Ledger<!K> = Ledger(spent: map<K, real>, receipts: seq<Receipt>)

  predicate Matching<K(==)>(cfg: Config<K>, l: Ledger<K>) {
    && cfg.terms.Keys == l.spent.Keys
    && forall i | 0 <= i < |cfg.order| :: cfg.order[i] in cfg.terms
  }

  predicate CoversAt<K(==)>(cfg: Config<K>, l: Ledger<K>, p: Payment, now: int, i: nat)
    requires Matching(cfg, l) && i < |cfg.order|
  {
    Covers(cfg.terms[cfg.order[i]], l.spent[cfg.order[i]], p, now)
  }

  /** `i` is the first covering delegation, or the length of the list when there is none. */
  predicate IsFirst<K(==)>(cfg: Config<K>, l: Ledger<K>, p: Payment, now: int, i: nat)
    requires Matching(cfg, l)
  {
    && i <= |cfg.order|
    && (i < |cfg.order| ==> CoversAt(cfg, l, p, now, i))
    && forall j | 0 <= j < i :: !CoversAt(cfg, l, p, now, j)
  }

  function Find<K(==)>(cfg: Config<K>, l: Ledger<K>, p: Payment, now: int, from: nat := 0): (i: nat)
    requires Matching(cfg, l) && from <= |cfg.order|
    requires forall j | 0 <= j < from :: !CoversAt(cfg, l, p, now, j)
    ensures IsFirst(cfg, l, p, now, i)
    decreases |cfg.order| - from
  {
    if from == |cfg.order| || CoversAt(cfg, l, p, now, from) then from else Find(cfg, l, p, now, from + 1)
  }

  /** An evaluation: the payment, and the clock as read while searching and again afterwards. */
  datatype Input = Input(payment: Payment, searchedAt: int, checkedAt: int)

  function Deny<K>(l: Ledger<K>, p: Payment, gate: Gate): Ledger<K> { l.(receipts := l.receipts + [Denied(p, gate)]) }

  function Pay<K(==)>(l: Ledger<K>, k: K, p: Payment, limit: real): Ledger<K>
    requires k in l.spent
  {
    var now := l.spent[k] + p.price;
    Ledger(l.spent[k := now], l.receipts + [Authorized(p, limit - now)])
  }

  /** One evaluate call on values: the gates in the order the adapter applies them. */
  function Evaluate<K(==)>(cfg: Config<K>, l: Ledger<K>, x: Input): (r: Ledger<K>)
    requires Matching(cfg, l)
    ensures Matching(cfg, r)
  {
    var p := x.payment;
    if cfg.key == [] then Deny(l, p, Identity)
    else
      var i := Find(cfg, l, p, x.searchedAt);
      if i == |cfg.order| then Deny(l, p, DelegationGate)
      else
        var k := cfg.order[i];
        var t := cfg.terms[k];
        if Lapsed(t, x.checkedAt) then Deny(l, p, DelegationGate)
        else if !MerchantOk(t, p) then Deny(l, p, Merchant)
        else if l.spent[k] + p.price > t.spendLimit then Deny(l, p, Spend)
        else Pay(l, k, p, t.spendLimit)
  }

  // --- The adapter -----------------------------------------------------------

  class Adapter {
    const agentPublicKey: Str
    const delegations: seq<Delegation>
    var receipts: seq<Receipt>

    ghost function Setup(): Config<Delegation> {
      Config(agentPublicKey, delegations, map d | d in delegations :: d.terms)
    }

    ghost function Book(): (l: Ledger<Delegation>)
      reads this, delegations
      ensures Matching(Setup(), l)
    {
      Ledger(map d | d in delegations :: d.spentAmount, receipts)
    }

    constructor (key: Str, delegations: seq<Delegation>)
      ensures this.agentPublicKey == key && this.delegations == delegations && receipts == []
    {
      agentPublicKey := key;
      this.delegations := delegations;
      receipts := [];
    }

    method FindDelegation(p: Payment, now: int) returns (i: nat)
      ensures IsFirst(Setup(), Book(), p, now, i)
    {
      i := 0;
      while i < |delegations|
        invariant 0 <= i <= |delegations|
        invariant forall j | 0 <= j < i :: !CoversAt(Setup(), Book(), p, now, j)
      {
        var d := delegations[i];
        assert CoversAt(Setup(), Book(), p, now, i) <==> Covers(d.terms, d.spentAmount, p, now);
        if Covers(d.terms, d.spentAmount, p, now) { return; }
        i := i + 1;
      }
    }

    method DenyPayment(p: Payment, gate: Gate) returns (r: Receipt)
      modifies this`receipts
      ensures r == Denied(p, gate) && receipts == old(receipts) + [r]
      ensures Book() == Deny(old(Book()), p, gate)
    {
      r := Denied(p, gate);
      receipts := receipts + [r];
    }

    /** The in-place update and its receipt. */
    method Charge(d: Delegation, p: Payment) returns (r: Receipt)
      requires d in delegations
      modifies this`receipts, d
      ensures receipts == old(receipts) + [r]
      ensures Book() == Pay(old(Book()), d, p, d.terms.spendLimit)
    {
      d.spentAmount := d.spentAmount + p.price;
      r := Authorized(p, d.terms.spendLimit - d.spentAmount);
      receipts := receipts + [r];
      assert Book().spent == old(Book().spent)[d := d.spentAmount];
    }

    /** The gates on the real objects do what Evaluate does on values. */
    method EvaluatePayment(x: Input) returns (r: Receipt)
      modifies this`receipts, delegations
      ensures Book() == Evaluate(Setup(), old(Book()), x)
      ensures receipts == old(receipts) + [r]
    {
      hide Covers;
      var p := x.payment;
      if agentPublicKey == [] {
        r := DenyPayment(p, Identity);
        return;
      }
      var i := FindDelegation(p, x.searchedAt);
      FirstIsUnique(Setup(), Book(), p, x.searchedAt, i);
      if i == |delegations| {
        r := DenyPayment(p, DelegationGate);
        return;
      }
      var d := delegations[i];
      if Lapsed(d.terms, x.checkedAt) {
        r := DenyPayment(p, DelegationGate);
      } else if d.terms.approvedMerchants != [] && p.payTo !in d.terms.approvedMerchants {
        r := DenyPayment(p, Merchant);
      } else if d.spentAmount + p.price > d.terms.spendLimit {
        r := DenyPayment(p, Spend);
      } else {
        r := Charge(d, p);
      }
    }

    /** Calls in sequence on the real objects make the run that BudgetRun speaks about. */
    method EvaluateAll(xs: seq<Input>)
      modifies this`receipts, delegations
      ensures Book() == Run(Setup(), old(Book()), xs)
    {
      hide Evaluate;
      for i := 0 to |xs|
        invariant Book() == Run(Setup(), old(Book()), xs[..i])
      {
        assert xs[..i + 1][..i] == xs[..i];
        var receipt := EvaluatePayment(xs[i]);
      }
      assert xs[..|xs|] == xs;
    }
  }

  lemma {:induction false} FirstIsUnique<K>(cfg: Config<K>, l: Ledger<K>, p: Payment, now: int, i: nat)
    requires Matching(cfg, l) && IsFirst(cfg, l, p, now, i)
    ensures i == Find(cfg, l, p, now)
  {
    hide CoversAt;
    var f := Find(cfg, l, p, now);
  }

  // --- Runs ------------------------------------------------------------------

  function Run<K(==)>(cfg: Config<K>, l: Ledger<K>, xs: seq<Input>): (r: Ledger<K>)
    requires Matching(cfg, l)
    ensures Matching(cfg, r)
  {
    if xs == [] then l else Evaluate(cfg, Run(cfg, l, xs[..|xs| - 1]), xs[|xs| - 1])
  }

  /** The total over all delegations, each counted once. */
  ghost function Sum<K>(m: map<K, real>): real {
    if m == map[] then 0.0
    else
      var k :| k in m;
      m[k] + Sum(m - {k})
  }

  lemma {:induction false} SumTakeOut<K>(m: map<K, real>, k: K)
    requires k in m
    ensures Sum(m) == m[k] + Sum(m - {k})
    decreases |m|
  {
    var j :| j in m && Sum(m) == m[j] + Sum(m - {j});
    if j == k {
    } else {
      SumTakeOut(m - {j}, k);
      SumTakeOut(m - {k}, j);
      assert m - {j} - {k} == m - {k} - {j};
    }
  }

  lemma {:induction false} SumUpdate<K>(m: map<K, real>, k: K, v: real)
    requires k in m
    ensures Sum(m[k := v]) == Sum(m) - m[k] + v
  {
    SumTakeOut(m, k);
    SumTakeOut(m[k := v], k);
    assert m[k := v] - {k} == m - {k};
  }

  /** The prices of the authorized receipts. */
  function Paid(rs: seq<Receipt>): real {
    if rs == [] then 0.0
    else Paid(rs[..|rs| - 1]) + if rs[|rs| - 1].Authorized? then rs[|rs| - 1].payment.price else 0.0
  }

  /** What one call may do: never the 'spend' gate, never a negative budget, and exactly the authorized
      price is added. */
  ghost predicate GoodReceipt<K>(before: Ledger<K>, after: Ledger<K>, x: Input, receipt: Receipt) {
    && after.receipts == before.receipts + [receipt] && receipt.payment == x.payment
    && receipt != Denied(x.payment, Spend)
    && (receipt.Authorized? ==> receipt.remainingBudget >= 0.0)
    && Sum(after.spent) - Sum(before.spent) == if receipt.Authorized? then x.payment.price else 0.0
  }

  lemma {:induction false} OneCall<K>(cfg: Config<K>, l: Ledger<K>, x: Input)
    requires Matching(cfg, l)
    ensures var r := Evaluate(cfg, l, x);
            && (exists receipt :: GoodReceipt(l, r, x, receipt))
            && forall k | k in cfg.terms ::
                 l.spent[k] <= r.spent[k] && (r.spent[k] == l.spent[k] || r.spent[k] <= cfg.terms[k].spendLimit)
  {
    var r := Evaluate(cfg, l, x);
    var receipt := r.receipts[|l.receipts|];
    assert r.receipts == l.receipts + [receipt];
    if receipt.Authorized? {
      var k := cfg.order[Find(cfg, l, x.payment, x.searchedAt)];
      SumUpdate(l.spent, k, l.spent[k] + x.payment.price);
    }
    assert GoodReceipt(l, r, x, receipt);
  }

  /** Over any sequence of calls: one receipt each, total spend equals total authorized price, limits are kept. */
  lemma {:induction false} BudgetRun<K>(cfg: Config<K>, l: Ledger<K>, xs: seq<Input>)
    requires Matching(cfg, l)
    ensures var r := Run(cfg, l, xs);
            && |r.receipts| == |l.receipts| + |xs| && l.receipts <= r.receipts
            && Sum(r.spent) - Sum(l.spent) == Paid(r.receipts) - Paid(l.receipts)
            && (forall k | k in cfg.terms && l.spent[k] <= cfg.terms[k].spendLimit ::
                  l.spent[k] <= r.spent[k] <= cfg.terms[k].spendLimit)
            && (forall n | |l.receipts| <= n < |r.receipts| ::
                  && r.receipts[n].payment == xs[n - |l.receipts|].payment
                  && r.receipts[n] != Denied(r.receipts[n].payment, Spend)
                  && (r.receipts[n].Authorized? ==> r.receipts[n].remainingBudget >= 0.0))
    decreases |xs|
  {
    hide Evaluate;
    if xs == [] {
    } else {
      var n := |xs| - 1;
      BudgetRun(cfg, l, xs[..n]);
      var mid, r := Run(cfg, l, xs[..n]), Run(cfg, l, xs);
      OneCall(cfg, mid, xs[n]);
      assert r.receipts[..|r.receipts| - 1] == mid.receipts;
    }
  }

  /** Authorization hinges on the first covering delegation alone. */
  lemma {:induction false} FirstCoveringDecides<K>(cfg: Config<K>, l: Ledger<K>, x: Input)
    requires Matching(cfg, l)
    ensures var rs := Evaluate(cfg, l, x).receipts;
            rs[|rs| - 1].Authorized? <==>
            cfg.key != [] && exists i | 0 <= i < |cfg.order| ::
              && IsFirst(cfg, l, x.payment, x.searchedAt, i)
              && !Lapsed(cfg.terms[cfg.order[i]], x.checkedAt) && MerchantOk(cfg.terms[cfg.order[i]], x.payment)
  {
    var f := Find(cfg, l, x.payment, x.searchedAt);
    forall i | 0 <= i < |cfg.order| && IsFirst(cfg, l, x.payment, x.searchedAt, i) ensures i == f {
      FirstIsUnique(cfg, l, x.payment, x.searchedAt, i);
    }
  }

  // --- The decision, spelled out ---------------------------------------------

  /** The delegation lists the scheme or a general scope, and the network or none; it expires later and
      has the budget. */
  ghost predicate Fits(t: Terms, spent: real, p: Payment, now: int) {
    && (exists s | s in t.scopes :: s in {Ascii("*"), Ascii("x402"), Ascii("api_access"), p.scheme})
    && (t.approvedNetworks != [] ==> p.network in t.approvedNetworks)
    && t.expiresAt.Some? && now < t.expiresAt.value
    && p.price <= t.spendLimit - spent
  }

  lemma {:induction false} FitsIsCovers(t: Terms, spent: real, p: Payment, now: int)
    ensures Fits(t, spent, p, now) <==> Covers(t, spent, p, now)
  {
    hide Ascii;
  }

  ghost predicate FitsAt<K>(cfg: Config<K>, l: Ledger<K>, p: Payment, now: int, i: nat)
    requires Matching(cfg, l) && i < |cfg.order|
  {
    Fits(cfg.terms[cfg.order[i]], l.spent[cfg.order[i]], p, now)
  }

  ghost predicate FirstFit<K>(cfg: Config<K>, l: Ledger<K>, p: Payment, now: int, i: nat)
    requires Matching(cfg, l) && i < |cfg.order|
  {
    FitsAt(cfg, l, p, now, i) && forall j | 0 <= j < i :: !FitsAt(cfg, l, p, now, j)
  }

  /** Without a key the payment is denied for identity. */
  lemma {:induction false} DeniedForIdentity<K>(cfg: Config<K>, l: Ledger<K>, x: Input)
    requires Matching(cfg, l) && cfg.key == []
    ensures Evaluate(cfg, l, x) == Ledger(l.spent, l.receipts + [Denied(x.payment, Identity)])
  {
  }

  /** With one, and no delegation that fits, it is denied for delegation. */
  lemma {:induction false} DeniedForDelegation<K>(cfg: Config<K>, l: Ledger<K>, x: Input)
    requires Matching(cfg, l) && cfg.key != []
    requires forall i | 0 <= i < |cfg.order| :: !FitsAt(cfg, l, x.payment, x.searchedAt, i)
    ensures Evaluate(cfg, l, x) == Ledger(l.spent, l.receipts + [Denied(x.payment, DelegationGate)])
  {
    hide Covers;
    hide Fits;
    forall i | 0 <= i < |cfg.order| ensures !CoversAt(cfg, l, x.payment, x.searchedAt, i) {
      assert !FitsAt(cfg, l, x.payment, x.searchedAt, i);
      FitsIsCovers(cfg.terms[cfg.order[i]], l.spent[cfg.order[i]], x.payment, x.searchedAt);
    }
  }

  /** Otherwise the first that fits decides: it must not have lapsed and must list the merchant or none. Then it alone
      is charged, with the price, and the receipt shows what is left of its budget. */
  lemma {:induction false} FirstFitDecides<K>(cfg: Config<K>, l: Ledger<K>, x: Input, i: nat)
    requires Matching(cfg, l) && cfg.key != [] && i < |cfg.order| && FirstFit(cfg, l, x.payment, x.searchedAt, i)
    ensures var k, p := cfg.order[i], x.payment;
            var t := cfg.terms[k];
            Evaluate(cfg, l, x) ==
            if t.expiresAt.value < x.checkedAt then Ledger(l.spent, l.receipts + [Denied(p, DelegationGate)])
            else if t.approvedMerchants != [] && p.payTo !in t.approvedMerchants then
              Ledger(l.spent, l.receipts + [Denied(p, Merchant)])
            else Ledger(l.spent[k := l.spent[k] + p.price],
                        l.receipts + [Authorized(p, t.spendLimit - (l.spent[k] + p.price))])
  {
    forall j | 0 <= j <= i ensures CoversAt(cfg, l, x.payment, x.searchedAt, j) <==> j == i {
      assert FitsAt(cfg, l, x.payment, x.searchedAt, j) <==> j == i;
      FitsIsCovers(cfg.terms[cfg.order[j]], l.spent[cfg.order[j]], x.payment, x.searchedAt);
    }
    assert CoversAt(cfg, l, x.payment, x.searchedAt, i);
    assert l.spent[cfg.order[i]] + x.payment.price <= cfg.terms[cfg.order[i]].spendLimit;
    hide CoversAt;
    hide Fits;
    assert Find(cfg, l, x.payment, x.searchedAt) == i;
  }
}
