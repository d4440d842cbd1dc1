/**
  canonicalize and canonicalizeForWrite of src/core/canonical.ts over a heap of
  arrays and objects that may be shared or cyclic, with the mutable set of
  ancestors that both thread through their recursion.
 */
module LegacyHeap {
  import opened Text
  import opened Json
  import opened JsonText
  import opened CanonicalLegacy

  type Id = nat
  type AtomValue = v: Value | !v.Arr? && !v.Obj? witness Null
  datatype HVal = Atom(v: AtomValue) | Ref(id: Id)
  datatype Node = ArrNode(items: seq<HVal>) | ObjNode(members: map<Str, HVal>)
  type Heap = map<Id, Node>

  predicate InHeap(h: Heap, x: HVal) { x.Ref? ==> x.id in h }

  predicate NodeInHeap(h: Heap, n: Node) {
    match n
    case ArrNode(items) => forall i | 0 <= i < |items| :: InHeap(h, items[i])
    case ObjNode(m) => forall k | k in m :: InHeap(h, m[k])
  }

  predicate Closed(h: Heap) {
    forall id | id in h :: NodeInHeap(h, h[id])
  }

  // --- Walks and cycles ------------------------------------------------------

  ghost predicate Edge(h: Heap, a: Id, b: Id) {
    a in h && match h[a]
              case ArrNode(items) => exists i | 0 <= i < |items| :: items[i] == Ref(b)
              case ObjNode(m) => exists k | k in m :: m[k] == Ref(b)
  }

  ghost predicate Walk(h: Heap, p: seq<Id>) {
    p != [] && forall i | 0 <= i < |p| - 1 :: Edge(h, p[i], p[i + 1])
  }

  /** The last node of the walk was visited before. */
  ghost predicate Revisits(p: seq<Id>)
    requires p != []
  {
    exists i | 0 <= i < |p| - 1 :: p[i] == p[|p| - 1]
  }

  /** A cycle can be reached from `id`. */
  ghost predicate CycleReachable(h: Heap, id: Id) {
    exists p | Walk(h, p) :: p[0] == id && Revisits(p)
  }

  /** A walk from `id` ends in `anc` or comes back to itself. */
  ghost predicate Trapped(h: Heap, id: Id, anc: set<Id>) {
    exists p | Walk(h, p) :: p[0] == id && (p[|p| - 1] in anc || Revisits(p))
  }

  lemma {:induction false} TrappedWithoutAncestors(h: Heap, id: Id)
    ensures Trapped(h, id, {}) <==> CycleReachable(h, id)
  {
  }

  lemma {:induction false} WalkSuffix(h: Heap, p: seq<Id>, k: nat)
    requires Walk(h, p) && k < |p|
    ensures Walk(h, p[k..])
  {
    var q := p[k..];
    forall i | 0 <= i < |q| - 1 ensures Edge(h, q[i], q[i + 1]) {
      assert Edge(h, p[k + i], p[k + i + 1]);
    }
  }

  lemma {:induction false} TrappedByChild(h: Heap, id: Id, child: Id, anc: set<Id>)
    requires Edge(h, id, child) && Trapped(h, child, anc + {id})
    ensures Trapped(h, id, anc)
  {
    var q :| Walk(h, q) && q[0] == child && (q[|q| - 1] in anc + {id} || Revisits(q));
    var p := [id] + q;
    forall i | 0 <= i < |p| - 1 ensures Edge(h, p[i], p[i + 1]) {
      if i > 0 { assert Edge(h, q[i - 1], q[i]); }
    }
    assert Walk(h, p);
    if q[|q| - 1] == id {
      assert p[0] == p[|p| - 1];
    } else if Revisits(q) {
      var i :| 0 <= i < |q| - 1 && q[i] == q[|q| - 1];
      assert p[i + 1] == p[|p| - 1];
    }
  }

  lemma {:induction false} TrappedThroughChild(h: Heap, id: Id, anc: set<Id>) returns (child: Id)
    requires Trapped(h, id, anc) && id !in anc
    ensures Edge(h, id, child) && Trapped(h, child, anc + {id})
  {
    var p :| Walk(h, p) && p[0] == id && (p[|p| - 1] in anc || Revisits(p));
    assert |p| > 1;
    var q := p[1..];
    child := q[0];
    assert Edge(h, p[0], p[1]);
    WalkSuffix(h, p, 1);
    if Revisits(p) {
      var i :| 0 <= i < |p| - 1 && p[i] == p[|p| - 1];
      if i > 0 {
        assert q[i - 1] == q[|q| - 1];
      }
    }
  }

  // --- Unfolding a heap value into a tree ------------------------------------

  /** The tree under `x`, or None when the recursion meets one of its own ancestors. */
  ghost function Unfold(h: Heap, x: HVal, anc: set<Id>): Option<Value>
    requires Closed(h) && InHeap(h, x)
    decreases h.Keys - anc
  {
    match x
    case Atom(v) => (var t: Value := v; Some(t))
    case Ref(id) =>
      if id in anc then None
      else
        assert NodeInHeap(h, h[id]);
        match h[id]
        case ArrNode(items) =>
          if forall i | 0 <= i < |items| :: Unfold(h, items[i], anc + {id}).Some?
          then Some(Arr(seq(|items|, i requires 0 <= i < |items| => Unfold(h, items[i], anc + {id}).value)))
          else None
        case ObjNode(m) =>
          if forall k | k in m :: Unfold(h, m[k], anc + {id}).Some?
          then Some(Obj(map k | k in m :: Unfold(h, m[k], anc + {id}).value))
          else None
  }

  /** `t` is the tree that `x` stands for, with every shared node copied out. */
  ghost predicate Represents(h: Heap, x: HVal, t: Value)
    decreases t
  {
    match x
    case Atom(v) => t == v
    case Ref(id) =>
      && id in h
      && match h[id]
         case ArrNode(items) =>
           t.Arr? && |t.items| == |items| && forall i | 0 <= i < |items| :: Represents(h, items[i], t.items[i])
         case ObjNode(m) =>
           t.Obj? && t.members.Keys == m.Keys && forall k | k in m :: Represents(h, m[k], t.members[k])
  }

  lemma {:induction false} RepresentsUnique(h: Heap, x: HVal, t: Value, u: Value)
    requires Represents(h, x, t) && Represents(h, x, u)
    ensures t == u
    decreases t
  {
    if x.Atom? {
    } else {
      match h[x.id]
      case ArrNode(items) =>
        forall i | 0 <= i < |items| ensures t.items[i] == u.items[i] {
          RepresentsUnique(h, items[i], t.items[i], u.items[i]);
        }
      case ObjNode(m) =>
        forall k | k in m ensures t.members[k] == u.members[k] {
          RepresentsUnique(h, m[k], t.members[k], u.members[k]);
        }
        assert t.members == u.members;
    }
  }

  lemma {:induction false} UnfoldRepresents(h: Heap, x: HVal, anc: set<Id>)
    requires Closed(h) && InHeap(h, x)
    requires Unfold(h, x, anc).Some?
    ensures Represents(h, x, Unfold(h, x, anc).value)
    decreases h.Keys - anc
  {
    if x.Atom? {
    } else {
      assert NodeInHeap(h, h[x.id]);
      match h[x.id]
      case ArrNode(items) =>
        forall i | 0 <= i < |items| ensures Represents(h, items[i], Unfold(h, items[i], anc + {x.id}).value) {
          UnfoldRepresents(h, items[i], anc + {x.id});
        }
      case ObjNode(m) =>
        forall k | k in m ensures Represents(h, m[k], Unfold(h, m[k], anc + {x.id}).value) {
          UnfoldRepresents(h, m[k], anc + {x.id});
        }
    }
  }

  /** A child whose unfolding fails explains why the parent's does. */
  lemma {:induction false} UnfoldFails(h: Heap, id: Id, anc: set<Id>)
    requires Closed(h) && id in h && id !in anc
    ensures Unfold(h, Ref(id), anc).None? <==>
            exists b | Edge(h, id, b) :: b in h && Unfold(h, Ref(b), anc + {id}).None?
  {
    assert NodeInHeap(h, h[id]);
    match h[id]
    case ArrNode(items) =>
      if i :| 0 <= i < |items| && Unfold(h, items[i], anc + {id}).None? {
        assert Edge(h, id, items[i].id);
      }
      if b :| Edge(h, id, b) && b in h && Unfold(h, Ref(b), anc + {id}).None? {
        var i :| 0 <= i < |items| && items[i] == Ref(b);
        assert Unfold(h, items[i], anc + {id}).None?;
      }
    case ObjNode(m) =>
      if k :| k in m && Unfold(h, m[k], anc + {id}).None? {
        assert Edge(h, id, m[k].id);
      }
      if b :| Edge(h, id, b) && b in h && Unfold(h, Ref(b), anc + {id}).None? {
        var k :| k in m && m[k] == Ref(b);
        assert Unfold(h, m[k], anc + {id}).None?;
      }
  }

  /** Unfolding fails exactly when some walk is trapped. */
  lemma {:induction false} UnfoldFailsWhenTrapped(h: Heap, id: Id, anc: set<Id>)
    requires Closed(h) && id in h
    ensures Unfold(h, Ref(id), anc).None? <==> Trapped(h, id, anc)
    decreases h.Keys - anc
  {
    if id in anc {
      assert Walk(h, [id]) && [id][0] == id && [id][|[id]| - 1] in anc;
    } else {
      UnfoldFails(h, id, anc);
      if b :| Edge(h, id, b) && b in h && Unfold(h, Ref(b), anc + {id}).None? {
        UnfoldFailsWhenTrapped(h, b, anc + {id});
        TrappedByChild(h, id, b, anc);
      }
      if Trapped(h, id, anc) {
        var b := TrappedThroughChild(h, id, anc);
        EdgeInHeap(h, id, b);
        UnfoldFailsWhenTrapped(h, b, anc + {id});
      }
    }
  }

  lemma {:induction false} EdgeInHeap(h: Heap, a: Id, b: Id)
    requires Closed(h) && Edge(h, a, b)
    ensures b in h
  {
    assert NodeInHeap(h, h[a]);
  }

  /** Along a walk the trees shrink. */
  lemma {:induction false} TreesShrink(h: Heap, p: seq<Id>, t: Value) returns (u: Value)
    requires Walk(h, p) && Represents(h, Ref(p[0]), t)
    ensures Represents(h, Ref(p[|p| - 1]), u)
    ensures if |p| == 1 then u == t else u < t
    decreases |p|
  {
    u := t;
    if |p| == 1 {
    } else {
      assert Edge(h, p[0], p[1]);
      var child;
      match h[p[0]] {
        case ArrNode(items) =>
          var i :| 0 <= i < |items| && items[i] == Ref(p[1]);
          child := t.items[i];
        case ObjNode(m) =>
          var k :| k in m && m[k] == Ref(p[1]);
          child := t.members[k];
      }
      assert Represents(h, Ref(p[1]), child) && child < t;
      WalkSuffix(h, p, 1);
      u := TreesShrink(h, p[1..], child);
    }
  }

  /** A tree reaches no cycle: the node revisited would stand for a tree inside itself. */
  lemma {:induction false} RepresentedIsAcyclic(h: Heap, id: Id, t: Value)
    requires Represents(h, Ref(id), t)
    ensures !CycleReachable(h, id)
  {
    if p :| Walk(h, p) && p[0] == id && Revisits(p) {
      var i :| 0 <= i < |p| - 1 && p[i] == p[|p| - 1];
      assert Walk(h, p[..i + 1]);
      WalkSuffix(h, p, i);
      var u := TreesShrink(h, p[..i + 1], t);
      var w := TreesShrink(h, p[i..], u);
      RepresentsUnique(h, Ref(p[i]), u, w);
    }
  }

  /** The tree exists exactly when no cycle is reachable, however much is shared. */
  lemma {:induction false} UnfoldsUnlessCyclic(h: Heap, id: Id)
    requires Closed(h) && id in h
    ensures Unfold(h, Ref(id), {}).None? <==> CycleReachable(h, id)
    ensures CycleReachable(h, id) <==> !exists t :: Represents(h, Ref(id), t)
  {
    UnfoldFailsWhenTrapped(h, id, {});
    TrappedWithoutAncestors(h, id);
    if Unfold(h, Ref(id), {}).Some? {
      UnfoldRepresents(h, Ref(id), {});
      assert exists t :: Represents(h, Ref(id), t);
    }
    forall t | Represents(h, Ref(id), t) ensures !CycleReachable(h, id) {
      RepresentedIsAcyclic(h, id, t);
    }
  }

  // --- canonicalize ----------------------------------------------------------

  /** The WeakSet of objects on the current path. */
  class AncestorSet {
    var ids: set<Id>

    constructor ()
      ensures ids == {}
    {
      ids := {};
    }
  }

  ghost function Printed(t: Option<Value>): Result<Str> {
    match t case None => Err(CircularReference) case Some(v) => Ok(LegacyText(v))
  }

  predicate NullishAtom(x: HVal) { x == Atom(Null) || x == Atom(Undefined) }

  function KeptHere(m: map<Str, HVal>, keys: seq<Str>): (r: seq<Str>)
    requires forall i | 0 <= i < |keys| :: keys[i] in m
    ensures forall i | 0 <= i < |r| :: r[i] in m
  {
    if keys == [] then []
    else if NullishAtom(m[keys[0]]) then KeptHere(m, keys[1..])
    else [keys[0]] + KeptHere(m, keys[1..])
  }

  ghost function KeptIndex(m: map<Str, HVal>, keys: seq<Str>, j: nat): (i: nat)
    requires forall i | 0 <= i < |keys| :: keys[i] in m
    requires j < |keys| && !NullishAtom(m[keys[j]])
    ensures i < |KeptHere(m, keys)| && KeptHere(m, keys)[i] == keys[j]
  {
    if j == 0 then 0
    else KeptIndex(m, keys[1..], j - 1) + if NullishAtom(m[keys[0]]) then 0 else 1
  }

  /** Dropping nullish members before or after unfolding keeps the same keys. */
  lemma {:induction false} KeptAgrees(h: Heap, m: map<Str, HVal>, t: map<Str, Value>, keys: seq<Str>)
    requires m.Keys == t.Keys && forall k | k in m :: Represents(h, m[k], t[k])
    requires forall i | 0 <= i < |keys| :: keys[i] in m
    ensures KeptHere(m, keys) == Kept(t, keys)
  {
    if keys == [] {
    } else {
      KeptAgrees(h, m, t, keys[1..]);
      assert Represents(h, m[keys[0]], t[keys[0]]);
      assert NullishAtom(m[keys[0]]) <==> Nullish(t[keys[0]]);
    }
  }

  /** Where every member unfolds, the printed members are those of the tree. */
  lemma {:induction false} ObjectText(h: Heap, id: Id, anc: set<Id>, pairs: seq<Str>)
    requires Closed(h) && id in h && h[id].ObjNode? && id !in anc && NodeInHeap(h, h[id])
    requires var m := h[id].members;
             var keys := KeptHere(m, SortedKeys(m.Keys));
             && |pairs| == |keys|
             && forall i | 0 <= i < |keys| ::
                  && Unfold(h, m[keys[i]], anc + {id}).Some?
                  && pairs[i] == Stringify(keys[i]) + [COLON] + LegacyText(Unfold(h, m[keys[i]], anc + {id}).value)
    ensures Printed(Unfold(h, Ref(id), anc)) == Ok([LBRACE] + Join(pairs, [COMMA]) + [RBRACE])
  {
    var m := h[id].members;
    forall k | k in m ensures Unfold(h, m[k], anc + {id}).Some? {
      if !NullishAtom(m[k]) { var i := KeptIndex(m, SortedKeys(m.Keys), KeyIndex(m.Keys, k)); }
    }
    var t := Unfold(h, Ref(id), anc).value;
    UnfoldRepresents(h, Ref(id), anc);
    assert t.members.Keys == m.Keys;
    KeptAgrees(h, m, t.members, SortedKeys(m.Keys));
    var keys := Kept(t.members, Keys(t.members));
    assert pairs ==
           seq(|keys|, i requires 0 <= i < |keys| => Stringify(keys[i]) + [COLON] + LegacyText(t.members[keys[i]]));
  }

  /** Where every item unfolds, the printed items are those of the tree. */
  lemma {:induction false} ArrayText(h: Heap, id: Id, anc: set<Id>, parts: seq<Str>)
    requires Closed(h) && id in h && h[id].ArrNode? && id !in anc && NodeInHeap(h, h[id])
    requires var items := h[id].items;
             && |parts| == |items|
             && forall i | 0 <= i < |items| :: Ok(parts[i]) == Printed(Unfold(h, items[i], anc + {id}))
    ensures Printed(Unfold(h, Ref(id), anc)) == Ok([LBRACKET] + Join(parts, [COMMA]) + [RBRACKET])
  {
    var items := h[id].items;
    var t := Unfold(h, Ref(id), anc).value;
    assert parts == seq(|items|, i requires 0 <= i < |items| => LegacyText(t.items[i]));
  }

  method CanonicalizeItems(h: Heap, items: seq<HVal>, anc: AncestorSet) returns (r: Result<seq<Str>>)
    requires Closed(h) && NodeInHeap(h, ArrNode(items))
    modifies anc
    ensures r.Ok? ==> anc.ids == old(anc.ids) && |r.value| == |items|
    ensures r.Ok? ==> forall i | 0 <= i < |items| :: Ok(r.value[i]) == Printed(Unfold(h, items[i], old(anc.ids)))
    ensures r.Err? ==>
            r.error == CircularReference && exists i | 0 <= i < |items| :: Unfold(h, items[i], old(anc.ids)).None?
    decreases h.Keys - anc.ids, 1
  {
    var parts: seq<Str> := [];
    for i := 0 to |items|
      invariant anc.ids == old(anc.ids) && |parts| == i
      invariant forall j | 0 <= j < i :: Ok(parts[j]) == Printed(Unfold(h, items[j], old(anc.ids)))
    {
      var part := Canonicalize(h, items[i], anc);
      if part.Err? { return Err(part.error); }
      parts := parts + [part.value];
    }
    return Ok(parts);
  }

  method CanonicalizeMembers(h: Heap, m: map<Str, HVal>, anc: AncestorSet) returns (r: Result<seq<Str>>)
    requires Closed(h) && NodeInHeap(h, ObjNode(m))
    modifies anc
    ensures r.Ok? ==> anc.ids == old(anc.ids) && |r.value| == |KeptHere(m, SortedKeys(m.Keys))|
    ensures r.Ok? ==> forall i | 0 <= i < |r.value| ::
                        var k := KeptHere(m, SortedKeys(m.Keys))[i];
                        var t := Unfold(h, m[k], old(anc.ids));
                        t.Some? && r.value[i] == Stringify(k) + [COLON] + LegacyText(t.value)
    ensures r.Err? ==> r.error == CircularReference && exists k | k in m :: Unfold(h, m[k], old(anc.ids)).None?
    decreases h.Keys - anc.ids, 1
  {
    var keys := KeptHere(m, SortedKeys(m.Keys));
    var pairs: seq<Str> := [];
    for i := 0 to |keys|
      invariant anc.ids == old(anc.ids) && |pairs| == i
      invariant forall j | 0 <= j < i ::
        var t := Unfold(h, m[keys[j]], old(anc.ids));
        t.Some? && pairs[j] == Stringify(keys[j]) + [COLON] + LegacyText(t.value)
    {
      var val := Canonicalize(h, m[keys[i]], anc);
      if val.Err? { return Err(val.error); }
      pairs := pairs + [Stringify(keys[i]) + [COLON] + val.value];
    }
    return Ok(pairs);
  }

  /** Prints the tree under `x` or reports a cycle; on success the ancestor set is as it was. */
  method Canonicalize(h: Heap, x: HVal, anc: AncestorSet) returns (r: Result<Str>)
    requires Closed(h) && InHeap(h, x)
    modifies anc
    ensures r == Printed(Unfold(h, x, old(anc.ids)))
    ensures r.Ok? ==> anc.ids == old(anc.ids)
    decreases h.Keys - anc.ids, 0
  {
    match x
    case Atom(v) => return Ok(LegacyText(v));
    case Ref(id) =>
      if id in anc.ids { return Err(CircularReference); }
      assert NodeInHeap(h, h[id]);
      anc.ids := anc.ids + {id};
      match h[id] {
        case ArrNode(items) =>
          var parts := CanonicalizeItems(h, items, anc);
          if parts.Err? { return Err(parts.error); }
          r := Ok([LBRACKET] + Join(parts.value, [COMMA]) + [RBRACKET]);
          ArrayText(h, id, old(anc.ids), parts.value);
        case ObjNode(m) =>
          var pairs := CanonicalizeMembers(h, m, anc);
          if pairs.Err? { return Err(pairs.error); }
          r := Ok([LBRACE] + Join(pairs.value, [COMMA]) + [RBRACE]);
          ObjectText(h, id, old(anc.ids), pairs.value);
      }
      anc.ids := anc.ids - {id};
  }

  /** The public call: throws exactly on a reachable cycle, else prints the unfolded tree. */
  method CanonicalizeRoot(h: Heap, x: HVal) returns (r: Result<Str>)
    requires Closed(h) && InHeap(h, x)
    ensures r == Err(CircularReference) || r.Ok?
    ensures r.Err? <==> x.Ref? && CycleReachable(h, x.id)
    ensures r.Ok? ==> exists t :: Represents(h, x, t) && r.value == LegacyText(t)
  {
    var anc := new AncestorSet();
    r := Canonicalize(h, x, anc);
    if x.Ref? { UnfoldsUnlessCyclic(h, x.id); }
    if r.Ok? { UnfoldRepresents(h, x, {}); }
  }

  // --- canonicalizeForWrite --------------------------------------------------

  /** The write twin accepts a value that unfolds and holds no unsafe integer. */
  ghost predicate Writable(t: Option<Value>) {
    t.Some? && !HasUnsafeInteger(t.value)
  }

  lemma {:induction false} KeptSnoc(m: map<Str, HVal>, keys: seq<Str>, k: Str)
    requires (forall i | 0 <= i < |keys| :: keys[i] in m) && k in m
    ensures KeptHere(m, keys + [k]) == KeptHere(m, keys) + if NullishAtom(m[k]) then [] else [k]
  {
    if keys == [] {
      assert keys + [k] == [k];
    } else {
      KeptSnoc(m, keys[1..], k);
      assert (keys + [k])[1..] == keys[1..] + [k];
    }
  }

  method WriteItems(h: Heap, items: seq<HVal>, anc: AncestorSet) returns (r: Result<seq<Str>>)
    requires Closed(h) && NodeInHeap(h, ArrNode(items))
    modifies anc
    ensures r.Ok? ==> anc.ids == old(anc.ids) && |r.value| == |items|
    ensures r.Ok? ==> forall i | 0 <= i < |items| ::
                        var t := Unfold(h, items[i], old(anc.ids)); Writable(t) && Ok(r.value[i]) == Printed(t)
    ensures r.Err? ==> exists i | 0 <= i < |items| ::
                         var t := Unfold(h, items[i], old(anc.ids));
                         !Writable(t) && (t.Some? ==> r.error == UnsafeInteger)
    decreases h.Keys - anc.ids, 1
  {
    var parts: seq<Str> := [];
    for i := 0 to |items|
      invariant anc.ids == old(anc.ids) && |parts| == i
      invariant forall j | 0 <= j < i ::
        var t := Unfold(h, items[j], old(anc.ids)); Writable(t) && Ok(parts[j]) == Printed(t)
    {
      var part := CanonicalizeForWrite(h, items[i], anc);
      if part.Err? { return Err(part.error); }
      parts := parts + [part.value];
    }
    return Ok(parts);
  }

  method WriteMembers(h: Heap, m: map<Str, HVal>, anc: AncestorSet) returns (r: Result<seq<Str>>)
    requires Closed(h) && NodeInHeap(h, ObjNode(m))
    modifies anc
    ensures r.Ok? ==> anc.ids == old(anc.ids) && |r.value| == |KeptHere(m, SortedKeys(m.Keys))|
    ensures r.Ok? ==> forall i | 0 <= i < |r.value| ::
                        var k := KeptHere(m, SortedKeys(m.Keys))[i];
                        var t := Unfold(h, m[k], old(anc.ids));
                        Writable(t) && r.value[i] == Stringify(k) + [COLON] + LegacyText(t.value)
    ensures r.Err? ==> exists k | k in m ::
                         var t := Unfold(h, m[k], old(anc.ids)); !Writable(t) && (t.Some? ==> r.error == UnsafeInteger)
    decreases h.Keys - anc.ids, 1
  {
    hide Unfold;
    hide LegacyText;
    hide Escaped;
    var keys := SortedKeys(m.Keys);
    var pairs: seq<Str> := [];
    for i := 0 to |keys|
      invariant anc.ids == old(anc.ids) && |pairs| == |KeptHere(m, keys[..i])|
      invariant forall j | 0 <= j < |pairs| ::
        var k := KeptHere(m, keys[..i])[j];
        var t := Unfold(h, m[k], old(anc.ids));
        Writable(t) && pairs[j] == Stringify(k) + [COLON] + LegacyText(t.value)
    {
      assert keys[..i + 1] == keys[..i] + [keys[i]];
      KeptSnoc(m, keys[..i], keys[i]);
      if NullishAtom(m[keys[i]]) { continue; }
      var val := CanonicalizeForWrite(h, m[keys[i]], anc);
      if val.Err? { return Err(val.error); }
      pairs := pairs + [Stringify(keys[i]) + [COLON] + val.value];
    }
    assert keys[..|keys|] == keys;
    return Ok(pairs);
  }

  /** What one call of the write twin may answer for a value that unfolds to `t`. */
  ghost predicate Answers(r: Result<Str>, t: Option<Value>) {
    && (r.Ok? <==> Writable(t))
    && (r.Ok? ==> r == Printed(t))
    && (r.Err? && t.Some? ==> r.error == UnsafeInteger)
  }

  lemma {:induction false} AtomAnswer(h: Heap, v: AtomValue, anc: set<Id>)
    requires Closed(h)
    ensures var r := if v.Num? && IsUnsafeWriteInteger(v.n) then Err(UnsafeInteger) else Ok(LegacyText(v));
            Answers(r, Unfold(h, Atom(v), anc))
  {
  }

  lemma {:induction false} AncestorAnswer(h: Heap, id: Id, anc: set<Id>)
    requires Closed(h) && id in h && id in anc
    ensures Answers(Err(CircularReference), Unfold(h, Ref(id), anc))
  {
  }

  lemma {:induction false} BlockedByItem(h: Heap, id: Id, anc: set<Id>, error: Error)
    requires Closed(h) && id in h && id !in anc && NodeInHeap(h, h[id]) && h[id].ArrNode?
    requires exists i | 0 <= i < |h[id].items| ::
               var t := Unfold(h, h[id].items[i], anc + {id}); !Writable(t) && (t.Some? ==> error == UnsafeInteger)
    ensures Answers(Err(error), Unfold(h, Ref(id), anc))
  {
    var i :| 0 <= i < |h[id].items| && !Writable(Unfold(h, h[id].items[i], anc + {id}))
             && (Unfold(h, h[id].items[i], anc + {id}).Some? ==> error == UnsafeInteger);
    var t := Unfold(h, Ref(id), anc);
    if t.Some? { assert HasUnsafeInteger(t.value.items[i]); }
  }

  lemma {:induction false} BlockedByMember(h: Heap, id: Id, anc: set<Id>, error: Error)
    requires Closed(h) && id in h && id !in anc && NodeInHeap(h, h[id]) && h[id].ObjNode?
    requires exists k | k in h[id].members ::
               var t := Unfold(h, h[id].members[k], anc + {id}); !Writable(t) && (t.Some? ==> error == UnsafeInteger)
    ensures Answers(Err(error), Unfold(h, Ref(id), anc))
  {
    var k :| k in h[id].members && !Writable(Unfold(h, h[id].members[k], anc + {id}))
             && (Unfold(h, h[id].members[k], anc + {id}).Some? ==> error == UnsafeInteger);
    var t := Unfold(h, Ref(id), anc);
    if t.Some? { assert HasUnsafeInteger(t.value.members[k]); }
  }

  lemma {:induction false} ArrayAnswer(h: Heap, id: Id, anc: set<Id>, parts: seq<Str>)
    requires Closed(h) && id in h && h[id].ArrNode? && id !in anc && NodeInHeap(h, h[id])
    requires var items := h[id].items;
             && |parts| == |items|
             && forall i | 0 <= i < |items| ::
                  var t := Unfold(h, items[i], anc + {id}); Writable(t) && Ok(parts[i]) == Printed(t)
    ensures Answers(Ok([LBRACKET] + Join(parts, [COMMA]) + [RBRACKET]), Unfold(h, Ref(id), anc))
  {
    hide LegacyText;
    ArrayText(h, id, anc, parts);
    var t := Unfold(h, Ref(id), anc).value;
    assert forall i | 0 <= i < |t.items| :: !HasUnsafeInteger(t.items[i]);
  }

  lemma {:induction false} ObjectAnswer(h: Heap, id: Id, anc: set<Id>, pairs: seq<Str>)
    requires Closed(h) && id in h && h[id].ObjNode? && id !in anc && NodeInHeap(h, h[id])
    requires var m := h[id].members;
             var keys := KeptHere(m, SortedKeys(m.Keys));
             && |pairs| == |keys|
             && forall i | 0 <= i < |keys| ::
                  var t := Unfold(h, m[keys[i]], anc + {id});
                  Writable(t) && pairs[i] == Stringify(keys[i]) + [COLON] + LegacyText(t.value)
    ensures Answers(Ok([LBRACE] + Join(pairs, [COMMA]) + [RBRACE]), Unfold(h, Ref(id), anc))
  {
    hide LegacyText;
    ObjectText(h, id, anc, pairs);
    var m, t := h[id].members, Unfold(h, Ref(id), anc).value;
    forall k | k in m ensures !HasUnsafeInteger(t.members[k]) {
      if !NullishAtom(m[k]) { var i := KeptIndex(m, SortedKeys(m.Keys), KeyIndex(m.Keys, k)); }
    }
  }

  /** The read twin's bytes, refusing beyond cycles exactly the trees with an unsafe integer. */
  method CanonicalizeForWrite(h: Heap, x: HVal, anc: AncestorSet) returns (r: Result<Str>)
    requires Closed(h) && InHeap(h, x)
    modifies anc
    ensures r.Ok? <==> Writable(Unfold(h, x, old(anc.ids)))
    ensures r.Ok? ==> r == Printed(Unfold(h, x, old(anc.ids))) && anc.ids == old(anc.ids)
    ensures r.Err? && Unfold(h, x, old(anc.ids)).Some? ==> r.error == UnsafeInteger
    decreases h.Keys - anc.ids, 0
  {
    hide Unfold;
    hide LegacyText;
    hide Writable;
    hide Printed;
    match x
    case Atom(v) =>
      AtomAnswer(h, v, anc.ids);
      if v.Num? && IsUnsafeWriteInteger(v.n) { return Err(UnsafeInteger); }
      return Ok(LegacyText(v));
    case Ref(id) =>
      if id in anc.ids {
        AncestorAnswer(h, id, anc.ids);
        return Err(CircularReference);
      }
      assert NodeInHeap(h, h[id]);
      anc.ids := anc.ids + {id};
      match h[id] {
        case ArrNode(items) =>
          var parts := WriteItems(h, items, anc);
          if parts.Err? {
            BlockedByItem(h, id, old(anc.ids), parts.error);
            return Err(parts.error);
          }
          r := Ok([LBRACKET] + Join(parts.value, [COMMA]) + [RBRACKET]);
          ArrayAnswer(h, id, old(anc.ids), parts.value);
        case ObjNode(m) =>
          var pairs := WriteMembers(h, m, anc);
          if pairs.Err? {
            BlockedByMember(h, id, old(anc.ids), pairs.error);
            return Err(pairs.error);
          }
          r := Ok([LBRACE] + Join(pairs.value, [COMMA]) + [RBRACE]);
          ObjectAnswer(h, id, old(anc.ids), pairs.value);
      }
      anc.ids := anc.ids - {id};
  }

  /** On trees: the write twin accepts exactly the values without unsafe integers, with the same text. */
  method CanonicalizeForWriteRoot(h: Heap, x: HVal) returns (r: Result<Str>)
    requires Closed(h) && InHeap(h, x)
    ensures r.Ok? <==> exists t :: Represents(h, x, t) && !HasUnsafeInteger(t)
    ensures forall t | Represents(h, x, t) :: r == if HasUnsafeInteger(t) then Err(UnsafeInteger) else Ok(LegacyText(t))
  {
    var anc := new AncestorSet();
    r := CanonicalizeForWrite(h, x, anc);
    ghost var whole := Unfold(h, x, {});
    if x.Ref? { UnfoldsUnlessCyclic(h, x.id); }
    if whole.Some? {
      UnfoldRepresents(h, x, {});
      assert Represents(h, x, whole.value);
    }
    forall t | Represents(h, x, t) ensures whole == Some(t) {
      if x.Ref? { RepresentedIsAcyclic(h, x.id, t); }
      RepresentsUnique(h, x, t, whole.value);
    }
  }
}
