/** The linear propagator: `ConstraintStorage` keeps the reified implications,
    a work queue of constraint ids with one flag per constraint, and the watch
    lists that wake a constraint when a bound of one of its variables changes;
    `propagate_true` derives new upper bounds from a sum that must stay at or
    below its right-hand side. */
module Propagation {
  import opened LiteralStorage
  import opened Variables
  import opened Constraints

  /** The solver's value of a literal. */
  datatype Truth = True | False | Free

  // ---------------------------------------------------------------------------
  // The work queue

  /** Every queued id names a constraint, no id is queued twice, and a
      constraint's flag is set exactly when its id is queued. */
  predicate Queued(cons: seq<Reified>, toProcess: seq<nat>) {
    (forall k :: 0 <= k < |toProcess| ==> toProcess[k] < |cons|) &&
    (forall j, k :: 0 <= j < k < |toProcess| ==> toProcess[j] != toProcess[k]) &&
    (forall i :: 0 <= i < |cons| ==> (cons[i].l.flag <==> i in toProcess))
  }

  /** Every watch list entry names a constraint. */
  predicate Watching(changes: seq<seq<nat>>, n: nat) {
    forall v, k :: 0 <= v < |changes| && 0 <= k < |changes[v]| ==> changes[v][k] < n
  }

  function SetFlag(r: Reified, b: bool): Reified {
    r.(l := r.l.(flag := b))
  }

  /** The constraints with the flags of `ids` cleared. */
  function ClearFlags(cons: seq<Reified>, ids: seq<nat>): (r: seq<Reified>)
    ensures |r| == |cons|
  {
    seq(|cons|, i requires 0 <= i < |cons| => if i in ids then SetFlag(cons[i], false) else cons[i])
  }

  /** Clearing the flags of the whole queue leaves no flag set. */
  lemma ClearQueueClearsAll(cons: seq<Reified>, toProcess: seq<nat>)
    requires Queued(cons, toProcess)
    ensures forall i :: 0 <= i < |cons| ==> !ClearFlags(cons, toProcess)[i].l.flag
    ensures forall i :: 0 <= i < |cons| ==> ClearFlags(cons, toProcess)[i] == SetFlag(cons[i], false)
  {
  }

  /** `v` padded with empty watch lists up to `n` entries
      (`resize(max(n, size()))`). */
  function Widen(changes: seq<seq<nat>>, n: nat): (r: seq<seq<nat>>)
    ensures |r| == if |changes| >= n then |changes| else n
    ensures forall v :: 0 <= v < |r| ==> r[v] == if v < |changes| then changes[v] else []
  {
    if |changes| >= n then changes else changes + seq(n - |changes|, _ => [])
  }

  /** One view registered: in the list of its variable when its reversal is
      `rev`. */
  function Watch(changes: seq<seq<nat>>, w: View, id: nat, rev: bool): (r: seq<seq<nat>>)
    ensures |r| >= |changes|
  {
    if IsReversed(w) != rev then changes
    else var c := Widen(changes, w.v + 1); c[w.v := c[w.v] + [id]]
  }

  /** All views of a constraint registered, in order. */
  function Register(changes: seq<seq<nat>>, views: seq<View>, id: nat, rev: bool): (r: seq<seq<nat>>)
    ensures |r| >= |changes|
  {
    if views == [] then changes
    else Watch(Register(changes, views[..|views| - 1], id, rev), views[|views| - 1], id, rev)
  }

  /** One `id` per view of `views` on variable `v` with reversal `rev`. */
  function Ids(views: seq<View>, v: nat, id: nat, rev: bool): seq<nat> {
    if views == [] then []
    else var w := views[|views| - 1];
      Ids(views[..|views| - 1], v, id, rev) + if w.v == v && IsReversed(w) == rev then [id] else []
  }

  /** Registration appends to the list of each variable one `id` for every view
      on it with the given reversal, in view order, and changes nothing else. */
  lemma {:induction false} RegisterFacts(changes: seq<seq<nat>>, views: seq<View>, id: nat, rev: bool)
    ensures var r := Register(changes, views, id, rev);
      (forall v :: 0 <= v < |r| ==> r[v] == (if v < |changes| then changes[v] else []) + Ids(views, v, id, rev)) &&
      (forall v :: v >= |r| ==> Ids(views, v, id, rev) == [])
    decreases |views|
  {
    if views != [] {
      var n := |views| - 1;
      RegisterFacts(changes, views[..n], id, rev);
    }
  }

  /** Registration keeps every entry a constraint id. */
  lemma {:induction false} RegisterWatching(changes: seq<seq<nat>>, views: seq<View>, id: nat, rev: bool, n: nat)
    requires Watching(changes, n) && id < n
    ensures Watching(Register(changes, views, id, rev), n)
    decreases |views|
  {
    if views != [] {
      RegisterWatching(changes, views[..|views| - 1], id, rev, n);
    }
  }

  lemma WatchingGrows(changes: seq<seq<nat>>, n: nat, m: nat)
    requires Watching(changes, n) && n <= m
    ensures Watching(changes, m)
  {
  }

  /** Whether a change of the upper bound of `view` wakes constraint `r` from the
      `ubChanges_` list (`ub`) or from the `lbChanges_` list (`!ub`). */
  predicate Wakes(value: Literal -> Truth, r: Reified, view: View, ub: bool) {
    var check := if ub then (value(r.v) == True && !IsReversed(view)) || (value(r.v) == False && IsReversed(view))
                 else (value(r.v) == True && IsReversed(view)) || (value(r.v) == False && !IsReversed(view));
    check || value(r.v) == Free
  }

  /** The ids of `list` that a change of `view` wakes. */
  predicate WokenFrom(cons: seq<Reified>, changes: seq<seq<nat>>, value: Literal -> Truth, view: View, ub: bool, i: nat) {
    view.v < |changes| && i in changes[view.v] && i < |cons| && Wakes(value, cons[i], view, ub)
  }

  /** The constraint a single step of `propagate` passes. Both propagations see
      the constraint with its flag already cleared. */
  predicate Passes(value: Literal -> Truth, propagateTrue: Reified -> bool, propagateImpl: Reified -> bool, r: Reified) {
    (value(r.v) == True ==> propagateTrue(SetFlag(r, false))) && (value(r.v) == Free ==> propagateImpl(SetFlag(r, false)))
  }

  /** The largest position of `ids` whose constraint fails, or -1. */
  function LastFailing(cons: seq<Reified>, ids: seq<nat>, value: Literal -> Truth,
                       propagateTrue: Reified -> bool, propagateImpl: Reified -> bool): (k: int)
    requires forall j :: 0 <= j < |ids| ==> ids[j] < |cons|
    ensures -1 <= k < |ids|
    ensures forall j :: k < j < |ids| ==> Passes(value, propagateTrue, propagateImpl, cons[ids[j]])
    ensures k >= 0 ==> !Passes(value, propagateTrue, propagateImpl, cons[ids[k]])
    decreases |ids|
  {
    if ids == [] then -1
    else if !Passes(value, propagateTrue, propagateImpl, cons[ids[|ids| - 1]]) then |ids| - 1
    else LastFailing(cons, ids[..|ids| - 1], value, propagateTrue, propagateImpl)
  }

  /** Clearing the flags of one more id. */
  lemma ClearFlagsAdd(cons: seq<Reified>, ids: seq<nat>, more: seq<nat>, x: nat)
    requires x < |cons| && forall j :: j in more <==> j in ids || j == x
    ensures ClearFlags(cons, more) == ClearFlags(cons, ids)[x := SetFlag(cons[x], false)]
  {
  }

  /** A new constraint, flagged and queued, keeps the queue invariant. */
  lemma QueuedAppend(cons: seq<Reified>, toProcess: seq<nat>, l: Reified)
    requires Queued(cons, toProcess)
    ensures Queued(cons + [SetFlag(l, true)], toProcess + [|cons|])
  {
    var c := cons + [SetFlag(l, true)];
    var t := toProcess + [|cons|];
    forall i | 0 <= i < |c|
      ensures c[i].l.flag <==> i in t
    {
      if i < |cons| {
        assert i in t <==> i in toProcess;
      } else {
        assert t[|toProcess|] == i;
      }
    }
  }

  /** `Register` written as the loop of `addImp`. */
  method RegisterViews(lb: seq<seq<nat>>, ub: seq<seq<nat>>, views: seq<View>, id: nat)
    returns (lb': seq<seq<nat>>, ub': seq<seq<nat>>)
    ensures lb' == Register(lb, views, id, false) && ub' == Register(ub, views, id, true)
  {
    lb', ub' := lb, ub;
    var i := 0;
    while i < |views|
      invariant 0 <= i <= |views|
      invariant lb' == Register(lb, views[..i], id, false) && ub' == Register(ub, views[..i], id, true)
    {
      var w := views[i];
      if !IsReversed(w) {
        lb' := Widen(lb', w.v + 1);
        lb' := lb'[w.v := lb'[w.v] + [id]];
      } else {
        ub' := Widen(ub', w.v + 1);
        ub' := ub'[w.v := ub'[w.v] + [id]];
      }
      assert views[..i + 1][..i] == views[..i];
      i := i + 1;
    }
    assert views[..i] == views;
  }

  /** The queue flags of `cons` cleared for `ids`, walked one id at a time. */
  method ClearAll(cons: seq<Reified>, ids: seq<nat>) returns (r: seq<Reified>)
    requires forall k :: 0 <= k < |ids| ==> ids[k] < |cons|
    ensures r == ClearFlags(cons, ids)
  {
    r := cons;
    var k := 0;
    while k < |ids|
      invariant 0 <= k <= |ids| && r == ClearFlags(cons, ids[..k])
    {
      var i := ids[k];
      ClearFlagsAdd(cons, ids[..k], ids[..k + 1], i);
      r := r[i := SetFlag(r[i], false)];
      k := k + 1;
    }
    assert ids[..k] == ids;
  }

  /** Every id names one of `n` constraints. */
  ghost predicate IdsBelow(ids: seq<nat>, n: nat) {
    forall j :: 0 <= j < |ids| ==> ids[j] < n
  }

  /** `cons` and `toProcess` grown to `cons'` and `toProcess'` by queueing:
      the queue invariant holds, the old queue is a prefix of the new one, and
      each constraint changes at most in its flag, which is set exactly when
      it is queued. */
  ghost predicate Requeued(cons: seq<Reified>, toProcess: seq<nat>, cons': seq<Reified>, toProcess': seq<nat>) {
    Queued(cons', toProcess') && |cons'| == |cons| && toProcess <= toProcess' &&
    forall i :: 0 <= i < |cons| ==> cons'[i] == SetFlag(cons[i], i in toProcess')
  }

  lemma RequeuedTrans(c1: seq<Reified>, t1: seq<nat>, c2: seq<Reified>, t2: seq<nat>, c3: seq<Reified>, t3: seq<nat>)
    requires Requeued(c1, t1, c2, t2) && Requeued(c2, t2, c3, t3)
    ensures Requeued(c1, t1, c3, t3)
  {
    forall i | 0 <= i < |c1|
      ensures c3[i] == SetFlag(c1[i], i in t3)
    {
      assert c3[i] == SetFlag(c2[i], i in t3);
    }
  }

  /** A queue is `Requeued` to itself. */
  lemma RequeuedSelf(cons: seq<Reified>, toProcess: seq<nat>)
    requires Queued(cons, toProcess)
    ensures Requeued(cons, toProcess, cons, toProcess)
  {
    forall i | 0 <= i < |cons|
      ensures cons[i] == SetFlag(cons[i], i in toProcess)
    {
      assert cons[i].l.flag == (i in toProcess);
    }
  }

  /** Constraint `i` met on a watch list: queued, and its flag set, when its
      flag is clear and the change wakes it. */
  function WakeOne(cons: seq<Reified>, toProcess: seq<nat>, i: nat, value: Literal -> Truth, view: View, ub: bool)
    : (r: (seq<Reified>, seq<nat>))
    ensures |r.0| == |cons|
  {
    if i < |cons| && !cons[i].l.flag && Wakes(value, cons[i], view, ub) then (cons[i := SetFlag(cons[i], true)], toProcess + [i])
    else (cons, toProcess)
  }

  /** A watch list walked in order. */
  function WakeAll(cons: seq<Reified>, toProcess: seq<nat>, list: seq<nat>, value: Literal -> Truth, view: View, ub: bool)
    : (r: (seq<Reified>, seq<nat>))
    ensures |r.0| == |cons|
    decreases |list|
  {
    if list == [] then (cons, toProcess)
    else
      var p := WakeAll(cons, toProcess, list[..|list| - 1], value, view, ub);
      WakeOne(p.0, p.1, list[|list| - 1], value, view, ub)
  }

  lemma WakeOneFacts(cons: seq<Reified>, toProcess: seq<nat>, i: nat, value: Literal -> Truth, view: View, ub: bool)
    requires Queued(cons, toProcess) && i < |cons|
    ensures var r := WakeOne(cons, toProcess, i, value, view, ub);
      Requeued(cons, toProcess, r.0, r.1) &&
      forall j :: j in r.1 <==> j in toProcess || (j == i && Wakes(value, cons[i], view, ub))
  {
    var r := WakeOne(cons, toProcess, i, value, view, ub);
    if !cons[i].l.flag && Wakes(value, cons[i], view, ub) {
      forall j | 0 <= j < |cons|
        ensures r.0[j].l.flag <==> j in r.1
      {
        assert j in r.1 <==> j in toProcess || j == i;
      }
      assert r.1[|toProcess|] == i;
    } else {
      RequeuedSelf(cons, toProcess);
    }
  }

  /** Walking a watch list queues, once each, exactly the listed constraints
      the change wakes that were not queued already, and changes nothing but
      their flags. */
  lemma {:induction false} WakeAllFacts(cons: seq<Reified>, toProcess: seq<nat>, list: seq<nat>,
                                        value: Literal -> Truth, view: View, ub: bool)
    requires Queued(cons, toProcess) && IdsBelow(list, |cons|)
    ensures var r := WakeAll(cons, toProcess, list, value, view, ub);
      Requeued(cons, toProcess, r.0, r.1) &&
      forall i :: i in r.1 <==> i in toProcess || (i in list && i < |cons| && Wakes(value, cons[i], view, ub))
    decreases |list|
  {
    if list == [] {
      RequeuedSelf(cons, toProcess);
    } else {
      var n := |list| - 1;
      var p := WakeAll(cons, toProcess, list[..n], value, view, ub);
      WakeAllFacts(cons, toProcess, list[..n], value, view, ub);
      WakeOneFacts(p.0, p.1, list[n], value, view, ub);
      var r := WakeOne(p.0, p.1, list[n], value, view, ub);
      RequeuedTrans(cons, toProcess, p.0, p.1, r.0, r.1);
      assert p.0[list[n]].v == cons[list[n]].v;
      forall i
        ensures i in r.1 <==> i in toProcess || (i in list && i < |cons| && Wakes(value, cons[i], view, ub))
      {
        assert i in list <==> i in list[..n] || i == list[n] by {
          assert list == list[..n] + [list[n]];
        }
      }
    }
  }

  /** `constrainUpperBound(view, s)` of the storage: the `ubChanges_` list of
      the view's variable, then its `lbChanges_` list. */
  function Bound(cons: seq<Reified>, toProcess: seq<nat>, lb: seq<seq<nat>>, ub: seq<seq<nat>>, view: View,
                 value: Literal -> Truth): (r: (seq<Reified>, seq<nat>))
    ensures |r.0| == |cons|
  {
    var p := if view.v < |ub| then WakeAll(cons, toProcess, ub[view.v], value, view, true) else (cons, toProcess);
    if view.v < |lb| then WakeAll(p.0, p.1, lb[view.v], value, view, false) else p
  }

  /** The upper bounds of `views` changed in order. */
  function Bounds(cons: seq<Reified>, toProcess: seq<nat>, lb: seq<seq<nat>>, ub: seq<seq<nat>>, views: seq<View>,
                  value: Literal -> Truth): (r: (seq<Reified>, seq<nat>))
    ensures |r.0| == |cons|
    decreases |views|
  {
    if views == [] then (cons, toProcess)
    else
      var p := Bounds(cons, toProcess, lb, ub, views[..|views| - 1], value);
      Bound(p.0, p.1, lb, ub, views[|views| - 1], value)
  }

  lemma BoundFacts(cons: seq<Reified>, toProcess: seq<nat>, lb: seq<seq<nat>>, ub: seq<seq<nat>>, view: View,
                   value: Literal -> Truth)
    requires Queued(cons, toProcess) && Watching(lb, |cons|) && Watching(ub, |cons|)
    ensures var r := Bound(cons, toProcess, lb, ub, view, value); Requeued(cons, toProcess, r.0, r.1)
  {
    var p := if view.v < |ub| then WakeAll(cons, toProcess, ub[view.v], value, view, true) else (cons, toProcess);
    if view.v < |ub| {
      WakeAllFacts(cons, toProcess, ub[view.v], value, view, true);
    } else {
      RequeuedSelf(cons, toProcess);
    }
    if view.v < |lb| {
      WakeAllFacts(p.0, p.1, lb[view.v], value, view, false);
      var r := WakeAll(p.0, p.1, lb[view.v], value, view, false);
      RequeuedTrans(cons, toProcess, p.0, p.1, r.0, r.1);
    }
  }

  /** Changing bounds only queues constraints, keeping the queue invariant,
      and changes nothing but flags. */
  lemma {:induction false} BoundsFacts(cons: seq<Reified>, toProcess: seq<nat>, lb: seq<seq<nat>>, ub: seq<seq<nat>>,
                                       views: seq<View>, value: Literal -> Truth)
    requires Queued(cons, toProcess) && Watching(lb, |cons|) && Watching(ub, |cons|)
    ensures var r := Bounds(cons, toProcess, lb, ub, views, value); Requeued(cons, toProcess, r.0, r.1)
    decreases |views|
  {
    if views == [] {
      RequeuedSelf(cons, toProcess);
    } else {
      var n := |views| - 1;
      var p := Bounds(cons, toProcess, lb, ub, views[..n], value);
      BoundsFacts(cons, toProcess, lb, ub, views[..n], value);
      BoundFacts(p.0, p.1, lb, ub, views[n], value);
      var r := Bound(p.0, p.1, lb, ub, views[n], value);
      RequeuedTrans(cons, toProcess, p.0, p.1, r.0, r.1);
    }
  }

  class ConstraintStorage {
    /** `linearImpConstraints_`. */
    var cons: seq<Reified>
    /** `toProcess_`. */
    var toProcess: seq<nat>
    /** `lbChanges_`: constraints to wake on a change of a non-reversed view. */
    var lbChanges: seq<seq<nat>>
    /** `ubChanges_`: constraints to wake on a change of a reversed view. */
    var ubChanges: seq<seq<nat>>

    predicate Valid()
      reads this
    {
      Queued(cons, toProcess) && Watching(lbChanges, |cons|) && Watching(ubChanges, |cons|)
    }

    constructor ()
      ensures Valid() && cons == [] && toProcess == [] && lbChanges == [] && ubChanges == []
    {
      cons := [];
      toProcess := [];
      lbChanges := [];
      ubChanges := [];
    }

    /** `addImp(l)` for a constraint already normalised to `<=` (normalisation
        is not part of this model): the constraint is stored with its flag
        set, its id queued, and the id registered for every view. */
    method AddImp(l: Reified)
      requires Valid() && l.l.r == LE
      requires forall k :: 0 <= k < |l.l.views| ==> l.l.views[k].a != 0
      modifies this
      ensures Valid()
      ensures cons == old(cons) + [SetFlag(l, true)]
      ensures toProcess == old(toProcess) + [|old(cons)|]
      ensures lbChanges == Register(old(lbChanges), l.l.views, |old(cons)|, false)
      ensures ubChanges == Register(old(ubChanges), l.l.views, |old(cons)|, true)
    {
      var id := |cons|;
      QueuedAppend(cons, toProcess, l);
      WatchingGrows(lbChanges, id, id + 1);
      WatchingGrows(ubChanges, id, id + 1);
      RegisterWatching(lbChanges, l.l.views, id, false, id + 1);
      RegisterWatching(ubChanges, l.l.views, id, true, id + 1);
      cons := cons + [SetFlag(l, true)];
      toProcess := toProcess + [id];
      lbChanges, ubChanges := RegisterViews(lbChanges, ubChanges, l.l.views, id);
    }

    /** `addImp(vector)`: each constraint in turn. */
    method AddImps(ls: seq<Reified>)
      requires Valid()
      requires forall j :: 0 <= j < |ls| ==> ls[j].l.r == LE
      requires forall j, k :: 0 <= j < |ls| && 0 <= k < |ls[j].l.views| ==> ls[j].l.views[k].a != 0
      modifies this
      ensures Valid()
      ensures cons == old(cons) + seq(|ls|, j requires 0 <= j < |ls| => SetFlag(ls[j], true))
      ensures toProcess == old(toProcess) + seq(|ls|, j => |old(cons)| + j)
    {
      var i := 0;
      while i < |ls|
        invariant 0 <= i <= |ls| && Valid()
        invariant cons == old(cons) + seq(i, j requires 0 <= j < i => SetFlag(ls[j], true))
        invariant toProcess == old(toProcess) + seq(i, j => |old(cons)| + j)
      {
        ghost var c0 := |old(cons)|;
        assert seq(i + 1, j requires 0 <= j < i + 1 => SetFlag(ls[j], true))
          == seq(i, j requires 0 <= j < i => SetFlag(ls[j], true)) + [SetFlag(ls[i], true)];
        assert seq(i + 1, j => c0 + j) == seq(i, j => c0 + j) + [c0 + i];
        AddImp(ls[i]);
        i := i + 1;
      }
    }

    /** `addLevel()`: only at a fixpoint, and nothing changes. */
    method AddLevel()
      requires toProcess == []
      ensures cons == old(cons) && toProcess == []
    {
    }

    /** `atFixPoint()`. */
    function AtFixPoint(): (r: bool)
      reads this
      ensures r <==> toProcess == []
    {
      |toProcess| == 0
    }

    /** `removeLevel()`: the flags of the queued constraints are cleared and the
        queue is emptied. */
    method RemoveLevel()
      requires Valid()
      modifies this
      ensures Valid() && toProcess == []
      ensures cons == ClearFlags(old(cons), old(toProcess))
      ensures forall i :: 0 <= i < |cons| ==> cons[i] == SetFlag(old(cons)[i], false)
      ensures lbChanges == old(lbChanges) && ubChanges == old(ubChanges)
    {
      ClearQueueClearsAll(cons, toProcess);
      cons := ClearAll(cons, toProcess);
      toProcess := [];
    }

    /** `removeConstraints()`: the constraints move out with their flags
        cleared, and the storage is left empty. */
    method RemoveConstraints() returns (ret: seq<Reified>)
      requires Valid()
      modifies this
      ensures ret == ClearFlags(old(cons), old(toProcess))
      ensures forall i :: 0 <= i < |ret| ==> ret[i] == SetFlag(old(cons)[i], false)
      ensures Valid() && cons == [] && toProcess == [] && lbChanges == [] && ubChanges == []
    {
      ClearQueueClearsAll(cons, toProcess);
      ret := cons;
      cons := [];
      lbChanges := [];
      ubChanges := [];
      ret := ClearAll(ret, toProcess);
      toProcess := [];
    }

    /** `LinearLiteralPropagator::queueConstraint(id)`: an id is queued only
        when its flag is clear, and its flag is then set. */
    method QueueConstraint(id: nat)
      requires Valid() && id < |cons|
      modifies this
      ensures Valid()
      ensures old(cons[id].l.flag) ==> cons == old(cons) && toProcess == old(toProcess)
      ensures !old(cons[id].l.flag) ==> cons == old(cons)[id := SetFlag(old(cons)[id], true)] &&
                                         toProcess == old(toProcess) + [id]
      ensures lbChanges == old(lbChanges) && ubChanges == old(ubChanges)
    {
      if !cons[id].l.flag {
        toProcess := toProcess + [id];
        cons := cons[id := SetFlag(cons[id], true)];
      }
    }

    /** One watch list walked: every constraint it wakes is queued once. */
    method WakeList(list: seq<nat>, value: Literal -> Truth, view: View, ub: bool)
      requires Valid() && forall k :: 0 <= k < |list| ==> list[k] < |cons|
      modifies this
      ensures Valid() && |cons| == |old(cons)|
      ensures lbChanges == old(lbChanges) && ubChanges == old(ubChanges)
      ensures old(toProcess) <= toProcess
      ensures forall i :: i in toProcess <==> i in old(toProcess) || (i in list && Wakes(value, old(cons)[i], view, ub))
      ensures forall i :: 0 <= i < |cons| ==> cons[i] == SetFlag(old(cons)[i], i in toProcess)
      ensures (cons, toProcess) == WakeAll(old(cons), old(toProcess), list, value, view, ub)
    {
      var k := 0;
      while k < |list|
        invariant 0 <= k <= |list| && |cons| == |old(cons)|
        invariant lbChanges == old(lbChanges) && ubChanges == old(ubChanges)
        invariant (cons, toProcess) == WakeAll(old(cons), old(toProcess), list[..k], value, view, ub)
      {
        var i := list[k];
        assert list[..k + 1][..k] == list[..k];
        if !cons[i].l.flag && Wakes(value, cons[i], view, ub) {
          cons := cons[i := SetFlag(cons[i], true)];
          toProcess := toProcess + [i];
        }
        k := k + 1;
      }
      assert list[..k] == list;
      WakeAllFacts(old(cons), old(toProcess), list, value, view, ub);
    }

    /** `constrainUpperBound(view, s)`: the constraints watching the variable of
        `view` whose literal makes the changed bound matter (or is unassigned)
        are queued, each once. */
    method ConstrainUpperBound(view: View, value: Literal -> Truth)
      requires Valid()
      modifies this
      ensures Valid() && |cons| == |old(cons)|
      ensures lbChanges == old(lbChanges) && ubChanges == old(ubChanges)
      ensures old(toProcess) <= toProcess
      ensures forall i :: i in toProcess <==> (i in old(toProcess) ||
                                                WokenFrom(old(cons), ubChanges, value, view, true, i) ||
                                                WokenFrom(old(cons), lbChanges, value, view, false, i))
      ensures forall i :: 0 <= i < |cons| ==> cons[i] == SetFlag(old(cons)[i], i in toProcess)
      ensures (cons, toProcess) == Bound(old(cons), old(toProcess), lbChanges, ubChanges, view, value)
    {
      if view.v < |ubChanges| {
        WakeList(ubChanges[view.v], value, view, true);
      }
      ghost var mid := cons;
      if view.v < |lbChanges| {
        WakeList(lbChanges[view.v], value, view, false);
      }
      assert forall i :: 0 <= i < |cons| ==> mid[i].v == old(cons)[i].v;
    }

    /** `constrainLowerBound(view, s)`: a lower bound of `view` is an upper
        bound of `view * -1`. */
    method ConstrainLowerBound(view: View, value: Literal -> Truth)
      requires Valid()
      modifies this
      ensures Valid() && |cons| == |old(cons)|
      ensures lbChanges == old(lbChanges) && ubChanges == old(ubChanges)
      ensures old(toProcess) <= toProcess
      ensures forall i :: i in toProcess <==> (i in old(toProcess) ||
                                                WokenFrom(old(cons), ubChanges, value, Scale(view, -1), true, i) ||
                                                WokenFrom(old(cons), lbChanges, value, Scale(view, -1), false, i))
      ensures forall i :: 0 <= i < |cons| ==> cons[i] == SetFlag(old(cons)[i], i in toProcess)
      ensures (cons, toProcess) == Bound(old(cons), old(toProcess), lbChanges, ubChanges, Scale(view, -1), value)
    {
      ConstrainUpperBound(Scale(view, -1), value);
    }

    /** The upper bounds of `views` changed one after the other, as
        `LinearPropagator::constrainUpperBound` does for each bound a
        propagation tightens. */
    method ConstrainUpperBounds(views: seq<View>, value: Literal -> Truth)
      requires Valid()
      modifies this
      ensures Valid() && lbChanges == old(lbChanges) && ubChanges == old(ubChanges)
      ensures (cons, toProcess) == Bounds(old(cons), old(toProcess), lbChanges, ubChanges, views, value)
    {
      var k := 0;
      while k < |views|
        invariant 0 <= k <= |views| && Valid()
        invariant lbChanges == old(lbChanges) && ubChanges == old(ubChanges)
        invariant (cons, toProcess) == Bounds(old(cons), old(toProcess), lbChanges, ubChanges, views[..k], value)
      {
        assert views[..k + 1][..k] == views[..k];
        ConstrainUpperBound(views[k], value);
        k := k + 1;
      }
      assert views[..k] == views;
    }
  }

  /** Negating a view with a non-zero factor flips its reversal, so a lower
      bound change wakes the constraints an upper bound change of the
      opposite orientation would. */
  lemma LowerBoundFlipsOrientation(view: View)
    requires view.a != 0
    ensures IsReversed(Scale(view, -1)) <==> !IsReversed(view)
  {
  }

  /** One step of a queue worked from its end, in terms of the queue it
      started from: the flags cleared so far grow by the popped id, and the
      step fails exactly at the last failing position. */
  lemma StepFacts(c: seq<Reified>, q: seq<nat>, n: nat, before: seq<Reified>, after: seq<Reified>,
                  value: Literal -> Truth, propagateTrue: Reified -> bool, propagateImpl: Reified -> bool)
    requires 0 < n <= |q| && IdsBelow(q, |c|)
    requires before == ClearFlags(c, q[n..])
    requires after == before[q[n - 1] := SetFlag(before[q[n - 1]], false)]
    requires LastFailing(c, q, value, propagateTrue, propagateImpl) < n
    ensures after == ClearFlags(c, q[n - 1..])
    ensures var k := LastFailing(c, q, value, propagateTrue, propagateImpl);
      (Passes(value, propagateTrue, propagateImpl, before[q[n - 1]]) <==> k < n - 1)
  {
    ClearFlagsAdd(c, q[n..], q[n - 1..], q[n - 1]);
    assert SetFlag(before[q[n - 1]], false) == SetFlag(c[q[n - 1]], false);
  }

  /** What single steps leave: whether every step passed, the constraints, the
      queue and the number of steps taken. */
  datatype Outcome = Outcome(ok: bool, cons: seq<Reified>, toProcess: seq<nat>, steps: nat)

  /** Whether the `n`-th single step passes constraint `r`: propagated as true
      when its literal is true, as an implication when it is unassigned, each
      seeing `r` with its flag cleared. */
  predicate PassesAt(n: nat, value: Literal -> Truth, propagateTrue: (nat, Reified) -> (bool, seq<View>),
                     propagateImpl: (nat, Reified) -> bool, r: Reified) {
    (value(r.v) == True ==> propagateTrue(n, SetFlag(r, false)).0) &&
    (value(r.v) == Free ==> propagateImpl(n, SetFlag(r, false)))
  }

  /** `propagateSingleStep()` as the `n`-th step of a run. The last queued
      constraint is taken off the queue and its flag cleared. When its literal
      is true, `propagateTrue` gives whether `propagate_true` passes and the
      views whose upper bounds it changed; each change goes through the
      storage's `constrainUpperBound`, which may queue constraints again, the
      popped one included. When the literal is unassigned, `propagateImpl`
      gives whether `propagate_impl` passes. The step number stands for the
      bounds earlier steps have left, which these answers depend on. */
  function Step(n: nat, cons: seq<Reified>, toProcess: seq<nat>, lb: seq<seq<nat>>, ub: seq<seq<nat>>,
                value: Literal -> Truth, propagateTrue: (nat, Reified) -> (bool, seq<View>),
                propagateImpl: (nat, Reified) -> bool): (r: Outcome)
    ensures |r.cons| == |cons|
    ensures toProcess == [] ==> r == Outcome(true, cons, toProcess, 0)
    ensures toProcess != [] ==> r.steps == 1
    ensures toProcess != [] && toProcess[|toProcess| - 1] < |cons| ==>
      (r.ok <==> PassesAt(n, value, propagateTrue, propagateImpl, cons[toProcess[|toProcess| - 1]]))
  {
    if toProcess == [] then Outcome(true, cons, toProcess, 0)
    else
      var id := toProcess[|toProcess| - 1];
      var t0 := toProcess[..|toProcess| - 1];
      // An id naming no constraint is never queued in a valid storage (`Queued`).
      if id >= |cons| then Outcome(true, cons, t0, 1)
      else
        var lc := SetFlag(cons[id], false);
        var c0 := cons[id := lc];
        if value(lc.v) == True then
          var p := Bounds(c0, t0, lb, ub, propagateTrue(n, lc).1, value);
          Outcome(propagateTrue(n, lc).0, p.0, p.1, 1)
        else
          Outcome(value(lc.v) != Free || propagateImpl(n, lc), c0, t0, 1)
  }

  /** Popping the last id and clearing its flag keeps the queue invariant. */
  lemma PopQueued(cons: seq<Reified>, toProcess: seq<nat>)
    requires Queued(cons, toProcess) && toProcess != []
    ensures var id := toProcess[|toProcess| - 1];
      Queued(cons[id := SetFlag(cons[id], false)], toProcess[..|toProcess| - 1])
  {
    var n := |toProcess| - 1;
    var id := toProcess[n];
    var c := cons[id := SetFlag(cons[id], false)];
    forall i | 0 <= i < |c|
      ensures c[i].l.flag <==> i in toProcess[..n]
    {
      assert i in toProcess <==> i in toProcess[..n] || i == id by {
        assert toProcess == toProcess[..n] + [id];
      }
      if i == id {
        assert i !in toProcess[..n] by {
          forall j | 0 <= j < n ensures toProcess[j] != id { }
        }
      }
    }
  }

  /** A step on a queue keeps the queue invariant: the popped constraint's
      flag is cleared, and the bound changes only queue constraints again,
      setting their flags. */
  lemma StepRequeues(n: nat, cons: seq<Reified>, toProcess: seq<nat>, lb: seq<seq<nat>>, ub: seq<seq<nat>>,
                     value: Literal -> Truth, propagateTrue: (nat, Reified) -> (bool, seq<View>),
                     propagateImpl: (nat, Reified) -> bool)
    requires Queued(cons, toProcess) && Watching(lb, |cons|) && Watching(ub, |cons|) && toProcess != []
    ensures var s := Step(n, cons, toProcess, lb, ub, value, propagateTrue, propagateImpl);
      var id := toProcess[|toProcess| - 1];
      Requeued(cons[id := SetFlag(cons[id], false)], toProcess[..|toProcess| - 1], s.cons, s.toProcess) &&
      forall i :: 0 <= i < |cons| ==> s.cons[i] == SetFlag(cons[i], i in s.toProcess)
  {
    var s := Step(n, cons, toProcess, lb, ub, value, propagateTrue, propagateImpl);
    var id := toProcess[|toProcess| - 1];
    var lc := SetFlag(cons[id], false);
    var c0, t0 := cons[id := lc], toProcess[..|toProcess| - 1];
    PopQueued(cons, toProcess);
    if value(lc.v) == True {
      BoundsFacts(c0, t0, lb, ub, propagateTrue(n, lc).1, value);
    } else {
      RequeuedSelf(c0, t0);
    }
    forall i | 0 <= i < |cons|
      ensures s.cons[i] == SetFlag(cons[i], i in s.toProcess)
    {
      assert s.cons[i] == SetFlag(c0[i], i in s.toProcess);
    }
  }

  /** The steps of `o` counted `k` later. */
  function Later(o: Outcome, k: nat): Outcome {
    o.(steps := o.steps + k)
  }

  /** `propagate()` from the `n`-th step on, with at most `fuel` single steps:
      steps until the queue is empty, stopping at the first step that fails.
      A run that passes and has fuel left ends at a fixpoint: an empty
      queue. */
  function Run(n: nat, cons: seq<Reified>, toProcess: seq<nat>, lb: seq<seq<nat>>, ub: seq<seq<nat>>,
               value: Literal -> Truth, propagateTrue: (nat, Reified) -> (bool, seq<View>),
               propagateImpl: (nat, Reified) -> bool, fuel: nat): (r: Outcome)
    ensures |r.cons| == |cons|
    ensures r.steps <= fuel
    ensures r.ok && r.steps < fuel ==> r.toProcess == []
    ensures !r.ok ==> r.steps > 0
    decreases fuel
  {
    if toProcess == [] || fuel == 0 then Outcome(true, cons, toProcess, 0)
    else
      var s := Step(n, cons, toProcess, lb, ub, value, propagateTrue, propagateImpl);
      if !s.ok then s
      else Later(Run(n + 1, s.cons, s.toProcess, lb, ub, value, propagateTrue, propagateImpl, fuel - 1), 1)
  }

  /** A run with a non-empty queue and fuel left is one step followed by the
      rest of the run, unless that step fails. */
  lemma RunUnfold(n: nat, cons: seq<Reified>, toProcess: seq<nat>, lb: seq<seq<nat>>, ub: seq<seq<nat>>,
                  value: Literal -> Truth, propagateTrue: (nat, Reified) -> (bool, seq<View>),
                  propagateImpl: (nat, Reified) -> bool, fuel: nat)
    requires toProcess != [] && fuel > 0
    ensures var s := Step(n, cons, toProcess, lb, ub, value, propagateTrue, propagateImpl);
      Run(n, cons, toProcess, lb, ub, value, propagateTrue, propagateImpl, fuel) ==
        if !s.ok then s
        else Later(Run(n + 1, s.cons, s.toProcess, lb, ub, value, propagateTrue, propagateImpl, fuel - 1), 1)
  {
  }

  /** The run from the `n`-th step, counted from the start, once its first
      step is taken. */
  lemma RunAfterStep(n: nat, cons: seq<Reified>, toProcess: seq<nat>, lb: seq<seq<nat>>, ub: seq<seq<nat>>,
                     value: Literal -> Truth, propagateTrue: (nat, Reified) -> (bool, seq<View>),
                     propagateImpl: (nat, Reified) -> bool, fuel: nat, s: Outcome)
    requires toProcess != [] && fuel > 0
    requires s == Step(n, cons, toProcess, lb, ub, value, propagateTrue, propagateImpl)
    ensures !s.ok ==>
      Later(Run(n, cons, toProcess, lb, ub, value, propagateTrue, propagateImpl, fuel), n) ==
      Outcome(false, s.cons, s.toProcess, n + 1)
    ensures s.ok ==>
      Later(Run(n, cons, toProcess, lb, ub, value, propagateTrue, propagateImpl, fuel), n) ==
      Later(Run(n + 1, s.cons, s.toProcess, lb, ub, value, propagateTrue, propagateImpl, fuel - 1), n + 1)
  {
    RunUnfold(n, cons, toProcess, lb, ub, value, propagateTrue, propagateImpl, fuel);
  }

  /** A run out of fuel or with an empty queue is over. */
  lemma RunDone(n: nat, cons: seq<Reified>, toProcess: seq<nat>, lb: seq<seq<nat>>, ub: seq<seq<nat>>,
                value: Literal -> Truth, propagateTrue: (nat, Reified) -> (bool, seq<View>),
                propagateImpl: (nat, Reified) -> bool, fuel: nat)
    requires fuel == 0 || toProcess == []
    ensures Run(n, cons, toProcess, lb, ub, value, propagateTrue, propagateImpl, fuel) ==
      Outcome(true, cons, toProcess, 0)
  {
  }

  lemma FlagsCompose(c1: seq<Reified>, c2: seq<Reified>, c3: seq<Reified>, t2: seq<nat>, t3: seq<nat>)
    requires |c2| == |c1| && forall i :: 0 <= i < |c1| ==> c2[i] == SetFlag(c1[i], i in t2)
    requires |c3| == |c2| && forall i :: 0 <= i < |c2| ==> c3[i] == SetFlag(c2[i], i in t3)
    ensures forall i :: 0 <= i < |c1| ==> c3[i] == SetFlag(c1[i], i in t3)
  {
    forall i | 0 <= i < |c1|
      ensures c3[i] == SetFlag(c1[i], i in t3)
    {
      assert c3[i] == SetFlag(c2[i], i in t3);
    }
  }

  /** A run keeps the queue invariant and changes nothing but flags. */
  lemma {:induction false} RunRequeues(n: nat, cons: seq<Reified>, toProcess: seq<nat>, lb: seq<seq<nat>>,
                                       ub: seq<seq<nat>>, value: Literal -> Truth,
                                       propagateTrue: (nat, Reified) -> (bool, seq<View>),
                                       propagateImpl: (nat, Reified) -> bool, fuel: nat)
    requires Queued(cons, toProcess) && Watching(lb, |cons|) && Watching(ub, |cons|)
    ensures var r := Run(n, cons, toProcess, lb, ub, value, propagateTrue, propagateImpl, fuel);
      Queued(r.cons, r.toProcess) && forall i :: 0 <= i < |cons| ==> r.cons[i] == SetFlag(cons[i], i in r.toProcess)
    decreases fuel
  {
    if toProcess == [] || fuel == 0 {
      RequeuedSelf(cons, toProcess);
    } else {
      var s := Step(n, cons, toProcess, lb, ub, value, propagateTrue, propagateImpl);
      StepRequeues(n, cons, toProcess, lb, ub, value, propagateTrue, propagateImpl);
      if s.ok {
        RunRequeues(n + 1, s.cons, s.toProcess, lb, ub, value, propagateTrue, propagateImpl, fuel - 1);
        var t := Run(n + 1, s.cons, s.toProcess, lb, ub, value, propagateTrue, propagateImpl, fuel - 1);
        FlagsCompose(cons, s.cons, t.cons, s.toProcess, t.toProcess);
      }
    }
  }

  /** The queue worked from its end when no propagation changes a bound:
      each popped constraint has its flag cleared, and the first one that
      fails stops the run. */
  function Drain(cons: seq<Reified>, toProcess: seq<nat>, value: Literal -> Truth,
                 passesTrue: Reified -> bool, passesImpl: Reified -> bool): (r: Outcome)
    decreases |toProcess|
  {
    if toProcess == [] then Outcome(true, cons, toProcess, 0)
    else
      var id := toProcess[|toProcess| - 1];
      var rest := toProcess[..|toProcess| - 1];
      // As in `Step`, an id naming no constraint is only popped.
      if id >= |cons| then Later(Drain(cons, rest, value, passesTrue, passesImpl), 1)
      else
        var popped := cons[id := SetFlag(cons[id], false)];
        if !Passes(value, passesTrue, passesImpl, cons[id]) then Outcome(false, popped, rest, 1)
        else Later(Drain(popped, rest, value, passesTrue, passesImpl), 1)
  }

  /** When no propagation changes a bound and the answers do not depend on
      the step, nothing is queued again and a run with enough fuel drains
      the queue. */
  lemma {:induction false} RunDrains(n: nat, cons: seq<Reified>, toProcess: seq<nat>,
                                     lb: seq<seq<nat>>, ub: seq<seq<nat>>, value: Literal -> Truth,
                                     propagateTrue: (nat, Reified) -> (bool, seq<View>),
                                     propagateImpl: (nat, Reified) -> bool,
                                     passesTrue: Reified -> bool, passesImpl: Reified -> bool, fuel: nat)
    requires |toProcess| <= fuel
    requires forall j, r :: propagateTrue(j, r) == (passesTrue(r), []) && propagateImpl(j, r) == passesImpl(r)
    ensures Run(n, cons, toProcess, lb, ub, value, propagateTrue, propagateImpl, fuel) ==
      Drain(cons, toProcess, value, passesTrue, passesImpl)
    decreases |toProcess|
  {
    if toProcess != [] {
      var id := toProcess[|toProcess| - 1];
      var rest := toProcess[..|toProcess| - 1];
      RunUnfold(n, cons, toProcess, lb, ub, value, propagateTrue, propagateImpl, fuel);
      if id < |cons| {
        var lc := SetFlag(cons[id], false);
        assert propagateTrue(n, lc) == (passesTrue(lc), []);
        assert propagateImpl(n, lc) == passesImpl(lc);
        RunDrains(n + 1, cons[id := lc], rest, lb, ub, value, propagateTrue, propagateImpl,
                  passesTrue, passesImpl, fuel - 1);
      } else {
        RunDrains(n + 1, cons, rest, lb, ub, value, propagateTrue, propagateImpl,
                  passesTrue, passesImpl, fuel - 1);
      }
    }
  }

  /** Draining the first `m` ids of `q`, the ids behind them already
      processed: the run stops at the last failing constraint, after
      processing the constraints behind it. */
  lemma {:induction false} DrainStopsAtLastFailing(c: seq<Reified>, q: seq<nat>, m: nat, value: Literal -> Truth,
                                                   passesTrue: Reified -> bool, passesImpl: Reified -> bool)
    requires IdsBelow(q, |c|) && m <= |q|
    requires LastFailing(c, q, value, passesTrue, passesImpl) < m
    ensures var k := LastFailing(c, q, value, passesTrue, passesImpl); var e := if k < 0 then 0 else k;
      Drain(ClearFlags(c, q[m..]), q[..m], value, passesTrue, passesImpl) ==
        Outcome(k < 0, ClearFlags(c, q[e..]), q[..e], m - e)
    decreases m
  {
    var k := LastFailing(c, q, value, passesTrue, passesImpl);
    var e := if k < 0 then 0 else k;
    if m > 0 {
      var before := ClearFlags(c, q[m..]);
      var id := q[m - 1];
      assert q[..m][m - 1] == id && q[..m][..m - 1] == q[..m - 1];
      var after := before[id := SetFlag(before[id], false)];
      StepFacts(c, q, m, before, after, value, passesTrue, passesImpl);
      if k < m - 1 {
        DrainStopsAtLastFailing(c, q, m - 1, value, passesTrue, passesImpl);
      }
    } else {
      assert e == 0 && q[..m] == [];
    }
  }

  /** The result of `propagate` in terms of the queue it started from, when
      no propagation changes a bound: the queue is worked from its end until
      it empties or a constraint fails. */
  lemma PropagateWithoutChanges(c: seq<Reified>, q: seq<nat>, lb: seq<seq<nat>>, ub: seq<seq<nat>>,
                                value: Literal -> Truth, propagateTrue: (nat, Reified) -> (bool, seq<View>),
                                propagateImpl: (nat, Reified) -> bool,
                                passesTrue: Reified -> bool, passesImpl: Reified -> bool, fuel: nat)
    requires IdsBelow(q, |c|) && |q| <= fuel
    requires forall j, r :: propagateTrue(j, r) == (passesTrue(r), []) && propagateImpl(j, r) == passesImpl(r)
    ensures var k := LastFailing(c, q, value, passesTrue, passesImpl); var e := if k < 0 then 0 else k;
      Run(0, c, q, lb, ub, value, propagateTrue, propagateImpl, fuel) ==
        Outcome(k < 0, ClearFlags(c, q[e..]), q[..e], |q| - e)
  {
    assert ClearFlags(c, q[|q|..]) == c by {
      assert forall i :: i !in q[|q|..];
    }
    assert q[..|q|] == q;
    RunDrains(0, c, q, lb, ub, value, propagateTrue, propagateImpl, passesTrue, passesImpl, fuel);
    DrainStopsAtLastFailing(c, q, |q|, value, passesTrue, passesImpl);
  }

  class LinearPropagator {
    const storage: ConstraintStorage

    constructor ()
      ensures fresh(storage) && storage.Valid() && storage.cons == [] && storage.toProcess == []
    {
      storage := new ConstraintStorage();
    }

    /** `propagateSingleStep()` as the `n`-th step. */
    method PropagateSingleStep(n: nat, value: Literal -> Truth, propagateTrue: (nat, Reified) -> (bool, seq<View>),
                               propagateImpl: (nat, Reified) -> bool)
      returns (ok: bool)
      requires storage.Valid()
      modifies storage
      ensures storage.Valid()
      ensures storage.lbChanges == old(storage.lbChanges) && storage.ubChanges == old(storage.ubChanges)
      ensures var s := Step(n, old(storage.cons), old(storage.toProcess), storage.lbChanges, storage.ubChanges,
                            value, propagateTrue, propagateImpl);
        ok == s.ok && storage.cons == s.cons && storage.toProcess == s.toProcess
    {
      ok := true;
      if |storage.toProcess| > 0 {
        StepRequeues(n, storage.cons, storage.toProcess, storage.lbChanges, storage.ubChanges,
                     value, propagateTrue, propagateImpl);
        PopQueued(storage.cons, storage.toProcess);
        var id := storage.toProcess[|storage.toProcess| - 1];
        var lc := SetFlag(storage.cons[id], false);
        storage.toProcess := storage.toProcess[..|storage.toProcess| - 1];
        storage.cons := storage.cons[id := lc];
        if value(lc.v) == True {
          var (passed, changed) := propagateTrue(n, lc);
          storage.ConstrainUpperBounds(changed, value);
          if !passed {
            return false;
          }
        }
        if value(lc.v) == Free {
          if !propagateImpl(n, lc) {
            return false;
          }
        }
      }
    }

    /** The `n`-th single step of a run of `fuel` steps whose outcome is
        `whole`. */
    method StepOfRun(ghost whole: Outcome, n: nat, value: Literal -> Truth,
                     propagateTrue: (nat, Reified) -> (bool, seq<View>), propagateImpl: (nat, Reified) -> bool,
                     fuel: nat)
      returns (ok: bool)
      requires storage.Valid() && n < fuel && storage.toProcess != []
      requires whole == Later(Run(n, storage.cons, storage.toProcess, storage.lbChanges, storage.ubChanges,
                                  value, propagateTrue, propagateImpl, fuel - n), n)
      modifies storage
      ensures storage.Valid()
      ensures storage.lbChanges == old(storage.lbChanges) && storage.ubChanges == old(storage.ubChanges)
      ensures ok ==> whole == Later(Run(n + 1, storage.cons, storage.toProcess, storage.lbChanges,
                                        storage.ubChanges, value, propagateTrue, propagateImpl, fuel - (n + 1)), n + 1)
      ensures !ok ==> whole == Outcome(false, storage.cons, storage.toProcess, n + 1)
    {
      ghost var c, t := storage.cons, storage.toProcess;
      ok := PropagateSingleStep(n, value, propagateTrue, propagateImpl);
      RunAfterStep(n, c, t, storage.lbChanges, storage.ubChanges, value, propagateTrue, propagateImpl,
                   fuel - n, Outcome(ok, storage.cons, storage.toProcess, 1));
    }

    /** `propagate()`: single steps until the queue is empty, stopping at the
        first step that fails. The loop ends in the source because bounds
        only shrink; here it takes at most `fuel` steps, and `steps` says how
        many it took. */
    method Propagate(value: Literal -> Truth, propagateTrue: (nat, Reified) -> (bool, seq<View>),
                     propagateImpl: (nat, Reified) -> bool, fuel: nat)
      returns (ok: bool, steps: nat)
      requires storage.Valid()
      modifies storage
      ensures storage.Valid()
      ensures storage.lbChanges == old(storage.lbChanges) && storage.ubChanges == old(storage.ubChanges)
      ensures Outcome(ok, storage.cons, storage.toProcess, steps) ==
        Run(0, old(storage.cons), old(storage.toProcess), storage.lbChanges, storage.ubChanges,
            value, propagateTrue, propagateImpl, fuel)
      ensures ok && steps < fuel ==> storage.toProcess == []
    {
      ghost var whole := Run(0, storage.cons, storage.toProcess, storage.lbChanges, storage.ubChanges,
                             value, propagateTrue, propagateImpl, fuel);
      ok, steps := true, 0;
      while ok && steps < fuel && |storage.toProcess| > 0
        invariant storage.Valid() && steps <= fuel
        invariant storage.lbChanges == old(storage.lbChanges) && storage.ubChanges == old(storage.ubChanges)
        invariant ok ==> whole == Later(Run(steps, storage.cons, storage.toProcess, storage.lbChanges,
                                            storage.ubChanges, value, propagateTrue, propagateImpl, fuel - steps), steps)
        invariant !ok ==> whole == Outcome(false, storage.cons, storage.toProcess, steps)
        decreases fuel - steps
      {
        ok := StepOfRun(whole, steps, value, propagateTrue, propagateImpl, fuel);
        steps := steps + 1;
      }
      if ok {
        RunDone(steps, storage.cons, storage.toProcess, storage.lbChanges, storage.ubChanges,
                value, propagateTrue, propagateImpl, fuel - steps);
      }
    }
  }


  // ---------------------------------------------------------------------------
  // Bounds of a sum

  function Sum(s: seq<int>): int {
    if s == [] then 0 else Sum(s[..|s| - 1]) + s[|s| - 1]
  }

  /** Replacing one summand changes the sum by the difference. */
  lemma {:induction false} SumUpdate(s: seq<int>, i: nat, x: int)
    requires i < |s|
    ensures Sum(s[i := x]) == Sum(s) - s[i] + x
    decreases |s|
  {
    var n := |s| - 1;
    assert s[i := x][..n] == if i < n then s[..n][i := x] else s[..n];
    if i < n {
      SumUpdate(s[..n], i, x);
    }
  }

  /** A sum grows with every summand. */
  lemma {:induction false} SumMono(s: seq<int>, t: seq<int>)
    requires |s| == |t| && forall i :: 0 <= i < |s| ==> s[i] <= t[i]
    ensures Sum(s) <= Sum(t)
    decreases |s|
  {
    if s != [] {
      SumMono(s[..|s| - 1], t[..|t| - 1]);
    }
  }

  /** `computeMinMax(l)`: the sums of the current lower and upper bounds of the
      views, `lo[i]` and `hi[i]` being the bounds of the i-th view. */
  method ComputeMinMax(lo: seq<int>, hi: seq<int>) returns (min: int, max: int)
    requires |lo| == |hi|
    ensures min == Sum(lo) && max == Sum(hi)
  {
    min, max := 0, 0;
    var i := 0;
    while i < |lo|
      invariant 0 <= i <= |lo|
      invariant min == Sum(lo[..i]) && max == Sum(hi[..i])
    {
      assert lo[..i + 1][..i] == lo[..i] && hi[..i + 1][..i] == hi[..i];
      min := min + lo[i];
      max := max + hi[i];
      i := i + 1;
    }
    assert lo[..i] == lo && hi[..i] == hi;
  }

  /** The bounds of `computeMinMax` enclose the left-hand side of every
      assignment within the bounds. */
  lemma MinMaxEncloses(lo: seq<int>, hi: seq<int>, x: seq<int>)
    requires |lo| == |hi| == |x|
    requires forall i :: 0 <= i < |x| ==> lo[i] <= x[i] <= hi[i]
    ensures Sum(lo) <= Sum(x) <= Sum(hi)
  {
    SumMono(lo, x);
    SumMono(x, hi);
  }

  predicate Increasing(s: seq<int>) {
    forall i, j :: 0 <= i < j < |s| ==> s[i] < s[j]
  }

  /** The element before `std::upper_bound(s, up)`, the largest value of `s`
      at or below `up`. */
  function LargestAtMost(s: seq<int>, up: int): int
    requires |s| > 0 && s[0] <= up
    decreases |s|
  {
    if |s| == 1 || s[1] > up then s[0] else LargestAtMost(s[1..], up)
  }

  lemma {:induction false} LargestAtMostFacts(s: seq<int>, up: int)
    requires |s| > 0 && s[0] <= up && Increasing(s)
    ensures var r := LargestAtMost(s, up);
      r in s && r <= up && forall w :: w in s && w <= up ==> w <= r
    decreases |s|
  {
    if |s| == 1 {
    } else if s[1] > up {
      forall w | w in s && w <= up
        ensures w <= s[0]
      {
      }
    } else {
      LargestAtMostFacts(s[1..], up);
      forall w | w in s && w <= up
        ensures w <= LargestAtMost(s, up)
      {
        if w == s[0] {
          assert s[1] in s[1..];
        } else {
          assert w in s[1..];
        }
      }
    }
  }

  /** The restriction a view's range keeps for the upper bound `up`: unchanged
      when `up` is not below the current upper bound, otherwise cut at the
      largest value of the whole range at or below `up`. */
  lemma NewUpperDefined(whole: seq<int>, lo: int, up: int)
    requires lo in whole && lo <= up && Increasing(whole)
    ensures |whole| > 0 && whole[0] <= up
  {
    var j :| 0 <= j < |whole| && whole[j] == lo;
    if j > 0 {
      assert whole[0] < whole[j];
    }
  }

  function NewUpper(whole: seq<int>, lo: int, hi: int, up: int): int
    requires lo in whole && lo <= up && Increasing(whole)
  {
    NewUpperDefined(whole, lo, up);
    if up < hi then LargestAtMost(whole, up) else hi
  }

  /** The shape of a view's bounds: the current bounds are values of the whole
      range, which increases. */
  predicate Restricted(lo: seq<int>, hi: seq<int>, whole: seq<seq<int>>) {
    |lo| == |hi| == |whole| &&
    forall i :: 0 <= i < |lo| ==> lo[i] <= hi[i] && lo[i] in whole[i] && hi[i] in whole[i] && Increasing(whole[i])
  }

  /** The upper bound `propagate_true` derives for the i-th view: the
      right-hand side minus the smallest possible sum of the other views. */
  function Up(rhs: int, lo: seq<int>, i: nat): int
    requires i < |lo|
  {
    rhs - (Sum(lo) - lo[i])
  }

  /** `propagate_true(l)` on a `<=` constraint whose i-th view has the current
      bounds `lo[i]`, `hi[i]` and the whole range `whole[i]`. It fails exactly
      when even the smallest sum exceeds the right-hand side, and otherwise
      cuts each view's upper bound to the largest value of its range that
      leaves room for the others at their lower bounds. */
  method PropagateTrue(rhs: int, lo: seq<int>, hi: seq<int>, whole: seq<seq<int>>)
    returns (ok: bool, newHi: seq<int>)
    requires Restricted(lo, hi, whole) && Sum(lo) <= Sum(hi)
    ensures ok <==> !(|lo| > 0 && Sum(lo) > rhs)
    ensures ok ==> |newHi| == |hi| && forall i :: 0 <= i < |hi| ==>
      lo[i] <= Up(rhs, lo, i) && newHi[i] == NewUpper(whole[i], lo[i], hi[i], Up(rhs, lo, i))
  {
    var min, max := ComputeMinMax(lo, hi);
    newHi := hi;
    if max <= rhs {
      ok := true;
      forall i | 0 <= i < |hi|
        ensures lo[i] <= Up(rhs, lo, i) && hi[i] == NewUpper(whole[i], lo[i], hi[i], Up(rhs, lo, i))
      {
        SumUpdate(hi, i, lo[i]);
        SumMono(lo, hi[i := lo[i]]);
      }
      return;
    }
    var i := 0;
    while i < |lo|
      invariant 0 <= i <= |lo| && |newHi| == |hi|
      invariant min == Sum(lo) && max == Sum(newHi)
      invariant i > 0 ==> Sum(lo) <= rhs
      invariant forall j :: 0 <= j < i ==> lo[j] <= Up(rhs, lo, j) && newHi[j] == NewUpper(whole[j], lo[j], hi[j], Up(rhs, lo, j))
      invariant forall j :: i <= j < |hi| ==> newHi[j] == hi[j]
    {
      var mmFirst := min - lo[i];
      var mmSecond := max - newHi[i];
      var up := rhs - mmFirst;
      if up < lo[i] {
        return false, newHi;
      }
      if up < newHi[i] {
        NewUpperDefined(whole[i], lo[i], up);
        var top := LargestAtMost(whole[i], up);
        SumUpdate(newHi, i, top);
        newHi := newHi[i := top];
        min := mmFirst + lo[i];
        max := mmSecond + top;
      }
      i := i + 1;
    }
    ok := true;
  }

  /** When the sum cannot exceed the right-hand side, no bound changes. */
  lemma PropagateTrueIdle(rhs: int, lo: seq<int>, hi: seq<int>, whole: seq<seq<int>>, i: nat)
    requires Restricted(lo, hi, whole) && Sum(hi) <= rhs && i < |lo|
    ensures lo[i] <= Up(rhs, lo, i) && NewUpper(whole[i], lo[i], hi[i], Up(rhs, lo, i)) == hi[i]
  {
    SumUpdate(hi, i, lo[i]);
    SumMono(lo, hi[i := lo[i]]);
  }

  /** A failure is a real conflict: no assignment within the bounds keeps the
      sum at or below the right-hand side. */
  lemma PropagateTrueConflict(rhs: int, lo: seq<int>, hi: seq<int>, x: seq<int>)
    requires |lo| == |hi| == |x| && Sum(lo) > rhs
    requires forall i :: 0 <= i < |x| ==> lo[i] <= x[i] <= hi[i]
    ensures Sum(x) > rhs
  {
    SumMono(lo, x);
  }

  /** The cut bounds are sound and stay inside the old ones: every assignment
      within the old bounds and the whole ranges that satisfies the
      constraint lies within the new upper bounds. */
  lemma PropagateTrueSound(rhs: int, lo: seq<int>, hi: seq<int>, whole: seq<seq<int>>, x: seq<int>, i: nat)
    requires Restricted(lo, hi, whole) && |x| == |lo| && i < |lo|
    requires forall j :: 0 <= j < |x| ==> lo[j] <= x[j] <= hi[j] && x[j] in whole[j]
    requires Sum(x) <= rhs
    ensures lo[i] <= Up(rhs, lo, i)
    ensures var n := NewUpper(whole[i], lo[i], hi[i], Up(rhs, lo, i));
      x[i] <= n <= hi[i] && n in whole[i] && lo[i] <= n
  {
    SumUpdate(x, i, lo[i]);
    SumMono(lo, x[i := lo[i]]);
    var up := Up(rhs, lo, i);
    if up < hi[i] {
      NewUpperDefined(whole[i], lo[i], up);
      LargestAtMostFacts(whole[i], up);
    }
  }
}
