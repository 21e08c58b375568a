/** `VariableStorage`: for each variable a stack of restrictors, one pushed at
    each decision level that changed the variable, and for each level the set of
    variables it changed. A restrictor is a window of positions into the
    variable's domain, from its begin iterator to its end iterator. */
module Levels {
  import opened OrderDomain
  import opened LiteralStorage
  import Variables

  /** `Restrictor`: the positions `[lo, hi)` of the domain still allowed. */
  datatype Restrictor = Restrictor(lo: nat, hi: nat)

  function Width(r: Restrictor): int { r.hi - r.lo }

  /** The number of levels whose set holds `v`. */
  function Touched(levels: seq<set<nat>>, v: nat): nat {
    if levels == [] then 0
    else Touched(levels[..|levels| - 1], v) + (if v in levels[|levels| - 1] then 1 else 0)
  }

  /** The stacks after `constrainVariable(r)` on `v`: a first change of `v` at the
      top level pushes `r`, a later one overwrites the top. */
  function Push(rs: seq<seq<Restrictor>>, top: set<nat>, v: nat, r: Restrictor): (out: seq<seq<Restrictor>>)
    requires v < |rs| && (v in top ==> rs[v] != [])
  {
    if v in top then rs[v := rs[v][..|rs[v]| - 1] + [r]] else rs[v := rs[v] + [r]]
  }

  /** The stacks after `removeLevel()`: one restrictor popped for each variable in
      the top level's set. */
  function Pop(rs: seq<seq<Restrictor>>, top: set<nat>): (out: seq<seq<Restrictor>>)
    requires forall v :: v in top ==> v < |rs| && rs[v] != []
    ensures |out| == |rs|
    ensures forall v :: 0 <= v < |rs| ==> out[v] == if v in top then rs[v][..|rs[v]| - 1] else rs[v]
  {
    seq(|rs|, v requires 0 <= v < |rs| => if v in top then rs[v][..|rs[v]| - 1] else rs[v])
  }

  /** A sequence of changes `(v, r)` made at one level, starting from the stacks
      `rs` and the empty set. */
  function Changes(rs: seq<seq<Restrictor>>, top: set<nat>, cs: seq<(nat, Restrictor)>)
    : (out: (seq<seq<Restrictor>>, set<nat>))
    requires forall v :: v in top ==> v < |rs| && rs[v] != []
    requires forall i :: 0 <= i < |cs| ==> cs[i].0 < |rs|
    ensures |out.0| == |rs| && top <= out.1
    ensures forall v :: v in out.1 ==> v < |rs| && out.0[v] != []
    decreases |cs|
  {
    if cs == [] then (rs, top)
    else Changes(Push(rs, top, cs[0].0, cs[0].1), top + {cs[0].0}, cs[1..])
  }

  /** Changes at a level keep the stacks of the variables outside its set, and
      below the top of those inside it, as they were when the level began. */
  lemma {:induction false} ChangesKeepBelow(rs0: seq<seq<Restrictor>>, rs: seq<seq<Restrictor>>, top: set<nat>,
                                            cs: seq<(nat, Restrictor)>)
    requires |rs0| == |rs| && forall v :: v in top ==> v < |rs| && rs[v] != []
    requires forall v :: 0 <= v < |rs| ==> rs[v] == if v in top then rs0[v] + [rs[v][|rs[v]| - 1]] else rs0[v]
    requires forall i :: 0 <= i < |cs| ==> cs[i].0 < |rs|
    ensures var out := Changes(rs, top, cs);
      forall v :: 0 <= v < |rs| ==>
        out.0[v] == if v in out.1 then rs0[v] + [out.0[v][|out.0[v]| - 1]] else rs0[v]
    decreases |cs|
  {
    if cs != [] {
      var rs' := Push(rs, top, cs[0].0, cs[0].1);
      forall v | 0 <= v < |rs|
        ensures rs'[v] == if v in top + {cs[0].0} then rs0[v] + [rs'[v][|rs'[v]| - 1]] else rs0[v]
      {
        if v == cs[0].0 && v in top {
          assert rs[v][..|rs[v]| - 1] == rs0[v];
        }
      }
      ChangesKeepBelow(rs0, rs', top + {cs[0].0}, cs[1..]);
    }
  }

  /** `addLevel()`, any changes, then `removeLevel()` give back the stacks the
      level began with. */
  lemma LevelRestores(rs: seq<seq<Restrictor>>, cs: seq<(nat, Restrictor)>)
    requires forall i :: 0 <= i < |cs| ==> cs[i].0 < |rs|
    ensures var out := Changes(rs, {}, cs);
      Pop(out.0, out.1) == rs
  {
    ChangesKeepBelow(rs, rs, {}, cs);
    var out := Changes(rs, {}, cs);
    assert forall v :: 0 <= v < |rs| ==> Pop(out.0, out.1)[v] == rs[v];
  }

  /** Every stack holds one restrictor per level that changed its variable, and
      the level sets name only variables. */
  predicate Layered(rs: seq<seq<Restrictor>>, levels: seq<set<nat>>) {
    (forall j, v :: 0 <= j < |levels| && v in levels[j] ==> v < |rs|)
    && (forall v :: 0 <= v < |rs| ==> |rs[v]| == Touched(levels, v))
  }

  /** Counting with a new top level. */
  lemma TouchedPush(levels: seq<set<nat>>, top: set<nat>, v: nat)
    ensures Touched(levels + [top], v) == Touched(levels, v) + (if v in top then 1 else 0)
  {
    assert (levels + [top])[..|levels|] == levels;
  }

  /** The stacks `init()` sets up: one restrictor over the whole domain for each
      valid variable, none for the others. */
  function InitStacks(domains: seq<Option<seq<Range>>>): (rs: seq<seq<Restrictor>>)
    requires forall i :: 0 <= i < |domains| && domains[i].Some? ==> Normal(domains[i].value)
    ensures |rs| == |domains|
    ensures forall i :: 0 <= i < |domains| ==>
      rs[i] == if domains[i].Some? then [Restrictor(0, Variables.SizeOf(domains[i].value))] else []
  {
    seq(|domains|, i requires 0 <= i < |domains| =>
      if domains[i].Some? then [Restrictor(0, Variables.SizeOf(domains[i].value))] else [])
  }

  /** The variables `init()` records at the first level. */
  function ValidSet(domains: seq<Option<seq<Range>>>): (s: set<nat>)
    ensures forall i :: i in s <==> 0 <= i < |domains| && domains[i].Some?
  {
    set i | 0 <= i < |domains| && domains[i].Some?
  }

  /** The stacks `init()` builds are layered over its single level. */
  lemma InitLayered(domains: seq<Option<seq<Range>>>)
    requires forall i :: 0 <= i < |domains| && domains[i].Some? ==> Normal(domains[i].value)
    ensures Layered(InitStacks(domains), [ValidSet(domains)])
  {
    forall v | 0 <= v < |domains|
      ensures |InitStacks(domains)[v]| == Touched([ValidSet(domains)], v)
    {
      TouchedPush([], ValidSet(domains), v);
    }
  }

  class VariableStorage {
    const domains: seq<Option<seq<Range>>>
    var rs: seq<seq<Restrictor>>
    var levelSets: seq<set<nat>>

    predicate Valid()
      reads this
    {
      (forall i :: 0 <= i < |domains| && domains[i].Some? ==> Normal(domains[i].value))
      && |rs| == |domains| && Layered(rs, levelSets)
    }

    /** `isValid(v)`. */
    predicate IsValid(v: nat)
      reads this
    {
      v < |domains| && domains[v].Some?
    }

    /** The constructor runs `init()`: it adds a level, then gives each valid
        variable a restrictor over its whole domain, recorded at that level. */
    constructor (domains: seq<Option<seq<Range>>>)
      requires forall i :: 0 <= i < |domains| && domains[i].Some? ==> Normal(domains[i].value)
      ensures Valid() && this.domains == domains
      ensures rs == InitStacks(domains) && levelSets == [ValidSet(domains)]
    {
      this.domains := domains;
      rs := [];
      levelSets := [{}];
      new;
      var i := 0;
      while i < |domains|
        invariant 0 <= i <= |domains| && |levelSets| == 1
        invariant rs == InitStacks(domains)[..i]
        invariant levelSets[0] == set j | 0 <= j < i && domains[j].Some?
      {
        rs := rs + [[]];
        if domains[i].Some? {
          rs := rs[i := rs[i] + [Restrictor(0, Variables.SizeOf(domains[i].value))]];
          levelSets := levelSets[0 := levelSets[0] + {i}];
        }
        assert rs[i] == InitStacks(domains)[i];
        assert rs == InitStacks(domains)[..i + 1];
        i := i + 1;
      }
      assert rs == InitStacks(domains);
      InitLayered(domains);
    }

    /** `addLevel()`. */
    method AddLevel()
      requires Valid()
      modifies this
      ensures Valid() && rs == old(rs) && levelSets == old(levelSets) + [{}]
    {
      forall v | 0 <= v < |rs|
        ensures Touched(levelSets + [{}], v) == Touched(levelSets, v)
      {
        TouchedPush(levelSets, {}, v);
      }
      levelSets := levelSets + [{}];
    }

    /** `removeLevel()`: one restrictor popped for each variable the top level
        changed, then the level itself. */
    method RemoveLevel()
      requires Valid() && levelSets != []
      modifies this
      ensures Valid()
      ensures Layered(old(rs), old(levelSets)) && rs == Pop(old(rs), old(levelSets)[|old(levelSets)| - 1])
      ensures levelSets == old(levelSets)[..|old(levelSets)| - 1]
    {
      var top := levelSets[|levelSets| - 1];
      var below := levelSets[..|levelSets| - 1];
      assert levelSets == below + [top];
      forall v | 0 <= v < |rs|
        ensures |rs[v]| == Touched(below, v) + (if v in top then 1 else 0)
      {
        TouchedPush(below, top, v);
      }
      var left := top;
      ghost var rs0 := rs;
      while left != {}
        invariant left <= top && |rs| == |rs0|
        invariant forall v :: 0 <= v < |rs| ==> rs[v] == if v in top && v !in left then rs0[v][..|rs0[v]| - 1] else rs0[v]
        decreases left
      {
        var v :| v in left;
        rs := rs[v := rs[v][..|rs[v]| - 1]];
        left := left - {v};
      }
      assert rs == Pop(rs0, top);
      levelSets := below;
    }

    /** `constrainVariable(r)` on `v`: the first change of `v` at the top level
        pushes `r` and records `v` there; a later one overwrites the top. */
    method ConstrainVariable(v: nat, r: Restrictor)
      requires Valid() && IsValid(v) && levelSets != []
      requires rs[v] != [] && rs[v][|rs[v]| - 1].lo <= r.lo && r.hi <= rs[v][|rs[v]| - 1].hi
      modifies this
      ensures Valid() && |levelSets| == |old(levelSets)|
      ensures var top := old(levelSets)[|old(levelSets)| - 1];
        (v in top ==> old(rs)[v] != [])
        && rs == Push(old(rs), top, v, r)
        && levelSets == old(levelSets)[|old(levelSets)| - 1 := top + {v}]
      ensures rs[v] != [] && rs[v][|rs[v]| - 1] == r
    {
      var n := |levelSets| - 1;
      var top := levelSets[n];
      var below := levelSets[..n];
      assert levelSets == below + [top];
      assert levelSets[n := top + {v}] == below + [top + {v}];
      forall w | 0 <= w < |rs|
        ensures Touched(levelSets[n := top + {v}], w) == Touched(below, w) + (if w in top + {v} then 1 else 0)
        ensures |rs[w]| == Touched(below, w) + (if w in top then 1 else 0)
      {
        TouchedPush(below, top, w);
        TouchedPush(below, top + {v}, w);
      }
      if v !in top {
        levelSets := levelSets[n := top + {v}];
        rs := rs[v := rs[v] + [r]];
      } else {
        assert top + {v} == top;
        assert levelSets[n := top + {v}] == levelSets;
        rs := rs[v := rs[v][..|rs[v]| - 1] + [r]];
      }
    }

    /** `getCurrentRestrictor(v)`. */
    function Current(v: nat): (r: Restrictor)
      reads this
      requires Valid() && IsValid(v) && rs[v] != []
    {
      rs[v][|rs[v]| - 1]
    }

    /** `constrainUpperBound(u)` for the iterator `k` steps into the domain of
        `v`, seen through a view that is `reversed` or not. A reversed view
        hands over to `constrainLowerBound` one step further on. Otherwise the
        end iterator changes nothing, and any other `k` ends the window there,
        or empties it at its begin when `k` is before it. The result says
        whether the window is non-empty. */
    method ConstrainUpperBound(v: nat, k: nat, reversed: bool) returns (ok: bool)
      requires Valid() && IsValid(v) && levelSets != [] && rs[v] != []
      requires Width(Current(v)) >= 0
      requires reversed ==> Current(v).lo <= k + 1
      requires !reversed ==> k == Variables.SizeOf(domains[v].value) || k <= Current(v).hi
      modifies this
      decreases if reversed then 1 else 0
      ensures Valid() && rs[v] != [] && |levelSets| == |old(levelSets)|
      ensures reversed ==> var e := old(Current(v)).hi;
        Current(v) == Restrictor(if k + 1 > e then e else k + 1, e) && ok == (Width(Current(v)) > 0)
      ensures !reversed && k == Variables.SizeOf(domains[v].value) ==> ok && rs == old(rs) && levelSets == old(levelSets)
      ensures !reversed && k != Variables.SizeOf(domains[v].value) ==>
        var b := old(Current(v)).lo;
        Current(v) == Restrictor(b, if k < b then b else k) && ok == (Width(Current(v)) > 0)
    {
      if reversed {
        ok := ConstrainLowerBound(v, k + 1, false);
        return;
      }
      if k == Variables.SizeOf(domains[v].value) {
        return true;
      }
      var cur := rs[v][|rs[v]| - 1];
      if k < cur.lo {
        ConstrainVariable(v, Restrictor(cur.lo, cur.lo));
      } else {
        ConstrainVariable(v, Restrictor(cur.lo, k));
      }
      var now := rs[v][|rs[v]| - 1];
      ok := now.hi - now.lo > 0;
    }

    /** `constrainLowerBound(l)` for the iterator `k` steps into the domain of
        `v`: a reversed view hands over to `constrainUpperBound` at the same
        place; otherwise the window starts at `k`, or is emptied at its end
        when `k` is past it. */
    method ConstrainLowerBound(v: nat, k: nat, reversed: bool) returns (ok: bool)
      requires Valid() && IsValid(v) && levelSets != [] && rs[v] != []
      requires Width(Current(v)) >= 0
      requires reversed ==> k == Variables.SizeOf(domains[v].value) || k <= Current(v).hi
      requires !reversed ==> Current(v).lo <= k
      modifies this
      decreases if reversed then 1 else 0
      ensures Valid() && rs[v] != [] && |levelSets| == |old(levelSets)|
      ensures reversed && k == Variables.SizeOf(domains[v].value) ==> ok && rs == old(rs) && levelSets == old(levelSets)
      ensures reversed && k != Variables.SizeOf(domains[v].value) ==>
        var b := old(Current(v)).lo;
        Current(v) == Restrictor(b, if k < b then b else k) && ok == (Width(Current(v)) > 0)
      ensures !reversed ==> var e := old(Current(v)).hi;
        Current(v) == Restrictor(if k > e then e else k, e) && ok == (Width(Current(v)) > 0)
    {
      if reversed {
        ok := ConstrainUpperBound(v, k, false);
        return;
      }
      var cur := rs[v][|rs[v]| - 1];
      if k > cur.hi {
        ConstrainVariable(v, Restrictor(cur.hi, cur.hi));
      } else {
        ConstrainVariable(v, Restrictor(k, cur.hi));
      }
      var now := rs[v][|rs[v]| - 1];
      ok := now.hi - now.lo > 0;
    }
  }
}
