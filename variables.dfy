/** `order::VariableCreator`: the table of variable domains and of their order
    literal stores, and the operations that restrict a domain. A domain is
    replaced only when the restriction leaves it non-empty; clauses the creator
    posts go to a log. */
module Variables {
  import opened OrderDomain
  import opened LiteralStorage
  import opened Domains
  import DomainIterator

  /** A view `a * v + c` of the variable `v`. */
  datatype View = View(v: nat, a: int, c: int)

  /** A view with a negative factor runs through the domain backwards. */
  predicate IsReversed(view: View) { view.a < 0 }

  /** The value of the variable at which the view takes the value `x`, if any:
      `x - c` must divide by `a`. (A zero remainder and an exact quotient are the
      same under C++'s truncating division.) */
  function ViewValue(view: View, x: int): (r: Option<int>)
    requires view.a != 0
  {
    if (x - view.c) % view.a != 0 then None else Some((x - view.c) / view.a)
  }

  /** The view takes the value `x` exactly at the value `ViewValue` names. */
  lemma ViewValueFacts(view: View, x: int)
    requires view.a != 0
    ensures ViewValue(view, x).Some? ==> view.a * ViewValue(view, x).value + view.c == x
    ensures forall y :: view.a * y + view.c == x ==> ViewValue(view, x) == Some(y)
  {
    var d := x - view.c;
    assert d == view.a * (d / view.a) + d % view.a;
    forall y | view.a * y + view.c == x
      ensures ViewValue(view, x) == Some(y)
    {
      assert d == view.a * y + 0;
      DivExact(d, view.a, y);
    }
  }

  /** Euclidean division of an exact multiple. */
  lemma DivExact(d: int, a: int, y: int)
    requires a != 0 && d == a * y
    ensures d % a == 0 && d / a == y
  {
    var q, m := d / a, d % a;
    var t := y - q;
    assert a * t == a * y - a * q;
    assert a * t == m;
    if t > 0 {
      assert a * t == a * (t - 1) + a;
      MulSign(a, t - 1);
    }
  }

  /** The sign of a product with a non-negative factor. */
  lemma MulSign(a: int, n: nat)
    ensures a >= 0 ==> a * n >= 0
    ensures a < 0 ==> a * n <= 0
  {
  }

  /** `Domain::lower()` and `Domain::upper()`. */
  function Lower(rs: seq<Range>): int requires rs != [] { rs[0].l }

  function Upper(rs: seq<Range>): int requires rs != [] { rs[|rs| - 1].u }

  /** The number of values of `r` below `x`. */
  function Below(r: Range, x: int): int {
    if x <= r.l then 0 else if x > r.u then r.u - r.l + 1 else x - r.l
  }

  /** The number of values of the domain below `x`: the position `lower_bound`
      finds for `x`. */
  function CountBelow(rs: seq<Range>, x: int): int {
    if rs == [] then 0 else CountBelow(rs[..|rs| - 1], x) + Below(rs[|rs| - 1], x)
  }

  /** The count grows with `x` and never exceeds the domain size. */
  lemma {:induction false} CountBelowBounds(rs: seq<Range>, x: int, y: int)
    requires Normal(rs) && x <= y
    ensures 0 <= CountBelow(rs, x) <= CountBelow(rs, y) <= DomainIterator.Total(rs)
  {
    if rs != [] {
      var init := rs[..|rs| - 1];
      assert Normal(init);
      assert DomainIterator.Prefix(rs, |rs| - 1) == DomainIterator.Total(init) by {
        PrefixOfPrefix(rs, |rs| - 1);
      }
      CountBelowBounds(init, x, y);
    }
  }

  /** The prefix counts of a list are those of any prefix of it. */
  lemma {:induction false} PrefixOfPrefix(rs: seq<Range>, k: nat)
    requires k <= |rs|
    ensures DomainIterator.Prefix(rs, k) == DomainIterator.Prefix(rs[..k], k)
    decreases k
  {
    if k > 0 {
      PrefixOfPrefix(rs, k - 1);
      PrefixOfPrefix(rs[..k], k - 1);
      assert rs[..k][..k - 1] == rs[..k - 1];
    }
  }

  /** The count of a list is the sum of its halves. */
  lemma {:induction false} CountBelowAppend(a: seq<Range>, b: seq<Range>, x: int)
    ensures CountBelow(a + b, x) == CountBelow(a, x) + CountBelow(b, x)
    decreases |b|
  {
    if b == [] {
      assert a + b == a;
    } else {
      assert (a + b)[..|a + b| - 1] == a + b[..|b| - 1];
      assert (a + b)[|a + b| - 1] == b[|b| - 1];
      CountBelowAppend(a, b[..|b| - 1], x);
    }
  }

  /** The count of a single range. */
  lemma CountBelowOne(r: Range, x: int)
    ensures CountBelow([r], x) == Below(r, x)
  {
    assert [r][..0] == [];
  }

  /** The domain size splits off the last range. */
  lemma TotalSplit(rs: seq<Range>)
    requires rs != []
    ensures DomainIterator.Total(rs) == DomainIterator.Total(rs[..|rs| - 1]) + DomainIterator.Size(rs[|rs| - 1])
  {
    PrefixOfPrefix(rs, |rs| - 1);
  }

  /** Below a bound above every range, the count is the domain size. */
  lemma {:induction false} CountBelowAll(rs: seq<Range>, x: int)
    requires forall i :: 0 <= i < |rs| ==> rs[i].l <= rs[i].u < x
    ensures CountBelow(rs, x) == DomainIterator.Total(rs)
  {
    if rs != [] {
      TotalSplit(rs);
      CountBelowAll(rs[..|rs| - 1], x);
    }
  }

  /** Below a bound at or under every range, the count is zero. */
  lemma {:induction false} CountBelowNone(rs: seq<Range>, x: int)
    requires forall i :: 0 <= i < |rs| ==> x <= rs[i].l
    ensures CountBelow(rs, x) == 0
  {
    if rs != [] {
      CountBelowNone(rs[..|rs| - 1], x);
    }
  }

  /** `CUT`: the number of values in `[lower, upper]`, as positions. */
  function Window(rs: seq<Range>, lower: int, upper: int): int {
    CountBelow(rs, upper + 1) - CountBelow(rs, lower)
  }

  lemma WindowAppend(a: seq<Range>, b: seq<Range>, lower: int, upper: int)
    ensures Window(a + b, lower, upper) == Window(a, lower, upper) + Window(b, lower, upper)
  {
    CountBelowAppend(a, b, lower);
    CountBelowAppend(a, b, upper + 1);
  }

  /** Nothing after range `j` of a normal list lies at or below its upper bound. */
  lemma CountAfter(t: seq<Range>, j: nat, x: int)
    requires Normal(t) && j < |t| && x <= t[j].u + 1
    ensures CountBelow(t[j + 1..], x) == 0
  {
    var rest := t[j + 1..];
    forall i | 0 <= i < |rest|
      ensures x <= rest[i].l
    {
      assert rest[i] == t[j + 1 + i];
    }
    CountBelowNone(rest, x);
  }

  /** The ranges before the one `lower_bound` finds for `upper` lie wholly in
      `[lower, upper]`. */
  lemma CountBefore(t: seq<Range>, jt: nat, lower: int, upper: int)
    requires Normal(t) && t != [] && lower <= t[0].l && jt <= |t|
    requires forall i :: 0 <= i < jt ==> t[i].u < upper
    ensures Window(t[..jt], lower, upper) == DomainIterator.Total(t[..jt])
  {
    var pre := t[..jt];
    forall i | 0 <= i < |pre|
      ensures pre[i].l <= pre[i].u < upper + 1 && lower <= pre[i].l
    {
      assert pre[i] == t[i];
      if i > 0 {
        assert t[0].u + 1 < t[i].l;
      }
    }
    CountBelowAll(pre, upper + 1);
    CountBelowNone(pre, lower);
  }

  /** From the range `lower_bound` finds for `upper` on, exactly the values of that
      range up to `upper` lie in `[lower, upper]`. */
  lemma WindowFrom(t: seq<Range>, j: nat, lower: int, upper: int)
    requires Normal(t) && j < |t| && lower <= t[j].l && upper <= t[j].u
    ensures Window(t[j..], lower, upper) == if upper >= t[j].l then upper - t[j].l + 1 else 0
  {
    var r := t[j];
    assert t[j..] == [r] + t[j + 1..];
    WindowAppend([r], t[j + 1..], lower, upper);
    CountAfter(t, j, upper + 1);
    CountAfter(t, j, lower);
    CountBelowOne(r, lower);
    CountBelowOne(r, upper + 1);
  }

  /** The values in `[lower, upper]` split at any range. */
  lemma WindowSplit(rs: seq<Range>, k: nat, lower: int, upper: int)
    requires k <= |rs|
    ensures Window(rs, lower, upper) == Window(rs[..k], lower, upper) + Window(rs[k..], lower, upper)
  {
    assert rs == rs[..k] + rs[k..];
    WindowAppend(rs[..k], rs[k..], lower, upper);
  }

  /** `CutUpper` when `upper` falls at or before the end of range `jt`. */
  lemma CutAt(t: seq<Range>, jt: nat, lower: int, upper: int)
    requires Normal(t) && jt < |t| && lower <= t[0].l && upper <= t[jt].u
    ensures DomainIterator.Total(if upper >= t[jt].l then t[..jt] + [Range(t[jt].l, upper)] else t[..jt])
      == DomainIterator.Total(t[..jt]) + Window(t[jt..], lower, upper)
  {
    assert jt > 0 ==> t[0].u + 1 < t[jt].l;
    WindowFrom(t, jt, lower, upper);
    if upper >= t[jt].l {
      var cut := t[..jt] + [Range(t[jt].l, upper)];
      assert cut[..|cut| - 1] == t[..jt];
      TotalSplit(cut);
    }
  }

  /** The ranges of `CutUpper(t, upper)`, for ranges starting at `lower` or later,
      hold as many values as `t` holds in `[lower, upper]`. */
  lemma CutUpperSize(t: seq<Range>, lower: int, upper: int)
    requires Normal(t) && t != [] && lower <= upper && lower <= t[0].l
    ensures DomainIterator.Total(CutUpper(t, upper).0) == Window(t, lower, upper)
  {
    var jt := LowerBound(t, 0, upper);
    LowerBoundFirst(t, 0, upper);
    WindowSplit(t, jt, lower, upper);
    CountBefore(t, jt, lower, upper);
    if jt == |t| {
      assert t[..jt] == t && t[jt..] == [];
    } else {
      CutAt(t, jt, lower, upper);
    }
  }

  /** Raising the first lower bound to `lower` keeps the values in `[lower, upper]`. */
  lemma ClipLowerSize(t: seq<Range>, lower: int, upper: int)
    requires t != [] && t[0].l <= t[0].u && lower <= t[0].u && lower <= upper
    ensures Window(ClipLower(t, lower), lower, upper) == Window(t, lower, upper)
  {
    var c := ClipLower(t, lower);
    assert t == [t[0]] + t[1..] && c == [c[0]] + t[1..];
    WindowAppend([t[0]], t[1..], lower, upper);
    WindowAppend([c[0]], t[1..], lower, upper);
    CountBelowOne(t[0], lower);
    CountBelowOne(t[0], upper + 1);
    CountBelowOne(c[0], lower);
    CountBelowOne(c[0], upper + 1);
  }

  /** What `intersect` keeps of the ranges from the one holding `lower` on. */
  lemma ClipCutSize(tail: seq<Range>, lower: int, upper: int)
    requires Normal(tail) && tail != [] && lower <= tail[0].u && lower <= upper
    ensures DomainIterator.Total(CutUpper(ClipLower(tail, lower), upper).0) == Window(tail, lower, upper)
  {
    ClipLowerSize(tail, lower, upper);
    var t := ClipLower(tail, lower);
    assert forall i :: 1 <= i < |t| ==> t[i] == tail[i];
    assert Normal(t) && lower <= t[0].l;
    CutUpperSize(t, lower, upper);
  }

  /** The ranges below `lower` hold no value of `[lower, upper]`. */
  lemma WindowBelow(rs: seq<Range>, it: nat, lower: int, upper: int)
    requires it <= |rs| && lower <= upper
    requires forall i :: 0 <= i < it ==> rs[i].l <= rs[i].u < lower
    ensures Window(rs[..it], lower, upper) == 0
  {
    CountBelowAll(rs[..it], lower);
    CountBelowAll(rs[..it], upper + 1);
  }

  /** A normal list holds all its values between its first and its last bound. */
  lemma WindowWhole(rs: seq<Range>)
    requires Normal(rs) && rs != []
    ensures Window(rs, rs[0].l, rs[|rs| - 1].u) == DomainIterator.Total(rs)
  {
    forall i | 0 <= i < |rs|
      ensures rs[0].l <= rs[i].l <= rs[i].u < rs[|rs| - 1].u + 1
    {
      assert i > 0 ==> rs[0].u + 1 < rs[i].l;
      assert i < |rs| - 1 ==> rs[i].u + 1 < rs[|rs| - 1].l;
    }
    CountBelowAll(rs, rs[|rs| - 1].u + 1);
    CountBelowNone(rs, rs[0].l);
  }

  /** `intersect(lower, upper)` keeps exactly the positions from
      `CountBelow(rs, lower)` to `CountBelow(rs, upper + 1)`: the domain size after
      it is the size of the store `domainChange` leaves. */
  lemma IntersectSize(rs: seq<Range>, lower: int, upper: int)
    requires Normal(rs) && rs != [] && lower <= upper
    ensures DomainIterator.Total(Intersect(rs, lower, upper).0) == Window(rs, lower, upper)
  {
    if rs[0].l == lower && rs[|rs| - 1].u == upper {
      WindowWhole(rs);
    } else {
      IntersectInside(rs, lower, upper);
    }
  }

  /** `IntersectSize` when the bounds are not those of the domain. */
  lemma IntersectInside(rs: seq<Range>, lower: int, upper: int)
    requires Normal(rs) && rs != [] && lower <= upper
    requires rs[0].l != lower || rs[|rs| - 1].u != upper
    ensures var it := LowerBound(rs, 0, lower);
      DomainIterator.Total(if it == |rs| then [] else CutUpper(ClipLower(rs[it..], lower), upper).0)
      == Window(rs, lower, upper)
  {
    var it := LowerBound(rs, 0, lower);
    LowerBoundFirst(rs, 0, lower);
    WindowSplit(rs, it, lower, upper);
    WindowBelow(rs, it, lower, upper);
    if it < |rs| {
      assert Normal(rs[it..]);
      ClipCutSize(rs[it..], lower, upper);
    } else {
      assert rs[it..] == [];
    }
  }

  /** The unit clauses `{~l}` for the literals among `v`, in order. */
  function FalseUnits(v: seq<Literal>): (cl: seq<seq<Literal>>)
    ensures |cl| <= |v|
  {
    if v == [] then []
    else FalseUnits(v[..|v| - 1]) + (if v[|v| - 1].flagged then [] else [[Negate(v[|v| - 1])]])
  }

  /** The unit clauses `{l}` for the literals among `v`, in order. */
  function TrueUnits(v: seq<Literal>): (cl: seq<seq<Literal>>)
    ensures |cl| <= |v|
  {
    if v == [] then []
    else TrueUnits(v[..|v| - 1]) + (if v[|v| - 1].flagged then [] else [[v[|v| - 1]]])
  }

  /** Every clause of `FalseUnits(v)` falsifies one literal of `v`, and every
      literal of `v` is falsified by one. */
  lemma {:induction false} FalseUnitsExact(v: seq<Literal>)
    ensures forall c :: c in FalseUnits(v) <==> exists i :: 0 <= i < |v| && !v[i].flagged && c == [Negate(v[i])]
  {
    if v != [] {
      FalseUnitsExact(v[..|v| - 1]);
      forall c | c in FalseUnits(v)
        ensures exists i :: 0 <= i < |v| && !v[i].flagged && c == [Negate(v[i])]
      {
        if c in FalseUnits(v[..|v| - 1]) {
          var i :| 0 <= i < |v| - 1 && !v[..|v| - 1][i].flagged && c == [Negate(v[..|v| - 1][i])];
          assert v[i] == v[..|v| - 1][i];
        } else {
          assert c == [Negate(v[|v| - 1])] && !v[|v| - 1].flagged;
        }
      }
      forall c | exists i :: 0 <= i < |v| && !v[i].flagged && c == [Negate(v[i])]
        ensures c in FalseUnits(v)
      {
        var i :| 0 <= i < |v| && !v[i].flagged && c == [Negate(v[i])];
        if i < |v| - 1 {
          assert v[..|v| - 1][i] == v[i];
          assert c in FalseUnits(v[..|v| - 1]);
        }
      }
    }
  }

  /** Every clause of `TrueUnits(v)` asserts one literal of `v`, and every literal
      of `v` is asserted by one. */
  lemma {:induction false} TrueUnitsExact(v: seq<Literal>)
    ensures forall c :: c in TrueUnits(v) <==> exists i :: 0 <= i < |v| && !v[i].flagged && c == [v[i]]
  {
    if v != [] {
      TrueUnitsExact(v[..|v| - 1]);
      forall c | c in TrueUnits(v)
        ensures exists i :: 0 <= i < |v| && !v[i].flagged && c == [v[i]]
      {
        if c in TrueUnits(v[..|v| - 1]) {
          var i :| 0 <= i < |v| - 1 && !v[..|v| - 1][i].flagged && c == [v[..|v| - 1][i]];
          assert v[i] == v[..|v| - 1][i];
        } else {
          assert c == [v[|v| - 1]] && !v[|v| - 1].flagged;
        }
      }
      forall c | exists i :: 0 <= i < |v| && !v[i].flagged && c == [v[i]]
        ensures c in TrueUnits(v)
      {
        var i :| 0 <= i < |v| && !v[i].flagged && c == [v[i]];
        if i < |v| - 1 {
          assert v[..|v| - 1][i] == v[i];
          assert c in TrueUnits(v[..|v| - 1]);
        }
      }
    }
  }

  /** The store of a variable that has order literals is a vector of one slot per
      value of its domain (the map branch of `domainChange` is not modelled). */
  predicate Aligned(s: Store, rs: seq<Range>) {
    IsPrepared(s) ==>
      HasVector(s) && !HasMap(s) && |s.vec| == s.maxSize
      && s.maxSize == DomainIterator.Total(rs) && Normal(rs) && rs != []
  }

  /** `domainChange(var, newLower, newUpper)` on the store `s` of a variable with
      domain `rs`, before the domain is narrowed to `[newLower, newUpper]`: the
      result, the new store and the clauses posted. */
  function ChangeBounds(s: Store, rs: seq<Range>, newLower: int, newUpper: int, falseLit: Literal)
    : (seq<seq<Literal>>, Store, bool)
    requires Aligned(s, rs)
  {
    if newUpper < newLower then ([[falseLit]], s, false)
    else if !IsPrepared(s) then ([], s, true)
    else if Lower(rs) == newLower && Upper(rs) == newUpper then ([], s, true)
    else
      CountBelowBounds(rs, newLower, newUpper + 1);
      var start := CountBelow(rs, newLower);
      var end := CountBelow(rs, newUpper + 1);
      (FalseUnits(s.vec[..start]) + TrueUnits(s.vec[end..]),
       s.(vec := s.vec[start..end], maxSize := end - start), true)
  }

  /** The clauses for a window `[start, end)` of a vector: a unit clause falsifying
      each literal before the window and one asserting each literal after it. */
  lemma UnitsAround(v: seq<Literal>, start: nat, end: nat)
    requires start <= end <= |v|
    ensures forall c :: c in FalseUnits(v[..start]) + TrueUnits(v[end..]) <==>
      (exists i :: 0 <= i < start && !v[i].flagged && c == [Negate(v[i])])
      || (exists i :: end <= i < |v| && !v[i].flagged && c == [v[i]])
  {
    var pre, suf := v[..start], v[end..];
    var cl := FalseUnits(pre) + TrueUnits(suf);
    FalseUnitsExact(pre);
    TrueUnitsExact(suf);
    forall c | c in cl
      ensures (exists i :: 0 <= i < start && !v[i].flagged && c == [Negate(v[i])])
        || (exists i :: end <= i < |v| && !v[i].flagged && c == [v[i]])
    {
      if c in FalseUnits(pre) {
        var i :| 0 <= i < |pre| && !pre[i].flagged && c == [Negate(pre[i])];
        assert pre[i] == v[i];
      } else {
        var i :| 0 <= i < |suf| && !suf[i].flagged && c == [suf[i]];
        assert suf[i] == v[end + i];
      }
    }
    forall i | 0 <= i < start && !v[i].flagged
      ensures [Negate(v[i])] in cl
    {
      assert pre[i] == v[i];
    }
    forall i | end <= i < |v| && !v[i].flagged
      ensures [v[i]] in cl
    {
      assert suf[i - end] == v[i];
    }
  }

  /** When the bounds narrow a domain with order literals, the literals of the
      values below `newLower` are made false and those above `newUpper` true, and
      the store keeps, from position 0, exactly the literals of the values in
      between. */
  lemma ChangeBoundsFacts(s: Store, rs: seq<Range>, newLower: int, newUpper: int, falseLit: Literal)
    requires Aligned(s, rs) && Ready(s) && IsPrepared(s) && newLower <= newUpper
    requires Lower(rs) != newLower || Upper(rs) != newUpper
    ensures 0 <= CountBelow(rs, newLower) <= CountBelow(rs, newUpper + 1) <= |s.vec|
    ensures ChangeBounds(s, rs, newLower, newUpper, falseLit).2
    ensures ChangeBounds(s, rs, newLower, newUpper, falseLit).1.maxSize
      == CountBelow(rs, newUpper + 1) - CountBelow(rs, newLower)
    ensures HasVector(ChangeBounds(s, rs, newLower, newUpper, falseLit).1)
    ensures forall i :: 0 <= i < CountBelow(rs, newUpper + 1) - CountBelow(rs, newLower) ==>
      Entry(ChangeBounds(s, rs, newLower, newUpper, falseLit).1, i) == Entry(s, CountBelow(rs, newLower) + i)
    ensures forall c :: c in ChangeBounds(s, rs, newLower, newUpper, falseLit).0 <==>
      (exists i :: 0 <= i < CountBelow(rs, newLower) && !s.vec[i].flagged && c == [Negate(s.vec[i])])
      || (exists i :: CountBelow(rs, newUpper + 1) <= i < |s.vec| && !s.vec[i].flagged && c == [s.vec[i]])
  {
    CountBelowBounds(rs, newLower, newUpper + 1);
    UnitsAround(s.vec, CountBelow(rs, newLower), CountBelow(rs, newUpper + 1));
  }

  /** `ChangeBounds` as `domainChange` computes it: the two loops over the vector,
      then the window moved to the front and the vector cut to its size. */
  lemma ChangeBoundsSteps(s: Store, rs: seq<Range>, newLower: int, newUpper: int, falseLit: Literal)
    requires Aligned(s, rs) && IsPrepared(s) && newLower <= newUpper
    requires Lower(rs) != newLower || Upper(rs) != newUpper
    ensures 0 <= CountBelow(rs, newLower) <= CountBelow(rs, newUpper + 1) <= |s.vec|
    ensures var start := CountBelow(rs, newLower);
      var end := CountBelow(rs, newUpper + 1);
      ChangeBounds(s, rs, newLower, newUpper, falseLit)
      == (FalseUnits(s.vec[0..start]) + TrueUnits(s.vec[end..s.maxSize]),
          SetSize(s.(vec := s.vec[start..end] + s.vec[end - start..]), end - start), true)
  {
    CountBelowBounds(rs, newLower, newUpper + 1);
    var start := CountBelow(rs, newLower);
    var end := CountBelow(rs, newUpper + 1);
    assert s.vec[end..s.maxSize] == s.vec[end..];
    assert s.vec[0..start] == s.vec[..start];
    var moved := s.vec[start..end] + s.vec[end - start..];
    assert Resize(moved, end - start, Sentinel) == s.vec[start..end];
  }

  /** The loop of `domainChange` that makes the literals at positions `from` to
      `to` false, skipping the positions without a literal. */
  method FalseUnitsOf(v: seq<Literal>, from: nat, to: nat) returns (cl: seq<seq<Literal>>)
    requires from <= to <= |v|
    ensures cl == FalseUnits(v[from..to])
  {
    cl := [];
    var i := from;
    while i < to
      invariant from <= i <= to && cl == FalseUnits(v[from..i])
    {
      assert v[from..i + 1][..i - from] == v[from..i];
      if !v[i].flagged {
        cl := cl + [[Negate(v[i])]];
      }
      i := i + 1;
    }
  }

  /** The loop of `domainChange` that makes the literals at positions `from` to
      `to` true, skipping the positions without a literal. */
  method TrueUnitsOf(v: seq<Literal>, from: nat, to: nat) returns (cl: seq<seq<Literal>>)
    requires from <= to <= |v|
    ensures cl == TrueUnits(v[from..to])
  {
    cl := [];
    var i := from;
    while i < to
      invariant from <= i <= to && cl == TrueUnits(v[from..i])
    {
      assert v[from..i + 1][..i - from] == v[from..i];
      if !v[i].flagged {
        cl := cl + [[v[i]]];
      }
      i := i + 1;
    }
  }

  /** The body of `domainChange(var, newLower, newUpper)` on the store `s` of the
      variable and its domain `rs`: the clauses it posts, the new store and the
      result. */
  method DomainChangeBounds(s: Store, rs: seq<Range>, newLower: int, newUpper: int, falseLit: Literal)
    returns (cl: seq<seq<Literal>>, s': Store, ok: bool)
    requires Aligned(s, rs)
    ensures (cl, s', ok) == ChangeBounds(s, rs, newLower, newUpper, falseLit)
  {
    if newUpper < newLower {
      return [[falseLit]], s, false;
    }
    if !IsPrepared(s) || (Lower(rs) == newLower && Upper(rs) == newUpper) {
      return [], s, true;
    }
    ChangeBoundsSteps(s, rs, newLower, newUpper, falseLit);
    var start := CountBelow(rs, newLower);
    var end := CountBelow(rs, newUpper + 1);
    var falsified := FalseUnitsOf(s.vec, 0, start);
    var asserted := TrueUnitsOf(s.vec, end, s.maxSize);
    var moved := s.vec[start..end] + s.vec[end - start..];
    return falsified + asserted, SetSize(s.(vec := moved), end - start), true;
  }

  /** Every range of a normal list holds a value. */
  lemma SizeCountsRanges(rs: seq<Range>)
    requires Normal(rs)
    ensures DomainIterator.Total(rs) >= |rs|
  {
    DomainIterator.PrefixGrows(rs, 0, |rs|);
  }

  /** `Domain::size()`: positive for a non-empty domain. */
  function SizeOf(rs: seq<Range>): (n: nat)
    requires Normal(rs)
    ensures n >= |rs|
  {
    SizeCountsRanges(rs);
    DomainIterator.Total(rs)
  }

  /** The value at position `k` of the domain: what an iterator `k` steps from
      `begin()` stands on. */
  function ValueAt(rs: seq<Range>, k: nat): int
    requires k < DomainIterator.Total(rs)
  {
    TotalSplit(rs);
    var init := rs[..|rs| - 1];
    if k < DomainIterator.Total(init) then ValueAt(init, k)
    else rs[|rs| - 1].l + (k - DomainIterator.Total(init))
  }

  /** `domainChange(var, newLower, newUpper)` keeps a store well formed, and leaves
      a narrowed store with one slot per value kept. */
  lemma ChangeBoundsReady(s: Store, rs: seq<Range>, newLower: int, newUpper: int, falseLit: Literal)
    requires Aligned(s, rs) && Ready(s) && Bits(s) && newLower <= newUpper
    ensures Ready(ChangeBounds(s, rs, newLower, newUpper, falseLit).1)
    ensures Bits(ChangeBounds(s, rs, newLower, newUpper, falseLit).1)
    ensures ChangeBounds(s, rs, newLower, newUpper, falseLit).2
    ensures !IsPrepared(s) ==> ChangeBounds(s, rs, newLower, newUpper, falseLit).1 == s
    ensures IsPrepared(s) && (Lower(rs) != newLower || Upper(rs) != newUpper) ==>
      ChangeBounds(s, rs, newLower, newUpper, falseLit).1.maxSize == Window(rs, newLower, newUpper)
  {
    if IsPrepared(s) && (Lower(rs) != newLower || Upper(rs) != newUpper) {
      ChangeBoundsFacts(s, rs, newLower, newUpper, falseLit);
    }
  }

  /** The store `getLELiteral` leaves is well formed and keeps its size. */
  lemma LELiteralReady(s: Store, size: nat, k: nat, minLitsPerVar: int, trueLit: Literal, newLit: Literal)
    requires size > 0 && k <= size && minLitsPerVar >= -1 && Ready(s) && Bits(s)
    requires !trueLit.flagged && !newLit.flagged && (IsPrepared(s) ==> s.maxSize == size)
    ensures Ready(LELiteral(s, size, k, minLitsPerVar, trueLit, newLit).0)
    ensures Bits(LELiteral(s, size, k, minLitsPerVar, trueLit, newLit).0)
    ensures IsPrepared(LELiteral(s, size, k, minLitsPerVar, trueLit, newLit).0) ==>
      LELiteral(s, size, k, minLitsPerVar, trueLit, newLit).0.maxSize == size
  {
    if k < size {
      PreparedShape(s, size, minLitsPerVar, trueLit);
      var p := Prepare(s, size, minLitsPerVar, trueLit);
      if HasNoLiteral(p, k) {
        SetLiteralReady(p, k, newLit);
      }
    }
  }

  /** The store `getGELiteral` leaves is well formed and keeps its size. */
  lemma GELiteralReady(s: Store, size: nat, k: nat, minLitsPerVar: int,
                       trueLit: Literal, falseLit: Literal, newLit: Literal)
    requires size > 0 && k <= size && minLitsPerVar >= -1 && Ready(s) && Bits(s)
    requires !trueLit.flagged && !newLit.flagged && (IsPrepared(s) ==> s.maxSize == size)
    ensures Ready(GELiteral(s, size, k, minLitsPerVar, trueLit, falseLit, newLit).0)
    ensures Bits(GELiteral(s, size, k, minLitsPerVar, trueLit, falseLit, newLit).0)
    ensures IsPrepared(GELiteral(s, size, k, minLitsPerVar, trueLit, falseLit, newLit).0) ==>
      GELiteral(s, size, k, minLitsPerVar, trueLit, falseLit, newLit).0.maxSize == size
  {
    if 0 < k < size {
      GEIsNotLE(s, size, k, minLitsPerVar, trueLit, falseLit, newLit);
      LELiteralReady(s, size, k - 1, minLitsPerVar, trueLit, newLit);
    }
  }

  /** The literal a prepared store holds at a position, read as `getLiteral` does
      from the vector; a position missing from a map-only store reads as the
      sentinel. */
  function Stored(s: Store, k: nat): Literal
    requires HasVector(s) ==> k < |s.vec|
  {
    if HasVector(s) then s.vec[k] else if k in s.m then s.m[k] else Sentinel
  }

  /** The step `setLELit` (`ge` false) and `setGELit` (`ge` true) take on a
      prepared store: an empty slot `k` receives `l` (`~l` for `ge`, since slot
      `k` holds `v <= x` and `setGELit` sets `v >= x'` for the value after it),
      and a literal already there is equated with `l` (its negation for `ge`). */
  function StoreAt(p: Store, k: nat, l: Literal, ge: bool): (Store, seq<(Literal, Literal)>)
    requires HasVector(p) ==> k < |p.vec|
  {
    if HasNoLiteral(p, k) then (SetLiteral(p, k, if ge then Negate(l) else l), [])
    else (p, [(l, if ge then Negate(GetLiteral(p, k)) else GetLiteral(p, k))])
  }

  /** `prepareOrderLitMemory` followed by the store step. */
  function PrepareStore(s: Store, size: nat, minLitsPerVar: int, trueLit: Literal, k: nat, l: Literal, ge: bool)
    : (Store, seq<(Literal, Literal)>)
    requires size > 0 && k < size && minLitsPerVar >= -1 && Ready(s) && Bits(s) && !trueLit.flagged
    requires IsPrepared(s) ==> s.maxSize == size
  {
    PreparedShape(s, size, minLitsPerVar, trueLit);
    StoreAt(Prepare(s, size, minLitsPerVar, trueLit), k, l, ge)
  }

  /** The store step keeps a store well formed, and afterwards slot `k` holds `l`
      (`~l`) or the literal `l` was equated with (the negation of). */
  lemma StoreAtFacts(p: Store, k: nat, l: Literal, ge: bool)
    requires Ready(p) && Bits(p) && IsPrepared(p) && k < p.maxSize && !l.flagged
    ensures Ready(StoreAt(p, k, l, ge).0) && Bits(StoreAt(p, k, l, ge).0) && IsPrepared(StoreAt(p, k, l, ge).0)
    ensures StoreAt(p, k, l, ge).0.maxSize == p.maxSize
    ensures HasVector(p) == HasVector(StoreAt(p, k, l, ge).0) || HasMap(p)
    ensures !HasMap(p) ==> !HasMap(StoreAt(p, k, l, ge).0)
    ensures HasNoLiteral(p, k) ==> Entry(StoreAt(p, k, l, ge).0, k) == Some(if ge then Negate(l) else l)
    ensures !HasNoLiteral(p, k) ==>
      StoreAt(p, k, l, ge).1 == [(l, if ge then Negate(Entry(p, k).value) else Entry(p, k).value)]
  {
    BitFacts();
    var l' := if ge then Negate(l) else l;
    if HasNoLiteral(p, k) {
      SetLiteralReady(p, k, l');
      SetThenGet(p, k, l');
    }
  }

  /** After preparing and storing, the store is prepared and well formed with one
      slot per value, and a store without a map keeps to its vector when no maps
      are wanted. */
  lemma PrepareStoreFacts(s: Store, size: nat, minLitsPerVar: int, trueLit: Literal, k: nat, l: Literal, ge: bool)
    requires size > 0 && k < size && minLitsPerVar >= -1 && Ready(s) && Bits(s) && !trueLit.flagged && !l.flagged
    requires IsPrepared(s) ==> s.maxSize == size
    ensures var r := PrepareStore(s, size, minLitsPerVar, trueLit, k, l, ge).0;
      Ready(r) && Bits(r) && IsPrepared(r) && r.maxSize == size
      && (minLitsPerVar == -1 && !HasMap(s) ==> HasVector(r) && !HasMap(r))
  {
    PrepareFacts(s, size, minLitsPerVar, trueLit);
    PreparedShape(s, size, minLitsPerVar, trueLit);
    StoreAtFacts(Prepare(s, size, minLitsPerVar, trueLit), k, l, ge);
  }

  /** `hasEqualLit(it)` for the iterator `k` steps into the domain of `v`: the end
      iterator and a stored `equalLits_` entry answer at once, and at the first
      (last) value the order literal `v <= x` (`v >= x`) is `v = x` when it
      exists. The const `getLELiteral` reads the stored slot of a prepared
      store, which `Stored` models. */
  function EqualLit(rs: seq<Range>, s: Store, equalLits: map<(nat, int), Literal>, v: nat, k: nat,
                    trueLit: Literal, falseLit: Literal): (bool, Literal)
    requires Normal(rs) && Ready(s) && k <= SizeOf(rs)
    requires IsPrepared(s) ==> s.maxSize == SizeOf(rs)
  {
    var size := SizeOf(rs);
    if k == size then (true, falseLit)
    else if (v, ValueAt(rs, k)) in equalLits then (true, equalLits[(v, ValueAt(rs, k))])
    else if k == 0 && (size - 1 == 0 || (IsPrepared(s) && !HasNoLiteral(s, 0))) then
      (true, if IsPrepared(s) then Stored(s, 0) else trueLit)
    else if k == size - 1 && (IsPrepared(s) && !HasNoLiteral(s, k - 1)) then
      (true, Negate(GetLiteral(s, k - 1)))
    else (false, trueLit)
  }

  /** Storing into a slot that is empty once the store is prepared fills it and
      equates nothing. */
  lemma StoreEmptySlot(s: Store, size: nat, minLitsPerVar: int, trueLit: Literal, j: nat, l: Literal, ge: bool)
    requires size > 0 && j < size - 1 && minLitsPerVar >= -1 && Ready(s) && Bits(s) && !trueLit.flagged && !l.flagged
    requires IsPrepared(s) ==> s.maxSize == size && HasNoLiteral(s, j)
    ensures var r := PrepareStore(s, size, minLitsPerVar, trueLit, j, l, ge).0;
      Ready(r) && IsPrepared(r) && r.maxSize == size
    ensures var r := PrepareStore(s, size, minLitsPerVar, trueLit, j, l, ge);
      r.1 == [] && Entry(r.0, j) == Some(if ge then Negate(l) else l)
  {
    PreparedShape(s, size, minLitsPerVar, trueLit);
    PrepareFacts(s, size, minLitsPerVar, trueLit);
    if !IsPrepared(s) {
      PrepareLeavesEmpty(s, size, minLitsPerVar, trueLit, j);
    }
    StoreAtFacts(Prepare(s, size, minLitsPerVar, trueLit), j, l, ge);
  }

  /** Storing `l` as the first order literal, where no literal for `v = x` exists
      yet, makes `l` that literal: the slot was empty, so nothing is equated. */
  lemma EqualLitAfterLE(rs: seq<Range>, s: Store, equalLits: map<(nat, int), Literal>, v: nat,
                        minLitsPerVar: int, trueLit: Literal, falseLit: Literal, l: Literal)
    requires Normal(rs) && Ready(s) && Bits(s) && 0 < SizeOf(rs) && minLitsPerVar >= -1
    requires !trueLit.flagged && !l.flagged && (IsPrepared(s) ==> s.maxSize == SizeOf(rs))
    requires !EqualLit(rs, s, equalLits, v, 0, trueLit, falseLit).0
    ensures var r := PrepareStore(s, SizeOf(rs), minLitsPerVar, trueLit, 0, l, false).0;
      Ready(r) && r.maxSize == SizeOf(rs)
    ensures var r := PrepareStore(s, SizeOf(rs), minLitsPerVar, trueLit, 0, l, false);
      r.1 == [] && EqualLit(rs, r.0, equalLits, v, 0, trueLit, falseLit) == (true, l)
  {
    StoreEmptySlot(s, SizeOf(rs), minLitsPerVar, trueLit, 0, l, false);
  }

  /** Storing `l` as the last order literal `v >= x`, where no literal for
      `v = x` exists yet, makes `l` that literal. */
  lemma EqualLitAfterGE(rs: seq<Range>, s: Store, equalLits: map<(nat, int), Literal>, v: nat, k: nat,
                        minLitsPerVar: int, trueLit: Literal, falseLit: Literal, l: Literal)
    requires Normal(rs) && Ready(s) && Bits(s) && 0 < k == SizeOf(rs) - 1 && minLitsPerVar >= -1
    requires !trueLit.flagged && !l.flagged && (IsPrepared(s) ==> s.maxSize == SizeOf(rs))
    requires !EqualLit(rs, s, equalLits, v, k, trueLit, falseLit).0
    ensures var r := PrepareStore(s, SizeOf(rs), minLitsPerVar, trueLit, k - 1, l, true).0;
      Ready(r) && r.maxSize == SizeOf(rs)
    ensures var r := PrepareStore(s, SizeOf(rs), minLitsPerVar, trueLit, k - 1, l, true);
      r.1 == [] && EqualLit(rs, r.0, equalLits, v, k, trueLit, falseLit) == (true, l)
  {
    StoreEmptySlot(s, SizeOf(rs), minLitsPerVar, trueLit, k - 1, l, true);
    var r := PrepareStore(s, SizeOf(rs), minLitsPerVar, trueLit, k - 1, l, true).0;
    assert (v, ValueAt(rs, k)) !in equalLits;
    assert !HasNoLiteral(r, k - 1) && Negate(GetLiteral(r, k - 1)) == l;
  }

  /** One well formed store per variable, normal domains, and a prepared store
      only for a valid variable, with one slot per value of its domain. */
  predicate Consistent(domains: seq<Option<seq<Range>>>, mems: seq<Store>) {
    |mems| == |domains|
    && (forall i :: 0 <= i < |mems| ==> Ready(mems[i]) && Bits(mems[i]))
    && (forall i :: 0 <= i < |domains| && domains[i].Some? ==> Normal(domains[i].value))
    && (forall i :: 0 <= i < |mems| && IsPrepared(mems[i]) ==>
          domains[i].Some? && mems[i].maxSize == DomainIterator.Total(domains[i].value))
  }

  /** Replacing one variable's domain and store by a matching pair keeps the tables
      consistent. */
  lemma ConsistentUpdate(domains: seq<Option<seq<Range>>>, mems: seq<Store>, v: nat,
                         d: seq<Range>, s: Store)
    requires Consistent(domains, mems) && v < |domains| && Normal(d) && Ready(s) && Bits(s)
    requires IsPrepared(s) ==> s.maxSize == DomainIterator.Total(d)
    ensures Consistent(domains[v := Some(d)], mems[v := s])
  {
  }

  /** `VariableCreator`: `domains_` (a removed variable's entry is `None`),
      `orderLitMemory_` as the value of each store, the clauses posted, the literal
      equalities the solver was asked for (`setEqual`) and `equalLits_`. */
  class VariableCreator {
    var domains: seq<Option<seq<Range>>>
    var mems: seq<Store>
    var clauses: seq<seq<Literal>>
    var equalities: seq<(Literal, Literal)>
    var equalLits: map<(nat, int), Literal>
    const trueLit: Literal
    const falseLit: Literal
    const minLitsPerVar: int

    /** What every method keeps: the tables are `Consistent`, `trueLit` is a
        literal and `minLitsPerVar` a count or -1. */
    predicate Valid()
      reads this
    {
      Consistent(domains, mems) && !trueLit.flagged && minLitsPerVar >= -1
    }

    constructor (trueLit: Literal, falseLit: Literal, minLitsPerVar: int)
      requires !trueLit.flagged && minLitsPerVar >= -1
      ensures Valid()
      ensures domains == [] && mems == [] && clauses == [] && equalities == [] && equalLits == map[]
      ensures this.trueLit == trueLit && this.falseLit == falseLit && this.minLitsPerVar == minLitsPerVar
    {
      domains, mems, clauses, equalities, equalLits := [], [], [], [], map[];
      this.trueLit, this.falseLit, this.minLitsPerVar := trueLit, falseLit, minLitsPerVar;
    }

    /** `isValid(v)`: `v` was created and not removed. */
    predicate IsValid(v: nat)
      reads this
    {
      v < |domains| && domains[v].Some?
    }

    /** `hasOrderLitMemory(v)`. */
    predicate HasOrderLitMemory(v: nat)
      reads this
    {
      IsValid(v) && v < |mems| && IsPrepared(mems[v])
    }

    /** `getDomainSize(View(v))`. */
    function DomainSize(v: nat): nat
      reads this
      requires Valid() && IsValid(v)
    {
      SizeOf(domains[v].value)
    }

    /** `createVariable(d)`: the new variable is the previous count, and its store
        is the empty one `orderLitMemory_` is resized with. */
    method CreateVariable(d: seq<Range>) returns (v: nat)
      requires Valid() && Normal(d)
      modifies this
      ensures Valid() && v == |old(domains)| && IsValid(v) && !HasOrderLitMemory(v)
      ensures domains == old(domains) + [Some(d)] && mems == old(mems) + [Store(0, [], map[], 0)]
      ensures clauses == old(clauses) && equalities == old(equalities) && equalLits == old(equalLits)
    {
      BitFacts();
      domains := domains + [Some(d)];
      mems := mems + [Store(0, [], map[], 0)];
      v := |domains| - 1;
    }

    /** `removeVar(v)`, allowed only before the variable has order literals. */
    method RemoveVar(v: nat)
      requires Valid() && IsValid(v) && !HasOrderLitMemory(v)
      modifies this
      ensures Valid() && domains == old(domains)[v := None] && !IsValid(v)
      ensures mems == old(mems) && clauses == old(clauses)
      ensures equalities == old(equalities) && equalLits == old(equalLits)
    {
      domains := domains[v := None];
    }

    /** `domainChange(var, d)` for a variable without order literals: an empty
        domain posts the empty clause and fails. */
    method DomainChange(v: nat, d: seq<Range>) returns (ok: bool)
      requires !HasOrderLitMemory(v)
      modifies this
      ensures ok <==> d != []
      ensures clauses == old(clauses) + (if ok then [] else [[falseLit]])
      ensures domains == old(domains) && mems == old(mems)
      ensures equalities == old(equalities) && equalLits == old(equalLits)
    {
      if d == [] {
        clauses := clauses + [[falseLit]];
        return false;
      }
      return true;
    }

    /** `constrainDomain(v, times, c, div)` on a copy of the domain, which replaces
        the domain only when some value is kept. */
    method ConstrainDomain(v: nat, times: int, c: int, div: int) returns (ok: bool)
      requires Valid() && IsValid(v) && div != 0 && !HasOrderLitMemory(v)
      modifies this
      ensures Valid()
      ensures !ok ==> domains == old(domains)
      ensures !ok ==> forall y :: Mem(old(domains)[v].value, y) ==> !Kept(times, c, div, y)
      ensures ok ==> |domains| == |old(domains)| && domains == old(domains)[v := domains[v]]
      ensures ok ==> domains[v].Some? && forall y :: Mem(domains[v].value, y) <==>
        Mem(old(domains)[v].value, y) && Kept(times, c, div, y)
      ensures mems == old(mems) && clauses == old(clauses)
      ensures equalities == old(equalities) && equalLits == old(equalLits)
    {
      var copy := new Domain.Of(domains[v].value);
      ok := copy.ConstrainDomain(times, c, div);
      if !ok {
        return false;
      }
      var changed := DomainChange(v, copy.ranges);
      domains := domains[v := Some(copy.ranges)];
    }

    /** `removeFromView(view, x)`: when the view takes the value `x` at all, that
        value of the variable is removed from a copy of the domain, which replaces
        the domain unless it became empty. */
    method RemoveFromView(view: View, x: int) returns (ok: bool)
      requires Valid() && IsValid(view.v) && view.a != 0 && !HasOrderLitMemory(view.v)
      modifies this
      ensures Valid()
      ensures ViewValue(view, x).None? ==> ok && domains == old(domains)
      ensures ViewValue(view, x).Some? && ok ==>
        domains == old(domains)[view.v := Some(RemoveValue(old(domains)[view.v].value, ViewValue(view, x).value))]
      ensures ViewValue(view, x).Some? && !ok ==>
        domains == old(domains) && RemoveValue(old(domains)[view.v].value, ViewValue(view, x).value) == []
      ensures mems == old(mems) && clauses == old(clauses)
      ensures equalities == old(equalities) && equalLits == old(equalLits)
    {
      var y := ViewValue(view, x);
      if y.None? {
        return true;
      }
      var copy := new Domain.Of(domains[view.v].value);
      ok := copy.RemoveValue(y.value);
      if !ok {
        return false;
      }
      RemoveValueFacts(domains[view.v].value, y.value);
      ok := DomainChange(view.v, copy.ranges);
      domains := domains[view.v := Some(copy.ranges)];
    }

    /** `domainChange(var, newLower, newUpper)`. */
    method ChangeBoundsOf(v: nat, newLower: int, newUpper: int) returns (ok: bool)
      requires IsValid(v) && |mems| == |domains| && Aligned(mems[v], domains[v].value)
      modifies this
      ensures |mems| == |old(mems)| && domains == old(domains)
      ensures clauses == old(clauses) + ChangeBounds(old(mems)[v], old(domains)[v].value, newLower, newUpper, falseLit).0
      ensures mems == old(mems)[v := ChangeBounds(old(mems)[v], old(domains)[v].value, newLower, newUpper, falseLit).1]
      ensures ok == ChangeBounds(old(mems)[v], old(domains)[v].value, newLower, newUpper, falseLit).2
      ensures equalities == old(equalities) && equalLits == old(equalLits)
    {
      var cl, s';
      cl, s', ok := DomainChangeBounds(mems[v], domains[v].value, newLower, newUpper, falseLit);
      clauses := clauses + cl;
      mems := mems[v := s'];
    }

    /** `constrainView(view, lower, upper)`: the bounds, divided back onto the
        variable by `divide` (`View::divide`), narrow its domain after
        `domainChange` has moved its order literals. */
    method ConstrainView(view: View, lower: int, upper: int, divide: int -> int) returns (ok: bool)
      requires Valid() && IsValid(view.v) && domains[view.v].value != []
      requires HasOrderLitMemory(view.v) ==> HasVector(mems[view.v]) && !HasMap(mems[view.v])
      modifies this
      ensures Valid() && |domains| == |old(domains)| && IsValid(view.v)
      ensures lower > upper ==> !ok && domains == old(domains) && mems == old(mems) && clauses == old(clauses)
      ensures lower <= upper ==>
        var nl := divide(if IsReversed(view) then upper else lower);
        var nu := divide(if IsReversed(view) then lower else upper);
        var rs := old(domains)[view.v].value;
        var cb := ChangeBounds(old(mems)[view.v], rs, nl, nu, falseLit);
        if Lower(rs) == nl && Upper(rs) == nu then
          ok && domains == old(domains) && mems == old(mems) && clauses == old(clauses)
        else
          clauses == old(clauses) + cb.0 && mems == old(mems)[view.v := cb.1]
          && (nu < nl ==> !ok && domains == old(domains))
          && (nl <= nu ==> (domains, ok) == (old(domains)[view.v := Some(Intersect(rs, nl, nu).0)], Intersect(rs, nl, nu).1))
      ensures lower <= upper && ok ==>
        var nl := divide(if IsReversed(view) then upper else lower);
        var nu := divide(if IsReversed(view) then lower else upper);
        forall y :: Mem(domains[view.v].value, y) <==> Mem(old(domains)[view.v].value, y) && nl <= y <= nu
      ensures equalities == old(equalities) && equalLits == old(equalLits)
    {
      if lower > upper {
        return false;
      }
      var v := view.v;
      var nl := divide(if IsReversed(view) then upper else lower);
      var nu := divide(if IsReversed(view) then lower else upper);
      var rs := domains[v].value;
      if Lower(rs) == nl && Upper(rs) == nu {
        NormalBounds(rs);
        return true;
      }
      ok := ChangeBoundsOf(v, nl, nu);
      if !ok {
        return false;
      }
      ChangeBoundsReady(old(mems)[v], rs, nl, nu, falseLit);
      IntersectFacts(rs, nl, nu);
      IntersectSize(rs, nl, nu);
      var rs', b := Intersect(rs, nl, nu).0, Intersect(rs, nl, nu).1;
      ConsistentUpdate(old(domains), old(mems), v, rs', mems[v]);
      domains := domains[v := Some(rs')];
      ok := b;
    }

    /** `constrainUpperBound(view, u)`: `constrainView` from the view's value at the
        bound of the domain that maps to its lowest value (`multiply` is
        `View::multiply`). */
    method ConstrainUpperBound(view: View, u: int, multiply: int -> int, divide: int -> int) returns (ok: bool)
      requires Valid() && IsValid(view.v) && domains[view.v].value != []
      requires HasOrderLitMemory(view.v) ==> HasVector(mems[view.v]) && !HasMap(mems[view.v])
      modifies this
      ensures Valid() && |domains| == |old(domains)| && IsValid(view.v)
      ensures var rs := old(domains)[view.v].value;
        var m := multiply(if IsReversed(view) then Upper(rs) else Lower(rs));
        (m > u ==> !ok && domains == old(domains) && mems == old(mems) && clauses == old(clauses))
        && (ok ==> forall y :: Mem(domains[view.v].value, y) <==>
              Mem(rs, y) && divide(if IsReversed(view) then u else m) <= y <= divide(if IsReversed(view) then m else u))
      ensures equalities == old(equalities) && equalLits == old(equalLits)
    {
      var rs := domains[view.v].value;
      ok := ConstrainView(view, multiply(if IsReversed(view) then Upper(rs) else Lower(rs)), u, divide);
    }

    /** `constrainLowerBound(view, l)`: `constrainView` up to the view's value at
        the bound of the domain that maps to its highest value. */
    method ConstrainLowerBound(view: View, l: int, multiply: int -> int, divide: int -> int) returns (ok: bool)
      requires Valid() && IsValid(view.v) && domains[view.v].value != []
      requires HasOrderLitMemory(view.v) ==> HasVector(mems[view.v]) && !HasMap(mems[view.v])
      modifies this
      ensures Valid() && |domains| == |old(domains)| && IsValid(view.v)
      ensures var rs := old(domains)[view.v].value;
        var m := multiply(if IsReversed(view) then Lower(rs) else Upper(rs));
        (l > m ==> !ok && domains == old(domains) && mems == old(mems) && clauses == old(clauses))
        && (ok ==> forall y :: Mem(domains[view.v].value, y) <==>
              Mem(rs, y) && divide(if IsReversed(view) then m else l) <= y <= divide(if IsReversed(view) then l else m))
      ensures equalities == old(equalities) && equalLits == old(equalLits)
    {
      var rs := domains[view.v].value;
      ok := ConstrainView(view, l, multiply(if IsReversed(view) then Lower(rs) else Upper(rs)), divide);
    }

    /** `prepareOrderLitMemory(var)`: the store gets one slot per value of the
        domain, with `trueLit` at the last. */
    method PrepareOrderLitMemory(v: nat)
      requires Valid() && IsValid(v) && domains[v].value != []
      modifies this
      ensures Valid() && HasOrderLitMemory(v) && domains == old(domains)
      ensures mems == old(mems)[v := Prepare(old(mems)[v], SizeOf(old(domains)[v].value), minLitsPerVar, trueLit)]
      ensures domains == old(domains) && clauses == old(clauses)
      ensures equalities == old(equalities) && equalLits == old(equalLits)
    {
      SizeCountsRanges(domains[v].value);
      var size := DomainSize(v);
      PreparedShape(mems[v], size, minLitsPerVar, trueLit);
      mems := mems[v := Prepare(mems[v], size, minLitsPerVar, trueLit)];
    }

    /** `getLELiteral(it)` for the iterator `k` steps into the domain of `v`, with
        `newLit` the literal `getNewLiteral` hands out. On a `reversed` view the
        iterator stands for the same position on the variable's own iterator,
        and the question goes to `getGELiteral` there. */
    method GetLELiteral(v: nat, k: nat, reversed: bool, newLit: Literal) returns (l: Literal)
      requires Valid() && IsValid(v) && domains[v].value != [] && k <= DomainSize(v) && !newLit.flagged
      modifies this
      decreases if reversed then 1 else 0
      ensures Valid() && domains == old(domains) && |mems| == |old(mems)|
      ensures !reversed ==> (mems[v], l) == LELiteral(old(mems)[v], SizeOf(old(domains)[v].value), k, minLitsPerVar, trueLit, newLit)
      ensures reversed ==> (mems[v], l) == GELiteral(old(mems)[v], SizeOf(old(domains)[v].value), k, minLitsPerVar, trueLit, falseLit, newLit)
      ensures mems == old(mems)[v := mems[v]]
      ensures domains == old(domains) && clauses == old(clauses)
      ensures equalities == old(equalities) && equalLits == old(equalLits)
    {
      if reversed {
        l := GetGELiteral(v, k, false, newLit);
        return;
      }
      SizeCountsRanges(domains[v].value);
      var size := DomainSize(v);
      LELiteralReady(mems[v], size, k, minLitsPerVar, trueLit, newLit);
      var r := LELiteral(mems[v], size, k, minLitsPerVar, trueLit, newLit);
      mems := mems[v := r.0];
      l := r.1;
    }

    /** `getGELiteral(it)`, as `GetLELiteral`; a `reversed` view goes to
        `getLELiteral` on the variable's own iterator. */
    method GetGELiteral(v: nat, k: nat, reversed: bool, newLit: Literal) returns (l: Literal)
      requires Valid() && IsValid(v) && domains[v].value != [] && k <= DomainSize(v) && !newLit.flagged
      modifies this
      decreases if reversed then 1 else 0
      ensures Valid() && domains == old(domains) && |mems| == |old(mems)|
      ensures !reversed ==> (mems[v], l) == GELiteral(old(mems)[v], SizeOf(old(domains)[v].value), k, minLitsPerVar, trueLit, falseLit, newLit)
      ensures reversed ==> (mems[v], l) == LELiteral(old(mems)[v], SizeOf(old(domains)[v].value), k, minLitsPerVar, trueLit, newLit)
      ensures mems == old(mems)[v := mems[v]]
      ensures domains == old(domains) && clauses == old(clauses)
      ensures equalities == old(equalities) && equalLits == old(equalLits)
    {
      if reversed {
        l := GetLELiteral(v, k, false, newLit);
        return;
      }
      SizeCountsRanges(domains[v].value);
      var size := DomainSize(v);
      GELiteralReady(mems[v], size, k, minLitsPerVar, trueLit, falseLit, newLit);
      var r := GELiteral(mems[v], size, k, minLitsPerVar, trueLit, falseLit, newLit);
      mems := mems[v := r.0];
      l := r.1;
    }

    /** `hasEqualLit(it)` on the variable's own view. */
    function HasEqualLit(v: nat, k: nat): (bool, Literal)
      reads this
      requires Valid() && IsValid(v) && k <= DomainSize(v)
    {
      EqualLit(domains[v].value, mems[v], equalLits, v, k, trueLit, falseLit)
    }

    /** The middle of `setLELit` and `setGELit`: prepare the store of `v`, then
        store `l` at slot `k` or equate it with the literal there. */
    method PrepareAndStore(v: nat, k: nat, l: Literal, ge: bool)
      requires Valid() && IsValid(v) && domains[v].value != [] && k < DomainSize(v) && !l.flagged
      modifies this
      ensures Valid() && domains == old(domains) && clauses == old(clauses) && equalLits == old(equalLits)
      ensures var r := PrepareStore(old(mems)[v], SizeOf(old(domains)[v].value), minLitsPerVar, trueLit, k, l, ge);
        mems == old(mems)[v := r.0] && equalities == old(equalities) + r.1
      ensures minLitsPerVar == -1 && !HasMap(old(mems)[v]) ==> HasVector(mems[v]) && !HasMap(mems[v])
      ensures HasOrderLitMemory(v)
    {
      SizeCountsRanges(domains[v].value);
      var size := DomainSize(v);
      PrepareStoreFacts(mems[v], size, minLitsPerVar, trueLit, k, l, ge);
      var r := PrepareStore(mems[v], size, minLitsPerVar, trueLit, k, l, ge);
      ConsistentUpdate(domains, mems, v, domains[v].value, r.0);
      mems := mems[v := r.0];
      equalities := equalities + r.1;
    }

    /** `setLELit(it, l)` for the iterator `k` steps into the domain of `v`: `l`
        becomes the order literal `v <= x` or is equated with it, and an assigned
        `l` (`value`, the solver's current assignment) bounds the domain.
        `equalOk` is the solver's answer to `setEqual` when the literals are
        equated. A `reversed` view hands over to `setGELit` on the variable's
        own iterator. */
    method SetLELit(v: nat, k: nat, reversed: bool, l: Literal, value: Option<bool>, equalOk: bool) returns (ok: bool)
      requires Valid() && IsValid(v) && domains[v].value != [] && k <= DomainSize(v) && !l.flagged
      requires value.Some? ==> minLitsPerVar == -1 && !HasMap(mems[v])
      requires !reversed ==> value == Some(false) && k < DomainSize(v) ==> k + 1 < DomainSize(v)
      modifies this
      decreases if reversed then 1 else 0
      ensures Valid() && |domains| == |old(domains)| && IsValid(v)
      ensures !reversed ==> k == SizeOf(old(domains)[v].value) ==>
        ok == equalOk && equalities == old(equalities) + [(l, falseLit)]
        && domains == old(domains) && mems == old(mems) && clauses == old(clauses)
      ensures !reversed ==> k < SizeOf(old(domains)[v].value) ==>
        var r := PrepareStore(old(mems)[v], SizeOf(old(domains)[v].value), minLitsPerVar, trueLit, k, l, false);
        (r.1 != [] && !equalOk ==>
           !ok && domains == old(domains) && clauses == old(clauses)
           && mems == old(mems)[v := r.0] && equalities == old(equalities) + r.1)
      ensures !reversed ==> k < SizeOf(old(domains)[v].value) && value.None? ==>
        var r := PrepareStore(old(mems)[v], SizeOf(old(domains)[v].value), minLitsPerVar, trueLit, k, l, false);
        ok == (r.1 == [] || equalOk) && domains == old(domains) && clauses == old(clauses)
        && mems == old(mems)[v := r.0] && equalities == old(equalities) + r.1
      ensures !reversed ==> k < SizeOf(old(domains)[v].value) && value == Some(true) && ok ==>
        forall y :: Mem(domains[v].value, y) <==> Mem(old(domains)[v].value, y) && y <= ValueAt(old(domains)[v].value, k)
      ensures !reversed ==> k < SizeOf(old(domains)[v].value) && value == Some(false) && ok ==>
        forall y :: Mem(domains[v].value, y) <==> Mem(old(domains)[v].value, y) && ValueAt(old(domains)[v].value, k + 1) <= y
      ensures reversed ==> k == SizeOf(old(domains)[v].value) ==>
        ok == equalOk && equalities == old(equalities) + [(l, falseLit)]
        && domains == old(domains) && mems == old(mems) && clauses == old(clauses)
      ensures reversed ==> k == 0 < SizeOf(old(domains)[v].value) ==>
        ok == equalOk && equalities == old(equalities) + [(trueLit, l)]
        && domains == old(domains) && mems == old(mems) && clauses == old(clauses)
      ensures reversed ==> 0 < k < SizeOf(old(domains)[v].value) ==>
        var r := PrepareStore(old(mems)[v], SizeOf(old(domains)[v].value), minLitsPerVar, trueLit, k - 1, l, true);
        (r.1 != [] && !equalOk ==>
           !ok && domains == old(domains) && clauses == old(clauses)
           && mems == old(mems)[v := r.0] && equalities == old(equalities) + r.1)
      ensures reversed ==> 0 < k < SizeOf(old(domains)[v].value) && value.None? ==>
        var r := PrepareStore(old(mems)[v], SizeOf(old(domains)[v].value), minLitsPerVar, trueLit, k - 1, l, true);
        ok == (r.1 == [] || equalOk) && domains == old(domains) && clauses == old(clauses)
        && mems == old(mems)[v := r.0] && equalities == old(equalities) + r.1
      ensures reversed ==> 0 < k < SizeOf(old(domains)[v].value) && value == Some(true) && ok ==>
        forall y :: Mem(domains[v].value, y) <==> Mem(old(domains)[v].value, y) && ValueAt(old(domains)[v].value, k) <= y
      ensures reversed ==> 0 < k < SizeOf(old(domains)[v].value) && value == Some(false) && ok ==>
        forall y :: Mem(domains[v].value, y) <==> Mem(old(domains)[v].value, y) && y <= ValueAt(old(domains)[v].value, k - 1)
      ensures equalLits == old(equalLits)
    {
      if reversed {
        ok := SetGELit(v, k, false, l, value, equalOk);
        return;
      }
      var size := DomainSize(v);
      if k == size {
        equalities := equalities + [(l, falseLit)];
        return equalOk;
      }
      var before := |equalities|;
      PrepareAndStore(v, k, l, false);
      if |equalities| > before && !equalOk {
        return false;
      }
      var rs := domains[v].value;
      NormalBounds(rs);
      if value == Some(true) {
        ok := ConstrainUpperBound(View(v, 1, 0), ValueAt(rs, k), x => x, x => x);
        return;
      }
      if value == Some(false) {
        ok := ConstrainLowerBound(View(v, 1, 0), ValueAt(rs, k + 1), x => x, x => x);
        return;
      }
      return true;
    }

    /** `setGELit(it, l)` for the iterator `k` steps into the domain of `v`: `l`
        becomes the order literal `v >= x`, stored negated as `v <= x'` in the
        slot of the value `x'` before `x`, or is equated with it; an assigned `l`
        bounds the domain. `equalOk` is the solver's answer to `setEqual` when
        the literals are equated. A `reversed` view hands over to `setLELit` on
        the variable's own iterator. */
    method SetGELit(v: nat, k: nat, reversed: bool, l: Literal, value: Option<bool>, equalOk: bool) returns (ok: bool)
      requires Valid() && IsValid(v) && domains[v].value != [] && k <= DomainSize(v) && !l.flagged
      requires value.Some? ==> minLitsPerVar == -1 && !HasMap(mems[v])
      requires reversed ==> value == Some(false) && k < DomainSize(v) ==> k + 1 < DomainSize(v)
      modifies this
      decreases if reversed then 1 else 0
      ensures Valid() && |domains| == |old(domains)| && IsValid(v)
      ensures !reversed ==> k == SizeOf(old(domains)[v].value) ==>
        ok == equalOk && equalities == old(equalities) + [(l, falseLit)]
        && domains == old(domains) && mems == old(mems) && clauses == old(clauses)
      ensures !reversed ==> k == 0 < SizeOf(old(domains)[v].value) ==>
        ok == equalOk && equalities == old(equalities) + [(trueLit, l)]
        && domains == old(domains) && mems == old(mems) && clauses == old(clauses)
      ensures !reversed ==> 0 < k < SizeOf(old(domains)[v].value) ==>
        var r := PrepareStore(old(mems)[v], SizeOf(old(domains)[v].value), minLitsPerVar, trueLit, k - 1, l, true);
        (r.1 != [] && !equalOk ==>
           !ok && domains == old(domains) && clauses == old(clauses)
           && mems == old(mems)[v := r.0] && equalities == old(equalities) + r.1)
      ensures !reversed ==> 0 < k < SizeOf(old(domains)[v].value) && value.None? ==>
        var r := PrepareStore(old(mems)[v], SizeOf(old(domains)[v].value), minLitsPerVar, trueLit, k - 1, l, true);
        ok == (r.1 == [] || equalOk) && domains == old(domains) && clauses == old(clauses)
        && mems == old(mems)[v := r.0] && equalities == old(equalities) + r.1
      ensures !reversed ==> 0 < k < SizeOf(old(domains)[v].value) && value == Some(true) && ok ==>
        forall y :: Mem(domains[v].value, y) <==> Mem(old(domains)[v].value, y) && ValueAt(old(domains)[v].value, k) <= y
      ensures !reversed ==> 0 < k < SizeOf(old(domains)[v].value) && value == Some(false) && ok ==>
        forall y :: Mem(domains[v].value, y) <==> Mem(old(domains)[v].value, y) && y <= ValueAt(old(domains)[v].value, k - 1)
      ensures reversed ==> k == SizeOf(old(domains)[v].value) ==>
        ok == equalOk && equalities == old(equalities) + [(l, falseLit)]
        && domains == old(domains) && mems == old(mems) && clauses == old(clauses)
      ensures reversed ==> k < SizeOf(old(domains)[v].value) ==>
        var r := PrepareStore(old(mems)[v], SizeOf(old(domains)[v].value), minLitsPerVar, trueLit, k, l, false);
        (r.1 != [] && !equalOk ==>
           !ok && domains == old(domains) && clauses == old(clauses)
           && mems == old(mems)[v := r.0] && equalities == old(equalities) + r.1)
      ensures reversed ==> k < SizeOf(old(domains)[v].value) && value.None? ==>
        var r := PrepareStore(old(mems)[v], SizeOf(old(domains)[v].value), minLitsPerVar, trueLit, k, l, false);
        ok == (r.1 == [] || equalOk) && domains == old(domains) && clauses == old(clauses)
        && mems == old(mems)[v := r.0] && equalities == old(equalities) + r.1
      ensures reversed ==> k < SizeOf(old(domains)[v].value) && value == Some(true) && ok ==>
        forall y :: Mem(domains[v].value, y) <==> Mem(old(domains)[v].value, y) && y <= ValueAt(old(domains)[v].value, k)
      ensures reversed ==> k < SizeOf(old(domains)[v].value) && value == Some(false) && ok ==>
        forall y :: Mem(domains[v].value, y) <==> Mem(old(domains)[v].value, y) && ValueAt(old(domains)[v].value, k + 1) <= y
      ensures equalLits == old(equalLits)
    {
      if reversed {
        ok := SetLELit(v, k, false, l, value, equalOk);
        return;
      }
      var size := DomainSize(v);
      if k == size {
        equalities := equalities + [(l, falseLit)];
        return equalOk;
      }
      if k == 0 {
        equalities := equalities + [(trueLit, l)];
        return equalOk;
      }
      var before := |equalities|;
      PrepareAndStore(v, k - 1, l, true);
      if |equalities| > before && !equalOk {
        return false;
      }
      var rs := domains[v].value;
      NormalBounds(rs);
      if value == Some(true) {
        ok := ConstrainLowerBound(View(v, 1, 0), ValueAt(rs, k), x => x, x => x);
        return;
      }
      if value == Some(false) {
        ok := ConstrainUpperBound(View(v, 1, 0), ValueAt(rs, k - 1), x => x, x => x);
        return;
      }
      return true;
    }

    /** The fallback of `setEqualLit` at the first and the last value, where
        `v = x` is the order literal `v <= x` (`v >= x`): `l` becomes that order
        literal, and so the literal `hasEqualLit` finds. */
    method SetOrderLitAsEqual(v: nat, k: nat, l: Literal, value: Option<bool>, equalOk: bool) returns (ok: bool)
      requires Valid() && IsValid(v) && domains[v].value != [] && k < DomainSize(v) && !l.flagged
      requires k == 0 || k == DomainSize(v) - 1
      requires !HasEqualLit(v, k).0
      requires value.Some? ==> minLitsPerVar == -1 && !HasMap(mems[v])
      modifies this
      ensures Valid() && |domains| == |old(domains)| && IsValid(v)
      ensures value.None? ==>
        ok && domains == old(domains) && equalities == old(equalities) && k <= DomainSize(v)
        && HasEqualLit(v, k) == (true, l)
    {
      ghost var rs0, s0 := domains[v].value, mems[v];
      if k == 0 {
        ok := SetLELit(v, k, false, l, value, equalOk);
        if value.None? {
          EqualLitAfterLE(rs0, s0, equalLits, v, minLitsPerVar, trueLit, falseLit, l);
        }
      } else {
        ok := SetGELit(v, k, false, l, value, equalOk);
        if value.None? {
          EqualLitAfterGE(rs0, s0, equalLits, v, k, minLitsPerVar, trueLit, falseLit, l);
        }
      }
    }

    /** `setEqualLit(it, l)` for the iterator `k` steps into the domain of `v`:
        `l` is equated with a literal for `v = x` that already exists; otherwise
        at the first (last) value it becomes the order literal `v <= x`
        (`v >= x`), and elsewhere it is recorded in `equalLits`. */
    method SetEqualLit(v: nat, k: nat, l: Literal, value: Option<bool>, equalOk: bool) returns (ok: bool)
      requires Valid() && IsValid(v) && domains[v].value != [] && k <= DomainSize(v) && !l.flagged
      requires value.Some? ==> minLitsPerVar == -1 && !HasMap(mems[v])
      modifies this
      ensures Valid() && |domains| == |old(domains)| && IsValid(v)
      ensures k == SizeOf(old(domains)[v].value) ==>
        ok == equalOk && equalities == old(equalities) + [(l, falseLit)]
        && domains == old(domains) && mems == old(mems) && clauses == old(clauses) && equalLits == old(equalLits)
      ensures k < SizeOf(old(domains)[v].value) && old(HasEqualLit(v, k)).0 ==>
        ok == equalOk && equalities == old(equalities) + [(l, old(HasEqualLit(v, k)).1)]
        && domains == old(domains) && mems == old(mems) && clauses == old(clauses) && equalLits == old(equalLits)
      ensures 0 < k < SizeOf(old(domains)[v].value) - 1 && !old(HasEqualLit(v, k)).0 ==>
        ok && equalLits == old(equalLits)[(v, ValueAt(old(domains)[v].value, k)) := l]
        && domains == old(domains) && mems == old(mems) && clauses == old(clauses) && equalities == old(equalities)
      ensures k < SizeOf(old(domains)[v].value) && value.None? ==>
        (ok <==> !old(HasEqualLit(v, k)).0 || equalOk) && domains == old(domains) && k <= DomainSize(v)
        && HasEqualLit(v, k).0 && (HasEqualLit(v, k).1 == l || equalities == old(equalities) + [(l, HasEqualLit(v, k).1)])
    {
      var size := DomainSize(v);
      if k == size {
        equalities := equalities + [(l, falseLit)];
        return equalOk;
      }
      var f := HasEqualLit(v, k);
      if f.0 {
        equalities := equalities + [(l, f.1)];
        return equalOk;
      }
      if k == 0 || k == size - 1 {
        ok := SetOrderLitAsEqual(v, k, l, value, equalOk);
        return;
      }
      var rs := domains[v].value;
      equalLits := equalLits[(v, ValueAt(rs, k)) := l];
      return true;
    }
  }
}
