/** `order::Domain`: the range list of a domain edited in place, together with its
    overflow and modified flags. Every method is proved against the functions of
    `OrderDomain`, whose properties are proved there. */
module Domains {
  import opened OrderDomain

  /** `std::lower_bound` over `rs[k..]` for the predicate `rs[i].u < v`. */
  method LowerBoundSearch(rs: seq<Range>, k: nat, v: int) returns (j: nat)
    requires k <= |rs|
    ensures j == LowerBound(rs, k, v)
  {
    j := k;
    while j < |rs| && rs[j].u < v
      invariant k <= j <= |rs|
      invariant LowerBound(rs, j, v) == LowerBound(rs, k, v)
    {
      j := j + 1;
    }
  }

  /** The values `constrainDomain(times, c, div)` keeps. */
  predicate Kept(times: int, c: int, div: int, y: int)
    requires div != 0
  {
    (times * y + c) % div == 0
  }

  /** One more range visited. */
  lemma MemInStep(rs: seq<Range>, k: nat)
    requires k < |rs|
    ensures forall y :: MemIn(rs, 0, k + 1, y) <==> MemIn(rs, 0, k, y) || rs[k].l <= y <= rs[k].u
  {
    forall y
      ensures MemIn(rs, 0, k + 1, y) <==> MemIn(rs, 0, k, y) || rs[k].l <= y <= rs[k].u
    {
      if MemIn(rs, 0, k + 1, y) {
        var j :| 0 <= j < k + 1 && j < |rs| && rs[j].l <= y <= rs[j].u;
        if j < k {
          assert MemIn(rs, 0, k, y);
        }
      }
      if MemIn(rs, 0, k, y) {
        var j :| 0 <= j < k && j < |rs| && rs[j].l <= y <= rs[j].u;
        assert MemIn(rs, 0, k + 1, y);
      }
      if rs[k].l <= y <= rs[k].u {
        assert MemIn(rs, 0, k + 1, y);
      }
    }
  }

  /** All ranges visited. */
  lemma MemInAll(rs: seq<Range>)
    ensures forall y :: MemIn(rs, 0, |rs|, y) <==> Mem(rs, y)
  {
    forall y | Mem(rs, y)
      ensures MemIn(rs, 0, |rs|, y)
    {
      var j :| 0 <= j < |rs| && rs[j].l <= y <= rs[j].u;
    }
  }

  /** Every upper bound of a normal list is one of its values. */
  lemma UpperBoundsAreValues(rs: seq<Range>)
    requires Normal(rs)
    ensures forall j :: 0 <= j < |rs| ==> Mem(rs, rs[j].u)
  {
    forall j | 0 <= j < |rs|
      ensures Mem(rs, rs[j].u)
    {
      assert rs[j].l <= rs[j].u <= rs[j].u;
    }
  }

  /** `q` times `m` is `i` exactly when `i` divides by `m` with quotient `q`. */
  lemma QuotientExact(i: int, m: int, q: int)
    requires m > 0
    ensures q * m == i <==> (i % m == 0 && q == i / m)
  {
    var d, r := i / m, i % m;
    assert i == d * m + r && 0 <= r < m;
    if q * m == i {
      assert (q - d) * m == r by {
        assert (q - d) * m == q * m - d * m;
      }
      MulSign(q - d, m);
    }
  }

  /** A multiple of a positive `m` by a non-zero factor is at least `m` away from 0. */
  lemma MulSign(k: int, m: int)
    requires m > 0
    ensures k >= 1 ==> k * m >= m
    ensures k <= -1 ==> k * m <= -m
  {
    if k >= 1 {
      assert k * m == (k - 1) * m + m;
    } else if k <= -1 {
      assert k * m == (k + 1) * m - m;
    }
  }

  /** Multiplying by a positive `m` keeps the order. */
  lemma MulBelow(y: int, q: int, m: int)
    requires m > 0 && y * m < q * m
    ensures y < q
  {
    assert y * m - q * m == (y - q) * m;
    MulSign(y - q, m);
  }

  class Domain {
    var ranges: seq<Range>
    var overflow: bool
    var modified: bool

    /** The ranges are in normal form. */
    predicate Valid()
      reads this
    {
      Normal(ranges)
    }

    /** `Domain(l, u)`: the values from `l` to `u`, no values when `l > u`. */
    constructor (l: int, u: int)
      ensures ranges == (if l <= u then [Range(l, u)] else [])
      ensures Valid() && !overflow && !modified
    {
      ranges := if l <= u then [Range(l, u)] else [];
      overflow := false;
      modified := false;
      new;
      assert l <= u ==> ranges[0].l <= ranges[0].u;
    }

    /** A domain holding the ranges `rs`, as the copy constructor makes it from a
        domain whose overflow and modified flags are clear. */
    constructor Of(rs: seq<Range>)
      ensures ranges == rs && !overflow && !modified
    {
      ranges, overflow, modified := rs, false, false;
    }

    /** A copy of `d`. */
    constructor Copy(d: Domain)
      ensures ranges == d.ranges && overflow == d.overflow && modified == d.modified
    {
      ranges := d.ranges;
      overflow := d.overflow;
      modified := d.modified;
    }

    /** `in(x)`: whether `x` is a value of the domain. */
    method In(x: int) returns (b: bool)
      requires Valid() && !overflow
      ensures b <==> Mem(ranges, x)
    {
      var it := LowerBoundSearch(ranges, 0, x);
      LowerBoundDecidesMem(ranges, x);
      if it == |ranges| {
        return false;
      }
      return x >= ranges[it].l;
    }

    /** `in(d)`: whether every value of `d`, in order, is a value of this domain. */
    method InAll(d: seq<Range>) returns (b: bool)
      requires Valid() && !overflow
      ensures b <==> forall y :: Mem(d, y) ==> Mem(ranges, y)
    {
      var k := 0;
      while k < |d|
        invariant 0 <= k <= |d|
        invariant forall y :: MemIn(d, 0, k, y) ==> Mem(ranges, y)
      {
        var i := d[k].l;
        while i <= d[k].u
          invariant d[k].l <= i <= d[k].u + 1 || i == d[k].l
          invariant forall y :: d[k].l <= y < i ==> Mem(ranges, y)
        {
          var inside := In(i);
          if !inside {
            assert Mem(d, i) by {
              assert d[k].l <= i <= d[k].u;
            }
            return false;
          }
          i := i + 1;
        }
        forall y | MemIn(d, 0, k + 1, y)
          ensures Mem(ranges, y)
        {
          var j :| 0 <= j < k + 1 && j < |d| && d[j].l <= y <= d[j].u;
          if j < k {
            assert MemIn(d, 0, k, y);
          }
        }
        k := k + 1;
      }
      forall y | Mem(d, y)
        ensures Mem(ranges, y)
      {
        var j :| 0 <= j < |d| && d[j].l <= y <= d[j].u;
        assert MemIn(d, 0, |d|, y);
      }
      return true;
    }

    /** `add(start, r)`: adds the values of `r`, searching from the hint `start`.
        Returns the position of the range holding `r`. The step past the widened
        range that the source takes before merging with the range below is not
        taken here (see `OrderDomain.AddAsWritten`). */
    method Add(start: nat, r: Range) returns (it: nat)
      requires !overflow && start <= |ranges|
      modifies this
      ensures (ranges, it) == OrderDomain.Add(old(ranges), start, r)
      ensures overflow == old(overflow)
      ensures modified == (old(modified) || r.l <= r.u)
    {
      if r.l > r.u {
        return start;
      }
      modified := true;
      it := LowerBoundSearch(ranges, start, r.l);
      PlaceAt(it, r);
      if it > 0 && ranges[it - 1].u + 1 == r.l {
        ranges := ranges[..it - 1] + [Range(ranges[it - 1].l, ranges[it].u)] + ranges[it + 1..];
        it := it - 1;
      }
    }

    /** The middle part of `add` once `it` is found. */
    method PlaceAt(it: nat, r: Range)
      requires it <= |ranges|
      modifies this
      ensures ranges == Place(old(ranges), it, r).0
      ensures overflow == old(overflow) && modified == old(modified)
    {
      if it == |ranges| {
        ranges := ranges + [r];
      } else if ranges[it].l > r.u + 1 {
        ranges := ranges[..it] + [r] + ranges[it..];
      } else {
        var l := if ranges[it].l > r.l then r.l else ranges[it].l;
        if r.u > ranges[it].u {
          AbsorbAt(it, l, r.u);
        } else {
          ranges := ranges[it := Range(l, ranges[it].u)];
          assert ranges == old(ranges)[..it] + [Range(l, old(ranges)[it].u)] + old(ranges)[it + 1..];
        }
      }
    }

    /** The widening branch of `add`: the range at `it` gets the bounds `l` and
        `u`, and swallows every following range that starts at or below `u + 1`. */
    method AbsorbAt(it: nat, l: int, u: int)
      requires it < |ranges|
      modifies this
      ensures var (up, u') := Absorb(old(ranges), it + 1, u + 1, u);
        ranges == old(ranges)[..it] + [Range(l, u')] + old(ranges)[up..]
      ensures overflow == old(overflow) && modified == old(modified)
    {
      ghost var rs := ranges;
      ranges := ranges[it := Range(l, u)];
      var upTo := it + 1;
      while upTo < |ranges| && ranges[upTo].l <= u + 1
        invariant it + 1 <= upTo <= |ranges| == |rs|
        invariant ranges == rs[it := Range(l, ranges[it].u)]
        invariant Absorb(rs, upTo, u + 1, ranges[it].u) == Absorb(rs, it + 1, u + 1, u)
        invariant overflow == old(overflow) && modified == old(modified)
      {
        if ranges[upTo].u > ranges[it].u {
          ranges := ranges[it := Range(l, ranges[upTo].u)];
        }
        upTo := upTo + 1;
      }
      ranges := ranges[..it + 1] + ranges[upTo..];
    }

    /** `intersect(lower, upper)`: keeps the values between the bounds and tells
        whether any is left. */
    method Intersect(lower: int, upper: int) returns (b: bool)
      requires !overflow && (lower <= upper ==> ranges != [])
      modifies this
      ensures (ranges, b) == OrderDomain.Intersect(old(ranges), lower, upper)
      ensures modified && overflow == old(overflow)
    {
      modified := true;
      if lower > upper {
        ranges := [];
        return false;
      }
      if ranges[0].l == lower && ranges[|ranges| - 1].u == upper {
        return true;
      }
      ghost var rs := ranges;
      var it := LowerBoundSearch(ranges, 0, lower);
      if it == |ranges| {
        ranges := [];
        return false;
      }
      if lower >= ranges[it].l {
        ranges := ranges[it := Range(lower, ranges[it].u)];
      }
      ranges := ranges[it..];
      assert ranges == ClipLower(rs[it..], lower);
      ghost var t := ranges;
      var jt := LowerBoundSearch(ranges, 0, upper);
      if jt == |ranges| {
        return true;
      }
      if upper >= ranges[jt].l {
        ranges := ranges[jt := Range(ranges[jt].l, upper)];
        ranges := ranges[..jt + 1];
        assert ranges == t[..jt] + [Range(t[jt].l, upper)];
        return true;
      }
      ranges := ranges[..jt];
      return jt != 0;
    }

    /** `remove(x)`: takes `x` out of the domain and tells whether any value is
        left. */
    method RemoveValue(x: int) returns (b: bool)
      requires Valid()
      modifies this
      ensures ranges == OrderDomain.RemoveValue(old(ranges), x)
      ensures b <==> ranges != []
      ensures modified == (old(modified) || Mem(old(ranges), x))
      ensures overflow == old(overflow)
    {
      LowerBoundDecidesMem(ranges, x);
      var found := LowerBoundSearch(ranges, 0, x);
      if found < |ranges| && x >= ranges[found].l {
        modified := true;
        LowerBoundFirst(ranges, 0, x);
        CutAt(found, x);
      }
      return ranges != [];
    }

    /** The body of `remove(x)` once the range holding `x` is found: shrink it at
        an end, drop it when it held only `x`, or split it around `x`. */
    method CutAt(found: nat, x: int)
      requires found < |ranges| && ranges[found].l <= x <= ranges[found].u
      modifies this
      ensures ranges == old(ranges)[..found] + CutValue(old(ranges)[found], x) + old(ranges)[found + 1..]
      ensures overflow == old(overflow) && modified == old(modified)
    {
      ghost var rs := ranges;
      var split := true;
      var r := ranges[found];
      if x == r.l {
        r := Range(r.l + 1, r.u);
        split := false;
      }
      if x == r.u {
        r := Range(r.l, r.u - 1);
        split := false;
      }
      ranges := ranges[found := r];
      if r.l > r.u {
        ranges := ranges[..found] + ranges[found + 1..];
        assert ranges == rs[..found] + [] + rs[found + 1..];
      } else if split {
        ranges := ranges[found := Range(r.l, x - 1)];
        ranges := ranges[..found + 1] + [Range(x + 1, r.u)] + ranges[found + 1..];
        assert ranges == rs[..found] + [Range(r.l, x - 1), Range(x + 1, r.u)] + rs[found + 1..];
      } else {
        assert ranges == rs[..found] + [r] + rs[found + 1..];
      }
    }

    /** `unify(d)` for the ranges of `d`: each added in turn from the front. */
    method UnifyWith(others: seq<Range>)
      requires !overflow
      modifies this
      ensures ranges == Unify(old(ranges), others)
      ensures overflow == old(overflow) && (old(modified) ==> modified)
    {
      for i := 0 to |others|
        invariant Unify(ranges, others[i..]) == Unify(old(ranges), others)
        invariant overflow == old(overflow) && (old(modified) ==> modified)
      {
        assert others[i..][0] == others[i] && others[i..][1..] == others[i + 1..];
        var it := Add(0, others[i]);
      }
      assert others[|others|..] == [];
    }

    /** `remove(lower, upper)`: the part below `lower` is cut out into a copy, the
        part above `upper` is kept here, and the two are put together. */
    method RemoveRange(lower: int, upper: int) returns (b: bool)
      requires !overflow && (lower <= upper ==> ranges != [])
      modifies this
      ensures (ranges, b) == OrderDomain.RemoveRange(old(ranges), lower, upper)
      ensures overflow == old(overflow) && modified == (old(modified) || lower <= upper)
    {
      if lower > upper {
        return true;
      }
      modified := true;
      var temp := new Domain.Copy(this);
      var kept := temp.Intersect(temp.ranges[0].l, lower - 1);
      kept := Intersect(upper + 1, ranges[|ranges| - 1].u);
      UnifyWith(temp.ranges);
      return ranges != [];
    }

    /** `reverse()`: two cursors walk in from both ends swapping and negating
        ranges; the middle range of an odd-length list is negated last. */
    method Reverse()
      modifies this
      ensures ranges == Reversed(old(ranges))
      ensures overflow == old(overflow) && modified == old(modified)
    {
      ghost var rs := ranges;
      var first, last := 0, |ranges|;
      while first != last && first != last - 1
        invariant 0 <= first <= last <= |rs| && first + last == |rs| && |ranges| == |rs|
        invariant forall i :: 0 <= i < first ==> ranges[i] == Flip(rs[|rs| - 1 - i])
        invariant forall i :: last <= i < |rs| ==> ranges[i] == Flip(rs[|rs| - 1 - i])
        invariant forall i :: first <= i < last ==> ranges[i] == rs[i]
        invariant overflow == old(overflow) && modified == old(modified)
      {
        last := last - 1;
        var a, z := ranges[first], ranges[last];
        ranges := ranges[first := Flip(z)][last := Flip(a)];
        first := first + 1;
      }
      if first != last {
        last := last - 1;
      }
      if first == last && |ranges| % 2 == 1 {
        ranges := ranges[first := Flip(ranges[first])];
      }
      ReversedIs(rs, ranges);
    }

    /** `+= d` for domain bounds `lo` and `hi`: each range moved in turn, stopping
        with the overflow flag at the first one leaving the bounds. */
    method ShiftBy(d: int, lo: int, hi: int)
      requires !overflow
      modifies this
      ensures (ranges, overflow) == Shift(old(ranges), d, lo, hi)
      ensures modified == (old(modified) || d != 0)
    {
      if d == 0 {
        return;
      }
      modified := true;
      ghost var rs := ranges;
      var i := 0;
      while i < |ranges|
        invariant 0 <= i <= |ranges| == |rs|
        invariant FirstOverflow(rs, i, d, lo, hi) == FirstOverflow(rs, 0, d, lo, hi)
        invariant forall j :: 0 <= j < i ==> ranges[j] == Range(rs[j].l + d, rs[j].u + d)
        invariant forall j :: i <= j < |rs| ==> ranges[j] == rs[j]
        invariant !overflow && modified
      {
        if ranges[i].l + d < lo || ranges[i].u + d > hi {
          overflow := true;
          ShiftedIs(rs, i, d, ranges);
          return;
        }
        ranges := ranges[i := Range(ranges[i].l + d, ranges[i].u + d)];
        i := i + 1;
      }
      ShiftedIs(rs, i, d, ranges);
    }

    /** The inner part of `constrainDomain` for one range `[l, u]` of the domain
        walked: its kept values are added to `n` in increasing order. */
    static method AddKept(n: Domain, it: nat, l: int, u: int, times: int, c: int, div: int)
      returns (it': nat)
      requires n.Valid() && !n.overflow && it <= |n.ranges| && div != 0
      requires forall y :: Mem(n.ranges, y) ==> y < l
      modifies n
      ensures n.Valid() && !n.overflow && it' <= |n.ranges|
      ensures forall y :: Mem(n.ranges, y) <==> Mem(old(n.ranges), y) || (l <= y <= u && Kept(times, c, div, y))
      ensures forall y :: Mem(n.ranges, y) ==> y < l || y <= u
    {
      it' := it;
      var i := l;
      while i <= u
        invariant l <= i && (i <= u + 1 || i == l)
        invariant n.Valid() && !n.overflow && it' <= |n.ranges|
        invariant forall y :: Mem(n.ranges, y) <==> Mem(old(n.ranges), y) || (l <= y < i && Kept(times, c, div, y))
        invariant forall y :: Mem(n.ranges, y) ==> y < i
      {
        if (times * i + c) % div == 0 {
          it' := AddAbove(n, it', i);
        }
        i := i + 1;
      }
    }

    /** Adds `i` to `n`, whose values all lie below `i`, with the hint `it`. */
    static method AddAbove(n: Domain, it: nat, i: int) returns (it': nat)
      requires n.Valid() && !n.overflow && it <= |n.ranges|
      requires forall y :: Mem(n.ranges, y) ==> y < i
      modifies n
      ensures n.Valid() && !n.overflow && it' <= |n.ranges|
      ensures forall y :: Mem(n.ranges, y) <==> Mem(old(n.ranges), y) || y == i
    {
      UpperBoundsAreValues(n.ranges);
      AddFacts(n.ranges, it, Range(i, i));
      it' := n.Add(it, Range(i, i));
    }

    /** `constrainDomain(times, c, div)`: walks the values in order and keeps those
        `i` with `(times * i + c) % div == 0` in a fresh domain, each added with the
        position of the previous one as hint; that domain's ranges replace these. */
    method ConstrainDomain(times: int, c: int, div: int) returns (b: bool)
      requires Valid() && !overflow && div != 0
      modifies this
      ensures Valid() && overflow == old(overflow) && modified
      ensures forall y :: Mem(ranges, y) <==> Mem(old(ranges), y) && Kept(times, c, div, y)
      ensures b <==> ranges != []
    {
      var n := new Domain(1, -1);
      var it: nat := |n.ranges|;
      ghost var rs := ranges;
      var k := 0;
      while k < |ranges|
        invariant 0 <= k <= |ranges| && ranges == rs && overflow == old(overflow)
        invariant fresh(n) && n.Valid() && !n.overflow && it <= |n.ranges|
        invariant forall y :: Mem(n.ranges, y) <==> MemIn(rs, 0, k, y) && Kept(times, c, div, y)
        invariant forall y :: Mem(n.ranges, y) ==> k == |rs| || y < rs[k].l
      {
        it := AddKept(n, it, ranges[k].l, ranges[k].u, times, c, div);
        MemInStep(rs, k);
        k := k + 1;
      }
      MemInAll(rs);
      ranges := n.ranges;
      modified := true;
      return ranges != [];
    }

    /** The inner loop of `inplace_divide` for one range `[l, u]` and a divisor
        `m > 0`: each value divisible by `m` whose quotient differs from the last
        quotient added (initially `none`) has that quotient added to `d`. */
    static method DivideRange(d: Domain, start: nat, l: int, u: int, m: int, none: int)
      returns (start': nat)
      requires d.Valid() && !d.overflow && start <= |d.ranges| && m > 0
      requires forall q :: Mem(d.ranges, q) ==> q * m < l
      modifies d
      ensures d.Valid() && !d.overflow && start' <= |d.ranges|
      ensures forall q :: q != none ==> (Mem(d.ranges, q) <==> Mem(old(d.ranges), q) || l <= q * m <= u)
      ensures forall q :: Mem(d.ranges, q) ==> q * m < l || q * m <= u
    {
      start' := start;
      var prev := none;
      var i := l;
      while i <= u
        invariant l <= i && (i <= u + 1 || i == l)
        invariant d.Valid() && !d.overflow && start' <= |d.ranges|
        invariant forall q :: q != none ==> (Mem(d.ranges, q) <==> Mem(old(d.ranges), q) || l <= q * m < i)
        invariant forall q :: Mem(d.ranges, q) ==> q * m < i
        invariant prev != none ==> Mem(d.ranges, prev)
      {
        forall q | true
          ensures q * m == i <==> (i % m == 0 && q == i / m)
        {
          QuotientExact(i, m, q);
        }
        if i % m == 0 && i / m != prev {
          forall y | Mem(d.ranges, y)
            ensures y < i / m
          {
            MulBelow(y, i / m, m);
          }
          start' := AddAbove(d, start', i / m);
          prev := i / m;
        }
        i := i + 1;
      }
    }

    /** `inplace_divide(n)` for a domain whose lower limit is `minValue`: a negative
        divisor reverses the domain first; then every value divisible by `|n|` is
        replaced by its quotient. The quotient `-minValue - 1` is the initial value
        of the last-quotient variable and is left out of the statement. */
    method InplaceDivide(n: int, minValue: int)
      requires Valid() && !overflow && n != 0
      modifies this
      ensures Valid() && overflow == old(overflow)
      ensures forall q :: q != -minValue - 1 ==> (Mem(ranges, q) <==> Mem(old(ranges), q * n))
    {
      var m := n;
      if m < 0 {
        Reverse();
        ReversedFacts(old(ranges));
        m := -m;
      }
      assert forall q :: Mem(ranges, q * m) <==> Mem(old(ranges), q * n);
      if m == 1 {
        return;
      }
      modified := true;
      var d := DivideAll(ranges, m, -minValue - 1);
      ranges := d.ranges;
    }

    /** The quotients by `m > 1` of the values of the ranges `rs`, collected
        range by range into a new domain; the quotient `none` is left out of the
        statement. */
    static method DivideAll(rs: seq<Range>, m: int, none: int) returns (d: Domain)
      requires Normal(rs) && m > 1
      ensures fresh(d) && d.Valid() && !d.overflow
      ensures forall q :: q != none ==> (Mem(d.ranges, q) <==> Mem(rs, q * m))
    {
      d := new Domain(1, -1);
      var start: nat := 0;
      var k := 0;
      while k < |rs|
        invariant 0 <= k <= |rs|
        invariant fresh(d) && d.Valid() && !d.overflow && start <= |d.ranges|
        invariant forall q :: q != none ==> (Mem(d.ranges, q) <==> MemIn(rs, 0, k, q * m))
        invariant forall q :: Mem(d.ranges, q) ==> k == |rs| || q * m < rs[k].l
      {
        start := DivideRange(d, start, rs[k].l, rs[k].u, m, none);
        MemInStep(rs, k);
        k := k + 1;
      }
      MemInAll(rs);
    }

    /** `remove(d)`: each range of `d` removed in turn, giving up as soon as a
        removal leaves the domain empty. */
    method RemoveAll(d: seq<Range>) returns (b: bool)
      requires !overflow && ranges != []
      modifies this
      ensures (ranges, b) == OrderDomain.RemoveAll(old(ranges), d)
      ensures overflow == old(overflow)
    {
      var k := 0;
      while k < |d|
        invariant 0 <= k <= |d| && ranges != [] && !overflow
        invariant OrderDomain.RemoveAll(ranges, d[k..]) == OrderDomain.RemoveAll(old(ranges), d)
      {
        assert d[k..][0] == d[k] && d[k..][1..] == d[k + 1..];
        var ok := RemoveRange(d[k].l, d[k].u);
        if !ok {
          return false;
        }
        k := k + 1;
      }
      assert d[k..] == [];
      return true;
    }
  }
}
