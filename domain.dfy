/** Integer domains of the order encoding: a domain is a sorted list of closed
    integer ranges. In normal form the ranges are non-empty, ordered, and neither
    overlap nor touch, so every finite set of integers has exactly one form. */
module OrderDomain {

  datatype Range = Range(l: int, u: int)

  /** `x` lies in one of the ranges. */
  predicate Mem(rs: seq<Range>, x: int) {
    exists i :: 0 <= i < |rs| && rs[i].l <= x <= rs[i].u
  }

  /** `x` lies in one of the ranges at `k .. up - 1`. */
  predicate MemIn(rs: seq<Range>, k: int, up: int, x: int) {
    exists j :: k <= j < up && 0 <= j < |rs| && rs[j].l <= x <= rs[j].u
  }

  /** Non-empty ranges, ordered, with a gap of at least one value between
      neighbours. */
  predicate Normal(rs: seq<Range>) {
    (forall i :: 0 <= i < |rs| ==> rs[i].l <= rs[i].u) &&
    (forall i, j :: 0 <= i < j < |rs| ==> rs[i].u + 1 < rs[j].l)
  }

  /** Non-empty, ordered and disjoint ranges that may touch: [0,0],[1,6]. */
  predicate Disjoint(rs: seq<Range>) {
    (forall i :: 0 <= i < |rs| ==> rs[i].l <= rs[i].u) &&
    (forall i, j :: 0 <= i < j < |rs| ==> rs[i].u < rs[j].l)
  }

  /** Normal except that the ranges at `p - 1` and `p` may touch. */
  predicate NormalBut(rs: seq<Range>, p: nat) {
    (forall i :: 0 <= i < |rs| ==> rs[i].l <= rs[i].u) &&
    (forall i, j :: 0 <= i < j < |rs| ==>
      rs[i].u + 1 < rs[j].l || (i + 1 == p == j && rs[i].u + 1 == rs[j].l))
  }

  /** `std::lower_bound` from `k` over a list partitioned by `rs[i].u < v`: the
      first range at or after `k` whose upper bound is not below `v`. */
  function LowerBound(rs: seq<Range>, k: nat, v: int): (j: nat)
    requires k <= |rs|
    ensures k <= j <= |rs|
    decreases |rs| - k
  {
    if k == |rs| || rs[k].u >= v then k else LowerBound(rs, k + 1, v)
  }

  lemma {:induction false} LowerBoundFirst(rs: seq<Range>, k: nat, v: int)
    requires k <= |rs|
    ensures var j := LowerBound(rs, k, v);
      (forall i :: k <= i < j ==> rs[i].u < v) && (j < |rs| ==> v <= rs[j].u)
    decreases |rs| - k
  {
    if k < |rs| && rs[k].u < v {
      LowerBoundFirst(rs, k + 1, v);
    }
  }

  /** The `upTo` loop of `add`: from `k`, absorbs every range starting at or below
      `bound`. Returns the first range not absorbed and the largest upper bound seen,
      starting from `u`. */
  function Absorb(rs: seq<Range>, k: nat, bound: int, u: int): (r: (nat, int))
    requires k <= |rs|
    ensures k <= r.0 <= |rs|
    decreases |rs| - k
  {
    if k == |rs| || rs[k].l > bound then (k, u)
    else Absorb(rs, k + 1, bound, if rs[k].u > u then rs[k].u else u)
  }

  /** The absorbed ranges all start at or below `bound` and end at or below the
      new upper bound, and when `bound <= u + 1` they fill every value between `u`
      and the new upper bound. */
  lemma {:induction false} AbsorbCovers(rs: seq<Range>, k: nat, bound: int, u: int)
    requires k <= |rs|
    requires bound <= u + 1
    ensures var (up, u') := Absorb(rs, k, bound, u);
      u <= u' &&
      (up < |rs| ==> rs[up].l > bound) &&
      (forall j :: k <= j < up ==> rs[j].l <= bound && rs[j].u <= u') &&
      (u' == u || exists j :: k <= j < up && rs[j].u == u') &&
      (forall x :: u < x <= u' ==> MemIn(rs, k, up, x))
    decreases |rs| - k
  {
    if k < |rs| && rs[k].l <= bound {
      var u1 := if rs[k].u > u then rs[k].u else u;
      AbsorbCovers(rs, k + 1, bound, u1);
      var (up, u') := Absorb(rs, k, bound, u);
      forall x | u < x <= u'
        ensures MemIn(rs, k, up, x)
      {
        if x <= u1 {
          assert rs[k].l <= x <= rs[k].u;
        } else {
          assert MemIn(rs, k + 1, up, x);
        }
      }
    }
  }

  /** The middle part of `add` once `it` is found: push at the end, insert before
      `it`, or widen the range at `it` and absorb the ranges it now reaches. The
      flag says whether the widened range ends at `r.u`. */
  function Place(rs: seq<Range>, it: nat, r: Range): (res: (seq<Range>, bool))
    requires it <= |rs|
    ensures it < |res.0|
    ensures res.1 ==> res.0[it].u == r.u
  {
    if it == |rs| then (rs + [r], false)
    else if rs[it].l > r.u + 1 then (rs[..it] + [r] + rs[it..], false)
    else
      var l := if rs[it].l > r.l then r.l else rs[it].l;
      if r.u > rs[it].u then
        var (up, u) := Absorb(rs, it + 1, r.u + 1, r.u);
        (rs[..it] + [Range(l, u)] + rs[up..], r.u == u)
      else (rs[..it] + [Range(l, rs[it].u)] + rs[it + 1..], false)
  }

  /** The last step of `add`: when the range below `p` ends just before `r.l`, it is
      merged with the range at `p`. */
  function MergeBelow(rs: seq<Range>, p: nat, r: Range): (res: (seq<Range>, nat))
    requires p <= |rs|
    requires p > 0 && rs[p - 1].u + 1 == r.l ==> p < |rs|
  {
    if p > 0 && rs[p - 1].u + 1 == r.l then
      (rs[..p - 1] + [Range(rs[p - 1].l, rs[p].u)] + rs[p + 1..], p - 1)
    else (rs, p)
  }

  /** `Domain::add(start, r)` as written: after widening a range to end at `r.u` it
      steps past it, so the range below is never merged with it. */
  function AddAsWritten(rs: seq<Range>, start: nat, r: Range): (seq<Range>, nat)
    requires start <= |rs|
  {
    if r.l > r.u then (rs, start)
    else
      var it := LowerBound(rs, start, r.l);
      var placed := Place(rs, it, r);
      MergeBelow(placed.0, if placed.1 then it + 1 else it, r)
  }

  /** `Domain::add(start, r)` with the merge below applied in every case. */
  function Add(rs: seq<Range>, start: nat, r: Range): (seq<Range>, nat)
    requires start <= |rs|
  {
    if r.l > r.u then (rs, start)
    else
      var it := LowerBound(rs, start, r.l);
      var placed := Place(rs, it, r);
      MergeBelow(placed.0, it, r)
  }
  lemma MemAppend(a: seq<Range>, b: seq<Range>)
    ensures forall y :: Mem(a + b, y) <==> Mem(a, y) || Mem(b, y)
  {
    forall y | Mem(a + b, y)
      ensures Mem(a, y) || Mem(b, y)
    {
      var i :| 0 <= i < |a + b| && (a + b)[i].l <= y <= (a + b)[i].u;
      if i >= |a| {
        assert b[i - |a|] == (a + b)[i];
      }
    }
    forall y | Mem(a, y)
      ensures Mem(a + b, y)
    {
      var i :| 0 <= i < |a| && a[i].l <= y <= a[i].u;
      assert (a + b)[i] == a[i];
    }
    forall y | Mem(b, y)
      ensures Mem(a + b, y)
    {
      var i :| 0 <= i < |b| && b[i].l <= y <= b[i].u;
      assert (a + b)[|a| + i] == b[i];
    }
  }

  lemma MemSingle(x: Range)
    ensures forall y :: Mem([x], y) <==> x.l <= y <= x.u
  {
    forall y | x.l <= y <= x.u
      ensures Mem([x], y)
    {
      assert [x][0] == x;
    }
  }

  /** The ranges of a list split into a prefix, the ranges `it .. up - 1` and a
      suffix. */
  lemma MemThree(rs: seq<Range>, it: nat, up: nat)
    requires it <= up <= |rs|
    ensures forall y :: Mem(rs, y) <==> Mem(rs[..it], y) || MemIn(rs, it, up, y) || Mem(rs[up..], y)
  {
    forall y
      ensures Mem(rs, y) <==> Mem(rs[..it], y) || MemIn(rs, it, up, y) || Mem(rs[up..], y)
    {
      if Mem(rs, y) {
        var i :| 0 <= i < |rs| && rs[i].l <= y <= rs[i].u;
        if i < it {
          assert rs[..it][i] == rs[i];
        } else if i >= up {
          assert rs[up..][i - up] == rs[i];
        }
      }
      if Mem(rs[..it], y) {
        var i :| 0 <= i < it && rs[..it][i].l <= y <= rs[..it][i].u;
        assert rs[i] == rs[..it][i];
      }
      if Mem(rs[up..], y) {
        var i :| 0 <= i < |rs| - up && rs[up..][i].l <= y <= rs[up..][i].u;
        assert rs[up + i] == rs[up..][i];
      }
    }
  }

  /** Replacing the ranges `it .. up - 1` of a normal list by one range `x` that
      keeps a gap to the suffix and does not reach back into the prefix. */
  lemma SpliceNormal(rs: seq<Range>, it: nat, up: nat, x: Range)
    requires Normal(rs) && it <= up <= |rs| && x.l <= x.u
    requires it > 0 ==> rs[it - 1].u + 1 <= x.l
    requires up < |rs| ==> x.u + 1 < rs[up].l
    ensures NormalBut(rs[..it] + [x] + rs[up..], it)
  {
    var rs' := rs[..it] + [x] + rs[up..];
    assert forall k :: 0 <= k < it ==> rs'[k] == rs[k];
    assert rs'[it] == x;
    assert forall k :: it < k < |rs'| ==> rs'[k] == rs[k - it - 1 + up];
    forall i, j | 0 <= i < j < |rs'|
      ensures rs'[i].u + 1 < rs'[j].l || (i + 1 == it == j && rs'[i].u + 1 == rs'[j].l)
    {
      if j < it {
      } else if j == it {
        if i + 1 < it {
          assert rs[i].u + 1 < rs[it - 1].l;
        }
      } else if i > it {
      } else if i == it {
        if j > it + 1 {
          assert rs[up].u + 1 < rs[j - it - 1 + up].l;
        }
      } else {
        assert rs[i].u + 1 <= x.l;
      }
    }
  }

  lemma SpliceMem(rs: seq<Range>, it: nat, up: nat, x: Range)
    requires it <= up <= |rs|
    ensures var rs' := rs[..it] + [x] + rs[up..];
      rs'[it] == x && (forall k :: 0 <= k < it ==> rs'[k] == rs[k]) &&
      (forall y :: Mem(rs', y) <==> Mem(rs[..it], y) || x.l <= y <= x.u || Mem(rs[up..], y))
  {
    MemAppend(rs[..it] + [x], rs[up..]);
    MemAppend(rs[..it], [x]);
    MemSingle(x);
  }

  /** `add` when `r` goes in as a range of its own, before `it`. */
  lemma PlaceInsert(rs: seq<Range>, it: nat, r: Range)
    requires Normal(rs) && it <= |rs| && r.l <= r.u
    requires it > 0 ==> rs[it - 1].u < r.l
    requires it < |rs| ==> rs[it].l > r.u + 1
    ensures var rs' := rs[..it] + [r] + rs[it..];
      NormalBut(rs', it) && rs'[it] == r && (forall k :: 0 <= k < it ==> rs'[k] == rs[k]) &&
      (forall y :: Mem(rs', y) <==> Mem(rs, y) || r.l <= y <= r.u)
  {
    SpliceNormal(rs, it, it, r);
    SpliceMem(rs, it, it, r);
    MemThree(rs, it, it);
  }

  /** `add` when the range at `it` only has to be widened downwards. */
  lemma PlaceWiden(rs: seq<Range>, it: nat, r: Range)
    requires Normal(rs) && it < |rs| && r.l <= r.u
    requires it > 0 ==> rs[it - 1].u < r.l
    requires r.l <= rs[it].u && rs[it].l <= r.u + 1 && r.u <= rs[it].u
    ensures var x := Range(if rs[it].l > r.l then r.l else rs[it].l, rs[it].u);
      var rs' := rs[..it] + [x] + rs[it + 1..];
      NormalBut(rs', it) && rs'[it] == x && (forall k :: 0 <= k < it ==> rs'[k] == rs[k]) &&
      (forall y :: Mem(rs', y) <==> Mem(rs, y) || r.l <= y <= r.u)
  {
    var x := Range(if rs[it].l > r.l then r.l else rs[it].l, rs[it].u);
    if it > 0 {
      assert rs[it - 1].u + 1 < rs[it].l;
    }
    SpliceNormal(rs, it, it + 1, x);
    SpliceMem(rs, it, it + 1, x);
    WidenMem(rs, it, r, x);
  }

  /** The values of the widened range, with those before and after it, are the
      old values and those of `r`. */
  lemma WidenMem(rs: seq<Range>, it: nat, r: Range, x: Range)
    requires it < |rs| && r.l <= rs[it].u && rs[it].l <= r.u + 1 && r.u <= rs[it].u
    requires x == Range(if rs[it].l > r.l then r.l else rs[it].l, rs[it].u)
    ensures forall y :: Mem(rs[..it], y) || x.l <= y <= x.u || Mem(rs[it + 1..], y) <==> Mem(rs, y) || r.l <= y <= r.u
  {
    MemThree(rs, it, it + 1);
    var k := it + 1;
    forall y
      ensures MemIn(rs, it, k, y) <==> rs[it].l <= y <= rs[it].u
    {
      if rs[it].l <= y <= rs[it].u {
        assert rs[it].l <= y <= rs[it].u;
      }
    }
  }

  /** The widened range of `add` holds exactly the values of `r` and of the ranges
      it swallows. */
  lemma AbsorbMem(rs: seq<Range>, it: nat, r: Range)
    requires Normal(rs) && it < |rs| && r.l <= r.u
    requires r.l <= rs[it].u && rs[it].l <= r.u + 1 && r.u > rs[it].u
    ensures var (up, u) := Absorb(rs, it + 1, r.u + 1, r.u);
      var l := if rs[it].l > r.l then r.l else rs[it].l;
      forall y :: l <= y <= u <==> r.l <= y <= r.u || MemIn(rs, it, up, y)
  {
    var up := Absorb(rs, it + 1, r.u + 1, r.u).0;
    var u := Absorb(rs, it + 1, r.u + 1, r.u).1;
    AbsorbCovers(rs, it + 1, r.u + 1, r.u);
    AbsorbMemIn(rs, it, it + 1, r, up, u);
    AbsorbMemOut(rs, it, r, up, u);
  }

  /** Each value of the widened range is in `r` or in an absorbed range. */
  lemma AbsorbMemIn(rs: seq<Range>, it: nat, k: nat, r: Range, up: nat, u: int)
    requires k == it + 1 && it < up <= |rs| && r.l <= rs[it].u && r.u > rs[it].u
    requires forall x :: r.u < x <= u ==> MemIn(rs, k, up, x)
    ensures var l := if rs[it].l > r.l then r.l else rs[it].l;
      forall y :: l <= y <= u ==> r.l <= y <= r.u || MemIn(rs, it, up, y)
  {
    var l := if rs[it].l > r.l then r.l else rs[it].l;
    forall y | l <= y <= u && !(r.l <= y <= r.u)
      ensures MemIn(rs, it, up, y)
    {
      if y < r.l {
        assert rs[it].l <= y <= rs[it].u;
      } else {
        assert MemIn(rs, k, up, y);
        var j :| k <= j < up && 0 <= j < |rs| && rs[j].l <= y <= rs[j].u;
      }
    }
  }

  /** The values of `r` and of the absorbed ranges are in the widened range. */
  lemma AbsorbMemOut(rs: seq<Range>, it: nat, r: Range, up: nat, u: int)
    requires Normal(rs) && it < up <= |rs| && r.u > rs[it].u && r.u <= u
    requires forall j :: it + 1 <= j < up ==> rs[j].u <= u
    ensures var l := if rs[it].l > r.l then r.l else rs[it].l;
      forall y :: r.l <= y <= r.u || MemIn(rs, it, up, y) ==> l <= y <= u
  {
    forall y | MemIn(rs, it, up, y)
      ensures (if rs[it].l > r.l then r.l else rs[it].l) <= y <= u
    {
      var j :| it <= j < up && 0 <= j < |rs| && rs[j].l <= y <= rs[j].u;
      if j > it {
        assert rs[it].u + 1 < rs[j].l;
      }
    }
  }


  /** `add` when the range at `it` grows upwards and swallows the ranges it reaches. */
  lemma PlaceAbsorb(rs: seq<Range>, it: nat, r: Range)
    requires Normal(rs) && it < |rs| && r.l <= r.u
    requires it > 0 ==> rs[it - 1].u < r.l
    requires r.l <= rs[it].u && rs[it].l <= r.u + 1 && r.u > rs[it].u
    ensures var up := Absorb(rs, it + 1, r.u + 1, r.u).0;
      var x := Range(if rs[it].l > r.l then r.l else rs[it].l, Absorb(rs, it + 1, r.u + 1, r.u).1);
      var rs' := rs[..it] + [x] + rs[up..];
      NormalBut(rs', it) && rs'[it] == x && r.u <= x.u && (forall k :: 0 <= k < it ==> rs'[k] == rs[k]) &&
      (forall y :: Mem(rs', y) <==> Mem(rs, y) || r.l <= y <= r.u)
  {
    var up := Absorb(rs, it + 1, r.u + 1, r.u).0;
    var u := Absorb(rs, it + 1, r.u + 1, r.u).1;
    var x := Range(if rs[it].l > r.l then r.l else rs[it].l, u);
    AbsorbCovers(rs, it + 1, r.u + 1, r.u);
    if it > 0 {
      assert rs[it - 1].u + 1 < rs[it].l;
    }
    if up < |rs| && u != r.u {
      var j :| it + 1 <= j < up && rs[j].u == u;
      assert rs[j].u + 1 < rs[up].l;
    }
    SpliceNormal(rs, it, up, x);
    SpliceMem(rs, it, up, x);
    MemThree(rs, it, up);
    AbsorbMem(rs, it, r);
  }

  /** What the middle part of `add` leaves: a list that is normal up to the range
      at `it` touching the one below, holding the old values and those of `r`. */
  lemma PlaceFacts(rs: seq<Range>, start: nat, r: Range)
    requires Normal(rs) && start <= |rs| && r.l <= r.u
    requires forall k :: 0 <= k < start ==> rs[k].u < r.l
    ensures var it := LowerBound(rs, start, r.l);
      var rs' := Place(rs, it, r).0;
      NormalBut(rs', it) && rs'[it].l <= r.l && r.u <= rs'[it].u &&
      (it > 0 ==> (rs'[it - 1].u + 1 == r.l <==> rs'[it - 1].u + 1 == rs'[it].l)) &&
      (forall y :: Mem(rs', y) <==> Mem(rs, y) || r.l <= y <= r.u)
  {
    var it := LowerBound(rs, start, r.l);
    LowerBoundFirst(rs, start, r.l);
    assert it > 0 ==> rs[it - 1].u < r.l;
    PlaceAt(rs, it, r);
  }

  /** The middle part of `add` at a position `it` whose range is the first to
      reach `r.l`. */
  lemma PlaceAt(rs: seq<Range>, it: nat, r: Range)
    requires Normal(rs) && it <= |rs| && r.l <= r.u
    requires it > 0 ==> rs[it - 1].u < r.l
    requires it < |rs| ==> r.l <= rs[it].u
    ensures var rs' := Place(rs, it, r).0;
      NormalBut(rs', it) && rs'[it].l <= r.l && r.u <= rs'[it].u &&
      (it > 0 ==> (rs'[it - 1].u + 1 == r.l <==> rs'[it - 1].u + 1 == rs'[it].l)) &&
      (forall y :: Mem(rs', y) <==> Mem(rs, y) || r.l <= y <= r.u)
  {
    var rs' := Place(rs, it, r).0;
    if it == |rs| {
      assert rs' == rs[..it] + [r] + rs[it..];
      PlaceInsert(rs, it, r);
    } else if rs[it].l > r.u + 1 {
      assert rs' == rs[..it] + [r] + rs[it..];
      PlaceInsert(rs, it, r);
    } else {
      if it > 0 {
        assert rs[it - 1].u + 1 < rs[it].l;
      }
      var x := Range(if rs[it].l > r.l then r.l else rs[it].l, rs'[it].u);
      if r.u > rs[it].u {
        assert rs' == rs[..it] + [x] + rs[Absorb(rs, it + 1, r.u + 1, r.u).0..];
        PlaceAbsorb(rs, it, r);
      } else {
        assert rs' == rs[..it] + [x] + rs[it + 1..];
        PlaceWiden(rs, it, r);
      }
    }
  }
  /** The merge step of `add` restores the normal form. */
  lemma MergeFacts(rs: seq<Range>, p: nat, r: Range)
    requires NormalBut(rs, p) && p < |rs|
    requires rs[p].l <= r.l && r.u <= rs[p].u
    requires p > 0 ==> (rs[p - 1].u + 1 == r.l <==> rs[p - 1].u + 1 == rs[p].l)
    ensures var (rs', q) := MergeBelow(rs, p, r);
      Normal(rs') && q < |rs'| && rs'[q].l <= r.l && r.u <= rs'[q].u &&
      (forall y :: Mem(rs', y) <==> Mem(rs, y))
  {
    if p > 0 && rs[p - 1].u + 1 == r.l {
      var x := Range(rs[p - 1].l, rs[p].u);
      var rs' := rs[..p - 1] + [x] + rs[p + 1..];
      assert forall k :: 0 <= k < p - 1 ==> rs'[k] == rs[k];
      assert rs'[p - 1] == x;
      assert forall k :: p - 1 < k < |rs'| ==> rs'[k] == rs[k + 1];
      forall i, j | 0 <= i < j < |rs'|
        ensures rs'[i].u + 1 < rs'[j].l
      {
        if j < p - 1 {
        } else if j == p - 1 {
          assert rs[i].u + 1 < rs[p - 1].l;
        } else if i == p - 1 {
          assert rs[p].u + 1 < rs[j + 1].l;
        } else {
          assert rs[i].u + 1 < rs[j + 1].l;
        }
      }
      SpliceMem(rs, p - 1, p + 1, x);
      MemThree(rs, p - 1, p + 1);
      var q := p - 1;
      var up := p + 1;
      forall y
        ensures MemIn(rs, q, up, y) <==> x.l <= y <= x.u
      {
        if x.l <= y <= x.u {
          if y <= rs[q].u {
            assert rs[q].l <= y <= rs[q].u;
          } else {
            assert rs[p].l <= y <= rs[p].u;
          }
        }
      }
    } else {
      forall i, j | 0 <= i < j < |rs|
        ensures rs[i].u + 1 < rs[j].l
      {
      }
    }
  }

  /** `add(start, r)` on a normal list keeps it normal and adds exactly the values
      of `r`; the position returned is the range holding `r`, a valid start for the
      next `add` of a range above `r`. An empty `r` changes nothing. */
  lemma AddFacts(rs: seq<Range>, start: nat, r: Range)
    requires Normal(rs) && start <= |rs|
    requires forall k :: 0 <= k < start ==> rs[k].u < r.l
    ensures var (rs', it) := Add(rs, start, r);
      Normal(rs') && (forall y :: Mem(rs', y) <==> Mem(rs, y) || r.l <= y <= r.u) &&
      (r.l <= r.u ==> it < |rs'| && rs'[it].l <= r.l && r.u <= rs'[it].u)
  {
    if r.l <= r.u {
      var it := LowerBound(rs, start, r.l);
      PlaceFacts(rs, start, r);
      MergeFacts(Place(rs, it, r).0, it, r);
    }
  }

  /** `add` as written still adds exactly the values of `r`, but its result may
      hold touching ranges. */
  lemma AddAsWrittenFacts(rs: seq<Range>, start: nat, r: Range)
    requires Normal(rs) && start <= |rs|
    requires forall k :: 0 <= k < start ==> rs[k].u < r.l
    ensures var rs' := AddAsWritten(rs, start, r).0;
      Disjoint(rs') && (forall y :: Mem(rs', y) <==> Mem(rs, y) || r.l <= y <= r.u)
  {
    if r.l <= r.u {
      var it := LowerBound(rs, start, r.l);
      PlaceFacts(rs, start, r);
      var placed := Place(rs, it, r);
      var rs' := AddAsWritten(rs, start, r).0;
      if placed.1 {
        assert rs' == placed.0;
        NormalButDisjoint(placed.0, it);
      } else {
        assert rs' == Add(rs, start, r).0;
        AddFacts(rs, start, r);
        NormalButDisjoint(rs', 0);
      }
    }
  }

  lemma NormalButDisjoint(rs: seq<Range>, p: nat)
    requires NormalBut(rs, p)
    ensures Disjoint(rs)
  {
  }

  /** Adding [1,6] to [0,0],[5,5] leaves the touching ranges [0,0],[1,6] where the
      normal form is the single range [0,6]. */
  lemma AddAsWrittenLeavesTouching()
    ensures AddAsWritten([Range(0, 0), Range(5, 5)], 0, Range(1, 6)).0 == [Range(0, 0), Range(1, 6)]
    ensures !Normal([Range(0, 0), Range(1, 6)])
    ensures Add([Range(0, 0), Range(5, 5)], 0, Range(1, 6)).0 == [Range(0, 6)]
  {
    var rs := [Range(0, 0), Range(5, 5)];
    var r := Range(1, 6);
    assert LowerBound(rs, 0, 1) == 1;
    assert Absorb(rs, 2, 7, 6) == (2, 6);
    var placed := [Range(0, 0), Range(1, 6)];
    assert rs[..1] + [Range(1, 6)] + rs[2..] == placed;
    assert Place(rs, 1, r) == (placed, true);
    assert placed[..0] + [Range(0, 6)] + placed[2..] == [Range(0, 6)];
    var t := [Range(0, 0), Range(1, 6)];
    assert t[0].u + 1 == t[1].l;
  }
  /** In a normal list the first range holding a value not below `x` decides
      whether `x` is in the domain: this is how `in(x)` looks it up. */
  lemma LowerBoundDecidesMem(rs: seq<Range>, x: int)
    requires Normal(rs)
    ensures var j := LowerBound(rs, 0, x);
      Mem(rs, x) <==> j < |rs| && rs[j].l <= x
  {
    var j := LowerBound(rs, 0, x);
    LowerBoundFirst(rs, 0, x);
    if Mem(rs, x) {
      var i :| 0 <= i < |rs| && rs[i].l <= x <= rs[i].u;
      if i > j {
        assert rs[j].u + 1 < rs[i].l;
      }
    }
  }

  /** The values of a normal list lie between its first lower and last upper bound. */
  lemma NormalBounds(rs: seq<Range>)
    requires Normal(rs) && rs != []
    ensures forall y :: Mem(rs, y) ==> rs[0].l <= y <= rs[|rs| - 1].u
  {
    forall y | Mem(rs, y)
      ensures rs[0].l <= y <= rs[|rs| - 1].u
    {
      var i :| 0 <= i < |rs| && rs[i].l <= y <= rs[i].u;
      if 0 < i {
        assert rs[0].u + 1 < rs[i].l;
      }
      if i < |rs| - 1 {
        assert rs[i].u + 1 < rs[|rs| - 1].l;
      }
    }
  }

  /** A suffix or prefix of a normal list is normal. */
  lemma NormalSlice(rs: seq<Range>, i: nat, j: nat)
    requires Normal(rs) && i <= j <= |rs|
    ensures Normal(rs[i..j])
  {
    var t := rs[i..j];
    assert forall k :: 0 <= k < |t| ==> t[k] == rs[i + k];
  }

  /** `intersect(lower, upper)`: drop everything below `lower` and above `upper`,
      cutting the ranges that hold the bounds. The flag is the return value. */
  function Intersect(rs: seq<Range>, lower: int, upper: int): (r: (seq<Range>, bool))
    requires lower <= upper ==> rs != []
  {
    if lower > upper then ([], false)
    else if rs[0].l == lower && rs[|rs| - 1].u == upper then (rs, true)
    else
      var it := LowerBound(rs, 0, lower);
      if it == |rs| then ([], false)
      else CutUpper(ClipLower(rs[it..], lower), upper)
  }

  /** The second half of `intersect`: lower the range holding `upper` to end there
      and drop the ranges after it. The flag is the return value. */
  function CutUpper(rs: seq<Range>, upper: int): (r: (seq<Range>, bool))
  {
    var jt := LowerBound(rs, 0, upper);
    if jt == |rs| then (rs, true)
    else if upper >= rs[jt].l then (rs[..jt] + [Range(rs[jt].l, upper)], true)
    else (rs[..jt], jt != 0)
  }

  /** Raise the lower end of the first range to `lower` when `lower` falls inside it. */
  function ClipLower(rs: seq<Range>, lower: int): seq<Range>
    requires rs != []
  {
    if lower >= rs[0].l then rs[0 := Range(lower, rs[0].u)] else rs
  }

  /** The ranges before the lower bound of `v` hold only values below `v`. */
  lemma DropBelow(rs: seq<Range>, v: int)
    requires Normal(rs)
    ensures var it := LowerBound(rs, 0, v);
      Normal(rs[it..]) && forall y :: Mem(rs[it..], y) <==> Mem(rs, y) && (v <= y || Mem(rs[it..], y))
  {
    var it := LowerBound(rs, 0, v);
    LowerBoundFirst(rs, 0, v);
    NormalSlice(rs, it, |rs|);
    MemThree(rs, it, it);
    var below := rs[..it];
    assert forall k :: 0 <= k < |below| ==> below[k].u < v;
    forall y
      ensures Mem(rs[it..], y) <==> Mem(rs, y) && (v <= y || Mem(rs[it..], y))
    {
      assert !MemIn(rs, it, it, y);
      if v <= y {
        NotMemBelow(below, v, y);
      }
    }
  }

  /** No value at or above `v` lies in ranges that all end below `v`. */
  lemma NotMemBelow(rs: seq<Range>, v: int, y: int)
    requires forall k :: 0 <= k < |rs| ==> rs[k].u < v
    requires v <= y
    ensures !Mem(rs, y)
  {
  }

  lemma ClipLowerFacts(rs: seq<Range>, lower: int)
    requires Normal(rs) && rs != [] && lower <= rs[0].u
    requires forall y :: Mem(rs, y) && y < lower ==> rs[0].l <= y <= rs[0].u
    ensures var rs1 := ClipLower(rs, lower);
      Normal(rs1) && rs1 != [] && forall y :: Mem(rs1, y) <==> Mem(rs, y) && lower <= y
  {
    var rs1 := ClipLower(rs, lower);
    assert forall k :: 0 < k < |rs| ==> rs1[k] == rs[k];
    assert Normal(rs1) by {
      forall i, j | 0 <= i < j < |rs1|
        ensures rs1[i].u + 1 < rs1[j].l
      {
        assert rs[i].u + 1 < rs[j].l;
      }
    }
    forall y
      ensures Mem(rs1, y) <==> Mem(rs, y) && lower <= y
    {
      if Mem(rs1, y) {
        var i :| 0 <= i < |rs1| && rs1[i].l <= y <= rs1[i].u;
        if i > 0 {
          assert rs[0].u + 1 < rs[i].l;
        }
        assert rs[i].l <= y <= rs[i].u;
      }
      if Mem(rs, y) && lower <= y {
        var i :| 0 <= i < |rs| && rs[i].l <= y <= rs[i].u;
        assert rs1[i].l <= y <= rs1[i].u;
      }
    }
  }

  /** Around the lower bound of `upper`: the ranges before it end below `upper`,
      and a value up to `upper` after them lies in the range at the bound. */
  lemma SplitAtUpper(rs: seq<Range>, upper: int)
    requires Normal(rs)
    ensures var jt := LowerBound(rs, 0, upper);
      (forall y :: Mem(rs[..jt], y) ==> y < upper && Mem(rs, y)) &&
      (forall y :: Mem(rs, y) && y <= upper ==> Mem(rs[..jt], y) || (jt < |rs| && rs[jt].l <= y <= rs[jt].u)) &&
      (jt < |rs| ==> forall y :: Mem(rs, y) && rs[jt].l <= y ==> !Mem(rs[..jt], y))
  {
    var jt := LowerBound(rs, 0, upper);
    LowerBoundFirst(rs, 0, upper);
    PrefixBelow(rs, jt, upper);
    UpToBound(rs, jt, upper);
    if jt < |rs| {
      PrefixBeforeNext(rs, jt);
    }
  }

  /** The ranges before `jt`, which all end below `upper`, hold values below
      `upper` only. */
  lemma PrefixBelow(rs: seq<Range>, jt: nat, upper: int)
    requires jt <= |rs| && forall i :: 0 <= i < jt ==> rs[i].u < upper
    ensures forall y :: Mem(rs[..jt], y) ==> y < upper && Mem(rs, y)
  {
    forall y | Mem(rs[..jt], y)
      ensures y < upper && Mem(rs, y)
    {
      var i :| 0 <= i < jt && rs[..jt][i].l <= y <= rs[..jt][i].u;
      assert rs[i].u < upper && rs[i].l <= y <= rs[i].u;
    }
  }

  /** A value up to `upper` lies before `jt` or in the range at `jt`, the
      first to reach `upper`. */
  lemma UpToBound(rs: seq<Range>, jt: nat, upper: int)
    requires Normal(rs) && jt <= |rs| && (jt < |rs| ==> upper <= rs[jt].u)
    ensures forall y :: Mem(rs, y) && y <= upper ==> Mem(rs[..jt], y) || (jt < |rs| && rs[jt].l <= y <= rs[jt].u)
  {
    forall y | Mem(rs, y) && y <= upper
      ensures Mem(rs[..jt], y) || (jt < |rs| && rs[jt].l <= y <= rs[jt].u)
    {
      var i :| 0 <= i < |rs| && rs[i].l <= y <= rs[i].u;
      if jt < |rs| {
        assert rs[i].l <= rs[jt].u + 1;
      }
      if i < jt {
        assert rs[..jt][i] == rs[i];
      }
    }
  }

  /** The values before `jt` lie below the range at `jt`. */
  lemma PrefixBeforeNext(rs: seq<Range>, jt: nat)
    requires Normal(rs) && jt < |rs|
    ensures forall y :: Mem(rs, y) && rs[jt].l <= y ==> !Mem(rs[..jt], y)
  {
    forall y | Mem(rs[..jt], y)
      ensures y < rs[jt].l
    {
      var i :| 0 <= i < jt && rs[..jt][i].l <= y <= rs[..jt][i].u;
      assert rs[i].u + 1 < rs[jt].l;
    }
  }

  /** Cutting a normal list above `upper`, as the second half of `intersect` does. */
  lemma CutUpperFacts(rs: seq<Range>, upper: int)
    requires Normal(rs) && rs != []
    ensures var (rs2, b) := CutUpper(rs, upper);
      Normal(rs2) && (forall y :: Mem(rs2, y) <==> Mem(rs, y) && y <= upper) && (b <==> rs2 != [])
  {
    var jt := LowerBound(rs, 0, upper);
    LowerBoundFirst(rs, 0, upper);
    SplitAtUpper(rs, upper);
    if jt == |rs| {
      assert rs[..jt] == rs;
    } else {
      NormalSlice(rs, 0, jt);
      assert rs[..jt] == rs[0..jt];
      if upper >= rs[jt].l {
        CutInside(rs, jt, upper);
      }
    }
  }

  lemma CutInside(rs: seq<Range>, jt: nat, upper: int)
    requires Normal(rs) && jt < |rs| && rs[jt].l <= upper <= rs[jt].u
    ensures var rs2 := rs[..jt] + [Range(rs[jt].l, upper)];
      Normal(rs2) && forall y :: Mem(rs2, y) <==> Mem(rs[..jt], y) || rs[jt].l <= y <= upper
  {
    var x := Range(rs[jt].l, upper);
    var rs2 := rs[..jt] + [x];
    MemAppend(rs[..jt], [x]);
    MemSingle(x);
    forall i, j | 0 <= i < j < |rs2|
      ensures rs2[i].u + 1 < rs2[j].l
    {
      assert rs2[i] == rs[i];
      if j < jt {
        assert rs2[j] == rs[j];
      } else {
        assert rs[i].u + 1 < rs[jt].l;
      }
    }
  }
  /** `intersect(lower, upper)` keeps exactly the values in [lower, upper], keeps
      the list normal, and returns whether anything is left; a bound pair with
      `lower > upper` empties the domain. */
  lemma IntersectFacts(rs: seq<Range>, lower: int, upper: int)
    requires Normal(rs) && (lower <= upper ==> rs != [])
    ensures var (rs', b) := Intersect(rs, lower, upper);
      Normal(rs') && (forall y :: Mem(rs', y) <==> Mem(rs, y) && lower <= y <= upper) &&
      (b <==> rs' != []) && (lower > upper ==> rs' == [] && !b)
  {
    if lower <= upper {
      if rs[0].l == lower && rs[|rs| - 1].u == upper {
        NormalBounds(rs);
      } else {
        var it := LowerBound(rs, 0, lower);
        LowerBoundFirst(rs, 0, lower);
        DropBelow(rs, lower);
        if it == |rs| {
          assert rs[it..] == [];
        } else {
          IntersectCut(rs[it..], lower, upper);
        }
      }
    }
  }

  lemma IntersectCut(tail: seq<Range>, lower: int, upper: int)
    requires Normal(tail) && tail != [] && lower <= tail[0].u
    ensures var (rs2, b) := CutUpper(ClipLower(tail, lower), upper);
      Normal(rs2) && (forall y :: Mem(rs2, y) <==> Mem(tail, y) && lower <= y <= upper) && (b <==> rs2 != [])
  {
    FirstRangeBelow(tail);
    ClipLowerFacts(tail, lower);
    CutUpperFacts(ClipLower(tail, lower), upper);
  }

  /** In a normal list, a value not above the first upper bound is in the first range. */
  lemma FirstRangeBelow(rs: seq<Range>)
    requires Normal(rs) && rs != []
    ensures forall y :: Mem(rs, y) && y <= rs[0].u ==> rs[0].l <= y
  {
    forall y | Mem(rs, y) && y <= rs[0].u
      ensures rs[0].l <= y
    {
      var i :| 0 <= i < |rs| && rs[i].l <= y <= rs[i].u;
    }
  }
  /** Replacing the range at `f` by a normal list of ranges inside it. */
  lemma ReplaceInside(rs: seq<Range>, f: nat, xs: seq<Range>)
    requires Normal(rs) && f < |rs| && Normal(xs)
    requires forall k :: 0 <= k < |xs| ==> rs[f].l <= xs[k].l && xs[k].u <= rs[f].u
    ensures var rs' := rs[..f] + xs + rs[f + 1..];
      Normal(rs') && forall y :: Mem(rs', y) <==> (Mem(rs, y) && !(rs[f].l <= y <= rs[f].u)) || Mem(xs, y)
  {
    ReplaceInsideNormal(rs, f, xs);
    ReplaceInsideMem(rs, f, xs);
  }

  lemma ReplaceInsideNormal(rs: seq<Range>, f: nat, xs: seq<Range>)
    requires Normal(rs) && f < |rs| && Normal(xs)
    requires forall k :: 0 <= k < |xs| ==> rs[f].l <= xs[k].l && xs[k].u <= rs[f].u
    ensures Normal(rs[..f] + xs + rs[f + 1..])
  {
    var rs' := rs[..f] + xs + rs[f + 1..];
    assert forall k :: 0 <= k < f ==> rs'[k] == rs[k];
    assert forall k :: 0 <= k < |xs| ==> rs'[f + k] == xs[k];
    assert forall k :: f + |xs| <= k < |rs'| ==> rs'[k] == rs[k - |xs| + 1];
    forall i, j | 0 <= i < j < |rs'|
      ensures rs'[i].u + 1 < rs'[j].l
    {
      if j < f {
      } else if i < f && j < f + |xs| {
        assert rs[i].u + 1 < rs[f].l;
        assert rs'[j] == xs[j - f];
      } else if i < f {
        assert rs[i].u + 1 < rs[j - |xs| + 1].l;
      } else if i < f + |xs| && j < f + |xs| {
        assert rs'[i] == xs[i - f] && rs'[j] == xs[j - f];
      } else if i < f + |xs| {
        assert rs'[i] == xs[i - f];
        assert rs[f].u + 1 < rs[j - |xs| + 1].l;
      } else {
        assert rs[i - |xs| + 1].u + 1 < rs[j - |xs| + 1].l;
      }
    }
  }

  lemma ReplaceInsideMem(rs: seq<Range>, f: nat, xs: seq<Range>)
    requires Normal(rs) && f < |rs|
    ensures var rs' := rs[..f] + xs + rs[f + 1..];
      forall y :: Mem(rs', y) <==> (Mem(rs, y) && !(rs[f].l <= y <= rs[f].u)) || Mem(xs, y)
  {
    var rs' := rs[..f] + xs + rs[f + 1..];
    MemAppend(rs[..f] + xs, rs[f + 1..]);
    MemAppend(rs[..f], xs);
    MemThree(rs, f, f + 1);
    var g := f + 1;
    forall y
      ensures Mem(rs', y) <==> (Mem(rs, y) && !(rs[f].l <= y <= rs[f].u)) || Mem(xs, y)
    {
      assert MemIn(rs, f, g, y) <==> rs[f].l <= y <= rs[f].u;
      if Mem(rs[..f], y) {
        var i :| 0 <= i < f && rs[..f][i].l <= y <= rs[..f][i].u;
        assert rs[i].u + 1 < rs[f].l;
      }
      if Mem(rs[g..], y) {
        var i :| 0 <= i < |rs| - g && rs[g..][i].l <= y <= rs[g..][i].u;
        assert rs[f].u + 1 < rs[g + i].l;
      }
    }
  }

  /** What is left of range `r` once `x`, which lies in it, is cut out: the range
      shrunk at an end, split in the middle, or nothing when it held only `x`. */
  function CutValue(r: Range, x: int): seq<Range>
  {
    var l := if x == r.l then r.l + 1 else r.l;
    var u := if x == r.u then r.u - 1 else r.u;
    if l > u then []
    else if x != r.l && x != r.u then [Range(l, x - 1), Range(x + 1, u)]
    else [Range(l, u)]
  }

  lemma CutValueFacts(r: Range, x: int)
    requires r.l <= x <= r.u
    ensures Normal(CutValue(r, x))
    ensures forall k :: 0 <= k < |CutValue(r, x)| ==> r.l <= CutValue(r, x)[k].l && CutValue(r, x)[k].u <= r.u
    ensures forall y :: Mem(CutValue(r, x), y) <==> r.l <= y <= r.u && y != x
  {
    var xs := CutValue(r, x);
    if x != r.l && x != r.u {
      var a, b := Range(r.l, x - 1), Range(x + 1, r.u);
      assert [a] + [b] == xs;
      MemAppend([a], [b]);
      MemSingle(a);
      MemSingle(b);
    } else if xs != [] {
      MemSingle(xs[0]);
    }
  }

  /** `remove(x)`: cut `x` out of the range holding it, if any. */
  function RemoveValue(rs: seq<Range>, x: int): seq<Range>
  {
    var f := LowerBound(rs, 0, x);
    if f == |rs| || x < rs[f].l then rs
    else rs[..f] + CutValue(rs[f], x) + rs[f + 1..]
  }

  /** `remove(x)` deletes exactly `x` and keeps the list normal. */
  lemma RemoveValueFacts(rs: seq<Range>, x: int)
    requires Normal(rs)
    ensures Normal(RemoveValue(rs, x))
    ensures forall y :: Mem(RemoveValue(rs, x), y) <==> Mem(rs, y) && y != x
  {
    var f := LowerBound(rs, 0, x);
    LowerBoundDecidesMem(rs, x);
    LowerBoundFirst(rs, 0, x);
    if f < |rs| && rs[f].l <= x {
      CutValueFacts(rs[f], x);
      ReplaceInside(rs, f, CutValue(rs[f], x));
    }
  }

  /** `unify(d)`: every range of `d` added in turn, each search starting at the
      front. */
  function Unify(rs: seq<Range>, others: seq<Range>): seq<Range>
    decreases |others|
  {
    if others == [] then rs else Unify(Add(rs, 0, others[0]).0, others[1..])
  }

  /** `unify` keeps the list normal and yields the union. */
  lemma {:induction false} UnifyFacts(rs: seq<Range>, others: seq<Range>)
    requires Normal(rs)
    ensures Normal(Unify(rs, others))
    ensures forall y :: Mem(Unify(rs, others), y) <==> Mem(rs, y) || Mem(others, y)
    decreases |others|
  {
    if others != [] {
      var r := others[0];
      AddFacts(rs, 0, r);
      UnifyFacts(Add(rs, 0, r).0, others[1..]);
      assert others == [r] + others[1..];
      MemAppend([r], others[1..]);
      MemSingle(r);
    }
  }

  /** `remove(lower, upper)`: nothing when `lower > upper`; otherwise the part below
      `lower` and the part above `upper` are cut out by two intersections and put
      together again. The flag is the return value. */
  function RemoveRange(rs: seq<Range>, lower: int, upper: int): (seq<Range>, bool)
    requires lower <= upper ==> rs != []
  {
    if lower > upper then (rs, true)
    else
      var below := Intersect(rs, rs[0].l, lower - 1).0;
      var above := Intersect(rs, upper + 1, rs[|rs| - 1].u).0;
      var rs' := Unify(above, below);
      (rs', rs' != [])
  }

  /** The part of a normal list between two bounds, as a normal list. */
  lemma IntersectPart(rs: seq<Range>, lower: int, upper: int)
    requires Normal(rs) && rs != []
    ensures Normal(Intersect(rs, lower, upper).0)
    ensures forall y :: Mem(Intersect(rs, lower, upper).0, y) <==> Mem(rs, y) && lower <= y <= upper
  {
    IntersectFacts(rs, lower, upper);
  }

  /** Removing `[lower, upper]` from a list bounded by `lo` and `hi` leaves the part
      below `lower` and the part above `upper`. */
  lemma UnionOutside(rs: seq<Range>, above: seq<Range>, below: seq<Range>, rs': seq<Range>,
                     lower: int, upper: int, lo: int, hi: int)
    requires forall y :: Mem(rs', y) <==> Mem(above, y) || Mem(below, y)
    requires forall y :: Mem(above, y) <==> Mem(rs, y) && upper + 1 <= y <= hi
    requires forall y :: Mem(below, y) <==> Mem(rs, y) && lo <= y <= lower - 1
    requires forall y :: Mem(rs, y) ==> lo <= y <= hi
    ensures forall y :: Mem(rs', y) <==> Mem(rs, y) && !(lower <= y <= upper)
  {
  }

  /** Both intersections of `remove(lower, upper)` together hold exactly the
      values outside `[lower, upper]`. */
  lemma RemoveRangeFacts(rs: seq<Range>, lower: int, upper: int)
    requires Normal(rs) && (lower <= upper ==> rs != [])
    ensures Normal(RemoveRange(rs, lower, upper).0)
    ensures RemoveRange(rs, lower, upper).1 <==> RemoveRange(rs, lower, upper).0 != [] || lower > upper
    ensures forall y :: Mem(RemoveRange(rs, lower, upper).0, y) <==> Mem(rs, y) && !(lower <= y <= upper)
  {
    if lower <= upper {
      RemoveRangeInside(rs, lower, upper);
    }
  }

  lemma RemoveRangeInside(rs: seq<Range>, lower: int, upper: int)
    requires Normal(rs) && lower <= upper && rs != []
    ensures Normal(RemoveRange(rs, lower, upper).0)
    ensures forall y :: Mem(RemoveRange(rs, lower, upper).0, y) <==> Mem(rs, y) && !(lower <= y <= upper)
  {
    IntersectPart(rs, rs[0].l, lower - 1);
    IntersectPart(rs, upper + 1, rs[|rs| - 1].u);
    UnifyFacts(Intersect(rs, upper + 1, rs[|rs| - 1].u).0, Intersect(rs, rs[0].l, lower - 1).0);
    NormalBounds(rs);
    UnionOutside(rs, Intersect(rs, upper + 1, rs[|rs| - 1].u).0, Intersect(rs, rs[0].l, lower - 1).0,
      RemoveRange(rs, lower, upper).0, lower, upper, rs[0].l, rs[|rs| - 1].u);
  }

  /** `remove(lower, upper)` with `lower > upper` changes nothing and succeeds. */
  lemma RemoveEmptyRange(rs: seq<Range>, lower: int, upper: int)
    requires lower > upper
    ensures RemoveRange(rs, lower, upper) == (rs, true)
  {
  }

  /** A range negated: `[l, u]` becomes `[-u, -l]`. */
  function Flip(r: Range): Range {
    Range(-r.u, -r.l)
  }

  /** What `reverse` leaves: the ranges in the opposite order, each negated. */
  function Reversed(rs: seq<Range>): (rs': seq<Range>)
    ensures |rs'| == |rs|
  {
    seq(|rs|, i requires 0 <= i < |rs| => Flip(rs[|rs| - 1 - i]))
  }

  lemma ReversedAt(rs: seq<Range>, i: nat)
    requires i < |rs|
    ensures Reversed(rs)[i] == Flip(rs[|rs| - 1 - i])
  {
  }

  /** A list that holds at each position the negated range from the other end is
      the reversed list. */
  lemma ReversedIs(rs: seq<Range>, xs: seq<Range>)
    requires |xs| == |rs|
    requires forall i :: 0 <= i < |rs| ==> xs[i] == Flip(rs[|rs| - 1 - i])
    ensures xs == Reversed(rs)
  {
  }

  /** `reverse` negates the set and keeps the list normal. */
  lemma ReversedFacts(rs: seq<Range>)
    requires Normal(rs)
    ensures Normal(Reversed(rs))
    ensures forall y :: Mem(Reversed(rs), y) <==> Mem(rs, -y)
  {
    ReversedNormal(rs);
    forall y
      ensures Mem(Reversed(rs), y) <==> Mem(rs, -y)
    {
      ReversedMem(rs, y);
    }
  }

  lemma ReversedNormal(rs: seq<Range>)
    requires Normal(rs)
    ensures Normal(Reversed(rs))
  {
    var rv := Reversed(rs);
    var n := |rs|;
    forall i | 0 <= i < n
      ensures rv[i].l <= rv[i].u
    {
      ReversedAt(rs, i);
    }
    forall i, j | 0 <= i < j < n
      ensures rv[i].u + 1 < rv[j].l
    {
      ReversedAt(rs, i);
      ReversedAt(rs, j);
      var i', j' := n - 1 - i, n - 1 - j;
      assert rs[j'].u + 1 < rs[i'].l;
    }
  }

  lemma ReversedMem(rs: seq<Range>, y: int)
    ensures Mem(Reversed(rs), y) <==> Mem(rs, -y)
  {
    var rv := Reversed(rs);
    var n := |rs|;
    if Mem(rv, y) {
      var i :| 0 <= i < n && rv[i].l <= y <= rv[i].u;
      ReversedAt(rs, i);
      assert rs[n - 1 - i].l <= -y <= rs[n - 1 - i].u;
    }
    if Mem(rs, -y) {
      var i :| 0 <= i < n && rs[i].l <= -y <= rs[i].u;
      ReversedAt(rs, n - 1 - i);
      assert rv[n - 1 - i].l <= y <= rv[n - 1 - i].u;
    }
  }

  /** Reversing twice gives the list back. */
  lemma ReversedTwice(rs: seq<Range>)
    ensures Reversed(Reversed(rs)) == rs
  {
    var n := |rs|;
    forall i | 0 <= i < n
      ensures Reversed(Reversed(rs))[i] == rs[i]
    {
      ReversedAt(rs, n - 1 - i);
      ReversedAt(Reversed(rs), i);
    }
  }

  /** The first range that `+= d` would move outside `[lo, hi]`, or the length
      when there is none. */
  function FirstOverflow(rs: seq<Range>, k: nat, d: int, lo: int, hi: int): (j: nat)
    requires k <= |rs|
    ensures k <= j <= |rs|
    decreases |rs| - k
  {
    if k == |rs| || rs[k].l + d < lo || rs[k].u + d > hi then k
    else FirstOverflow(rs, k + 1, d, lo, hi)
  }

  /** `+= d` when it does not stop early: every range moved by `d`. */
  function Shifted(rs: seq<Range>, d: int): (rs': seq<Range>)
    ensures |rs'| == |rs|
  {
    seq(|rs|, i requires 0 <= i < |rs| => Range(rs[i].l + d, rs[i].u + d))
  }

  /** `+= d` for domain bounds `lo` and `hi`: the ranges are moved one after the
      other; at the first one leaving `[lo, hi]` it stops with the overflow flag set,
      the earlier ranges already moved. */
  function Shift(rs: seq<Range>, d: int, lo: int, hi: int): (r: (seq<Range>, bool))
  {
    if d == 0 then (rs, false)
    else
      var f := FirstOverflow(rs, 0, d, lo, hi);
      (Shifted(rs[..f], d) + rs[f..], f < |rs|)
  }

  /** A list holding the ranges before `f` moved by `d` and the others unchanged is
      the list `+= d` leaves when it stops at `f`. */
  lemma ShiftedIs(rs: seq<Range>, f: nat, d: int, xs: seq<Range>)
    requires f <= |rs| == |xs|
    requires forall j :: 0 <= j < f ==> xs[j] == Range(rs[j].l + d, rs[j].u + d)
    requires forall j :: f <= j < |rs| ==> xs[j] == rs[j]
    ensures xs == Shifted(rs[..f], d) + rs[f..]
  {
    var ys := Shifted(rs[..f], d) + rs[f..];
    forall j | 0 <= j < |rs|
      ensures xs[j] == ys[j]
    {
      if j < f {
        assert ys[j] == Shifted(rs[..f], d)[j];
      } else {
        assert ys[j] == rs[f..][j - f];
      }
    }
  }

  lemma {:induction false} FirstOverflowFacts(rs: seq<Range>, k: nat, d: int, lo: int, hi: int)
    requires k <= |rs|
    ensures var j := FirstOverflow(rs, k, d, lo, hi);
      (forall i :: k <= i < j ==> lo <= rs[i].l + d && rs[i].u + d <= hi) &&
      (j < |rs| ==> rs[j].l + d < lo || rs[j].u + d > hi)
    decreases |rs| - k
  {
    if k < |rs| && lo <= rs[k].l + d && rs[k].u + d <= hi {
      FirstOverflowFacts(rs, k + 1, d, lo, hi);
    }
  }

  /** Moving by `d` keeps the list normal and moves every value by `d`. */
  lemma ShiftedFacts(rs: seq<Range>, d: int)
    requires Normal(rs)
    ensures Normal(Shifted(rs, d))
    ensures forall y :: Mem(Shifted(rs, d), y) <==> Mem(rs, y - d)
  {
    var sh := Shifted(rs, d);
    forall y
      ensures Mem(sh, y) <==> Mem(rs, y - d)
    {
      if Mem(rs, y - d) {
        var i :| 0 <= i < |rs| && rs[i].l <= y - d <= rs[i].u;
        assert sh[i].l <= y <= sh[i].u;
      }
    }
  }

  /** `+= d` without overflow moves the set by `d`; it overflows exactly when some
      moved bound leaves `[lo, hi]`, and `+= 0` changes nothing. */
  lemma ShiftFacts(rs: seq<Range>, d: int, lo: int, hi: int)
    requires Normal(rs)
    ensures var (rs', ov) := Shift(rs, d, lo, hi);
      (d == 0 ==> rs' == rs && !ov) &&
      (ov <==> d != 0 && exists i :: 0 <= i < |rs| && (rs[i].l + d < lo || rs[i].u + d > hi)) &&
      (!ov ==> Normal(rs') && forall y :: Mem(rs', y) <==> Mem(rs, y - d))
  {
    if d != 0 {
      var f := FirstOverflow(rs, 0, d, lo, hi);
      FirstOverflowFacts(rs, 0, d, lo, hi);
      if f == |rs| {
        assert rs[..f] == rs && rs[f..] == [];
        assert Shift(rs, d, lo, hi).0 == Shifted(rs, d);
        ShiftedFacts(rs, d);
      }
    }
  }

  /** `remove(d)`: removes the ranges of `d` in turn and stops at the first removal
      that leaves the domain empty. */
  function RemoveAll(rs: seq<Range>, d: seq<Range>): (seq<Range>, bool)
    requires rs != []
    decreases |d|
  {
    if d == [] then (rs, true)
    else
      var (rs', b) := RemoveRange(rs, d[0].l, d[0].u);
      if !b then (rs', false) else RemoveAll(rs', d[1..])
  }

  /** `remove(d)` takes out exactly the values of `d` when it succeeds, and leaves
      nothing when it fails. */
  lemma {:induction false} RemoveAllFacts(rs: seq<Range>, d: seq<Range>)
    requires Normal(rs) && rs != []
    ensures var (rs', b) := RemoveAll(rs, d);
      Normal(rs') && (!b ==> rs' == []) &&
      (b ==> forall y :: Mem(rs', y) <==> Mem(rs, y) && !Mem(d, y))
    decreases |d|
  {
    if d != [] {
      var r := d[0];
      RemoveRangeFacts(rs, r.l, r.u);
      var (rs1, b1) := RemoveRange(rs, r.l, r.u);
      if b1 {
        RemoveAllFacts(rs1, d[1..]);
        assert d == [r] + d[1..];
        MemAppend([r], d[1..]);
        MemSingle(r);
      }
    }
  }
}
