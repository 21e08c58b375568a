/** `Domain::const_iterator`: a position among the values of a domain, given by the
    index of a range and the number of steps into it. Every operation is proved
    against `Pos`, the number of values before the position. */
module DomainIterator {
  import opened OrderDomain

  const UINT32: int := 0x1_0000_0000

  datatype Iter = Iter(index: nat, steps: nat)

  /** The number of values of the range. */
  function Size(r: Range): int {
    r.u - r.l + 1
  }

  /** The number of values in the first `k` ranges. */
  function Prefix(rs: seq<Range>, k: nat): int
    requires k <= |rs|
  {
    if k == 0 then 0 else Prefix(rs, k - 1) + Size(rs[k - 1])
  }

  /** The number of values of the domain. */
  function Total(rs: seq<Range>): int {
    Prefix(rs, |rs|)
  }

  /** Every range holds fewer than 2^32 values, as ranges of 32-bit bounds do. */
  predicate Fits(rs: seq<Range>) {
    forall i :: 0 <= i < |rs| ==> Size(rs[i]) <= UINT32
  }

  /** An iterator on a value, or the end iterator. */
  predicate ValidIter(rs: seq<Range>, it: Iter) {
    (it.index < |rs| && it.steps < Size(rs[it.index])) || it == Iter(|rs|, 0)
  }

  /** The number of values before the position. */
  function Pos(rs: seq<Range>, it: Iter): int
    requires it.index <= |rs|
  {
    Prefix(rs, it.index) + it.steps
  }

  /** The value the iterator stands on. */
  function Value(rs: seq<Range>, it: Iter): int
    requires it.index < |rs|
  {
    rs[it.index].l + it.steps
  }

  /** Each range of a normal list holds at least one value, so the prefix counts
      grow with `k`. */
  lemma {:induction false} PrefixGrows(rs: seq<Range>, i: nat, j: nat)
    requires Normal(rs) && i <= j <= |rs|
    ensures Prefix(rs, i) + (j - i) <= Prefix(rs, j)
    decreases j - i
  {
    if i < j {
      PrefixGrows(rs, i, j - 1);
    }
  }

  /** `operator++`: one step further, to the next range after its last value. */
  function Next(rs: seq<Range>, it: Iter): (r: Iter)
    requires it.index < |rs|
  {
    if it.steps < (rs[it.index].u - rs[it.index].l) % UINT32 then Iter(it.index, it.steps + 1)
    else Iter(it.index + 1, 0)
  }

  /** `operator--`: one step back, to the last value of the previous range from the
      first value of a range. */
  function Prev(rs: seq<Range>, it: Iter): (r: Iter)
    requires it.index <= |rs| && (it.steps > 0 || it.index > 0)
  {
    if 0 < it.steps then Iter(it.index, it.steps - 1)
    else Iter(it.index - 1, (rs[it.index - 1].u - rs[it.index - 1].l) % UINT32)
  }

  /** `operator<`: ordered by range index, then by steps. */
  predicate Less(a: Iter, b: Iter) {
    a.index < b.index || (a.index == b.index && a.steps < b.steps)
  }

  /** `operator>`. */
  predicate Greater(a: Iter, b: Iter) {
    a.index > b.index || (a.index == b.index && a.steps > b.steps)
  }

  /** `++` moves to the next value. */
  lemma NextPos(rs: seq<Range>, it: Iter)
    requires Normal(rs) && Fits(rs) && ValidIter(rs, it) && it.index < |rs|
    ensures ValidIter(rs, Next(rs, it))
    ensures Pos(rs, Next(rs, it)) == Pos(rs, it) + 1
    ensures Next(rs, it).index < |rs| ==> Value(rs, Next(rs, it)) >= Value(rs, it) + 1
  {
    var n := Next(rs, it);
    if n.index > it.index && n.index < |rs| {
      assert rs[it.index].u + 1 < rs[n.index].l;
    }
  }

  /** `--` moves to the previous value. */
  lemma PrevPos(rs: seq<Range>, it: Iter)
    requires Normal(rs) && Fits(rs) && ValidIter(rs, it) && (it.steps > 0 || it.index > 0)
    ensures ValidIter(rs, Prev(rs, it))
    ensures Pos(rs, Prev(rs, it)) == Pos(rs, it) - 1
  {
  }

  /** `++` and `--` undo each other. */
  lemma NextPrev(rs: seq<Range>, it: Iter)
    requires Normal(rs) && Fits(rs) && ValidIter(rs, it) && it.index < |rs|
    ensures Prev(rs, Next(rs, it)) == it
  {
  }

  /** On valid iterators `<` compares positions. */
  lemma LessPos(rs: seq<Range>, a: Iter, b: Iter)
    requires Normal(rs) && Fits(rs) && ValidIter(rs, a) && ValidIter(rs, b)
    ensures Less(a, b) <==> Pos(rs, a) < Pos(rs, b)
    ensures Greater(a, b) <==> Pos(rs, a) > Pos(rs, b)
  {
    if a.index < b.index {
      PrefixGrows(rs, a.index + 1, b.index);
    } else if b.index < a.index {
      PrefixGrows(rs, b.index + 1, a.index);
    }
  }

  /** `operator-`: the number of steps from `m` to `a`, negative when `m` is past
      `a`. */
  method Distance(rs: seq<Range>, a: Iter, m: Iter) returns (count: int)
    requires a.index <= |rs| && m.index <= |rs|
    ensures count == Pos(rs, a) - Pos(rs, m)
    decreases if Greater(m, a) then 1 else 0
  {
    if Greater(m, a) {
      var back := Distance(rs, m, a);
      return -back;
    }
    var countIndex := m.index;
    count := -(m.steps as int);
    while countIndex < a.index
      invariant m.index <= countIndex <= a.index
      invariant count == Prefix(rs, countIndex) - Pos(rs, m)
    {
      count := count + rs[countIndex].u - rs[countIndex].l + 1;
      countIndex := countIndex + 1;
    }
    count := count + a.steps;
  }

  /** `operator+=(x)`. For `x >= 0` the steps are added to `x` in 32 unsigned bits
      and the sum is walked from the start of the current range; a negative `x`
      steps back by `-x`. The position reached must hold a value. */
  method Advance(rs: seq<Range>, a: Iter, x: int) returns (b: Iter)
    requires Normal(rs) && Fits(rs) && ValidIter(rs, a)
    requires 0 <= x ==> x < UINT32 && Prefix(rs, a.index) + (x + a.steps) % UINT32 < Total(rs)
    requires x < 0 ==> -x - a.steps < UINT32 && 0 <= Pos(rs, a) + x < Total(rs)
    ensures ValidIter(rs, b) && b.index < |rs|
    ensures 0 <= x ==> Pos(rs, b) == Prefix(rs, a.index) + (x + a.steps) % UINT32
    ensures x < 0 ==> Pos(rs, b) == Pos(rs, a) + x
    decreases if x < 0 then 2 else 0
  {
    if x < 0 {
      b := Retreat(rs, a, -x);
      return;
    }
    var add := (x + a.steps) % UINT32;
    var index := a.index;
    ghost var target := Prefix(rs, a.index) + add;
    while true
      invariant index < |rs| && 0 <= add && Prefix(rs, index) + add == target
      decreases |rs| - index
    {
      var range := rs[index].u - rs[index].l;
      if range < add {
        index := index + 1;
        add := add - (range + 1);
        if index == |rs| {
          assert false;
        }
      } else {
        return Iter(index, add);
      }
    }
  }

  /** `operator-=(x)`: the steps into the current range are taken off `x`; what is
      left, when positive, is walked back range by range from the range before, and
      otherwise walked forward from the start of the current range. */
  method Retreat(rs: seq<Range>, a: Iter, x: int) returns (b: Iter)
    requires Normal(rs) && Fits(rs) && ValidIter(rs, a)
    requires -UINT32 < x - a.steps < UINT32 && 0 <= Pos(rs, a) - x < Total(rs)
    ensures ValidIter(rs, b) && b.index < |rs|
    ensures Pos(rs, b) == Pos(rs, a) - x
    decreases 1
  {
    var x' := x - a.steps;
    if x' <= 0 {
      assert a.index < |rs|;
      assert (-x' + 0) % UINT32 == -x';
      b := Advance(rs, Iter(a.index, 0), -x');
      return;
    }
    var sub := x';
    ghost var target := Pos(rs, a) - x;
    var index := a.index - 1;
    while true
      invariant 0 <= index < |rs| && 0 < sub && Prefix(rs, index + 1) - sub == target
      decreases index
    {
      var range := rs[index].u - rs[index].l + 1;
      if range < sub {
        if index == 0 {
          assert false;
        }
        index := index - 1;
        sub := sub - range;
      } else {
        return Iter(index, range - sub);
      }
    }
  }
}
