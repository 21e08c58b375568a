/** `LinearConstraint`, `ReifiedLinearConstraint` and `ReifiedAllDistinct`: a sum
    of views related to a constant, with the bookkeeping flags the propagator
    and the normaliser use. */
module Constraints {
  import opened LiteralStorage
  import opened Variables
  import Equalities

  datatype Relation = LT | LE | GT | GE | EQ | NE

  /** The value of a `LinearConstraint`. */
  datatype Linear = Linear(views: seq<View>, constant: int, r: Relation, flag: bool, normalized: bool)

  /** `LinearConstraint::operator==`: relation, constant and views; the flag and
      the normalised mark are not compared. */
  predicate SameLinear(x: Linear, y: Linear) {
    x.r == y.r && x.constant == y.constant && x.views == y.views
  }

  /** The comparison is an equivalence that looks through both marks. */
  lemma SameLinearIgnoresMarks(x: Linear, y: Linear, f: bool, n: bool)
    ensures SameLinear(x, y) <==> SameLinear(x, y.(flag := f, normalized := n))
    ensures SameLinear(x, x)
    ensures SameLinear(x, y) ==> SameLinear(y, x)
    ensures SameLinear(x, y) <==> x.(flag := f, normalized := n) == y.(flag := f, normalized := n)
  {
  }

  /** `ReifiedLinearConstraint`: the constraint holds iff the literal is true. */
  datatype Reified = Reified(l: Linear, v: Literal)

  /** `ReifiedLinearConstraint::operator==`. */
  predicate SameReified(x: Reified, y: Reified) {
    x.v == y.v && SameLinear(x.l, y.l)
  }

  function Abs(x: int): nat { if x < 0 then -x else x }

  /** The order of `LinearConstraint::sort`: by domain size, then by `|a|`. */
  predicate SizeBefore(size: View -> nat, x: View, y: View) {
    size(x) < size(y) || (size(x) == size(y) && Abs(x.a) < Abs(y.a))
  }

  /** `x` may come before `y`: `y` does not sort before `x`. */
  predicate NotAfter(size: View -> nat, x: View, y: View) {
    !SizeBefore(size, y, x)
  }

  predicate SortedBySize(size: View -> nat, s: seq<View>) {
    forall i, j :: 0 <= i < j < |s| ==> NotAfter(size, s[i], s[j])
  }

  /** `x` placed before the first element it may come before. */
  function InsertBySize(size: View -> nat, s: seq<View>, x: View): (r: seq<View>)
    ensures |r| == |s| + 1
  {
    if s == [] || NotAfter(size, x, s[0]) then [x] + s else [s[0]] + InsertBySize(size, s[1..], x)
  }

  lemma {:induction false} InsertBySizeFacts(size: View -> nat, s: seq<View>, x: View)
    requires SortedBySize(size, s)
    ensures SortedBySize(size, InsertBySize(size, s, x))
    ensures multiset(InsertBySize(size, s, x)) == multiset(s) + multiset{x}
    decreases |s|
  {
    if s == [] || NotAfter(size, x, s[0]) {
    } else {
      var t := InsertBySize(size, s[1..], x);
      InsertBySizeFacts(size, s[1..], x);
      assert s == [s[0]] + s[1..];
      HeadBeforeAll(size, s, x, t);
      ConsSorted(size, s[0], t);
    }
  }

  /** The head of a sorted list that `x` may not precede may come before
      every element of the rest with `x` added. */
  lemma HeadBeforeAll(size: View -> nat, s: seq<View>, x: View, t: seq<View>)
    requires SortedBySize(size, s) && s != [] && !NotAfter(size, x, s[0])
    requires multiset(t) == multiset(s[1..]) + multiset{x}
    ensures forall k :: 0 <= k < |t| ==> NotAfter(size, s[0], t[k])
  {
    forall k | 0 <= k < |t|
      ensures NotAfter(size, s[0], t[k])
    {
      assert t[k] in multiset(t);
      if t[k] != x {
        assert t[k] in s[1..];
      }
    }
  }

  /** A head that may come before every element of a sorted list keeps it
      sorted. */
  lemma ConsSorted(size: View -> nat, h: View, t: seq<View>)
    requires SortedBySize(size, t) && forall k :: 0 <= k < |t| ==> NotAfter(size, h, t[k])
    ensures SortedBySize(size, [h] + t)
  {
    var r := [h] + t;
    forall i, j | 0 <= i < j < |r|
      ensures NotAfter(size, r[i], r[j])
    {
      assert r[j] == t[j - 1];
      if i > 0 {
        assert r[i] == t[i - 1];
      }
    }
  }

  /** Insertion sort into the order of `sort`. */
  method SortBySize(size: View -> nat, s: seq<View>) returns (r: seq<View>)
    ensures SortedBySize(size, r) && multiset(r) == multiset(s)
  {
    r := [];
    var i := 0;
    while i < |s|
      invariant 0 <= i <= |s|
      invariant SortedBySize(size, r) && multiset(r) == multiset(s[..i])
    {
      InsertBySizeFacts(size, r, s[i]);
      r := InsertBySize(size, r, s[i]);
      assert s[..i + 1] == s[..i] + [s[i]];
      i := i + 1;
    }
    assert s[..i] == s;
  }

  /** `View::operator<`, taken field by field. */
  predicate ViewLess(x: View, y: View) {
    x.v < y.v || (x.v == y.v && (x.a < y.a || (x.a == y.a && x.c < y.c)))
  }

  predicate StrictlySorted(s: seq<View>) {
    forall i, j :: 0 <= i < j < |s| ==> ViewLess(s[i], s[j])
  }

  /** `x` put in its place in a strictly increasing list, once. */
  function InsertUnique(s: seq<View>, x: View): (r: seq<View>) {
    if s == [] || ViewLess(x, s[0]) then [x] + s
    else if x == s[0] then s
    else [s[0]] + InsertUnique(s[1..], x)
  }

  lemma {:induction false} InsertUniqueFacts(s: seq<View>, x: View)
    requires StrictlySorted(s)
    ensures StrictlySorted(InsertUnique(s, x))
    ensures forall y :: y in InsertUnique(s, x) <==> y in s || y == x
    decreases |s|
  {
    if s == [] || ViewLess(x, s[0]) {
    } else if x == s[0] {
    } else {
      InsertUniqueFacts(s[1..], x);
      var t := InsertUnique(s[1..], x);
      assert s == [s[0]] + s[1..];
      forall k | 0 <= k < |t|
        ensures ViewLess(s[0], t[k])
      {
        assert t[k] in t;
      }
    }
  }

  /** `std::sort` followed by `std::unique`: the views in increasing order, each
      once. */
  method SortUnique(s: seq<View>) returns (r: seq<View>)
    ensures StrictlySorted(r) && forall y :: y in r <==> y in s
  {
    r := [];
    var i := 0;
    while i < |s|
      invariant 0 <= i <= |s|
      invariant StrictlySorted(r) && forall y :: y in r <==> y in s[..i]
    {
      InsertUniqueFacts(r, s[i]);
      r := InsertUnique(r, s[i]);
      assert s[..i + 1] == s[..i] + [s[i]];
      i := i + 1;
    }
    assert s[..i] == s;
  }

  /** A strictly increasing list is determined by its elements, so the result
      of building it is the one `std::sort` and `std::unique` leave. */
  lemma {:induction false} StrictlySortedUnique(s: seq<View>, t: seq<View>)
    requires StrictlySorted(s) && StrictlySorted(t)
    requires forall y :: y in s <==> y in t
    ensures s == t
    decreases |s|
  {
    assert s != [] ==> s[0] in t;
    assert t != [] ==> t[0] in s;
    if s != [] && t != [] {
      assert s[0] == t[0];
      forall y
        ensures y in s[1..] <==> y in t[1..]
      {
        if y in s[1..] {
          var i :| 0 <= i < |s[1..]| && s[1..][i] == y;
          assert ViewLess(s[0], y);
          assert y in t;
        }
        if y in t[1..] {
          var i :| 0 <= i < |t[1..]| && t[1..][i] == y;
          assert ViewLess(t[0], y);
          assert y in s;
        }
      }
      StrictlySortedUnique(s[1..], t[1..]);
      assert s == [s[0]] + s[1..] && t == [t[0]] + t[1..];
    }
  }

  /** `View::operator*=`: both the factor and the constant are scaled. */
  function Scale(view: View, x: int): (r: View)
    ensures r.v == view.v
  {
    View(view.v, view.a * x, view.c * x)
  }

  class LinearConstraint {
    var views: seq<View>
    var constant: int
    var r: Relation
    var flag: bool
    var normalized: bool

    function Value(): Linear
      reads this
    {
      Linear(views, constant, r, flag, normalized)
    }

    /** `LinearConstraint(r)`: no views, constant 0, both marks clear. */
    constructor (r: Relation)
      ensures Value() == Linear([], 0, r, false, false)
    {
      views := [];
      constant := 0;
      this.r := r;
      flag := false;
      normalized := false;
    }

    /** `setRelation(r)`. */
    method SetRelation(r: Relation)
      modifies this
      ensures Value() == old(Value()).(r := r)
    {
      this.r := r;
    }

    /** The non-const `getViews()`: handing out the views for change clears the
        normalised mark. */
    method GetViews() returns (vs: seq<View>)
      modifies this
      ensures vs == views && Value() == old(Value()).(normalized := false)
    {
      normalized := false;
      vs := views;
    }

    /** `add(v)`. */
    method Add(v: View)
      modifies this
      ensures Value() == old(Value()).(views := old(views) + [v], normalized := false)
    {
      views := views + [v];
      normalized := false;
    }

    /** `addRhs(c)`; the constant is a 32-bit `int`, whose overflow is
        undefined behaviour. */
    method AddRhs(c: int)
      requires Equalities.IsInt32(c) && Equalities.IsInt32(constant + c)
      modifies this
      ensures Value() == old(Value()).(constant := old(constant) + c, normalized := false)
    {
      constant := constant + c;
      normalized := false;
    }

    /** `setFlag(b)`. */
    method SetFlag(b: bool)
      modifies this
      ensures Value() == old(Value()).(flag := b)
    {
      flag := b;
    }

    /** `sort(vc)` on a normalised constraint: the views are reordered by domain
        size (`size`, the creator's `getDomainSize`) and then by `|a|`. */
    method Sort(size: View -> nat)
      requires normalized
      modifies this
      ensures SortedBySize(size, views) && multiset(views) == multiset(old(views))
      ensures Value() == old(Value()).(views := views)
    {
      views := SortBySize(size, views);
    }
  }

  class ReifiedAllDistinct {
    var views: seq<View>
    var v: Literal

    /** The constructor sorts the views and removes duplicates. */
    constructor (views: seq<View>, l: Literal)
      ensures StrictlySorted(this.views) && (forall y :: y in this.views <==> y in views) && v == l
    {
      var sorted := SortUnique(views);
      this.views := sorted;
      v := l;
    }

    /** `add(var)`: the view `1 * var + 0`. */
    method Add(x: nat)
      modifies this
      ensures views == old(views) + [View(x, 1, 0)] && v == old(v)
    {
      views := views + [View(x, 1, 0)];
    }

    /** `times(x)`: every view multiplied by `x`, the literal kept. A view's
        coefficient and constant are 32-bit `int`s, whose overflow is undefined
        behaviour. */
    method Times(x: int)
      requires Equalities.IsInt32(x)
      requires forall i :: 0 <= i < |views| ==> Equalities.IsInt32(views[i].a * x) && Equalities.IsInt32(views[i].c * x)
      modifies this
      ensures |views| == |old(views)| && v == old(v)
      ensures forall i :: 0 <= i < |views| ==> views[i] == Scale(old(views)[i], x)
    {
      var i := 0;
      while i < |views|
        invariant 0 <= i <= |views| == |old(views)| && v == old(v)
        invariant forall j :: 0 <= j < |views| ==> views[j] == if j < i then Scale(old(views)[j], x) else old(views)[j]
      {
        views := views[i := Scale(views[i], x)];
        i := i + 1;
      }
    }

    /** `setLiteral(l)`. */
    method SetLiteral(l: Literal)
      modifies this
      ensures v == l && views == old(views)
    {
      v := l;
    }
  }
}
