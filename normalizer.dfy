/** The normaliser's bookkeeping: literal estimates, the simplification of
    constraints that fix a single domain, the compaction of the constraint
    lists, the pairwise unequal encoding of `distinct`, and the list of
    implications it hands on. */
module Normalizing {
  import opened OrderDomain
  import opened LiteralStorage
  import opened Variables
  import opened Constraints
  import opened Propagation
  import Domains
  import Equalities

  // ---------------------------------------------------------------------------
  // Estimates

  /** `allOrderLiterals(v)` for a variable with `domainSize` values. */
  function AllOrderLiterals(domainSize: nat): nat {
    (if domainSize > 1 then domainSize else 1) - 1
  }

  /** `allLiterals(v)` for a variable with `domainSize` values. */
  function AllLiterals(domainSize: nat): nat {
    var o := AllOrderLiterals(domainSize) * 2;
    (if o > 1 then o else 1) - 1
  }

  /** A variable with `n` values has an order literal between each two
      neighbouring values, and all its literals are those plus one equality
      literal per inner value; a domain of at most one value needs none. */
  lemma LiteralCounts(n: nat)
    ensures n >= 1 ==> AllOrderLiterals(n) == n - 1
    ensures n <= 1 ==> AllOrderLiterals(n) == 0 && AllLiterals(n) == 0
    ensures n >= 2 ==> AllLiterals(n) == AllOrderLiterals(n) + (n - 2)
    ensures AllOrderLiterals(n) <= AllLiterals(n) + 1
  {
  }

  // ---------------------------------------------------------------------------
  // Simplifying away constraints that fix one domain

  /** What a simplification asks of the solver or the variable creator. */
  datatype Simplify =
    | SetEqualTo(l: Literal, to: Literal)          // `s_.setEqual(l, to)`
    | Unit(l: Literal)                             // `s_.createClause({l})`
    | IntersectView(view: View, domain: seq<Range>, complement: bool)
    | UpperBound(view: View, u: int)               // `constrainUpperBound(view, u)`
    | LowerBound(view: View, lo: int)              // `constrainLowerBound(view, lo)`
    | FixView(view: View, x: int)                  // `constrainView(view, x, x)`
    | RemoveValue(view: View, x: int)              // `removeFromView(view, x)`
    | Keep

  /** `ReifiedDomainConstraint`: the literal holds iff the view lies in the
      domain. */
  datatype DomainConstraint = DomainConstraint(view: View, domain: seq<Range>, v: Literal)

  /** `deriveSimpleDomain(ReifiedDomainConstraint&)`: a constant view fixes the
      literal, and a decided literal restricts the view to the domain or to its
      complement. */
  function DeriveDomain(d: DomainConstraint, value: Literal -> Truth, trueLit: Literal, falseLit: Literal): Simplify {
    if d.view.a == 0 then SetEqualTo(d.v, if Mem(d.domain, d.view.c) then trueLit else falseLit)
    else if value(d.v) == True then IntersectView(d.view, d.domain, false)
    else if value(d.v) == False then IntersectView(d.view, d.domain, true)
    else Keep
  }

  /** A constant view's constraint holds iff the constant lies in the domain,
      and that is what the literal is set to. */
  lemma DeriveDomainConstant(d: DomainConstraint, value: Literal -> Truth, trueLit: Literal, falseLit: Literal)
    requires d.view.a == 0
    ensures DeriveDomain(d, value, trueLit, falseLit).SetEqualTo?
    ensures DeriveDomain(d, value, trueLit, falseLit).l == d.v
    ensures DeriveDomain(d, value, trueLit, falseLit).to == trueLit <==> Mem(d.domain, d.view.c) || trueLit == falseLit
    ensures forall x :: d.view.a * x + d.view.c == d.view.c
  {
  }

  /** `sum rel rhs` for the two relations a normalised constraint has. */
  predicate Holds(r: Relation, sum: int, rhs: int)
    requires r == LE || r == EQ
  {
    if r == LE then sum <= rhs else sum == rhs
  }

  /** `deriveSimpleDomain(const ReifiedLinearConstraint&)` on a normalised
      constraint: without views the literal is decided by a unit clause, with
      one view and a decided literal the view's domain is restricted, and
      anything else is kept. */
  function DeriveLinear(c: Reified, value: Literal -> Truth): Simplify
    requires c.l.r == LE || c.l.r == EQ
  {
    var l := c.l;
    if |l.views| > 1 then Keep
    else if |l.views| == 0 then
      Unit(if (l.r == LE && 0 > l.constant) || (l.r == EQ && 0 != l.constant) then Negate(c.v) else c.v)
    else if l.r == LE then
      if value(c.v) == True then UpperBound(l.views[0], l.constant)
      else if value(c.v) == False then LowerBound(l.views[0], l.constant + 1)
      else Keep
    else
      if value(c.v) == True then FixView(l.views[0], l.constant)
      else if value(c.v) == False then RemoveValue(l.views[0], l.constant)
      else Keep
  }

  /** The values of a view a restriction admits. */
  predicate Admits(s: Simplify, y: int) {
    match s
    case UpperBound(_, u) => y <= u
    case LowerBound(_, lo) => y >= lo
    case FixView(_, x) => y == x
    case RemoveValue(_, x) => y != x
    case _ => true
  }

  /** Without views the unit clause asserts the literal exactly when the empty
      sum satisfies the constraint, and its negation otherwise. */
  lemma DeriveLinearEmpty(c: Reified, value: Literal -> Truth)
    requires (c.l.r == LE || c.l.r == EQ) && c.l.views == []
    ensures DeriveLinear(c, value) == Unit(if Holds(c.l.r, 0, c.l.constant) then c.v else Negate(c.v))
  {
  }

  /** With one view and a decided literal, the restriction admits exactly the
      view values for which the constraint has the literal's truth value. */
  lemma DeriveLinearSingle(c: Reified, value: Literal -> Truth, y: int)
    requires (c.l.r == LE || c.l.r == EQ) && |c.l.views| == 1 && value(c.v) != Free
    ensures DeriveLinear(c, value).view == c.l.views[0]
    ensures Admits(DeriveLinear(c, value), y) <==> (Holds(c.l.r, y, c.l.constant) <==> value(c.v) == True)
  {
  }

  /** An undecided literal on a constraint with views keeps it. */
  lemma DeriveLinearUndecided(c: Reified, value: Literal -> Truth)
    requires (c.l.r == LE || c.l.r == EQ) && (|c.l.views| > 1 || (|c.l.views| == 1 && value(c.v) == Free))
    ensures DeriveLinear(c, value) == Keep
  {
  }

  // ---------------------------------------------------------------------------
  // Compaction in `calculateDomains`

  /** The constraints no simplification removes, in order. */
  function Kept<T>(xs: seq<T>, derive: T -> (bool, bool)): seq<T> {
    if xs == [] then [] else Kept(xs[..|xs| - 1], derive) + if derive(xs[|xs| - 1]).0 then [] else [xs[|xs| - 1]]
  }

  /** An entry `derive` keeps: not simplified away, its domain non-empty. */
  predicate Stays<T>(derive: T -> (bool, bool), x: T) {
    !derive(x).0 && derive(x).1
  }

  /** The entries before `i` are all kept. */
  ghost predicate StaysUpTo<T>(w: seq<T>, i: nat, derive: T -> (bool, bool)) {
    forall k :: 0 <= k < i && k < |w| ==> Stays(derive, w[k])
  }

  /** Every dropped entry was simplified away with a non-empty domain. */
  ghost predicate AllDropped<T>(dropped: multiset<T>, derive: T -> (bool, bool)) {
    forall x :: x in dropped ==> derive(x).0 && derive(x).1
  }

  /** One loop of `calculateDomains`. `derive(x)` is the pair `deriveSimpleDomain`
      returns: whether `x` was simplified away, and whether its domain stayed
      non-empty. A simplified entry is overwritten by the last entry of the
      shrinking window, which is examined next; at the end the tail is erased. */
  method Compact<T>(xs: seq<T>, derive: T -> (bool, bool)) returns (ok: bool, ys: seq<T>)
    ensures ok <==> forall k :: 0 <= k < |xs| ==> derive(xs[k]).1
    ensures ok ==> forall x :: multiset(ys)[x] == if derive(x).0 then 0 else multiset(xs)[x]
  {
    var w := xs;
    var e := |xs|;
    var i := 0;
    ghost var dropped: multiset<T> := multiset{};
    assert w[..e] == xs;
    while i < e
      invariant |w| == |xs| && 0 <= i <= e <= |xs|
      invariant multiset(w[..e]) + dropped == multiset(xs)
      invariant AllDropped(dropped, derive)
      invariant StaysUpTo(w, i, derive)
      decreases e - i
    {
      var p := derive(w[i]);
      if !p.1 {
        InWindow(xs, w, i, e, dropped);
        return false, w;
      }
      if p.0 {
        DropStep(xs, w, i, e, dropped, derive);
        dropped := dropped + multiset{w[i]};
        w := w[i := w[e - 1]];
        e := e - 1;
      } else {
        i := i + 1;
      }
    }
    ys := w[..e];
    ok := true;
    assert i == e;
    CompactDone(xs, ys, dropped, derive);
  }

  lemma InWindow<T>(xs: seq<T>, w: seq<T>, i: nat, e: nat, dropped: multiset<T>)
    requires i < e <= |w| && multiset(w[..e]) + dropped == multiset(xs)
    ensures exists k :: 0 <= k < |xs| && xs[k] == w[i]
  {
    assert w[..e][i] == w[i];
    assert w[i] in multiset(xs);
  }

  /** The overwritten entry joins the dropped ones: together with the
      shrunk window they still make up `xs`. */
  lemma DropStep<T>(xs: seq<T>, w: seq<T>, i: nat, e: nat, dropped: multiset<T>, derive: T -> (bool, bool))
    requires i < e <= |w| && multiset(w[..e]) + dropped == multiset(xs)
    requires AllDropped(dropped, derive) && derive(w[i]).0 && derive(w[i]).1
    ensures multiset(w[i := w[e - 1]][..e - 1]) + (dropped + multiset{w[i]}) == multiset(xs)
    ensures AllDropped(dropped + multiset{w[i]}, derive)
    ensures StaysUpTo(w, i, derive) ==> StaysUpTo(w[i := w[e - 1]], i, derive)
  {
    SwapStep(w, i, e);
  }

  /** Overwriting entry `i` of the window `..e` with its last entry leaves the
      window `..e - 1` holding the same entries, less the overwritten one. */
  lemma SwapStep<T>(w: seq<T>, i: nat, e: nat)
    requires i < e <= |w|
    ensures multiset(w[i := w[e - 1]][..e - 1]) + multiset{w[i]} == multiset(w[..e])
  {
    var u := w[i := w[e - 1]];
    assert w[..e] == w[..e - 1] + [w[e - 1]];
    if i < e - 1 {
      assert w[..e - 1] == w[..i] + [w[i]] + w[i + 1..e - 1];
      assert u[..e - 1] == w[..i] + [w[e - 1]] + w[i + 1..e - 1];
    } else {
      assert u[..e - 1] == w[..e - 1];
    }
  }

  /** The end of `Compact`: everything was kept or dropped. */
  lemma CompactDone<T>(xs: seq<T>, ys: seq<T>, dropped: multiset<T>, derive: T -> (bool, bool))
    requires multiset(ys) + dropped == multiset(xs)
    requires AllDropped(dropped, derive) && StaysUpTo(ys, |ys|, derive)
    ensures forall k :: 0 <= k < |xs| ==> derive(xs[k]).1
    ensures forall x :: multiset(ys)[x] == if derive(x).0 then 0 else multiset(xs)[x]
  {
    forall k | 0 <= k < |xs|
      ensures derive(xs[k]).1
    {
      assert xs[k] in multiset(xs);
      if xs[k] !in dropped {
        assert xs[k] in multiset(ys);
      }
    }
    forall x
      ensures multiset(ys)[x] == if derive(x).0 then 0 else multiset(xs)[x]
    {
      if !derive(x).0 {
        assert x !in dropped;
      }
    }
  }

  /** What compaction keeps are exactly the constraints `Kept` lists. */
  lemma {:induction false} KeptCounts<T>(xs: seq<T>, derive: T -> (bool, bool), x: T)
    ensures multiset(Kept(xs, derive))[x] == if derive(x).0 then 0 else multiset(xs)[x]
    decreases |xs|
  {
    if xs != [] {
      var n := |xs| - 1;
      KeptCounts(xs[..n], derive, x);
      assert xs == xs[..n] + [xs[n]];
    }
  }

  // ---------------------------------------------------------------------------
  // Restricting domains along the equality classes in `calculateDomains`

  /** Each constraint after `normalize()`; the normalisation itself is a
      parameter of the model. */
  function Normalized(xs: seq<Reified>, norm: Reified -> Reified): (r: seq<Reified>)
    ensures |r| == |xs| && forall k :: 0 <= k < |xs| ==> r[k] == norm(xs[k])
  {
    seq(|xs|, i requires 0 <= i < |xs| => norm(xs[i]))
  }

  /** The value `y` of a class top passes the edge `e` of a member when
      `e.secondCoef * y + e.constant` is divisible by `e.firstCoef`. */
  predicate Passes(e: Equalities.EdgeValue, y: int) {
    e.firstCoef != 0 && Domains.Kept(e.secondCoef, e.constant, e.firstCoef, y)
  }

  /** `y` passes the first `n` restrictions in `edges` that concern `v`; each
      is a class top and one edge of its class. */
  ghost predicate KeptBy(edges: seq<(nat, Equalities.EdgeValue)>, n: nat, v: nat, y: int) {
    forall k :: 0 <= k < n && k < |edges| && edges[k].0 == v ==> Passes(edges[k].1, y)
  }

  /** What `constrainDomain` needs for every edge: a live variable without an
      order literal memory, and a non-zero divisor. */
  ghost predicate Restrictable(vc: VariableCreator, edges: seq<(nat, Equalities.EdgeValue)>)
    reads vc
  {
    forall k :: 0 <= k < |edges| ==>
      vc.IsValid(edges[k].0) && !vc.HasOrderLitMemory(edges[k].0) && edges[k].1.firstCoef != 0
  }

  /** Domains only narrow, and no variable is removed or created. */
  ghost predicate Narrowed(before: seq<Option<seq<Range>>>, after: seq<Option<seq<Range>>>) {
    |after| == |before| &&
    (forall v :: 0 <= v < |before| ==> (after[v].Some? <==> before[v].Some?)) &&
    forall v, y :: 0 <= v < |before| && after[v].Some? && before[v].Some? && Mem(after[v].value, y) ==>
      Mem(before[v].value, y)
  }

  /** The outcome of the first `n` restrictions: a variable none of them
      concerns keeps its domain, and a variable whose domain has a value passing
      all of `edges` is left with exactly the values passing the first `n`. */
  ghost predicate RestrictedBy(before: seq<Option<seq<Range>>>, after: seq<Option<seq<Range>>>,
                               edges: seq<(nat, Equalities.EdgeValue)>, n: nat)
  {
    Narrowed(before, after) &&
    (forall v :: 0 <= v < |before| && (forall k :: 0 <= k < n && k < |edges| ==> edges[k].0 != v) ==>
       after[v] == before[v]) &&
    forall v, y, z :: 0 <= v < |before| && before[v].Some? && Mem(before[v].value, z) && KeptBy(edges, |edges|, v, z) ==>
      (Mem(after[v].value, y) <==> Mem(before[v].value, y) && KeptBy(edges, n, v, y))
  }

  /** The last loop of `calculateDomains`: `constrainDomain(top, e.secondCoef,
      e.constant, e.firstCoef)` for every edge of every class entered from its
      top, whose result is ignored. `edges` lists those pairs in the order the
      classes and their members are visited. */
  method RestrictToEqualities(vc: VariableCreator, edges: seq<(nat, Equalities.EdgeValue)>)
    requires vc.Valid() && Restrictable(vc, edges)
    modifies vc
    ensures vc.Valid()
    ensures RestrictedBy(old(vc.domains), vc.domains, edges, |edges|)
    ensures vc.mems == old(vc.mems) && vc.clauses == old(vc.clauses)
    ensures vc.equalities == old(vc.equalities) && vc.equalLits == old(vc.equalLits)
  {
    var i := 0;
    while i < |edges|
      invariant 0 <= i <= |edges|
      invariant vc.Valid() && Restrictable(vc, edges)
      invariant RestrictedBy(old(vc.domains), vc.domains, edges, i)
      invariant vc.mems == old(vc.mems) && vc.clauses == old(vc.clauses)
      invariant vc.equalities == old(vc.equalities) && vc.equalLits == old(vc.equalLits)
    {
      ghost var cur := vc.domains;
      var (v, e) := edges[i];
      var _ := vc.ConstrainDomain(v, e.secondCoef, e.constant, e.firstCoef);
      RestrictStep(old(vc.domains), cur, vc.domains, edges, i);
      i := i + 1;
    }
  }

  /** One call of `constrainDomain` on `v` for edge `e`: either no value of the
      domain passes and nothing changes, or the domain of `v` is cut down to the
      values that pass. */
  ghost predicate RestrictedOnce(cur: seq<Option<seq<Range>>>, next: seq<Option<seq<Range>>>, v: nat, e: Equalities.EdgeValue)
    requires v < |cur| && cur[v].Some?
  {
    (next == cur && forall y :: Mem(cur[v].value, y) ==> !Passes(e, y)) ||
    (|next| == |cur| && next == cur[v := next[v]] && next[v].Some? &&
     forall y :: Mem(next[v].value, y) <==> Mem(cur[v].value, y) && Passes(e, y))
  }

  /** A restriction that passes the values of `v` meeting all edges cannot empty
      its domain, so `RestrictedBy` moves on by one edge. */
  lemma RestrictStep(before: seq<Option<seq<Range>>>, cur: seq<Option<seq<Range>>>, next: seq<Option<seq<Range>>>,
                     edges: seq<(nat, Equalities.EdgeValue)>, i: nat)
    requires i < |edges| && RestrictedBy(before, cur, edges, i)
    requires edges[i].0 < |cur| && cur[edges[i].0].Some?
    requires RestrictedOnce(cur, next, edges[i].0, edges[i].1)
    ensures RestrictedBy(before, next, edges, i + 1)
  {
    var (v, e) := edges[i];
    forall w, y, z | 0 <= w < |before| && before[w].Some? && Mem(before[w].value, z) && KeptBy(edges, |edges|, w, z)
      ensures Mem(next[w].value, y) <==> Mem(before[w].value, y) && KeptBy(edges, i + 1, w, y)
    {
      assert KeptBy(edges, i, w, y) ==> KeptBy(edges, i + 1, w, y) || w == v;
      if w == v {
        assert Mem(cur[v].value, z);
        assert Passes(e, z);
      }
    }
  }

  // ---------------------------------------------------------------------------
  // `distinct` as pairwise inequalities

  /** `view_i - view_j != 0`: the view and the reversed other view. */
  function Unequal(x: View, y: View): Linear {
    Linear([x, Scale(y, -1)], 0, NE, false, false)
  }

  /** `x` against each of `rest`. */
  function Row(x: View, rest: seq<View>): (r: seq<Linear>)
    ensures |r| == |rest|
  {
    if rest == [] then [] else Row(x, rest[..|rest| - 1]) + [Unequal(x, rest[|rest| - 1])]
  }

  /** Entry `k` of a row is `x` against `rest[k]`. */
  lemma {:induction false} RowAt(x: View, rest: seq<View>, k: nat)
    requires k < |rest|
    ensures Row(x, rest)[k] == Unequal(x, rest[k])
    decreases |rest|
  {
    if k < |rest| - 1 {
      RowAt(x, rest[..|rest| - 1], k);
    }
  }

  /** The inequalities of all pairs `i < j`, row by row. */
  function Pairs(vs: seq<View>): seq<Linear>
    decreases |vs|
  {
    if |vs| <= 1 then [] else Row(vs[0], vs[1..]) + Pairs(vs[1..])
  }

  /** One inequality per unordered pair: `n * (n - 1) / 2` of them. */
  lemma {:induction false} PairsCount(vs: seq<View>)
    ensures 2 * |Pairs(vs)| == |vs| * (|vs| - 1)
    decreases |vs|
  {
    if |vs| > 1 {
      PairsCount(vs[1..]);
      assert |vs| * (|vs| - 1) == 2 * (|vs| - 1) + (|vs| - 1) * (|vs| - 2);
    }
  }

  /** Every pair `i < j` has its inequality. */
  lemma {:induction false} PairsComplete(vs: seq<View>, i: nat, j: nat)
    requires i < j < |vs|
    ensures Unequal(vs[i], vs[j]) in Pairs(vs)
    decreases |vs|
  {
    var t := vs[1..];
    var row := Row(vs[0], t);
    assert Pairs(vs) == row + Pairs(t);
    if i == 0 {
      RowAt(vs[0], t, j - 1);
      assert row[j - 1] == Unequal(vs[0], vs[j]);
    } else {
      PairsComplete(t, i - 1, j - 1);
    }
  }

  /** Every inequality is that of a pair `i < j`. */
  lemma {:induction false} PairsOnly(vs: seq<View>, p: Linear)
    requires p in Pairs(vs)
    ensures exists i, j :: 0 <= i < j < |vs| && p == Unequal(vs[i], vs[j])
    decreases |vs|
  {
    var t := vs[1..];
    var row := Row(vs[0], t);
    assert Pairs(vs) == row + Pairs(t);
    if p in row {
      var k :| 0 <= k < |row| && row[k] == p;
      RowAt(vs[0], t, k);
      assert p == Unequal(vs[0], vs[k + 1]);
    } else {
      PairsOnly(t, p);
      var i, j :| 0 <= i < j < |t| && p == Unequal(t[i], t[j]);
      assert p == Unequal(vs[i + 1], vs[j + 1]);
    }
  }

  lemma RowAppend(x: View, rest: seq<View>, y: View)
    ensures Row(x, rest + [y]) == Row(x, rest) + [Unequal(x, y)]
  {
    assert (rest + [y])[..|rest|] == rest;
  }

  lemma PairsUnfold(vs: seq<View>, i: nat)
    requires i + 1 < |vs|
    ensures Pairs(vs[i..]) == Row(vs[i], vs[i + 1..]) + Pairs(vs[i + 1..])
  {
    assert vs[i..][1..] == vs[i + 1..];
  }

  /** The double loop of `addDistinctPairwiseUnequal`, which builds the
      inequalities before they are posted. A single view gives none. */
  method PairwiseUnequal(views: seq<View>) returns (inequalities: seq<Linear>)
    requires |views| > 0
    ensures inequalities == Pairs(views)
  {
    inequalities := [];
    var i := 0;
    while i != |views| - 1
      invariant 0 <= i <= |views| - 1
      invariant inequalities + Pairs(views[i..]) == Pairs(views)
    {
      PairsUnfold(views, i);
      inequalities := AppendRow(inequalities, views, i);
      i := i + 1;
    }
    assert |views[i..]| == 1;
  }

  /** The inner loop: view `i` against each later view. */
  method AppendRow(acc: seq<Linear>, views: seq<View>, i: nat) returns (r: seq<Linear>)
    requires i < |views|
    ensures r == acc + Row(views[i], views[i + 1..])
  {
    r := acc;
    var j := i + 1;
    while j != |views|
      invariant i + 1 <= j <= |views|
      invariant r == acc + Row(views[i], views[i + 1..j])
    {
      assert views[i + 1..j + 1] == views[i + 1..j] + [views[j]];
      RowAppend(views[i], views[i + 1..j], views[j]);
      r := r + [Unequal(views[i], views[j])];
      j := j + 1;
    }
    assert views[i + 1..j] == views[i + 1..];
  }

  class Normalizer {
    var domainConstraints: seq<DomainConstraint>
    var linearConstraints: seq<Reified>
    var linearImplications: seq<Reified>

    constructor ()
      ensures domainConstraints == [] && linearConstraints == [] && linearImplications == []
    {
      domainConstraints := [];
      linearConstraints := [];
      linearImplications := [];
    }

    /** `calculateDomains`: the two compaction loops, then the restriction of
        the domains along the equality classes (`RestrictToEqualities`).
        `deriveDomain` and `deriveLinear` give the outcome of
        `deriveSimpleDomain` on each entry, `norm` is `normalize()`, applied to
        every linear constraint before it is examined, `vc` is the variable
        creator and `edges` the equality edges. The domain list is compacted
        first, and a failure there leaves the linear constraints untouched; a
        failure in either loop returns before the domains are restricted. */
    method CalculateDomains(deriveDomain: DomainConstraint -> (bool, bool), deriveLinear: Reified -> (bool, bool),
                            norm: Reified -> Reified, vc: VariableCreator, edges: seq<(nat, Equalities.EdgeValue)>)
      returns (ok: bool)
      requires vc.Valid() && Restrictable(vc, edges)
      modifies this, vc
      ensures linearImplications == old(linearImplications)
      ensures ok <==> (forall k :: 0 <= k < |old(domainConstraints)| ==> deriveDomain(old(domainConstraints)[k]).1) &&
                      (forall k :: 0 <= k < |old(linearConstraints)| ==> deriveLinear(norm(old(linearConstraints)[k])).1)
      ensures ok ==> forall x :: multiset(domainConstraints)[x] ==
                       if deriveDomain(x).0 then 0 else multiset(old(domainConstraints))[x]
      ensures ok ==> forall x :: multiset(linearConstraints)[x] ==
                       if deriveLinear(x).0 then 0 else multiset(Normalized(old(linearConstraints), norm))[x]
      ensures vc.Valid()
      ensures !ok ==> vc.domains == old(vc.domains)
      ensures ok ==> RestrictedBy(old(vc.domains), vc.domains, edges, |edges|)
      ensures vc.mems == old(vc.mems) && vc.clauses == old(vc.clauses)
      ensures vc.equalities == old(vc.equalities) && vc.equalLits == old(vc.equalLits)
    {
      var okD, ds := Compact(domainConstraints, deriveDomain);
      domainConstraints := ds;
      if !okD {
        return false;
      }
      var okL, ls := Compact(Normalized(linearConstraints, norm), deriveLinear);
      linearConstraints := ls;
      if !okL {
        return false;
      }
      RestrictToEqualities(vc, edges);
      ok := true;
    }

    /** `addImp(l)` for a constraint already normalised to `<=`: its views are
        sorted by domain size (`size`) and it is appended to the
        implications. */
    method AddImp(l: Reified, size: View -> nat)
      requires l.l.normalized && l.l.r == LE
      modifies this
      ensures |linearImplications| == |old(linearImplications)| + 1
      ensures linearImplications[..|old(linearImplications)|] == old(linearImplications)
      ensures var last := linearImplications[|old(linearImplications)|];
        last == l.(l := l.l.(views := last.l.views)) &&
        SortedBySize(size, last.l.views) && multiset(last.l.views) == multiset(l.l.views)
      ensures domainConstraints == old(domainConstraints) && linearConstraints == old(linearConstraints)
    {
      var views := SortBySize(size, l.l.views);
      linearImplications := linearImplications + [l.(l := l.l.(views := views))];
    }
  }
}
