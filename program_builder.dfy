/** clasp's builders for SAT and pseudo-Boolean input: the clause filter that
    drops tautologies and duplicate literals while recording, per variable,
    which polarities occurred; the posting of hard and soft clauses; and the
    soft bound and variable counter of the pseudo-Boolean builder. The solver
    itself is not modelled: hard clauses are collected in a list, and what the
    solver answers is a parameter. */
module ProgramBuilder {
  import opened LogicProgramTypes

  // ---------------------------------------------------------------------------
  // The clause filter of `SatBuilder::satisfied`
  // ---------------------------------------------------------------------------

  /** A clause is a tautology when it holds a literal and its complement. */
  predicate Tautology(cc: seq<Literal>) {
    exists i, j :: 0 <= i < |cc| && 0 <= j < |cc| && cc[i].v == cc[j].v && cc[i].sign != cc[j].sign
  }

  /** The polarity bits `1 + sign` of a literal. */
  function PolBit(x: Literal): bv8 {
    if x.sign then 2 else 1
  }

  predicate HasPos(k: seq<Literal>, v: nat) { Literal(v, false, false) in k }
  predicate HasNeg(k: seq<Literal>, v: nat) { Literal(v, true, false) in k }

  /** The polarities of `v` among the kept literals, as the low two bits of
      its state: bit 0 positive, bit 1 negative. */
  function Pol(k: seq<Literal>, v: nat): bv8 {
    if HasPos(k, v) && HasNeg(k, v) then 3
    else if HasPos(k, v) then 1
    else if HasNeg(k, v) then 2
    else 0
  }

  /** The first loop of `satisfied` over `cc`: whether it met a literal whose
      complement was already kept, and the literals kept, unflagged, each on
      its first occurrence. */
  function Scanned(cc: seq<Literal>): (bool, seq<Literal>)
    decreases |cc|
  {
    if cc == [] then (false, [])
    else
      var prev := Scanned(cc[..|cc| - 1]);
      var x := Unflag(cc[|cc| - 1]);
      if prev.0 then prev
      else if Negate(x) in prev.1 then (true, prev.1)
      else if x in prev.1 then prev
      else (false, prev.1 + [x])
  }

  /** The kept literals are unflagged, distinct, and hold no variable twice. */
  predicate OnePerVar(k: seq<Literal>) {
    forall i, j :: 0 <= i < |k| && 0 <= j < |k| && i != j ==> k[i].v != k[j].v
  }

  predicate AllUnflagged(k: seq<Literal>) {
    forall i :: 0 <= i < |k| ==> !k[i].flagged
  }

  /** What the scan keeps comes from the clause; when no clash was met it
      keeps every literal of the clause. */
  lemma {:induction false} ScannedMembers(cc: seq<Literal>)
    ensures OnePerVar(Scanned(cc).1) && AllUnflagged(Scanned(cc).1)
    ensures forall y :: y in Scanned(cc).1 ==> exists i :: 0 <= i < |cc| && y == Unflag(cc[i])
    ensures !Scanned(cc).0 ==> forall i :: 0 <= i < |cc| ==> Unflag(cc[i]) in Scanned(cc).1
    decreases |cc|
  {
    if cc != [] {
      var init := cc[..|cc| - 1];
      ScannedMembers(init);
      var k := Scanned(init).1;
      var x := Unflag(cc[|cc| - 1]);
      forall y | y in Scanned(cc).1
        ensures exists i :: 0 <= i < |cc| && y == Unflag(cc[i])
      {
        if y in k {
          var i :| 0 <= i < |init| && y == Unflag(init[i]);
          assert cc[i] == init[i];
        } else {
          assert y == Unflag(cc[|cc| - 1]);
        }
      }
      if !Scanned(cc).0 {
        forall i | 0 <= i < |cc|
          ensures Unflag(cc[i]) in Scanned(cc).1
        {
          if i < |init| {
            assert cc[i] == init[i];
          }
        }
      }
      if !Scanned(init).0 && Negate(x) !in k && x !in k {
        forall i, j | 0 <= i < |k| + 1 && 0 <= j < |k| + 1 && i != j
          ensures (k + [x])[i].v != (k + [x])[j].v
        {
          if i == |k| || j == |k| {
            var y := if i == |k| then k[j] else k[i];
            assert y in k;
          }
        }
      }
    }
  }

  /** Once the scan met a clash, the rest of the clause changes nothing. */
  lemma {:induction false} ClashSticky(cc: seq<Literal>, j: nat)
    requires j <= |cc| && Scanned(cc[..j]).0
    ensures Scanned(cc) == Scanned(cc[..j])
    decreases |cc| - j
  {
    if j < |cc| {
      assert cc[..|cc| - 1][..j] == cc[..j];
      ClashSticky(cc[..|cc| - 1], j);
    } else {
      assert cc[..j] == cc;
    }
  }

  /** `satisfied` reports a clash exactly when the clause is a tautology. */
  lemma {:induction false} ScannedTautology(cc: seq<Literal>)
    ensures Scanned(cc).0 <==> Tautology(cc)
    decreases |cc|
  {
    if cc != [] {
      var init := cc[..|cc| - 1];
      var last := |cc| - 1;
      ScannedTautology(init);
      ScannedMembers(init);
      var k := Scanned(init).1;
      var x := Unflag(cc[last]);
      if Scanned(init).0 {
        var i, j :| 0 <= i < |init| && 0 <= j < |init| && init[i].v == init[j].v && init[i].sign != init[j].sign;
        assert cc[i] == init[i] && cc[j] == init[j];
      } else if Negate(x) in k {
        var i :| 0 <= i < |init| && Negate(x) == Unflag(init[i]);
        assert cc[i] == init[i];
        assert cc[i].v == cc[last].v && cc[i].sign != cc[last].sign;
      }
    }
  }

  /** The kept literals appear in the order of their first occurrence: the
      scan of a prefix keeps a prefix of what the whole scan keeps. */
  lemma {:induction false} ScannedPrefix(cc: seq<Literal>, j: nat)
    requires j <= |cc|
    ensures Scanned(cc[..j]).1 <= Scanned(cc).1
    decreases |cc| - j
  {
    if j < |cc| {
      assert cc[..|cc| - 1][..j] == cc[..j];
      ScannedPrefix(cc[..|cc| - 1], j);
    } else {
      assert cc[..j] == cc;
    }
  }

  /** Without a clash, the polarities recorded for `v` are those with which
      it occurs in the clause. */
  lemma PolOfClause(cc: seq<Literal>, v: nat)
    requires !Scanned(cc).0
    ensures Pol(Scanned(cc).1, v) & 1 != 0 <==> exists i :: 0 <= i < |cc| && cc[i].v == v && !cc[i].sign
    ensures Pol(Scanned(cc).1, v) & 2 != 0 <==> exists i :: 0 <= i < |cc| && cc[i].v == v && cc[i].sign
  {
    ScannedMembers(cc);
    var k := Scanned(cc).1;
    if HasPos(k, v) {
      var i :| 0 <= i < |cc| && Literal(v, false, false) == Unflag(cc[i]);
    }
    if HasNeg(k, v) {
      var i :| 0 <= i < |cc| && Literal(v, true, false) == Unflag(cc[i]);
    }
    if exists i :: 0 <= i < |cc| && cc[i].v == v && !cc[i].sign {
      var i :| 0 <= i < |cc| && cc[i].v == v && !cc[i].sign;
      assert Unflag(cc[i]) == Literal(v, false, false);
    }
    if exists i :: 0 <= i < |cc| && cc[i].v == v && cc[i].sign {
      var i :| 0 <= i < |cc| && cc[i].v == v && cc[i].sign;
      assert Unflag(cc[i]) == Literal(v, true, false);
    }
  }

  /** A kept literal's variable never holds both polarities. */
  lemma PolOnePerVar(k: seq<Literal>, v: nat)
    requires OnePerVar(k)
    ensures Pol(k, v) != 3
  {
  }

  /** Bit facts about a state byte whose low two bits were clear. */
  lemma LowBitsOr(s: bv8, p: bv8)
    requires s & 3 == 0 && p <= 3
    ensures (s | p) & 3 == p
    ensures (s | p) & !3 == s
    ensures ((s | p) | (((s | p) & 3) << 2)) & !3 == s | (p << 2)
    ensures (s | (p << 2)) & 3 == 0
  {
  }

  lemma AddPolarity(s: bv8, p: bv8, m: bv8)
    requires s & 3 == 0 && p == 0 && (m == 1 || m == 2)
    ensures (s | p) | m == s | m
  {
  }

  /** The scan takes one more literal: kept when its variable has no
      polarity yet, a clash when the other polarity is there, and skipped as a
      duplicate otherwise. */
  lemma ScanKeeps(cc: seq<Literal>, i: nat)
    requires i < |cc| && !Scanned(cc[..i]).0
    requires Pol(Scanned(cc[..i]).1, cc[i].v) + PolBit(cc[i]) == PolBit(cc[i])
    ensures Scanned(cc[..i + 1]) == (false, Scanned(cc[..i]).1 + [Unflag(cc[i])])
    ensures Pol(Scanned(cc[..i]).1, cc[i].v) == 0
  {
    assert cc[..i + 1][..i] == cc[..i];
  }

  lemma ScanClashes(cc: seq<Literal>, i: nat)
    requires i < |cc| && !Scanned(cc[..i]).0
    requires Pol(Scanned(cc[..i]).1, cc[i].v) + PolBit(cc[i]) == 3
    ensures Scanned(cc[..i + 1]) == (true, Scanned(cc[..i]).1)
  {
    assert cc[..i + 1][..i] == cc[..i];
  }

  lemma ScanSkips(cc: seq<Literal>, i: nat)
    requires i < |cc| && !Scanned(cc[..i]).0
    requires Pol(Scanned(cc[..i]).1, cc[i].v) + PolBit(cc[i]) != PolBit(cc[i])
    requires Pol(Scanned(cc[..i]).1, cc[i].v) + PolBit(cc[i]) != 3
    ensures Scanned(cc[..i + 1]) == Scanned(cc[..i])
  {
    assert cc[..i + 1][..i] == cc[..i];
    ScannedMembers(cc[..i]);
    PolOnePerVar(Scanned(cc[..i]).1, cc[i].v);
  }

  /** A cut-down byte of kept polarities: what `Pol` is after a new
      literal. */
  lemma PolAppend(k: seq<Literal>, x: Literal, v: nat)
    requires !x.flagged && Pol(k, x.v) == 0
    ensures Pol(k + [x], v) == if v == x.v then PolBit(x) else Pol(k, v)
  {
    if v != x.v {
      assert HasPos(k + [x], v) == HasPos(k, v);
      assert HasNeg(k + [x], v) == HasNeg(k, v);
    } else {
      assert x == Literal(v, x.sign, false);
    }
  }

  /** What the scan keeps stays within the state vector and holds each
      variable with one polarity. */
  lemma ScanFacts(cc: seq<Literal>, n: nat)
    requires forall i :: 0 <= i < |cc| ==> cc[i].v < n
    ensures forall j :: 0 <= j < |Scanned(cc).1| ==> Scanned(cc).1[j].v < n
    ensures forall v :: Pol(Scanned(cc).1, v) != 3
  {
    var kept := Scanned(cc).1;
    ScannedMembers(cc);
    forall j | 0 <= j < |kept|
      ensures kept[j].v < n
    {
      assert kept[j] in kept;
      var t :| 0 <= t < |cc| && kept[j] == Unflag(cc[t]);
    }
    forall v
      ensures Pol(kept, v) != 3
    {
      PolOnePerVar(kept, v);
    }
  }

  /** During the scan each state byte holds its old bits and the polarities
      kept so far. */
  ghost predicate Tracks(vs: seq<bv8>, base: seq<bv8>, kept: seq<Literal>) {
    |vs| == |base| && forall v :: 0 <= v < |vs| ==> vs[v] == base[v] | Pol(kept, v)
  }

  lemma TrackedLow(vs: seq<bv8>, base: seq<bv8>, kept: seq<Literal>, v: nat)
    requires Tracks(vs, base, kept) && v < |vs| && base[v] & 3 == 0
    ensures vs[v] & 3 == Pol(kept, v)
  {
    LowBitsOr(base[v], Pol(kept, v));
  }

  /** The state bytes after a literal is kept: its polarity bit is added. */
  lemma KeepStep(vs: seq<bv8>, base: seq<bv8>, kept: seq<Literal>, x: Literal)
    requires Tracks(vs, base, kept)
    requires x.v < |vs| && base[x.v] & 3 == 0 && Pol(kept, x.v) == 0
    ensures Tracks(vs[x.v := vs[x.v] | PolBit(x)], base, kept + [Unflag(x)])
  {
    AddPolarity(base[x.v], Pol(kept, x.v), PolBit(x));
    forall v | 0 <= v < |vs|
      ensures Pol(kept + [Unflag(x)], v) == if v == x.v then PolBit(x) else Pol(kept, v)
    {
      PolAppend(kept, Unflag(x), v);
    }
  }

  // ---------------------------------------------------------------------------
  // Soft clauses
  // ---------------------------------------------------------------------------

  /** `lit_true()`: the positive literal of the sentinel variable 0. */
  const LitTrue := Literal(0, false, false)

  /** The largest `weight_t`. */
  const WeightMax: int := 0x7FFF_FFFF

  /** An entry of `softClauses_`: a weight stored through `Literal::fromRep`,
      or a literal. */
  datatype Entry = WeightEntry(w: int) | LitEntry(lit: Literal)

  function Flag(x: Literal): Literal { Literal(x.v, x.sign, true) }

  function LitEntries(lits: seq<Literal>): (r: seq<Entry>)
    ensures |r| == |lits|
    ensures forall k :: 0 <= k < |r| ==> r[k] == LitEntry(lits[k])
  {
    seq(|lits|, k requires 0 <= k < |lits| => LitEntry(lits[k]))
  }

  /** The literals a soft clause is stored with after its weight: a fresh
      relaxation variable and the clause when it has more than one literal,
      the complement of its only literal, or `lit_true()` for the empty
      clause. */
  function SoftLits(clause: seq<Literal>, relax: nat): (r: seq<Literal>)
    ensures |r| > 0
  {
    if |clause| > 1 then [Literal(relax, false, false)] + clause
    else if |clause| == 1 then [Negate(clause[0])]
    else [LitTrue]
  }

  /** The entries `addClause` appends for a soft clause: the weight, the
      literals, and the flag on the last one that marks the clause's end. */
  function SoftRecord(w: int, clause: seq<Literal>, relax: nat): (r: seq<Entry>)
    ensures |r| >= 2 && r[0] == WeightEntry(w)
    ensures |r| == |SoftLits(clause, relax)| + 1
    ensures forall k :: 1 <= k < |r| ==> r[k].LitEntry? && Unflag(r[k].lit) == Unflag(SoftLits(clause, relax)[k - 1])
    ensures r[|r| - 1].lit.flagged
    ensures AllUnflagged(clause) ==> forall k :: 1 <= k < |r| - 1 ==> !r[k].lit.flagged
  {
    var lits := SoftLits(clause, relax);
    [WeightEntry(w)] + LitEntries(lits[..|lits| - 1]) + [LitEntry(Flag(lits[|lits| - 1]))]
  }

  /** `SatBuilder`: per-variable state bytes, the soft clauses, and the hard
      clauses handed to the solver. */
  class SatBuilder {
    var hardWeight: int
    var vars: nat
    var maxSat: bool
    var varState: seq<bv8>
    var softClauses: seq<Entry>
    var hardClauses: seq<seq<Literal>>

    /** Between calls the low two bits of every state byte are clear. */
    ghost predicate Valid() reads this {
      forall v :: 0 <= v < |varState| ==> varState[v] & 3 == 0
    }

    constructor (maxSat: bool)
      ensures Valid() && this.maxSat == maxSat
      ensures hardWeight == 0 && vars == 0 && varState == [] && softClauses == [] && hardClauses == []
    {
      hardWeight := 0;
      vars := 0;
      this.maxSat := maxSat;
      varState := [];
      softClauses := [];
      hardClauses := [];
    }

    /** `prepareProblem(numVars, cw, clauseHint)`: one state byte for each
        variable and the sentinel. */
    method PrepareProblem(numVars: nat, cw: int)
      requires Valid()
      modifies this
      ensures Valid()
      ensures varState == Resized(old(varState), numVars + 1)
      ensures vars == numVars && hardWeight == cw
      ensures maxSat == old(maxSat) && softClauses == old(softClauses) && hardClauses == old(hardClauses)
    {
      varState := Resized(varState, numVars + 1);
      vars := numVars;
      hardWeight := cw;
    }

    /** `satisfied(cc)`: whether `cc` is a tautology, and the clause it leaves
        behind. The polarities seen are recorded in bits 2-3 of each variable's
        state unless the clause is a tautology. */
    method Satisfied(cc: seq<Literal>) returns (sat: bool, kept: seq<Literal>)
      requires Valid()
      requires forall i :: 0 <= i < |cc| ==> cc[i].v < |varState|
      modifies this`varState
      ensures Valid()
      ensures (sat, kept) == Scanned(cc)
      ensures |varState| == |old(varState)|
      ensures forall v :: 0 <= v < |varState| ==>
        varState[v] == old(varState)[v] | (if sat then 0 else Pol(kept, v) << 2)
    {
      ghost var base := varState;
      sat, kept := ScanClause(cc);
      ScanFacts(cc, |varState|);
      assert ClearedUpTo(varState, base, kept, 0, sat);
      ClearBits(sat, kept, base);
    }

    /** The first loop of `satisfied`: keep each literal whose variable has
        no polarity bit yet, stop at one whose complement was kept. */
    method ScanClause(cc: seq<Literal>) returns (sat: bool, kept: seq<Literal>)
      requires Valid()
      requires forall i :: 0 <= i < |cc| ==> cc[i].v < |varState|
      modifies this`varState
      ensures (sat, kept) == Scanned(cc)
      ensures |varState| == |old(varState)|
      ensures Tracks(varState, old(varState), kept)
    {
      sat := false;
      kept := [];
      ghost var base := varState;
      assert Tracks(varState, base, []);
      var i := 0;
      while i < |cc|
        invariant 0 <= i <= |cc| && |varState| == |base|
        invariant !sat && Scanned(cc[..i]) == (false, kept)
        invariant Tracks(varState, base, kept)
      {
        var x := cc[i];
        var m := PolBit(x);
        TrackedLow(varState, base, kept, x.v);
        var n := (varState[x.v] & 3) + m;
        if n == m {
          ScanKeeps(cc, i);
          KeepStep(varState, base, kept, x);
          varState := varState[x.v := varState[x.v] | m];
          kept := kept + [Unflag(x)];
        } else if n == 3 {
          ScanClashes(cc, i);
          sat := true;
          ClashSticky(cc, i + 1);
          return;
        } else {
          ScanSkips(cc, i);
        }
        i := i + 1;
      }
      assert cc[..i] == cc;
    }

    /** The second loop of `satisfied`: over the kept literals, move the low
        bits up to bits 2-3 unless the clause was a tautology, and clear
        them. */
    method ClearBits(sat: bool, kept: seq<Literal>, ghost base: seq<bv8>)
      requires |varState| == |base|
      requires forall v :: 0 <= v < |base| ==> base[v] & 3 == 0
      requires forall i :: 0 <= i < |kept| ==> kept[i].v < |varState|
      requires forall v :: 0 <= v < |varState| ==> Pol(kept, v) != 3
      requires ClearedUpTo(varState, base, kept, 0, sat)
      modifies this`varState
      ensures |varState| == |base|
      ensures forall v :: 0 <= v < |varState| ==>
        varState[v] == base[v] | (if sat then 0 else Pol(kept, v) << 2)
    {
      var i := 0;
      while i < |kept|
        invariant 0 <= i <= |kept|
        invariant ClearedUpTo(varState, base, kept, i, sat)
      {
        var v := kept[i].v;
        ghost var before := varState;
        if !sat {
          varState := varState[v := varState[v] | ((varState[v] & 3) << 2)];
        }
        varState := varState[v := varState[v] & !3];
        assert varState == before[v := Folded(before[v], sat)];
        ClearStep(before, base, kept, i, sat);
        i := i + 1;
      }
      ClearedAll(varState, base, kept, sat);
    }

    /** `addClause(clause, cw)`. `ctxOk` is the solver's state on entry and
        `created` what posting a hard clause to it reports. */
    method AddClause(clause: seq<Literal>, cw: int, ctxOk: bool, created: bool) returns (ok: bool)
      requires Valid()
      requires forall i :: 0 <= i < |clause| ==> clause[i].v < |varState|
      requires ctxOk && !Tautology(clause) ==> 0 <= cw && (cw <= WeightMax || cw == hardWeight)
      modifies this
      ensures Valid()
      ensures hardWeight == old(hardWeight) && maxSat == old(maxSat)
      ensures !ctxOk ==> ok == false && varState == old(varState)
      ensures !ctxOk || Tautology(clause) ==>
        softClauses == old(softClauses) && hardClauses == old(hardClauses) && vars == old(vars)
      ensures ctxOk && Tautology(clause) ==> ok && varState == old(varState)
      ensures ctxOk && !Tautology(clause) ==>
        var w := if cw == 0 && old(maxSat) then 1 else cw;
        var kept := Scanned(clause).1;
        if w == old(hardWeight) then
          ok == created && hardClauses == old(hardClauses) + [kept]
          && softClauses == old(softClauses) && vars == old(vars)
        else
          ok && hardClauses == old(hardClauses)
          && vars == old(vars) + (if |kept| > 1 then 1 else 0)
          && softClauses == old(softClauses) + SoftRecord(w, kept, vars)
    {
      if !ctxOk {
        return false;
      }
      var sat, kept := Satisfied(clause);
      ScannedTautology(clause);
      if sat {
        forall v | 0 <= v < |varState|
          ensures varState[v] == old(varState)[v]
        {
          assert varState[v] == old(varState)[v] | 0;
        }
        return true;
      }
      var w := cw;
      if w == 0 && maxSat {
        w := 1;
      }
      if w == hardWeight {
        hardClauses := hardClauses + [kept];
        return created;
      }
      if |kept| > 1 {
        vars := vars + 1;
      }
      softClauses := softClauses + SoftRecord(w, kept, vars);
      return true;
    }
  }

  /** The moved-up polarities of `v` once its literal is processed. */
  function Moved(kept: seq<Literal>, v: nat, sat: bool): bv8 {
    if sat then 0 else Pol(kept, v) << 2
  }

  /** The state byte after one step of the second loop. */
  function Folded(x: bv8, sat: bool): bv8 {
    (if sat then x else x | ((x & 3) << 2)) & !3
  }

  /** The state bytes after the second loop processed `i` kept literals. */
  ghost predicate ClearedUpTo(vs: seq<bv8>, base: seq<bv8>, kept: seq<Literal>, i: nat, sat: bool)
    requires i <= |kept|
  {
    |vs| == |base|
    && forall v :: 0 <= v < |vs| ==>
      vs[v] == if Touched(kept, i, v) then base[v] | Moved(kept, v, sat) else base[v] | Pol(kept, v)
  }

  lemma ClearStep(vs: seq<bv8>, base: seq<bv8>, kept: seq<Literal>, i: nat, sat: bool)
    requires i < |kept| && kept[i].v < |vs|
    requires ClearedUpTo(vs, base, kept, i, sat)
    requires forall v :: 0 <= v < |base| ==> base[v] & 3 == 0
    requires Pol(kept, kept[i].v) != 3
    ensures ClearedUpTo(vs[kept[i].v := Folded(vs[kept[i].v], sat)], base, kept, i + 1, sat)
  {
    var v := kept[i].v;
    var p := Pol(kept, v);
    if Touched(kept, i, v) {
      ShiftedLow(p, sat);
      CleanStep(base[v], Moved(kept, v, sat), sat);
    } else {
      LowBitsOr(base[v], p);
    }
    assert Touched(kept, i + 1, v);
    var r := vs[v := Folded(vs[v], sat)];
    forall w | 0 <= w < |r| && w != v
      ensures Touched(kept, i + 1, w) == Touched(kept, i, w)
    {
      if Touched(kept, i + 1, w) {
        var j :| 0 <= j < i + 1 && kept[j].v == w;
        assert j < i;
      }
    }
  }

  lemma ClearedAll(vs: seq<bv8>, base: seq<bv8>, kept: seq<Literal>, sat: bool)
    requires ClearedUpTo(vs, base, kept, |kept|, sat)
    ensures forall v :: 0 <= v < |vs| ==> vs[v] == base[v] | (if sat then 0 else Pol(kept, v) << 2)
  {
    forall v | 0 <= v < |vs|
      ensures vs[v] == base[v] | (if sat then 0 else Pol(kept, v) << 2)
    {
      if !Touched(kept, |kept|, v) {
        assert !HasPos(kept, v) && !HasNeg(kept, v);
        assert Pol(kept, v) == 0;
      }
    }
  }

  /** Has a literal on `v` been processed among the first `i` kept ones? */
  predicate Touched(kept: seq<Literal>, i: nat, v: nat)
    requires i <= |kept|
  {
    exists j :: 0 <= j < i && kept[j].v == v
  }

  lemma ShiftedLow(p: bv8, sat: bool)
    requires p <= 3
    ensures (if sat then 0 else p << 2) & 3 == 0
  {
  }

  /** A byte that already has its polarities moved up is left as it is. */
  lemma CleanStep(s: bv8, q: bv8, sat: bool)
    requires s & 3 == 0 && q & 3 == 0
    ensures (s | q) & 3 == 0
    ensures ((s | q) | (((s | q) & 3) << 2)) & !3 == s | q
    ensures (s | q) & !3 == s | q
  {
  }

  // ---------------------------------------------------------------------------
  // The pseudo-Boolean builder
  // ---------------------------------------------------------------------------

  /** The largest `wsum_t`: no soft bound. */
  const WsumMax: int := 0x7FFF_FFFF_FFFF_FFFF

  /** `doGetWeakBounds(out)` on `out`, with soft bound `soft`. */
  function WeakBounds(soft: int, out: seq<int>): (r: seq<int>)
    ensures soft == WsumMax ==> r == out
    ensures soft != WsumMax ==> |r| == (if out == [] then 1 else |out|)
    ensures soft != WsumMax ==> r[0] == (if out == [] || out[0] > soft then soft else out[0])
    ensures forall k :: 1 <= k < |out| ==> r[k] == out[k]
  {
    if soft == WsumMax then out
    else if out == [] then [soft]
    else if out[0] > soft then out[0 := soft]
    else out
  }

  /** Asking for the weak bounds twice gives what asking once gives. */
  lemma WeakBoundsIdempotent(soft: int, out: seq<int>)
    ensures WeakBounds(soft, WeakBounds(soft, out)) == WeakBounds(soft, out)
  {
  }

  /** `PBBuilder`: the next free variable, the last variable, the soft
      bound, and (ghost) the variables handed out since the problem was
      prepared. */
  class PBBuilder {
    var nextVar: nat
    var maxVar: nat
    var soft: int
    ghost var first: nat
    ghost var handed: seq<nat>

    /** The variables handed out are those from `first + 1` up to
        `nextVar`, in order. */
    ghost predicate Valid() reads this {
      first <= nextVar
      && |handed| == nextVar - first
      && forall k :: 0 <= k < |handed| ==> handed[k] == first + 1 + k
    }

    constructor ()
      ensures Valid() && nextVar == 0 && handed == []
    {
      nextVar := 0;
      maxVar := 0;
      soft := WsumMax;
      first := 0;
      handed := [];
    }

    /** `doStartProgram()` with `numVars` variables in the solver. */
    method DoStartProgram(numVars: nat)
      modifies this
      ensures Valid() && nextVar == numVars && soft == WsumMax && handed == []
      ensures maxVar == old(maxVar)
    {
      nextVar := numVars;
      soft := WsumMax;
      first := numVars;
      handed := [];
    }

    /** `prepareProblem(numVars, numProd, numSoft, numCons)`: room for the
        product and soft-constraint variables after the input ones. */
    method PrepareProblem(numVars: nat, numProd: nat, numSoft: nat)
      modifies this
      ensures Valid() && nextVar == numVars && maxVar == numVars + numProd + numSoft
      ensures handed == [] && soft == old(soft)
    {
      nextVar := numVars;
      maxVar := numVars + numProd + numSoft;
      first := numVars;
      handed := [];
    }

    /** `getNextVar()`: the variable after the last one handed out. */
    method GetNextVar() returns (v: nat)
      requires Valid() && nextVar + 1 <= maxVar
      modifies this
      ensures Valid() && v == old(nextVar) + 1 && nextVar == v
      ensures handed == old(handed) + [v] && first == old(first)
      ensures maxVar == old(maxVar) && soft == old(soft)
    {
      nextVar := nextVar + 1;
      handed := handed + [nextVar];
      v := nextVar;
    }

    /** `setSoftBound(b)`: a positive bound is stored less one. */
    method SetSoftBound(b: int) returns (ok: bool)
      modifies this`soft
      ensures ok && soft == if b > 0 then b - 1 else old(soft)
    {
      if b > 0 {
        soft := b - 1;
      }
      return true;
    }

    /** `doGetWeakBounds(out)`. */
    method DoGetWeakBounds(out: seq<int>) returns (r: seq<int>)
      ensures r == WeakBounds(soft, out)
    {
      r := out;
      if soft != WsumMax {
        if |r| == 0 {
          r := r + [soft];
        } else if r[0] > soft {
          r := r[0 := soft];
        }
      }
    }
  }

  /** Variables handed out in turn are distinct and consecutive, starting
      after the input variables. */
  lemma HandedDistinct(b: PBBuilder, i: nat, j: nat)
    requires b.Valid() && i < j < |b.handed|
    ensures b.first < b.handed[i] < b.handed[j] <= b.nextVar
  {
  }
}
