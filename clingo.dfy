/** The bitset of literal ids that clasp's theory propagator keeps to
    register each watched literal once: one bit per id, 32 ids to a word. */
module ClaspBits {
  /** `test_bit(w, b)`. */
  predicate TestBit(w: bv32, b: bv32)
    requires b < 32
  {
    w & ((1 as bv32) << b) != 0
  }

  /** `set_bit(w, b)`. */
  function SetBit(w: bv32, b: bv32): bv32
    requires b < 32
  {
    w | ((1 as bv32) << b)
  }

  /** Setting a bit sets that one and keeps the others. */
  lemma SetBitMeans(w: bv32, b: bv32, c: bv32)
    requires b < 32 && c < 32
    ensures TestBit(SetBit(w, b), c) <==> b == c || TestBit(w, c)
  {
    BitsOr(w, b, c);
  }

  /** Or-ing in one bit, then testing another. */
  lemma BitsOr(w: bv32, b: bv32, c: bv32)
    requires b < 32 && c < 32
    ensures (w | ((1 as bv32) << b)) & ((1 as bv32) << c) != 0 <==> b == c || w & ((1 as bv32) << c) != 0
  {
  }

  /** The position of literal id `i` within its word. */
  function BitOf(i: nat): (b: bv32)
    ensures b < 32
  {
    (i % 32) as bv32
  }

  /** Ids in one word have different bit positions. */
  lemma BitOfInjective(i: nat, j: nat)
    requires i / 32 == j / 32 && BitOf(i) == BitOf(j)
    ensures i == j
  {
    SmallWidth(i % 32);
    SmallWidth(j % 32);
  }

  /** A bit position converts to a 32-bit word and back unchanged. */
  lemma SmallWidth(n: nat)
    requires n < 32
    ensures (n as bv32) as int == n
  {
    if n == 0 { assert (n as bv32) as int == 0; }
    else if n == 1 { assert (n as bv32) as int == 1; }
    else if n == 2 { assert (n as bv32) as int == 2; }
    else if n == 3 { assert (n as bv32) as int == 3; }
    else if n == 4 { assert (n as bv32) as int == 4; }
    else if n == 5 { assert (n as bv32) as int == 5; }
    else if n == 6 { assert (n as bv32) as int == 6; }
    else if n == 7 { assert (n as bv32) as int == 7; }
    else if n == 8 { assert (n as bv32) as int == 8; }
    else if n == 9 { assert (n as bv32) as int == 9; }
    else if n == 10 { assert (n as bv32) as int == 10; }
    else if n == 11 { assert (n as bv32) as int == 11; }
    else if n == 12 { assert (n as bv32) as int == 12; }
    else if n == 13 { assert (n as bv32) as int == 13; }
    else if n == 14 { assert (n as bv32) as int == 14; }
    else if n == 15 { assert (n as bv32) as int == 15; }
    else if n == 16 { assert (n as bv32) as int == 16; }
    else if n == 17 { assert (n as bv32) as int == 17; }
    else if n == 18 { assert (n as bv32) as int == 18; }
    else if n == 19 { assert (n as bv32) as int == 19; }
    else if n == 20 { assert (n as bv32) as int == 20; }
    else if n == 21 { assert (n as bv32) as int == 21; }
    else if n == 22 { assert (n as bv32) as int == 22; }
    else if n == 23 { assert (n as bv32) as int == 23; }
    else if n == 24 { assert (n as bv32) as int == 24; }
    else if n == 25 { assert (n as bv32) as int == 25; }
    else if n == 26 { assert (n as bv32) as int == 26; }
    else if n == 27 { assert (n as bv32) as int == 27; }
    else if n == 28 { assert (n as bv32) as int == 28; }
    else if n == 29 { assert (n as bv32) as int == 29; }
    else if n == 30 { assert (n as bv32) as int == 30; }
    else { assert (n as bv32) as int == 31; }
  }

  /** Is the bit of literal id `i` set in the bitset `bits`? */
  predicate Marked(bits: seq<bv32>, i: nat) {
    i / 32 < |bits| && TestBit(bits[i / 32], BitOf(i))
  }

  /** Growing the bitset with cleared words marks nothing new. */
  lemma GrowKeepsMarks(a: seq<bv32>, b: seq<bv32>)
    requires |a| <= |b| && b[..|a|] == a
    requires forall w :: |a| <= w < |b| ==> b[w] == 0
    ensures forall i: nat :: Marked(b, i) <==> Marked(a, i)
  {
    forall i: nat | i / 32 < |b| && i / 32 >= |a|
      ensures !TestBit(b[i / 32], BitOf(i))
    {
      assert b[i / 32] == 0;
    }
    forall i: nat | i / 32 < |a|
      ensures b[i / 32] == a[i / 32]
    {
      assert b[..|a|][i / 32] == a[i / 32];
    }
  }

  /** Setting the bit of id `j` marks `j` and keeps every other mark. */
  lemma MarkOne(a: seq<bv32>, b: seq<bv32>, j: nat)
    requires j / 32 < |a| && b == a[j / 32 := SetBit(a[j / 32], BitOf(j))]
    ensures forall i: nat :: Marked(b, i) <==> i == j || Marked(a, i)
  {
    forall i: nat
      ensures Marked(b, i) <==> i == j || Marked(a, i)
    {
      if i / 32 == j / 32 {
        SetBitMeans(a[j / 32], BitOf(j), BitOf(i));
        if BitOf(i) == BitOf(j) {
          BitOfInjective(i, j);
        }
      }
    }
  }

}

/** The glue between clasp's solver and a theory propagator: the set of
    watched literals, and the trail of true watched literals together with
    the undo stack that restores it on backtracking. The solver's answers
    (values, levels, which literals need a watch) are parameters; the watches
    it registers are collected in a list. */
module ClaspClingo {
  import opened BasicTypes
  import opened LogicProgramTypes
  import opened ClaspBits

  // ---------------------------------------------------------------------------
  // Watches
  // ---------------------------------------------------------------------------

  /** Is some literal with the id of `lit` in `vec`? */
  predicate HasId(vec: seq<Literal>, lit: Literal) {
    exists k :: 0 <= k < |vec| && LitId(vec[k]) == LitId(lit)
  }

  /** `TheoryPropagator::Watches`: a bitset over literal ids, and the
      literals in the order they were first added. */
  class Watches {
    var bits: seq<bv32>
    var vec: seq<Literal>

    /** The bitset marks exactly the ids of the literals in the list, and no
        id is listed twice. */
    ghost predicate Valid() reads this {
      (forall i: nat :: Marked(bits, i) <==> exists k :: 0 <= k < |vec| && LitId(vec[k]) == i)
      && (forall k, l :: 0 <= k < l < |vec| ==> LitId(vec[k]) != LitId(vec[l]))
    }

    constructor ()
      ensures Valid() && bits == [] && vec == []
    {
      bits := [];
      vec := [];
    }

    /** `add(lit)`: the literal is appended the first time its id is seen,
        and its encoding is returned either way. */
    method Add(lit: Literal) returns (r: int)
      requires Valid()
      modifies this
      ensures Valid()
      ensures r == EncodeLit(lit)
      ensures vec == old(vec) + (if HasId(old(vec), lit) then [] else [lit])
    {
      var word := LitId(lit) / 32;
      var bit := BitOf(LitId(lit));
      ghost var before := bits;
      if word >= |bits| {
        bits := bits + seq(word + 1 - |bits|, _ => 0);
        GrowKeepsMarks(before, bits);
      }
      assert Marked(bits, LitId(lit)) <==> HasId(vec, lit);
      if !TestBit(bits[word], bit) {
        ghost var marks := bits;
        vec := vec + [lit];
        bits := bits[word := SetBit(bits[word], bit)];
        MarkOne(marks, bits, LitId(lit));
        assert !HasId(old(vec), lit);
        forall i: nat
          ensures Marked(bits, i) <==> exists k :: 0 <= k < |vec| && LitId(vec[k]) == i
        {
          if i == LitId(lit) {
            assert LitId(vec[|vec| - 1]) == i;
          }
          if exists k :: 0 <= k < |old(vec)| && LitId(old(vec)[k]) == i {
            var k :| 0 <= k < |old(vec)| && LitId(old(vec)[k]) == i;
            assert vec[k] == old(vec)[k];
          }
        }
      }
      r := EncodeLit(lit);
    }
  }

  // ---------------------------------------------------------------------------
  // Truth values seen by the theory propagator
  // ---------------------------------------------------------------------------

  /** `Potassco::Value_t`. */
  datatype TruthValue = Free | True | False

  const InvalidVariable := "invalid variable"
  const InvalidWatchList := "invalid watch list!"
  const InvalidUndo := "invalid undo!"

  /** `uint32_t(-1)`: the level of an unassigned literal. */
  const NoLevel: nat := 0xFFFF_FFFF

  /** `value(lit)` when the solver has `hasVar` for the literal's variable
      and gives it the value `varValue`. */
  function Value(lit: int, hasVar: bool, varValue: ValueRep): (r: Result<TruthValue>)
    ensures !hasVar <==> r == Fail(InvalidVariable)
    ensures hasVar ==> r.Ok? && (r.value == Free <==> varValue != ValueTrue && varValue != ValueFalse)
    ensures hasVar && varValue == ValueTrue ==> r.Ok? && (r.value == True <==> lit >= 0)
    ensures hasVar && varValue == ValueFalse ==> r.Ok? && (r.value == True <==> lit < 0)
  {
    if !hasVar then Fail(InvalidVariable)
    else if varValue == ValueTrue then Ok(if lit >= 0 then True else False)
    else if varValue == ValueFalse then Ok(if lit >= 0 then False else True)
    else Ok(Free)
  }

  function Complement(v: TruthValue): TruthValue {
    match v
    case Free => Free
    case True => False
    case False => True
  }

  /** A non-zero literal and its negation get complementary values. */
  lemma ValueOfNegation(lit: int, hasVar: bool, varValue: ValueRep)
    requires lit != 0 && hasVar
    ensures DecodeVar(-lit) == DecodeVar(lit)
    ensures Value(-lit, hasVar, varValue).value == Complement(Value(lit, hasVar, varValue).value)
  {
  }

  /** `level(lit)`: the level of the variable, or `uint32_t(-1)` when the
      literal is unassigned. */
  function Level(lit: int, hasVar: bool, varValue: ValueRep, varLevel: nat): (r: Result<nat>)
    ensures r.Fail? <==> !hasVar
    ensures r.Ok? ==> (r.value == NoLevel <==> Value(lit, hasVar, varValue).value == Free || varLevel == NoLevel)
    ensures r.Ok? && Value(lit, hasVar, varValue).value != Free ==> r.value == varLevel
  {
    var v := Value(lit, hasVar, varValue);
    if v.Fail? then Fail(v.msg)
    else Ok(if v.value != Free then varLevel else NoLevel)
  }

  // ---------------------------------------------------------------------------
  // The trail and the undo stack
  // ---------------------------------------------------------------------------

  /** What the propagator may ask the solver: each variable's value and
      decision level, and the root level. */
  datatype SolverView = SolverView(value: nat -> ValueRep, level: nat -> nat, root: nat)

  /** `s.isTrue(p)`: the variable has the value that makes `p` true. */
  predicate IsTrueLit(sv: SolverView, p: Literal) {
    sv.value(p.v) == (if p.sign then ValueFalse else ValueTrue)
  }

  /** `init` watches a literal that is unassigned or assigned above the
      root level. */
  predicate NeedsWatch(sv: SolverView, p: Literal) {
    sv.value(p.v) == ValueFree || sv.level(p.v) > sv.root
  }

  /** The value the propagator reads for an encoded literal agrees with the
      solver's notion of the literal being true. */
  lemma ValueOfLiteral(sv: SolverView, x: Literal)
    requires x.v > 0
    ensures Value(EncodeLit(x), true, sv.value(DecodeVar(EncodeLit(x)))) == Ok(True) <==> IsTrueLit(sv, x)
  {
    IdMeans(x, x);
  }

  /** An undo entry: a decision level and the trail size to restore. */
  datatype Undo = Undo(level: nat, delta: nat)

  /** The literals `init` puts on the trail from watch `lo` up to `hi`:
      those that need no watch and are true. */
  function InitTrail(ws: seq<Literal>, lo: nat, hi: nat, sv: SolverView): seq<int>
    requires lo <= hi <= |ws|
    decreases hi
  {
    if hi == lo then []
    else
      InitTrail(ws, lo, hi - 1, sv)
      + (if !NeedsWatch(sv, ws[hi - 1]) && IsTrueLit(sv, ws[hi - 1]) then [EncodeLit(ws[hi - 1])] else [])
  }

  /** The watches `init` registers, each with its index. */
  function InitWatches(ws: seq<Literal>, lo: nat, hi: nat, sv: SolverView): seq<(Literal, nat)>
    requires lo <= hi <= |ws|
    decreases hi
  {
    if hi == lo then []
    else
      InitWatches(ws, lo, hi - 1, sv)
      + (if NeedsWatch(sv, ws[hi - 1]) then [(ws[hi - 1], hi - 1)] else [])
  }

  /** What `init` adds to the trail are encodings of true watches, from
      `lo` on, that needed no watch. */
  lemma {:induction false} InitTrailFrom(ws: seq<Literal>, lo: nat, hi: nat, sv: SolverView, x: int)
    requires lo <= hi <= |ws|
    requires x in InitTrail(ws, lo, hi, sv)
    ensures (exists k :: lo <= k < hi && x == EncodeLit(ws[k]) && !NeedsWatch(sv, ws[k]) && IsTrueLit(sv, ws[k]))
    decreases hi
  {
    if x !in InitTrail(ws, lo, hi - 1, sv) {
      assert x == EncodeLit(ws[hi - 1]);
    } else {
      InitTrailFrom(ws, lo, hi - 1, sv, x);
    }
  }

  /** The watch indices among registered watches. */
  function Registered(s: seq<(Literal, nat)>): set<nat> {
    set p | p in s :: p.1
  }

  /** A watch index is registered exactly when that watch needs one, and it
      is registered with its own literal. */
  lemma {:induction false} InitWatchesExactly(ws: seq<Literal>, lo: nat, hi: nat, sv: SolverView)
    requires lo <= hi <= |ws|
    ensures Registered(InitWatches(ws, lo, hi, sv)) == set k | lo <= k < hi && NeedsWatch(sv, ws[k])
    ensures forall p :: p in InitWatches(ws, lo, hi, sv) ==> p.1 < |ws| && p.0 == ws[p.1]
    decreases hi
  {
    if hi > lo {
      InitWatchesExactly(ws, lo, hi - 1, sv);
      var prev := InitWatches(ws, lo, hi - 1, sv);
      var tail: seq<(Literal, nat)> := if NeedsWatch(sv, ws[hi - 1]) then [(ws[hi - 1], hi - 1)] else [];
      assert InitWatches(ws, lo, hi, sv) == prev + tail;
      assert Registered(prev + tail) == Registered(prev) + Registered(tail);
    }
  }

  /** `TheoryPropagator::PP`: the trail of true watched literals handed to
      the propagator, the undo stack, how far the watches were initialised,
      how much of the trail the propagator has seen, and the last clause it
      added. */
  class PostPropagator {
    var trail: seq<int>
    var undo: seq<Undo>
    var init: nat
    var delta: nat
    var clause: seq<Literal>
    var watched: seq<(Literal, nat)>

    /** The undo entries restore ever larger trail sizes, none beyond what
        the propagator has seen, which is part of the trail. */
    ghost predicate Valid() reads this {
      delta <= |trail|
      && (forall k :: 0 <= k < |undo| ==> undo[k].delta <= delta)
      && (forall k, l :: 0 <= k < l < |undo| ==> undo[k].delta <= undo[l].delta)
    }

    constructor ()
      ensures Valid()
      ensures trail == [] && undo == [Undo(0, 0)] && init == 0 && delta == 0
      ensures clause == [] && watched == []
    {
      trail := [];
      undo := [Undo(0, 0)];
      init := 0;
      delta := 0;
      clause := [];
      watched := [];
    }

    /** `init(s)`: every watch from `init_` on either gets a watch, goes on
        the trail when true at the root, or is passed over. */
    method Init(ws: seq<Literal>, sv: SolverView) returns (r: Result<bool>)
      requires Valid()
      modifies this`init, this`trail, this`watched
      ensures Valid()
      ensures old(init) > |ws| ==>
        (r == Fail(InvalidWatchList) && init == old(init) && trail == old(trail) && watched == old(watched))
      ensures old(init) <= |ws| ==>
        (r == Ok(true) && init == |ws|
         && trail == old(trail) + InitTrail(ws, old(init), |ws|, sv)
         && watched == old(watched) + InitWatches(ws, old(init), |ws|, sv))
    {
      if init > |ws| {
        return Fail(InvalidWatchList);
      }
      ghost var from := init;
      while init != |ws|
        invariant from <= init <= |ws|
        invariant delta <= |trail|
        invariant trail == old(trail) + InitTrail(ws, from, init, sv)
        invariant watched == old(watched) + InitWatches(ws, from, init, sv)
        decreases |ws| - init
      {
        var p := ws[init];
        if NeedsWatch(sv, p) {
          watched := watched + [(p, init)];
        } else if IsTrueLit(sv, p) {
          trail := trail + [EncodeLit(p)];
        }
        init := init + 1;
      }
      return Ok(true);
    }

    /** `propagate(s, p, data)`: the literal goes on the trail. */
    method Propagate(p: Literal) returns (ok: bool, keepWatch: bool)
      requires Valid()
      modifies this`trail
      ensures Valid()
      ensures trail == old(trail) + [EncodeLit(p)] && ok && keepWatch
    {
      trail := trail + [EncodeLit(p)];
      return true, true;
    }

    /** `reason(s, p, r)`: the negations of the clause's literals, without
        the first one when that is `p`. */
    method Reason(p: Literal, r: seq<Literal>) returns (out: seq<Literal>)
      requires |clause| > 0
      ensures var start := if LitId(p) == LitId(clause[0]) then 1 else 0;
        |out| == |r| + |clause| - start
        && out[..|r|] == r
        && forall k :: start <= k < |clause| ==> out[|r| + k - start] == Negate(clause[k])
    {
      var start := if LitId(p) == LitId(clause[0]) then 1 else 0;
      out := r;
      var i := start;
      while i < |clause|
        invariant start <= i <= |clause|
        invariant |out| == |r| + i - start && out[..|r|] == r
        invariant forall k :: start <= k < i ==> out[|r| + k - start] == Negate(clause[k])
      {
        out := out + [Negate(clause[i])];
        i := i + 1;
      }
    }

    /** `reset()`: the trail is cut back to what the propagator has seen. */
    method Reset()
      requires Valid()
      modifies this`trail
      ensures Valid()
      ensures trail == old(trail)[..delta]
    {
      trail := trail[..delta];
    }

    /** `undoLevel(s)` at decision level `level`: the top undo entry must be
        for that level; it restores the seen part of the trail, is popped,
        and the trail is cut back. `change` is what is handed to the
        propagator's `undo`. */
    method UndoLevel(level: nat) returns (r: Result<seq<int>>)
      requires Valid() && |undo| > 0
      modifies this`trail, this`undo, this`delta
      ensures Valid()
      ensures level != old(undo[|undo| - 1].level) <==> r == Fail(InvalidUndo)
      ensures r.Fail? ==> trail == old(trail) && undo == old(undo) && delta == old(delta)
      ensures r.Ok? ==>
        delta == old(undo[|undo| - 1].delta)
        && undo == old(undo[..|undo| - 1])
        && trail == old(trail)[..delta]
        && r.value == old(trail)[delta..]
    {
      if level != undo[|undo| - 1].level {
        return Fail(InvalidUndo);
      }
      delta := undo[|undo| - 1].delta;
      undo := undo[..|undo| - 1];
      var change := trail[delta..];
      trail := trail[..delta];
      return Ok(change);
    }
  }
}
