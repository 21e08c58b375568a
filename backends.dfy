/** gringo's output backends. `IntermediateFormatBackend` writes a ground
    program in the aspif text format, printing theory terms and elements on
    demand and each of them once per backend; `SmodelsFormatBackend` hands the
    program to an smodels writer and has no theory atoms. */
module Backends {
  import opened BasicTypes
  import opened TheoryTerms
  import opened TheoryStore
  import opened Aspif

  // ---------------------------------------------------------------------------
  // Printing vectors

  /** `p(vec)`: the size, then a blank and each element. */
  function VecText(xs: seq<int>): string {
    IntToString(|xs|) + FieldsText(Ints(xs))
  }

  /** `p(LitWeightVec)`: the size, then literal and weight of each entry. */
  function WeightsText(ws: seq<WeightLit>): string {
    IntToString(|ws|) + FieldsText(Pairs(ws))
  }

  lemma FieldsCons(t: Token, fs: seq<Token>)
    ensures FieldsText([t] + fs) == " " + Text(t) + FieldsText(fs)
  {
    assert ([t] + fs)[0] == t && ([t] + fs)[1..] == fs;
  }

  /** A printed vector after a blank is the span field of the aspif format. */
  lemma SpanText(xs: seq<int>)
    ensures FieldsText(SpanFields(xs)) == " " + VecText(xs)
  {
    FieldsCons(Int(|xs|), Ints(xs));
  }

  lemma WeightSpanText(ws: seq<WeightLit>)
    ensures FieldsText(WeightSpanFields(ws)) == " " + WeightsText(ws)
  {
    FieldsCons(Int(|ws|), Pairs(ws));
  }

  /** A line is its code, its fields and the line break. */
  lemma Finish(o: string, code: nat, fs: seq<Token>)
    ensures o + IntToString(code) + FieldsText(fs) + "\n" == o + LineText([Int(code)] + fs)
  {
    assert ([Int(code)] + fs)[0] == Int(code) && ([Int(code)] + fs)[1..] == fs;
  }

  // ---------------------------------------------------------------------------
  // Rules

  /** The body `printNormalBody` describes: each literal with weight 1, the
      number of literals (as a 32-bit weight) as bound. */
  function NormalBody(lits: seq<int>): (b: BodyView)
    ensures b.kind == Normal && |b.lits| == |lits|
    ensures forall i :: 0 <= i < |lits| ==> b.lits[i] == WeightLit(lits[i], 1)
  {
    BodyView(Normal, ToInt32(|lits|), seq(|lits|, i requires 0 <= i < |lits| => WeightLit(lits[i], 1)))
  }

  /** What `printHead` writes: the rule code, the head type and the atoms. */
  function HeadText(h: HeadView): string {
    IntToString(CodeRule) + FieldsText([Int(HeadCode(h.kind))] + SpanFields(h.atoms))
  }

  /** What `printNormalBody` or `printWeightBody` writes after the head. */
  function BodyText(b: BodyView): string {
    FieldsText(BodyFields(b)) + "\n"
  }

  /** A head followed by a body is the aspif line of the rule. */
  lemma RulePrinted(h: HeadView, b: BodyView)
    ensures HeadText(h) + BodyText(b) == LineOf(Event.Rule(h, b))
  {
    var fs := [Int(HeadCode(h.kind))] + SpanFields(h.atoms);
    assert Writes(Event.Rule(h, b));
    var line := EventLine(Event.Rule(h, b));
    assert line[0] == Int(CodeRule) && line[1..] == fs + BodyFields(b);
    FieldsTextAppend(fs, BodyFields(b));
  }

  /** A normal body prints its literals only: the weights and the bound the
      smodels backend adds do not show. */
  lemma NormalBodyFields(lits: seq<int>)
    ensures BodyFields(NormalBody(lits)) == [Int(0)] + SpanFields(lits)
  {
    assert LitsOf(NormalBody(lits).lits) == lits;
  }

  // ---------------------------------------------------------------------------
  // Theory output: seen marks and specification

  /** `seenTerms_` and `seenElems_`: an id is seen when the vector holds it
      and its entry is set. */
  predicate Seen(s: seq<bool>, id: nat) {
    id < |s| && s[id]
  }

  /** The vector resized to hold `id` (new entries clear), then `id` set. */
  function Mark(s: seq<bool>, id: nat): (r: seq<bool>)
    ensures |r| == if id < |s| then |s| else id + 1
  {
    var g := if id < |s| then s else s + seq(id + 1 - |s|, _ => false);
    g[id := true]
  }

  /** Marking sets exactly the one entry. */
  lemma MarkLaws(s: seq<bool>, id: nat)
    ensures forall j: nat :: Seen(Mark(s, id), j) <==> Seen(s, j) || j == id
  {
    var g := if id < |s| then s else s + seq(id + 1 - |s|, _ => false);
    assert forall j: nat :: j < |g| ==> (j < |s| ==> g[j] == s[j]) && (j >= |s| ==> !g[j]);
  }

  /** The theory data as the backend reads it: every stored term and element
      counts, whatever the data's update frame. */
  function Whole(td: TheoryData): Table
    reads td
  {
    Table(td.terms.data, td.elems.data, Up(0, 0, 0))
  }

  /** The terms `printTerm` prints before a compound: its arguments, then
      its function symbol. */
  function Printed(t: Term): (r: seq<nat>)
    ensures forall x :: x in r <==> x in TermRefs(t)
  {
    if t.Compound? then t.args + (if t.base >= 0 then [t.base as nat] else []) else []
  }

  /** The backend's marks, the theory lines it printed and its text. */
  datatype BState = BState(seenTerms: seq<bool>, seenElems: seq<bool>, log: seq<Event>, out: string)

  /** Printing the line of `e`. */
  function Emit(s: BState, e: Event): BState {
    s.(log := s.log + [e], out := s.out + LineOf(e))
  }

  const TermError := "Invalid term id!"
  const ElementError := "Invalid element id!"

  /** The ids of the table's terms not marked in `seen`: each `printTerm`
      that recurses marks one of them first. */
  function UnseenTerms(tb: Table, seen: seq<bool>): set<nat> {
    set y: nat | y < |tb.terms| && !Seen(seen, y)
  }

  lemma UnseenShrinks(tb: Table, seen: seq<bool>, id: nat)
    requires id < |tb.terms| && !Seen(seen, id)
    ensures UnseenTerms(tb, Mark(seen, id)) < UnseenTerms(tb, seen)
  {
    MarkLaws(seen, id);
    assert id in UnseenTerms(tb, seen) - UnseenTerms(tb, Mark(seen, id));
  }

  /** `printTerm(id)`: an id not seen yet is marked, its term is looked up,
      the terms it refers to are printed, then its own line. */
  function PrintTermSpec(tb: Table, s: BState, id: nat): (r: Result<BState>)
    ensures r.Ok? ==> UnseenTerms(tb, r.value.seenTerms) <= UnseenTerms(tb, s.seenTerms)
    decreases UnseenTerms(tb, s.seenTerms), 0
  {
    if Seen(s.seenTerms, id) then Ok(s)
    else
      var m := s.(seenTerms := Mark(s.seenTerms, id));
      if !NewTermIn(tb, id) then Fail(TermError)
      else
        var t := tb.terms[id];
        UnseenShrinks(tb, s.seenTerms, id);
        var r := PrintTermsSpec(tb, m, Printed(t));
        if r.Fail? then r else Ok(Emit(r.value, TermDir(id, t)))
  }

  /** `printTerm` on each of `ts` in turn. */
  function PrintTermsSpec(tb: Table, s: BState, ts: seq<nat>): (r: Result<BState>)
    ensures r.Ok? ==> UnseenTerms(tb, r.value.seenTerms) <= UnseenTerms(tb, s.seenTerms)
    decreases UnseenTerms(tb, s.seenTerms), 1, |ts|
  {
    if ts == [] then Ok(s)
    else
      var r := PrintTermSpec(tb, s, ts[0]);
      if r.Fail? then r else PrintTermsSpec(tb, r.value, ts[1..])
  }

  /** One element of `printTheoryAtom`: an id not seen yet is marked, its
      element is looked up, its terms are printed, then its line with the
      condition `conds` gives it. */
  function PrintElementSpec(tb: Table, conds: nat -> seq<int>, s: BState, eId: nat): Result<BState>
  {
    if Seen(s.seenElems, eId) then Ok(s)
    else
      var m := s.(seenElems := Mark(s.seenElems, eId));
      if !NewElementIn(tb, eId) then Fail(ElementError)
      else
        var el := tb.elems[eId].value;
        var r := PrintTermsSpec(tb, m, el.terms);
        if r.Fail? then r else Ok(Emit(r.value, ElementDir(eId, el.terms, conds(eId))))
  }

  function PrintElementsSpec(tb: Table, conds: nat -> seq<int>, s: BState, els: seq<nat>): Result<BState>
    decreases |els|
  {
    if els == [] then Ok(s)
    else
      var r := PrintElementSpec(tb, conds, s, els[0]);
      if r.Fail? then r else PrintElementsSpec(tb, conds, r.value, els[1..])
  }

  /** The guard of an atom: its right-hand side, then the operator. */
  function PrintGuardSpec(tb: Table, s: BState, g: Option<(nat, nat)>): Result<BState>
  {
    if g.None? then Ok(s)
    else
      var r := PrintTermSpec(tb, s, g.value.1);
      if r.Fail? then r else PrintTermSpec(tb, r.value, g.value.0)
  }

  /** `printTheoryAtom(atom, getCond)`: the atom's term, its elements, its
      guard, then the atom line. */
  function PrintAtomSpec(tb: Table, conds: nat -> seq<int>, s: BState, a: Atom): Result<BState>
  {
    var r1 := PrintTermSpec(tb, s, a.term);
    if r1.Fail? then r1
    else
      var r2 := PrintElementsSpec(tb, conds, r1.value, a.elements);
      if r2.Fail? then r2
      else
        var r3 := PrintGuardSpec(tb, r2.value, a.guard);
        if r3.Fail? then r3 else Ok(Emit(r3.value, AtomLine(a)))
  }

  /** A run of `printTheoryAtom` calls on one backend. */
  function PrintAtomsSpec(tb: Table, conds: nat -> seq<int>, s: BState, atoms: seq<Atom>): Result<BState>
    decreases |atoms|
  {
    if atoms == [] then Ok(s)
    else
      var r := PrintAtomSpec(tb, conds, s, atoms[0]);
      if r.Fail? then r else PrintAtomsSpec(tb, conds, r.value, atoms[1..])
  }

  // ---------------------------------------------------------------------------
  // Theory output: what is printed once, and in which order

  /** The term marks added meanwhile are the terms logged, and a term is
      logged only when it was not marked before. */
  ghost predicate SeenGrow(L0: seq<Event>, T0: seq<bool>, L: seq<Event>, T: seq<bool>) {
    (forall y: nat :: Seen(T, y) <==> Seen(T0, y) || y in TermIds(L)) &&
    (forall y: nat :: y in TermIds(L) && y !in TermIds(L0) ==> !Seen(T0, y))
  }

  /** What printing terms does: term lines only, ordered, with their text,
      each of a term that was not marked. */
  ghost predicate TermsGrow(tb: Table, s0: BState, s: BState) {
    LogGrows(tb, s0.log, s.log) && TextGrows(s0.log, s0.out, s.log, s.out) &&
    SeenGrow(s0.log, s0.seenTerms, s.log, s.seenTerms) &&
    s.seenElems == s0.seenElems && ElemIds(s.log) == ElemIds(s0.log)
  }

  lemma TermsGrowNone(tb: Table, s: BState)
    requires Ordered(tb, s.log) && forall y: nat :: y in TermIds(s.log) ==> Seen(s.seenTerms, y)
    ensures TermsGrow(tb, s, s)
  {
    assert s.log[..|s.log|] == s.log;
    assert s.log[|s.log|..] == [];
  }

  lemma TermsGrowTrans(tb: Table, s0: BState, s1: BState, s2: BState)
    requires TermsGrow(tb, s0, s1) && TermsGrow(tb, s1, s2)
    ensures TermsGrow(tb, s0, s2)
  {
    LogGrowsTrans(tb, s0.log, s1.log, s2.log);
    TextGrowsTrans(s0.log, s0.out, s1.log, s1.out, s2.log, s2.out);
  }

  /** Logging the line of `id` after marking it and printing what it refers
      to. */
  lemma TermsGrowLine(tb: Table, s: BState, r: BState, id: nat, t: Term)
    requires !Seen(s.seenTerms, id) && id !in TermIds(s.log)
    requires TermsGrow(tb, s.(seenTerms := Mark(s.seenTerms, id)), r)
    requires DepsIn(tb, TermDir(id, t), TermIds(r.log), ElemIds(r.log))
    ensures TermsGrow(tb, s, Emit(r, TermDir(id, t)))
  {
    var e := TermDir(id, t);
    SnocGrows(tb, s.log, s.out, r.log, r.out, e);
    MarkLaws(s.seenTerms, id);
  }

  /** `printTerm(id)` keeps the log ordered and prints the text of the lines
      it logs; it fails only on a missing term, and otherwise `id` is logged
      afterwards. A marked term not yet logged is one a caller is still
      printing, higher than `id`. */
  lemma {:induction false} PrintTermFacts(tb: Table, rank: seq<nat>, s: BState, id: nat)
    requires Acyclic(tb.terms, rank) && Ordered(tb, s.log)
    requires forall y: nat :: y in TermIds(s.log) ==> Seen(s.seenTerms, y)
    requires forall y: nat :: Seen(s.seenTerms, y) ==> y in TermIds(s.log) || Height(rank, y) > Height(rank, id)
    ensures var r := PrintTermSpec(tb, s, id);
      (r.Fail? ==> r.msg == TermError) &&
      (r.Ok? ==> TermsGrow(tb, s, r.value) && id in TermIds(r.value.log))
    decreases Height(rank, id), 1
  {
    if Seen(s.seenTerms, id) {
      TermsGrowNone(tb, s);
    } else if NewTermIn(tb, id) {
      var t := tb.terms[id];
      var m := s.(seenTerms := Mark(s.seenTerms, id));
      MarkLaws(s.seenTerms, id);
      var r := PrintTermsSpec(tb, m, Printed(t));
      PrintTermsFacts(tb, rank, m, Printed(t), Height(rank, id));
      if r.Ok? {
        assert id !in TermIds(r.value.log);
        TermsGrowLine(tb, s, r.value, id, t);
      }
    }
  }

  /** `printTerm` on each of `ts`: as `PrintTermFacts`, and each of `ts` is
      logged afterwards. */
  lemma {:induction false} PrintTermsFacts(tb: Table, rank: seq<nat>, s: BState, ts: seq<nat>, bound: nat)
    requires Acyclic(tb.terms, rank) && Ordered(tb, s.log)
    requires forall r :: r in ts ==> Height(rank, r) < bound
    requires forall y: nat :: y in TermIds(s.log) ==> Seen(s.seenTerms, y)
    requires forall y: nat :: Seen(s.seenTerms, y) ==> y in TermIds(s.log) || Height(rank, y) >= bound
    ensures var r := PrintTermsSpec(tb, s, ts);
      (r.Fail? ==> r.msg == TermError) &&
      (r.Ok? ==> TermsGrow(tb, s, r.value) && forall x :: x in ts ==> x in TermIds(r.value.log))
    decreases bound, 0, |ts|
  {
    if ts == [] {
      TermsGrowNone(tb, s);
    } else {
      var r1 := PrintTermSpec(tb, s, ts[0]);
      PrintTermFacts(tb, rank, s, ts[0]);
      if r1.Ok? {
        var r := PrintTermsSpec(tb, r1.value, ts[1..]);
        PrintTermsFacts(tb, rank, r1.value, ts[1..], bound);
        if r.Ok? {
          TermsGrowTrans(tb, s, r1.value, r.value);
          forall x | x in ts
            ensures x in TermIds(r.value.log)
          {
            if x != ts[0] {
              assert x in ts[1..];
            }
          }
        }
      }
    }
  }

  /** The marks are those of the logged terms and elements. */
  ghost predicate Consistent(tb: Table, s: BState) {
    Ordered(tb, s.log) &&
    (forall y: nat :: Seen(s.seenTerms, y) <==> y in TermIds(s.log)) &&
    (forall y: nat :: Seen(s.seenElems, y) <==> y in ElemIds(s.log))
  }

  /** From `s` the backend went on to `r`, keeping its log ordered and
      printing the text of the lines it added, of which the atom lines are
      `added`. */
  ghost predicate Progress(tb: Table, s: BState, r: BState, added: seq<Event>) {
    Ordered(tb, r.log) && |s.log| <= |r.log| && r.log[..|s.log|] == s.log &&
    TermIds(s.log) <= TermIds(r.log) && ElemIds(s.log) <= ElemIds(r.log) &&
    AtomEvents(r.log) == AtomEvents(s.log) + added &&
    TextGrows(s.log, s.out, r.log, r.out)
  }

  lemma ProgressTrans(tb: Table, s0: BState, s1: BState, s2: BState, a1: seq<Event>, a2: seq<Event>)
    requires Progress(tb, s0, s1, a1) && Progress(tb, s1, s2, a2)
    ensures Progress(tb, s0, s2, a1 + a2)
  {
    assert s2.log[..|s0.log|] == s1.log[..|s0.log|];
    Associative(AtomEvents(s0.log), a1, a2);
    TextGrowsTrans(s0.log, s0.out, s1.log, s1.out, s2.log, s2.out);
  }

  /** `printTerm` on a consistent backend keeps it consistent. */
  lemma PrintTermConsistent(tb: Table, rank: seq<nat>, s: BState, id: nat)
    requires Acyclic(tb.terms, rank) && Consistent(tb, s)
    ensures var r := PrintTermSpec(tb, s, id);
      (r.Fail? ==> r.msg == TermError) &&
      (r.Ok? ==> Consistent(tb, r.value) && Progress(tb, s, r.value, []) && id in TermIds(r.value.log))
  {
    PrintTermFacts(tb, rank, s, id);
    var r := PrintTermSpec(tb, s, id);
    if r.Ok? {
      assert AtomEvents(r.value.log) == AtomEvents(s.log) + [];
    }
  }

  /** An element is printed only when not seen yet, after its terms; it fails
      only on a missing term or element; afterwards it is logged. */
  lemma PrintElementFacts(tb: Table, rank: seq<nat>, conds: nat -> seq<int>, s: BState, eId: nat)
    requires Acyclic(tb.terms, rank) && Consistent(tb, s)
    ensures var r := PrintElementSpec(tb, conds, s, eId);
      (r.Fail? ==> r.msg == TermError || r.msg == ElementError) &&
      (r.Ok? ==> Consistent(tb, r.value) && Progress(tb, s, r.value, []) && eId in ElemIds(r.value.log))
  {
    if Seen(s.seenElems, eId) {
      TermsGrowNone(tb, s);
      assert AtomEvents(s.log) == AtomEvents(s.log) + [];
    } else if NewElementIn(tb, eId) {
      var el := tb.elems[eId].value;
      var m := s.(seenElems := Mark(s.seenElems, eId));
      MarkLaws(s.seenElems, eId);
      var r := PrintTermsSpec(tb, m, el.terms);
      PrintTermsFacts(tb, rank, m, el.terms, Ceiling(rank));
      if r.Ok? {
        var e := ElementDir(eId, el.terms, conds(eId));
        assert DepsIn(tb, e, TermIds(r.value.log), ElemIds(r.value.log));
        SnocGrows(tb, s.log, s.out, r.value.log, r.value.out, e);
        assert AtomEvents(r.value.log + [e]) == AtomEvents(s.log) + [];
      }
    }
  }

  lemma {:induction false} PrintElementsFacts(tb: Table, rank: seq<nat>, conds: nat -> seq<int>, s: BState, els: seq<nat>)
    requires Acyclic(tb.terms, rank) && Consistent(tb, s)
    ensures var r := PrintElementsSpec(tb, conds, s, els);
      (r.Fail? ==> r.msg == TermError || r.msg == ElementError) &&
      (r.Ok? ==>
        Consistent(tb, r.value) && Progress(tb, s, r.value, []) &&
        forall x :: x in els ==> x in ElemIds(r.value.log))
    decreases |els|
  {
    if els == [] {
      TermsGrowNone(tb, s);
      assert AtomEvents(s.log) == AtomEvents(s.log) + [];
    } else {
      var r1 := PrintElementSpec(tb, conds, s, els[0]);
      PrintElementFacts(tb, rank, conds, s, els[0]);
      if r1.Ok? {
        var r := PrintElementsSpec(tb, conds, r1.value, els[1..]);
        PrintElementsFacts(tb, rank, conds, r1.value, els[1..]);
        if r.Ok? {
          ProgressTrans(tb, s, r1.value, r.value, [], []);
          forall x | x in els
            ensures x in ElemIds(r.value.log)
          {
            if x != els[0] {
              assert x in els[1..];
            }
          }
        }
      }
    }
  }

  /** The guard terms are printed, right-hand side first. */
  lemma PrintGuardFacts(tb: Table, rank: seq<nat>, s: BState, g: Option<(nat, nat)>)
    requires Acyclic(tb.terms, rank) && Consistent(tb, s)
    ensures var r := PrintGuardSpec(tb, s, g);
      (r.Fail? ==> r.msg == TermError) &&
      (r.Ok? ==>
        Consistent(tb, r.value) && Progress(tb, s, r.value, []) &&
        (g.Some? ==> g.value.0 in TermIds(r.value.log) && g.value.1 in TermIds(r.value.log)))
  {
    if g.None? {
      TermsGrowNone(tb, s);
      assert AtomEvents(s.log) == AtomEvents(s.log) + [];
    } else {
      var r1 := PrintTermSpec(tb, s, g.value.1);
      PrintTermConsistent(tb, rank, s, g.value.1);
      if r1.Ok? {
        PrintTermConsistent(tb, rank, r1.value, g.value.0);
        var r := PrintTermSpec(tb, r1.value, g.value.0);
        if r.Ok? {
          ProgressTrans(tb, s, r1.value, r.value, [], []);
        }
      }
    }
  }

  /** Appending the atom line `e`. */
  lemma AtomPrinted(tb: Table, s: BState, s2: BState, e: Event)
    requires Consistent(tb, s2) && Progress(tb, s, s2, []) && e.AtomDir?
    requires DepsIn(tb, e, TermIds(s2.log), ElemIds(s2.log))
    ensures Consistent(tb, Emit(s2, e)) && Progress(tb, s, Emit(s2, e), [e])
  {
    OrderedSnoc(tb, s2.log, e);
    assert (s2.log + [e])[..|s.log|] == s.log;
    assert (s2.log + [e])[|s.log|..] == s2.log[|s.log|..] + [e];
    EventsTextSnoc(s2.log[|s.log|..], e);
    Associative(s.out, EventsText(s2.log[|s.log|..]), LineOf(e));
  }

  /** `printTheoryAtom` prints the atom line after its term, its elements and
      its guard terms, each printed once, keeping the backend consistent. */
  lemma PrintAtomFacts(tb: Table, rank: seq<nat>, conds: nat -> seq<int>, s: BState, a: Atom)
    requires Acyclic(tb.terms, rank) && Consistent(tb, s)
    ensures var r := PrintAtomSpec(tb, conds, s, a);
      (r.Fail? ==> r.msg == TermError || r.msg == ElementError) &&
      (r.Ok? ==> Consistent(tb, r.value) && Progress(tb, s, r.value, [AtomLine(a)]))
  {
    var r1 := PrintTermSpec(tb, s, a.term);
    PrintTermConsistent(tb, rank, s, a.term);
    if r1.Ok? {
      var r2 := PrintElementsSpec(tb, conds, r1.value, a.elements);
      PrintElementsFacts(tb, rank, conds, r1.value, a.elements);
      if r2.Ok? {
        ProgressTrans(tb, s, r1.value, r2.value, [], []);
        var r3 := PrintGuardSpec(tb, r2.value, a.guard);
        PrintGuardFacts(tb, rank, r2.value, a.guard);
        if r3.Ok? {
          ProgressTrans(tb, s, r2.value, r3.value, [], []);
          var e := AtomLine(a);
          assert DepsIn(tb, e, TermIds(r3.value.log), ElemIds(r3.value.log));
          AtomPrinted(tb, s, r3.value, e);
        }
      }
    }
  }

  /** A run of `printTheoryAtom` calls prints the atom lines of the atoms in
      order, keeping the backend consistent. */
  lemma {:induction false} PrintAtomsFacts(tb: Table, rank: seq<nat>, conds: nat -> seq<int>, s: BState, atoms: seq<Atom>)
    requires Acyclic(tb.terms, rank) && Consistent(tb, s)
    ensures var r := PrintAtomsSpec(tb, conds, s, atoms);
      (r.Fail? ==> r.msg == TermError || r.msg == ElementError) &&
      (r.Ok? ==> Consistent(tb, r.value) && Progress(tb, s, r.value, AtomLines(atoms)))
    decreases |atoms|
  {
    if atoms == [] {
      TermsGrowNone(tb, s);
      assert AtomEvents(s.log) == AtomEvents(s.log) + AtomLines(atoms);
    } else {
      var r1 := PrintAtomSpec(tb, conds, s, atoms[0]);
      PrintAtomFacts(tb, rank, conds, s, atoms[0]);
      if r1.Ok? {
        var r := PrintAtomsSpec(tb, conds, r1.value, atoms[1..]);
        PrintAtomsFacts(tb, rank, conds, r1.value, atoms[1..]);
        if r.Ok? {
          ProgressTrans(tb, s, r1.value, r.value, [AtomLine(atoms[0])], AtomLines(atoms[1..]));
          AtomLinesCons(atoms);
        }
      }
    }
  }

  /** What a fresh backend promises for its theory atoms: it fails only on a
      missing term or element; otherwise every term and element line is
      printed once, after the lines of the terms it refers to, the atom lines
      are those of the atoms in order, and the text is that of the lines. */
  lemma FreshBackendFacts(tb: Table, rank: seq<nat>, conds: nat -> seq<int>, out: string, atoms: seq<Atom>)
    requires Acyclic(tb.terms, rank)
    ensures var r := PrintAtomsSpec(tb, conds, BState([], [], [], out), atoms);
      (r.Fail? ==> r.msg == TermError || r.msg == ElementError) &&
      (r.Ok? ==>
        Ordered(tb, r.value.log) && AtomEvents(r.value.log) == AtomLines(atoms) &&
        r.value.out == out + EventsText(r.value.log))
  {
    var s := BState([], [], [], out);
    PrintAtomsFacts(tb, rank, conds, s, atoms);
    var r := PrintAtomsSpec(tb, conds, s, atoms);
    if r.Ok? {
      assert r.value.log[0..] == r.value.log;
    }
  }

  /** On a table that is not acyclic `printTerm` still stops: a compound
      that lists itself as an argument is printed once. */
  lemma SelfReferencePrintedOnce(out: string)
    ensures var t := Compound(-1, [0]);
      PrintTermSpec(Table([t], [], Up(0, 0, 0)), BState([], [], [], out), 0) ==
      Ok(BState([true], [], [TermDir(0, t)], out + LineOf(TermDir(0, t))))
  {
    var t := Compound(-1, [0]);
    var tb := Table([t], [], Up(0, 0, 0));
    var m := BState([true], [], [], out);
    assert Mark([], 0) == [true];
    assert PrintTermSpec(tb, m, 0) == Ok(m);
    assert PrintTermsSpec(tb, m, [0]) == PrintTermsSpec(tb, m, []);
    assert NewTermIn(tb, 0) && !Seen([], 0) && Printed(t) == [0];
    assert m == BState([], [], [], out).(seenTerms := Mark([], 0));
    assert PrintTermsSpec(tb, m, Printed(t)) == Ok(m);
    assert Emit(m, TermDir(0, t)) == BState([true], [], [TermDir(0, t)], out + LineOf(TermDir(0, t)));
  }

  // ---------------------------------------------------------------------------
  // The aspif text backend

  class IntermediateFormatBackend {
    /** `data_`: the theory data the terms and elements are looked up in. */
    const data: TheoryData
    /** The text written to `out_` so far. */
    var out: string
    var seenTerms: seq<bool>
    var seenElems: seq<bool>
    /** The theory lines printed so far. */
    ghost var log: seq<Event>

    ghost function State(): BState
      reads this
    {
      BState(seenTerms, seenElems, log, out)
    }

    constructor (data: TheoryData)
      ensures this.data == data && State() == BState([], [], [], "")
    {
      this.data := data;
      out := "";
      seenTerms := [];
      seenElems := [];
      log := [];
    }

    /** The directive code that starts a line. */
    method StartLine(code: nat)
      modifies this`out
      ensures out == old(out) + IntToString(code) + FieldsText([])
    {
      out := out + IntToString(code);
    }

    /** `out_ << " " << x` for each field in turn. */
    method AddFields(fs: seq<Token>)
      modifies this`out
      ensures out == old(out) + FieldsText(fs)
    {
      var i := 0;
      while i < |fs|
        invariant 0 <= i <= |fs|
        invariant out == old(out) + FieldsText(fs[..i])
      {
        FieldsTextSnoc(old(out), fs, i);
        out := out + " " + Text(fs[i]);
        i := i + 1;
      }
      assert fs[..i] == fs;
    }

    /** More fields on a line under way, which began with `o`. */
    method Fields(ghost o: string, ghost fs: seq<Token>, more: seq<Token>)
      requires out == o + FieldsText(fs)
      modifies this`out
      ensures out == o + FieldsText(fs + more)
    {
      AddFields(more);
      FieldsTextAppend(fs, more);
      Associative(o, FieldsText(fs), FieldsText(more));
    }

    /** `out_ << " " << p(xs)` on a line under way: the size, then each
        element. */
    method Vec(ghost o: string, ghost fs: seq<Token>, xs: seq<int>)
      requires out == o + FieldsText(fs)
      modifies this`out
      ensures out == o + FieldsText(fs + SpanFields(xs))
    {
      Fields(o, fs, [Int(|xs|)]);
      Fields(o, fs + [Int(|xs|)], Ints(xs));
      Associative(fs, [Int(|xs|)], Ints(xs));
    }

    /** `out_ << " " << p(ws)` for weight literals on a line under way. */
    method Weights(ghost o: string, ghost fs: seq<Token>, ws: seq<WeightLit>)
      requires out == o + FieldsText(fs)
      modifies this`out
      ensures out == o + FieldsText(fs + WeightSpanFields(ws))
    {
      Fields(o, fs, [Int(|ws|)]);
      Fields(o, fs + [Int(|ws|)], Pairs(ws));
      Associative(fs, [Int(|ws|)], Pairs(ws));
    }

    /** The line break. */
    method EndLine()
      modifies this`out
      ensures out == old(out) + "\n"
    {
      out := out + "\n";
    }

    /** `init(incremental)`: the header line. */
    method Init(incremental: bool)
      modifies this`out
      ensures out == old(out) + LineOf(Event.InitProgram(incremental))
    {
      ghost var o := out;
      out := out + "asp 1 0 0";
      if incremental {
        out := out + " incremental";
      }
      out := out + "\n";
      HeaderPrinted(o, incremental);
    }

    /** `beginStep()` prints nothing. */
    method BeginStep()
      ensures out == old(out)
    {
    }

    /** `printHead(choice, atoms)`: the start of a rule line. */
    method PrintHead(choice: bool, atoms: seq<nat>)
      modifies this`out
      ensures out == old(out) + HeadText(HeadView(if choice then Choice else Disjunctive, atoms))
    {
      var kind := if choice then Choice else Disjunctive;
      ghost var o := out + IntToString(CodeRule);
      StartLine(CodeRule);
      Fields(o, [], [Int(HeadCode(kind))]);
      Vec(o, [Int(HeadCode(kind))], atoms);
      Associative(old(out), IntToString(CodeRule), FieldsText([Int(HeadCode(kind))] + SpanFields(atoms)));
    }

    /** `printNormalBody(body)`: the rest of a rule line. */
    method PrintNormalBody(body: seq<int>)
      modifies this`out
      ensures out == old(out) + BodyText(NormalBody(body))
    {
      ghost var o := out;
      Fields(o, [], [Int(BodyCode(Normal))]);
      Vec(o, [Int(BodyCode(Normal))], body);
      EndLine();
      NormalBodyFields(body);
      Associative(o, FieldsText(BodyFields(NormalBody(body))), "\n");
    }

    /** `printWeightBody(lower, body)`: the rest of a rule line with a sum
        body. */
    method PrintWeightBody(lower: int, body: seq<WeightLit>)
      modifies this`out
      ensures out == old(out) + BodyText(BodyView(Sum, lower, body))
    {
      ghost var o := out;
      Fields(o, [], [Int(BodyCode(Sum)), Int(lower)]);
      Weights(o, [] + [Int(BodyCode(Sum)), Int(lower)], body);
      EndLine();
      assert BodyFields(BodyView(Sum, lower, body)) == [] + [Int(BodyCode(Sum)), Int(lower)] + WeightSpanFields(body);
      Associative(o, FieldsText(BodyFields(BodyView(Sum, lower, body))), "\n");
    }

    method PrintMinimize(priority: int, body: seq<WeightLit>)
      modifies this`out
      ensures out == old(out) + LineOf(Event.Minimize(priority, body))
    {
      ghost var o := out + IntToString(CodeMinimize);
      StartLine(CodeMinimize);
      Fields(o, [], [Int(priority)]);
      Weights(o, [Int(priority)], body);
      EndLine();
      Finish(old(out), CodeMinimize, [Int(priority)] + WeightSpanFields(body));
      MinimizeFields(priority, body);
    }

    method PrintProject(atoms: seq<nat>)
      modifies this`out
      ensures out == old(out) + LineOf(Event.Project(atoms))
    {
      ghost var o := out + IntToString(CodeProject);
      StartLine(CodeProject);
      Vec(o, [], atoms);
      EndLine();
      Finish(old(out), CodeProject, [] + SpanFields(atoms));
      ProjectFields(atoms);
    }

    /** `printOutput(value, body)`: the length of the text, then the text. */
    method PrintOutput(value: string, body: seq<int>)
      modifies this`out
      ensures out == old(out) + LineOf(Event.Output(value, body))
    {
      var pre := [Int(|value|), Word(value)];
      ghost var o := out + IntToString(CodeOutput);
      StartLine(CodeOutput);
      Fields(o, [], pre);
      Vec(o, [] + pre, body);
      EndLine();
      Finish(old(out), CodeOutput, [] + pre + SpanFields(body));
      OutputFields(value, body);
    }

    method PrintEdge(u: nat, v: nat, body: seq<int>)
      modifies this`out
      ensures out == old(out) + LineOf(Event.Edge(u, v, body))
    {
      var pre := [Int(u), Int(v)];
      ghost var o := out + IntToString(CodeEdge);
      StartLine(CodeEdge);
      Fields(o, [], pre);
      Vec(o, [] + pre, body);
      EndLine();
      Finish(old(out), CodeEdge, [] + pre + SpanFields(body));
      EdgeFields(u, v, body);
    }

    /** `printHeuristic(modifier, atom, value, priority, body)`: the modifier
        comes before the atom. */
    method PrintHeuristic(modifier: nat, atom: nat, value: int, priority: nat, body: seq<int>)
      modifies this`out
      ensures out == old(out) + LineOf(Event.Heuristic(atom, modifier, value, priority, body))
    {
      var pre := [Int(modifier), Int(atom), Int(value), Int(priority)];
      ghost var o := out + IntToString(CodeHeuristic);
      StartLine(CodeHeuristic);
      Fields(o, [], pre);
      Vec(o, [] + pre, body);
      EndLine();
      Finish(old(out), CodeHeuristic, [] + pre + SpanFields(body));
      HeuristicFields(atom, modifier, value, priority, body);
    }

    method PrintExternal(atom: nat, value: nat)
      modifies this`out
      ensures out == old(out) + LineOf(Event.External(atom, value))
    {
      var pre := [Int(atom), Int(value)];
      ghost var o := out + IntToString(CodeExternal);
      StartLine(CodeExternal);
      Fields(o, [], pre);
      EndLine();
      Finish(old(out), CodeExternal, [] + pre);
      ExternalFields(atom, value);
    }

    method PrintAssume(lits: seq<int>)
      modifies this`out
      ensures out == old(out) + LineOf(Event.Assume(lits))
    {
      ghost var o := out + IntToString(CodeAssume);
      StartLine(CodeAssume);
      Vec(o, [], lits);
      EndLine();
      Finish(old(out), CodeAssume, [] + SpanFields(lits));
      AssumeFields(lits);
    }

    /** `endStep()`: the line "0". */
    method EndStep()
      modifies this`out
      ensures out == old(out) + LineOf(Event.EndStep)
    {
      StartLine(CodeEnd);
      EndLine();
      Finish(old(out), CodeEnd, []);
      assert EventLine(Event.EndStep) == [Int(CodeEnd)] + [];
    }

    /** `printTerm(termId)`. */
    method PrintTerm(id: nat) returns (r: Result<()>)
      modifies this
      decreases UnseenTerms(Whole(data), seenTerms), 0
      ensures var sp := PrintTermSpec(Whole(data), old(State()), id);
        (r.Ok? <==> sp.Ok?) && (r.Ok? ==> State() == sp.value) && (r.Fail? ==> r.msg == sp.msg)
    {
      if |seenTerms| <= id {
        seenTerms := seenTerms + seq(id + 1 - |seenTerms|, _ => false);
      }
      if seenTerms[id] {
        return Ok(());
      }
      seenTerms := seenTerms[id := true];
      assert seenTerms == Mark(old(seenTerms), id);
      var found := data.GetTerm(id);
      if found.Fail? {
        return Fail(found.msg);
      }
      var t := found.value;
      UnseenShrinks(Whole(data), old(seenTerms), id);
      r := PrintTerms(Printed(t));
      if r.Fail? {
        return;
      }
      TermLine(id, t);
      log := log + [TermDir(id, t)];
    }

    /** `printTerm` on each of `ts` in turn. */
    method PrintTerms(ts: seq<nat>) returns (r: Result<()>)
      modifies this
      decreases UnseenTerms(Whole(data), seenTerms), 1
      ensures var sp := PrintTermsSpec(Whole(data), old(State()), ts);
        (r.Ok? <==> sp.Ok?) && (r.Ok? ==> State() == sp.value) && (r.Fail? ==> r.msg == sp.msg)
    {
      ghost var tb := Whole(data);
      var k := 0;
      while k < |ts|
        invariant 0 <= k <= |ts|
        invariant UnseenTerms(tb, seenTerms) <= UnseenTerms(tb, old(seenTerms))
        invariant PrintTermsSpec(tb, State(), ts[k..]) == PrintTermsSpec(tb, old(State()), ts)
      {
        assert ts[k..][0] == ts[k] && ts[k..][1..] == ts[k + 1..];
        r := PrintTerm(ts[k]);
        if r.Fail? {
          return;
        }
        k := k + 1;
      }
      assert ts[k..] == [];
      r := Ok(());
    }

    /** The line of a term: a number, the length and text of a symbol, or
        the function id or tuple type of a compound with its arguments. */
    method TermLine(id: nat, t: Term)
      requires t != Invalid
      modifies this`out
      ensures out == old(out) + LineOf(TermDir(id, t))
    {
      var pre := [Int(TermCode(t)), Int(id)];
      ghost var o := out + IntToString(CodeTheory);
      StartLine(CodeTheory);
      match t {
        case Num(n) =>
          Fields(o, [], pre + [Int(n)]);
        case Sym(s) =>
          Fields(o, [], pre + [Int(|s|), Word(s)]);
        case Compound(b, args) =>
          Fields(o, [], pre + [Int(b)]);
          Vec(o, [] + (pre + [Int(b)]), args);
      }
      EndLine();
      TermLineText(old(out), id, t);
    }

    /** `printTheoryAtom(atom, getCond)`; `conds` stands for `getCond`. */
    method PrintTheoryAtom(a: Atom, conds: nat -> seq<int>) returns (r: Result<()>)
      modifies this
      ensures var sp := PrintAtomSpec(Whole(data), conds, old(State()), a);
        (r.Ok? <==> sp.Ok?) && (r.Ok? ==> State() == sp.value) && (r.Fail? ==> r.msg == sp.msg)
    {
      r := PrintTerm(a.term);
      if r.Fail? {
        return;
      }
      r := PrintElements(a.elements, conds);
      if r.Fail? {
        return;
      }
      if a.guard.Some? {
        r := PrintTerm(a.guard.value.1);
        if r.Fail? {
          return;
        }
        r := PrintTerm(a.guard.value.0);
        if r.Fail? {
          return;
        }
      }
      AtomLineOut(a);
      log := log + [AtomLine(a)];
    }

    /** The loop of `printTheoryAtom` over the atom's elements. */
    method PrintElements(els: seq<nat>, conds: nat -> seq<int>) returns (r: Result<()>)
      modifies this
      ensures var sp := PrintElementsSpec(Whole(data), conds, old(State()), els);
        (r.Ok? <==> sp.Ok?) && (r.Ok? ==> State() == sp.value) && (r.Fail? ==> r.msg == sp.msg)
    {
      ghost var tb := Whole(data);
      var k := 0;
      while k < |els|
        invariant 0 <= k <= |els|
        invariant PrintElementsSpec(tb, conds, State(), els[k..]) == PrintElementsSpec(tb, conds, old(State()), els)
      {
        assert els[k..][0] == els[k] && els[k..][1..] == els[k + 1..];
        r := PrintElement(els[k], conds);
        if r.Fail? {
          return;
        }
        k := k + 1;
      }
      assert els[k..] == [];
      r := Ok(());
    }

    /** One element of `printTheoryAtom`. */
    method PrintElement(eId: nat, conds: nat -> seq<int>) returns (r: Result<()>)
      modifies this
      ensures var sp := PrintElementSpec(Whole(data), conds, old(State()), eId);
        (r.Ok? <==> sp.Ok?) && (r.Ok? ==> State() == sp.value) && (r.Fail? ==> r.msg == sp.msg)
    {
      if |seenElems| <= eId {
        seenElems := seenElems + seq(eId + 1 - |seenElems|, _ => false);
      }
      if seenElems[eId] {
        return Ok(());
      }
      seenElems := seenElems[eId := true];
      assert seenElems == Mark(old(seenElems), eId);
      var found := data.GetElement(eId);
      if found.Fail? {
        return Fail(found.msg);
      }
      var el := found.value;
      r := PrintTerms(el.terms);
      if r.Fail? {
        return;
      }
      var cond := conds(eId);
      ElementLine(eId, el.terms, cond);
      log := log + [ElementDir(eId, el.terms, cond)];
    }

    /** The line of an element: its terms, then its condition. */
    method ElementLine(eId: nat, terms: seq<nat>, cond: seq<int>)
      modifies this`out
      ensures out == old(out) + LineOf(ElementDir(eId, terms, cond))
    {
      var pre := [Int(CodeElement), Int(eId)];
      ghost var o := out + IntToString(CodeTheory);
      StartLine(CodeTheory);
      Fields(o, [], pre);
      Vec(o, [] + pre, terms);
      Vec(o, [] + pre + SpanFields(terms), cond);
      EndLine();
      ElementText(old(out), eId, terms, cond);
    }

    /** The line of a theory atom, with its guard and right-hand side when it
        has one. */
    method AtomLineOut(a: Atom)
      modifies this`out
      ensures out == old(out) + LineOf(AtomLine(a))
    {
      var code := if a.guard.Some? then CodeAtomWithGuard else CodeAtom;
      var pre := [Int(code), Int(a.atom), Int(OccCode(a.occ)), Int(a.term)];
      var tail := if a.guard.Some? then [Int(a.guard.value.0), Int(a.guard.value.1)] else [];
      ghost var o := out + IntToString(CodeTheory);
      StartLine(CodeTheory);
      Fields(o, [], pre);
      Vec(o, [] + pre, a.elements);
      if a.guard.Some? {
        Fields(o, [] + pre + SpanFields(a.elements), tail);
      } else {
        assert [] + pre + SpanFields(a.elements) + tail == [] + pre + SpanFields(a.elements);
      }
      EndLine();
      ghost var fs := [] + pre + SpanFields(a.elements) + tail;
      Finish(old(out), CodeTheory, fs);
      AtomFields(a);
    }
  }

  /** The fields `printTerm` writes for a term, as it writes them. */
  function WrittenTermFields(id: nat, t: Term): (fs: seq<Token>)
    requires t != Invalid
    ensures fs == [Int(TermCode(t)), Int(id)] + TermFields(t)
  {
    var pre := [Int(TermCode(t)), Int(id)];
    match t
    case Num(n) => [] + (pre + [Int(n)])
    case Sym(s) => [] + (pre + [Int(|s|), Word(s)])
    case Compound(b, args) =>
      assert [] + (pre + [Int(b)]) + SpanFields(args) == pre + TermFields(t);
      [] + (pre + [Int(b)]) + SpanFields(args)
  }

  /** What `printTerm` writes for a term, field by field, is its term line. */
  lemma TermLineText(o: string, id: nat, t: Term)
    requires t != Invalid
    ensures o + IntToString(CodeTheory) + FieldsText(WrittenTermFields(id, t)) + "\n" == o + LineOf(TermDir(id, t))
  {
    Finish(o, CodeTheory, WrittenTermFields(id, t));
    TermDirLine(id, t);
  }

  /** What `printTheoryAtom` writes for an element is its element line. */
  lemma ElementText(o: string, id: nat, terms: seq<nat>, cond: seq<int>)
    ensures o + IntToString(CodeTheory) + FieldsText([] + [Int(CodeElement), Int(id)] + SpanFields(terms) + SpanFields(cond)) + "\n" ==
      o + LineOf(ElementDir(id, terms, cond))
  {
    var fs := [Int(CodeElement), Int(id)] + SpanFields(terms) + SpanFields(cond);
    EmptyPrefix([Int(CodeElement), Int(id)], SpanFields(terms), SpanFields(cond));
    Finish(o, CodeTheory, fs);
    ElementDirLine(id, terms, cond);
  }

  lemma EmptyPrefix(a: seq<Token>, b: seq<Token>, c: seq<Token>)
    ensures [] + a + b + c == a + b + c
  {
    assert [] + a == a;
  }

  lemma MinimizeFields(priority: int, body: seq<WeightLit>)
    ensures EventLine(Event.Minimize(priority, body)) == [Int(CodeMinimize)] + ([Int(priority)] + WeightSpanFields(body))
  {
  }

  lemma ProjectFields(atoms: seq<nat>)
    ensures EventLine(Event.Project(atoms)) == [Int(CodeProject)] + ([] + SpanFields(atoms))
  {
  }

  lemma OutputFields(value: string, body: seq<int>)
    ensures EventLine(Event.Output(value, body)) == [Int(CodeOutput)] + ([] + [Int(|value|), Word(value)] + SpanFields(body))
  {
  }

  lemma ExternalFields(atom: nat, value: nat)
    ensures EventLine(Event.External(atom, value)) == [Int(CodeExternal)] + ([] + [Int(atom), Int(value)])
  {
  }

  lemma AssumeFields(lits: seq<int>)
    ensures EventLine(Event.Assume(lits)) == [Int(CodeAssume)] + ([] + SpanFields(lits))
  {
  }

  lemma HeuristicFields(atom: nat, modifier: nat, value: int, priority: nat, body: seq<int>)
    ensures EventLine(Event.Heuristic(atom, modifier, value, priority, body)) ==
      [Int(CodeHeuristic)] + ([] + [Int(modifier), Int(atom), Int(value), Int(priority)] + SpanFields(body))
  {
  }

  lemma EdgeFields(u: nat, v: nat, body: seq<int>)
    ensures EventLine(Event.Edge(u, v, body)) == [Int(CodeEdge)] + ([] + [Int(u), Int(v)] + SpanFields(body))
  {
  }

  lemma AtomFields(a: Atom)
    ensures var code := if a.guard.Some? then CodeAtomWithGuard else CodeAtom;
      var tail := if a.guard.Some? then [Int(a.guard.value.0), Int(a.guard.value.1)] else [];
      EventLine(AtomLine(a)) ==
        [Int(CodeTheory)] + ([] + [Int(code), Int(a.atom), Int(OccCode(a.occ)), Int(a.term)] + SpanFields(a.elements) + tail)
  {
  }

  /** The header `init` prints is the aspif header line. */
  lemma HeaderPrinted(o: string, incremental: bool)
    ensures o + "asp 1 0 0" + (if incremental then " incremental" else "") + "\n" ==
      o + LineOf(Event.InitProgram(incremental))
  {
    var tail := if incremental then " incremental" else "";
    HeaderLine(incremental);
    Associative(o, "asp 1 0 0", tail);
    Associative(o, "asp 1 0 0" + tail, "\n");
  }

  /** The header line, as text. */
  lemma HeaderLine(incremental: bool)
    ensures LineOf(Event.InitProgram(incremental)) ==
      "asp 1 0 0" + (if incremental then " incremental" else "") + "\n"
  {
    var base := [Int(1), Int(0), Int(0)];
    var extra := if incremental then [Word("incremental")] else [];
    var tail := if incremental then " incremental" else "";
    HeaderTokens(incremental);
    LineTextCons(Word("asp"), base + extra);
    HeaderFields();
    FieldsTextAppend(base, extra);
    IncrementalField(incremental);
    HeaderJoin(tail);
  }

  /** The header's tokens: the word `asp`, the version, and the optional
      `incremental` tag. */
  lemma HeaderTokens(incremental: bool)
    ensures LineOf(Event.InitProgram(incremental)) ==
      LineText([Word("asp")] + ([Int(1), Int(0), Int(0)] + if incremental then [Word("incremental")] else []))
  {
    assert EventLine(Event.InitProgram(incremental)) ==
      [Word("asp")] + ([Int(1), Int(0), Int(0)] + if incremental then [Word("incremental")] else []);
  }

  /** A line is its first field's text, the other fields, and the break. */
  lemma LineTextCons(t: Token, fs: seq<Token>)
    ensures LineText([t] + fs) == Text(t) + FieldsText(fs) + "\n"
  {
    assert ([t] + fs)[1..] == fs;
  }

  /** The optional tag is written after a blank. */
  lemma IncrementalField(incremental: bool)
    ensures FieldsText(if incremental then [Word("incremental")] else []) ==
      if incremental then " incremental" else ""
  {
    if incremental {
      assert FieldsText([Word("incremental")]) == " " + "incremental" + FieldsText([]);
    }
  }

  lemma HeaderJoin(tail: string)
    ensures Text(Word("asp")) + (" 1 0 0" + tail) + "\n" == "asp 1 0 0" + tail + "\n"
  {
    assert Text(Word("asp")) == "asp";
    assert "asp" + " 1 0 0" == "asp 1 0 0";
  }

  lemma HeaderFields()
    ensures FieldsText([Int(1), Int(0), Int(0)]) == " 1 0 0"
  {
    assert IntToString(0) == "0" && IntToString(1) == "1";
    assert FieldsText([Int(0)]) == " 0";
    assert FieldsText([Int(0), Int(0)]) == " 0 0";
  }

  // ---------------------------------------------------------------------------
  // The smodels backend

  const NoTheoryAtoms := "smodels format does not support theory atoms"

  class SmodelsFormatBackend {
    /** The calls made on the smodels writer `out_`, in order. */
    var calls: seq<Event>
    /** `type_` and `atoms_`: the head of the rule being printed. */
    var headType: HeadType
    var atoms: seq<nat>
    /** `wlits_`: the weighted literals of the last normal body. */
    var wlits: seq<WeightLit>

    constructor ()
      ensures calls == [] && atoms == [] && wlits == []
    {
      calls := [];
      headType := Disjunctive;
      atoms := [];
      wlits := [];
    }

    /** `printHead(choice, atoms)`: the head is kept for the body. */
    method PrintHead(choice: bool, atoms: seq<nat>)
      modifies this`headType, this`atoms
      ensures headType == (if choice then Choice else Disjunctive) && this.atoms == atoms
    {
      headType := if choice then Choice else Disjunctive;
      this.atoms := atoms;
    }

    /** `printNormalBody(body)`: the rule goes to the writer with weight 1 for
        each literal and the number of literals as bound. */
    method PrintNormalBody(body: seq<int>)
      modifies this`wlits, this`calls
      ensures wlits == NormalBody(body).lits
      ensures calls == old(calls) + [Event.Rule(HeadView(headType, atoms), NormalBody(body))]
    {
      wlits := [];
      var i := 0;
      while i < |body|
        invariant 0 <= i <= |body|
        invariant wlits == NormalBody(body[..i]).lits && calls == old(calls)
      {
        assert body[..i + 1][..i] == body[..i];
        wlits := wlits + [WeightLit(body[i], 1)];
        i := i + 1;
      }
      assert body[..i] == body;
      assert wlits == NormalBody(body).lits;
      var size := ToInt32(|wlits|);
      assert BodyView(Normal, size, wlits) == NormalBody(body);
      calls := calls + [Event.Rule(HeadView(headType, atoms), BodyView(Normal, size, wlits))];
    }

    /** `printWeightBody(lower, body)`. */
    method PrintWeightBody(lower: int, body: seq<WeightLit>)
      modifies this`calls
      ensures calls == old(calls) + [Event.Rule(HeadView(headType, atoms), BodyView(Sum, lower, body))]
    {
      calls := calls + [Event.Rule(HeadView(headType, atoms), BodyView(Sum, lower, body))];
    }

    /** `printTheoryAtom`: always an error. */
    method PrintTheoryAtom(a: Atom) returns (r: Result<()>)
      ensures r == Fail(NoTheoryAtoms)
    {
      r := Fail(NoTheoryAtoms);
    }
  }

  /** The smodels backend's normal body: every literal has weight 1 and the
      bound is the number of literals, for any body of fewer than 2^31
      literals; as text the two backends print the same rule. */
  lemma NormalBodyMeans(h: HeadView, lits: seq<int>)
    ensures |lits| < TWO31 ==> NormalBody(lits).bound == |lits|
    ensures LitsOf(NormalBody(lits).lits) == lits
    ensures forall w :: w in NormalBody(lits).lits ==> w.weight == 1
    ensures HeadText(h) + BodyText(NormalBody(lits)) == LineOf(Event.Rule(h, NormalBody(lits)))
  {
    NormalBodyLits(lits);
    NormalBodyBound(lits);
    RulePrinted(h, NormalBody(lits));
  }

  lemma NormalBodyLits(lits: seq<int>)
    ensures LitsOf(NormalBody(lits).lits) == lits
    ensures forall w :: w in NormalBody(lits).lits ==> w.weight == 1
  {
    var b := NormalBody(lits);
    assert LitsOf(b.lits) == lits;
    forall w | w in b.lits
      ensures w.weight == 1
    {
      var i :| 0 <= i < |b.lits| && b.lits[i] == w;
    }
  }

  lemma NormalBodyBound(lits: seq<int>)
    ensures |lits| < TWO31 ==> NormalBody(lits).bound == |lits|
  {
  }
}
