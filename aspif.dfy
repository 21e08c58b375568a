/** Potassco's aspif format (the ASP intermediate format): the writer
    `AspifOutput`, which turns program directives into text lines, and the
    reader `AspifInput`, which reads them back. A line is a sequence of fields
    separated by single blanks; the model's reader works on those fields
    (tokens), with `Eol` for a line break. */
module Aspif {
  import opened BasicTypes
  import opened TheoryTerms
  import opened TheoryStore

  // ---------------------------------------------------------------------------
  // Fields and lines

  /** One field of a line: a number, or the raw text of a string. `Eol` is a
      line break. */
  datatype Token = Int(n: int) | Word(s: string) | Eol

  function Text(t: Token): string {
    match t
    case Int(n) => IntToString(n)
    case Word(s) => s
    case Eol => "\n"
  }

  /** Fields as `add` writes them: each preceded by one blank. */
  function FieldsText(fs: seq<Token>): string {
    if fs == [] then "" else " " + Text(fs[0]) + FieldsText(fs[1..])
  }

  lemma {:induction false} FieldsTextAppend(a: seq<Token>, b: seq<Token>)
    ensures FieldsText(a + b) == FieldsText(a) + FieldsText(b)
    decreases |a|
  {
    if a == [] {
      assert a + b == b;
    } else {
      assert (a + b)[0] == a[0];
      assert (a + b)[1..] == a[1..] + b;
      FieldsTextAppend(a[1..], b);
    }
  }

  /** One more field is written as a blank and its text. */
  lemma FieldsTextSnoc(o: string, fs: seq<Token>, i: nat)
    requires i < |fs|
    ensures o + FieldsText(fs[..i + 1]) == o + FieldsText(fs[..i]) + " " + Text(fs[i])
  {
    assert fs[..i + 1] == fs[..i] + [fs[i]];
    FieldsTextAppend(fs[..i], [fs[i]]);
    assert FieldsText([fs[i]]) == " " + Text(fs[i]);
  }

  /** A line: its first field, the others each after a blank, and the line
      break (`startDir`, `add`, `endDir`). */
  function LineText(line: seq<Token>): string
    requires |line| > 0
  {
    Text(line[0]) + FieldsText(line[1..]) + "\n"
  }

  function Ints(xs: seq<int>): (r: seq<Token>)
    ensures |r| == |xs| && forall i :: 0 <= i < |xs| ==> r[i] == Int(xs[i])
  {
    if xs == [] then [] else [Int(xs[0])] + Ints(xs[1..])
  }

  /** A span of atoms, literals or ids: its size, then its elements. */
  function SpanFields(xs: seq<int>): seq<Token> {
    [Int(|xs|)] + Ints(xs)
  }

  function Pairs(ws: seq<WeightLit>): (r: seq<Token>)
    ensures |r| == 2 * |ws|
  {
    if ws == [] then [] else [Int(ws[0].lit), Int(ws[0].weight)] + Pairs(ws[1..])
  }

  /** A span of weight literals: its size, then literal and weight of each. */
  function WeightSpanFields(ws: seq<WeightLit>): seq<Token> {
    [Int(|ws|)] + Pairs(ws)
  }

  function LitsOf(ws: seq<WeightLit>): (r: seq<int>)
    ensures |r| == |ws| && forall i :: 0 <= i < |ws| ==> r[i] == ws[i].lit
  {
    if ws == [] then [] else [ws[0].lit] + LitsOf(ws[1..])
  }

  // ---------------------------------------------------------------------------
  // Directives

  /** The calls of the `LpElement` interface, and the theory directives, each
      with the data it carries. */
  datatype Event =
    | InitProgram(incremental: bool)
    | BeginStep
    | Rule(head: HeadView, body: BodyView)
    | Minimize(priority: int, weighted: seq<WeightLit>)
    | Project(atoms: seq<nat>)
    | Output(name: string, cond: seq<int>)
    | External(atom: nat, value: nat)
    | Assume(lits: seq<int>)
    | Heuristic(atom: nat, modifier: nat, bias: int, prio: nat, cond: seq<int>)
    | Edge(s: int, t: int, cond: seq<int>)
    | EndStep
    | TermDir(id: nat, term: Term)
    | ElementDir(id: nat, terms: seq<nat>, cond: seq<int>)
    | AtomDir(atom: nat, occ: Occurrence, termId: nat, elements: seq<nat>, guard: Option<(nat, nat)>)

  /** The `Theory_t` code of a defined term. */
  function TermCode(t: Term): nat
    requires t != Invalid
  {
    match t
    case Num(_) => CodeNumber
    case Sym(_) => CodeSymbol
    case Compound(_, _) => CodeCompound
  }

  function OccCode(o: Occurrence): nat {
    match o
    case Head => 0
    case Body => 1
  }

  /** A theory term after its code and id: the number; the length and text of
      the symbol; or the function id or tuple type, then the arguments. */
  function TermFields(t: Term): seq<Token>
    requires t != Invalid
  {
    match t
    case Num(n) => [Int(n)]
    case Sym(s) => [Int(|s|), Word(s)]
    case Compound(b, args) => [Int(b)] + SpanFields(args)
  }

  /** The fields the writer gives a rule body: a normal body as its
      literals, any other as a sum with its bound and weights. */
  function BodyFields(b: BodyView): seq<Token> {
    if b.kind == Normal then [Int(BodyCode(Normal))] + SpanFields(LitsOf(b.lits))
    else [Int(BodyCode(Sum)), Int(b.bound)] + WeightSpanFields(b.lits)
  }

  /** The fields of a rule after its code: head type and atoms, then body. */
  function RuleFields(h: HeadView, b: BodyView): seq<Token> {
    [Int(HeadCode(h.kind))] + SpanFields(h.atoms) + BodyFields(b)
  }

  predicate Writes(e: Event) { !e.BeginStep? && !(e.TermDir? && e.term == Invalid) }

  /** The line the writer produces for a directive. A non-normal body is
      written as a sum, with its bound and weights. */
  function EventLine(e: Event): (line: seq<Token>)
    requires Writes(e)
    ensures |line| > 0
  {
    match e
    case InitProgram(inc) =>
      [Word("asp"), Int(1), Int(0), Int(0)] + (if inc then [Word("incremental")] else [])
    case Rule(h, b) => [Int(CodeRule)] + RuleFields(h, b)
    case Minimize(prio, lits) => [Int(CodeMinimize), Int(prio)] + WeightSpanFields(lits)
    case Project(atoms) => [Int(CodeProject)] + SpanFields(atoms)
    case Output(name, cond) => [Int(CodeOutput), Int(|name|), Word(name)] + SpanFields(cond)
    case External(a, v) => [Int(CodeExternal), Int(a), Int(v)]
    case Assume(lits) => [Int(CodeAssume)] + SpanFields(lits)
    case Heuristic(a, m, bias, prio, cond) =>
      [Int(CodeHeuristic), Int(m), Int(a), Int(bias), Int(prio)] + SpanFields(cond)
    case Edge(s, t, cond) => [Int(CodeEdge), Int(s), Int(t)] + SpanFields(cond)
    case EndStep => [Int(CodeEnd)]
    case TermDir(id, t) => [Int(CodeTheory), Int(TermCode(t)), Int(id)] + TermFields(t)
    case ElementDir(id, terms, cond) => [Int(CodeTheory), Int(CodeElement), Int(id)] + SpanFields(terms) + SpanFields(cond)
    case AtomDir(a, occ, term, elems, g) =>
      [Int(CodeTheory), Int(if g.Some? then CodeAtomWithGuard else CodeAtom), Int(a), Int(OccCode(occ)), Int(term)] +
      SpanFields(elems) + (if g.Some? then [Int(g.value.0), Int(g.value.1)] else [])
  }

  /** The line of a directive the writer writes; nothing otherwise. */
  function LineOf(e: Event): string {
    if Writes(e) then LineText(EventLine(e)) else ""
  }

  /** A line is the code, its fields each after a blank, and the break. */
  lemma LineParts(o: string, code: nat, fs: seq<Token>)
    ensures o + Text(Int(code)) + FieldsText(fs) + "\n" == o + LineText([Int(code)] + fs)
  {
    assert ([Int(code)] + fs)[0] == Int(code) && ([Int(code)] + fs)[1..] == fs;
  }

  /** The line of a theory atom: the theory code, then its fields. */
  lemma AtomDirLine(a: Atom, fs: seq<Token>)
    requires fs == [Int(if a.guard.Some? then CodeAtomWithGuard else CodeAtom), Int(a.atom), Int(OccCode(a.occ)), Int(a.term)] +
      SpanFields(a.elements) + (if a.guard.Some? then [Int(a.guard.value.0), Int(a.guard.value.1)] else [])
    ensures LineOf(AtomLine(a)) == LineText([Int(CodeTheory)] + fs)
  {
    assert [Int(CodeTheory)] + fs == EventLine(AtomLine(a));
  }

  /** The line of a defined term: the theory code, the term's code and id,
      then its fields. */
  lemma TermDirLine(id: nat, t: Term)
    requires t != Invalid
    ensures LineOf(TermDir(id, t)) == LineText([Int(CodeTheory)] + ([Int(TermCode(t)), Int(id)] + TermFields(t)))
  {
    assert EventLine(TermDir(id, t)) == [Int(CodeTheory)] + ([Int(TermCode(t)), Int(id)] + TermFields(t));
  }

  /** The line of a theory element: the theory and element codes, its id,
      then its terms and its condition. */
  lemma ElementDirLine(id: nat, terms: seq<nat>, cond: seq<int>)
    ensures LineOf(ElementDir(id, terms, cond)) ==
      LineText([Int(CodeTheory)] + ([Int(CodeElement), Int(id)] + SpanFields(terms) + SpanFields(cond)))
  {
    assert EventLine(ElementDir(id, terms, cond)) ==
      [Int(CodeTheory)] + ([Int(CodeElement), Int(id)] + SpanFields(terms) + SpanFields(cond));
  }

  /** The line of a show directive: its code, the length and text of the
      name, then the condition. */
  lemma OutputLine(name: string, cond: seq<int>)
    ensures EventLine(Event.Output(name, cond)) == [Int(CodeOutput)] + ([Int(|name|), Word(name)] + SpanFields(cond))
  {
  }

  /** The texts `f` gives the items of `xs`, one after the other. */
  function Joined<T>(xs: seq<T>, f: T -> string): string {
    if xs == [] then "" else Joined(xs[..|xs| - 1], f) + f(xs[|xs| - 1])
  }

  lemma {:induction false} JoinedAppend<T>(a: seq<T>, b: seq<T>, f: T -> string)
    ensures Joined(a + b, f) == Joined(a, f) + Joined(b, f)
    decreases |b|
  {
    if b == [] {
      assert a + b == a;
    } else {
      var n := |b| - 1;
      JoinedAppend(a, b[..n], f);
      assert (a + b)[..|a + b| - 1] == a + b[..n];
    }
  }

  /** The text of a run of directives. */
  function EventsText(es: seq<Event>): string {
    Joined(es, LineOf)
  }

  lemma EventsTextSnoc(es: seq<Event>, e: Event)
    ensures EventsText(es + [e]) == EventsText(es) + LineOf(e)
  {
    assert (es + [e])[..|es|] == es;
  }

  lemma EventsTextAppend(a: seq<Event>, b: seq<Event>)
    ensures EventsText(a + b) == EventsText(a) + EventsText(b)
  {
    JoinedAppend(a, b, LineOf);
  }

  // ---------------------------------------------------------------------------
  // Theory output: what is written once, and in which order

  /** The terms a term refers to: its function symbol, then its arguments. */
  function TermRefs(t: Term): seq<nat> {
    if t.Compound? then (if t.base >= 0 then [t.base as nat] else []) + t.args else []
  }

  /** References go down a ranking of the table's ids, so terms form no
      cycle. */
  predicate Acyclic(terms: seq<Term>, rank: seq<nat>) {
    |rank| == |terms| &&
    forall x, r :: 0 <= x < |terms| && r in TermRefs(terms[x]) && r < |terms| ==> rank[r] < rank[x]
  }

  /** The recursion measure of a term id: ids outside the table are lowest. */
  function Height(rank: seq<nat>, x: nat): nat {
    if x < |rank| then rank[x] + 1 else 0
  }

  /** A snapshot of the theory data the writer reads. */
  datatype Table = Table(terms: seq<Term>, elems: seq<Option<Element>>, frame: Up)

  function TableOf(td: TheoryData): Table
    reads td
  {
    Table(td.terms.data, td.elems.data, td.frame)
  }

  /** `isNewTerm(r)` on the snapshot. */
  predicate NewTermIn(tb: Table, r: nat) {
    r < |tb.terms| && tb.terms[r] != Invalid && r >= tb.frame.term
  }

  /** `isNewElement(e)` on the snapshot. */
  predicate NewElementIn(tb: Table, e: nat) {
    e < |tb.elems| && tb.elems[e].Some? && e >= tb.frame.elem
  }

  /** The ids of the term lines among `es`. */
  function TermIds(es: seq<Event>): set<nat> {
    if es == [] then {} else TermIds(es[..|es| - 1]) + (if es[|es| - 1].TermDir? then {es[|es| - 1].id} else {})
  }

  /** The ids of the element lines among `es`. */
  function ElemIds(es: seq<Event>): set<nat> {
    if es == [] then {} else ElemIds(es[..|es| - 1]) + (if es[|es| - 1].ElementDir? then {es[|es| - 1].id} else {})
  }

  /** The atom lines among `es`, in order. */
  function AtomEvents(es: seq<Event>): seq<Event> {
    if es == [] then [] else AtomEvents(es[..|es| - 1]) + (if es[|es| - 1].AtomDir? then [es[|es| - 1]] else [])
  }

  /** The atom line of a theory atom. */
  function AtomLine(a: Atom): (e: Event)
    ensures e.AtomDir?
  {
    AtomDir(a.atom, a.occ, a.term, a.elements, a.guard)
  }

  /** The atom line of each atom. */
  function AtomLines(atoms: seq<Atom>): seq<Event> {
    seq(|atoms|, i requires 0 <= i < |atoms| => AtomLine(atoms[i]))
  }

  lemma AtomLinesCons(atoms: seq<Atom>)
    requires atoms != []
    ensures AtomLines(atoms) == [AtomLine(atoms[0])] + AtomLines(atoms[1..])
  {
  }

  /** The line `e` may follow lines that wrote the terms `T` and the elements
      `E`: a term or element line is of a new term or element not written
      yet, with its table contents, and every new term or element a line
      refers to is already written. */
  predicate DepsIn(tb: Table, e: Event, T: set<nat>, E: set<nat>) {
    match e
    case TermDir(id, t) =>
      NewTermIn(tb, id) && t == tb.terms[id] && id !in T &&
      forall r :: r in TermRefs(t) && NewTermIn(tb, r) ==> r in T
    case ElementDir(id, ts, _) =>
      NewElementIn(tb, id) && ts == tb.elems[id].value.terms && id !in E &&
      forall r :: r in ts && NewTermIn(tb, r) ==> r in T
    case AtomDir(_, _, term, els, g) =>
      (NewTermIn(tb, term) ==> term in T) &&
      (g.Some? ==> (NewTermIn(tb, g.value.0) ==> g.value.0 in T) && (NewTermIn(tb, g.value.1) ==> g.value.1 in T)) &&
      forall x :: x in els && NewElementIn(tb, x) ==> x in E
    case _ => false
  }

  /** Every line of `es` follows the lines before it as `DepsIn` demands. */
  predicate Ordered(tb: Table, es: seq<Event>) {
    es == [] ||
    var n := |es| - 1;
    Ordered(tb, es[..n]) && DepsIn(tb, es[n], TermIds(es[..n]), ElemIds(es[..n]))
  }

  lemma OrderedSnoc(tb: Table, es: seq<Event>, e: Event)
    requires Ordered(tb, es) && DepsIn(tb, e, TermIds(es), ElemIds(es))
    ensures Ordered(tb, es + [e])
    ensures TermIds(es + [e]) == TermIds(es) + (if e.TermDir? then {e.id} else {})
    ensures ElemIds(es + [e]) == ElemIds(es) + (if e.ElementDir? then {e.id} else {})
    ensures AtomEvents(es + [e]) == AtomEvents(es) + (if e.AtomDir? then [e] else [])
  {
    assert (es + [e])[..|es|] == es;
  }

  /** Each line of ordered lines follows the lines before it. */
  lemma {:induction false} OrderedAt(tb: Table, es: seq<Event>, q: nat)
    requires Ordered(tb, es) && q < |es|
    ensures DepsIn(tb, es[q], TermIds(es[..q]), ElemIds(es[..q]))
    decreases |es|
  {
    var n := |es| - 1;
    if q < n {
      OrderedAt(tb, es[..n], q);
      assert es[..n][..q] == es[..q];
    }
  }

  /** The written term ids are the ids of the term lines. */
  lemma {:induction false} TermIdsAt(es: seq<Event>, x: nat)
    ensures x in TermIds(es) <==> exists p :: 0 <= p < |es| && es[p].TermDir? && es[p].id == x
    decreases |es|
  {
    if es != [] {
      var n := |es| - 1;
      TermIdsAt(es[..n], x);
      if x in TermIds(es[..n]) {
        var p :| 0 <= p < n && es[..n][p].TermDir? && es[..n][p].id == x;
        assert es[p] == es[..n][p];
      }
      if exists p :: 0 <= p < |es| && es[p].TermDir? && es[p].id == x {
        var p :| 0 <= p < |es| && es[p].TermDir? && es[p].id == x;
        if p < n {
          assert es[..n][p] == es[p];
        }
      }
    }
  }

  /** In ordered lines no term is written twice, and a term a line refers to,
      when it is new, is written on an earlier line. */
  lemma OrderedMeans(tb: Table, es: seq<Event>, p: nat, q: nat, r: nat)
    requires Ordered(tb, es) && p < q < |es|
    ensures es[p].TermDir? && es[q].TermDir? ==> es[p].id != es[q].id
    ensures es[q].TermDir? && r in TermRefs(es[q].term) && NewTermIn(tb, r) ==>
      exists k :: 0 <= k < q && es[k] == TermDir(r, tb.terms[r])
  {
    OrderedAt(tb, es, q);
    if es[p].TermDir? && es[q].TermDir? {
      assert es[..q][p] == es[p];
      TermIdsAt(es[..q], es[p].id);
    }
    if es[q].TermDir? && r in TermRefs(es[q].term) && NewTermIn(tb, r) {
      TermIdsAt(es[..q], r);
      var k :| 0 <= k < q && es[..q][k].TermDir? && es[..q][k].id == r;
      assert es[k] == es[..q][k];
      OrderedAt(tb, es, k);
    }
  }

  /** The bytes of `IdSet`, read as bits: `mask` 1 marks a term, 2 an
      element. */
  predicate HasIn(s: seq<bv8>, id: nat, mask: bv8) {
    id < |s| && s[id] & mask != 0
  }

  /** `set_` resized to hold `id` and `id` marked with `mask`. */
  function Marked(s: seq<bv8>, id: nat, mask: bv8): (r: seq<bv8>)
    ensures |r| == if id < |s| then |s| else id + 1
  {
    var g := if id < |s| then s else s + seq(id + 1 - |s|, _ => 0);
    g[id := g[id] | mask]
  }

  /** Marking sets exactly the one bit. */
  lemma MarkedLaws(s: seq<bv8>, id: nat, mask: bv8, j: nat, m: bv8)
    requires (mask == 1 || mask == 2) && (m == 1 || m == 2)
    ensures HasIn(Marked(s, id, mask), j, m) <==> HasIn(s, j, m) || (j == id && m == mask)
  {
    var g := if id < |s| then s else s + seq(id + 1 - |s|, _ => 0);
    if j < |g| {
      assert j < |s| ==> g[j] == s[j];
      assert j >= |s| ==> g[j] == 0;
    }
  }

  lemma Associative<T>(a: seq<T>, b: seq<T>, c: seq<T>)
    ensures (a + b) + c == a + (b + c)
  {
  }

  /** From the log `L0` the writer went on to the ordered log `L`, adding
      term and element lines but no atom line. */
  ghost predicate LogGrows(tb: Table, L0: seq<Event>, L: seq<Event>) {
    Ordered(tb, L) && |L0| <= |L| && L[..|L0|] == L0 &&
    TermIds(L0) <= TermIds(L) && ElemIds(L0) <= ElemIds(L) && AtomEvents(L) == AtomEvents(L0)
  }

  /** The text written meanwhile is that of the new lines. */
  ghost predicate TextGrows(L0: seq<Event>, O0: string, L: seq<Event>, O: string) {
    |L0| <= |L| && O == O0 + EventsText(L[|L0|..])
  }

  /** The marks added meanwhile are the terms logged, and a term is logged
      only when it was not marked before. */
  ghost predicate MarksGrow(L0: seq<Event>, B0: seq<bv8>, L: seq<Event>, B: seq<bv8>) {
    (forall y: nat :: HasIn(B, y, 1) <==> HasIn(B0, y, 1) || y in TermIds(L)) &&
    (forall y: nat :: HasIn(B, y, 2) <==> HasIn(B0, y, 2)) &&
    (forall y: nat :: y in TermIds(L) && y !in TermIds(L0) ==> !HasIn(B0, y, 1))
  }

  /** What a call of `term` does to the log, the text and the marks. */
  ghost predicate Grows(tb: Table, L0: seq<Event>, B0: seq<bv8>, O0: string, L: seq<Event>, B: seq<bv8>, O: string) {
    LogGrows(tb, L0, L) && TextGrows(L0, O0, L, O) && MarksGrow(L0, B0, L, B) && ElemIds(L) == ElemIds(L0)
  }

  lemma GrowsNone(tb: Table, L: seq<Event>, B: seq<bv8>, O: string)
    requires Ordered(tb, L) && forall y: nat :: y in TermIds(L) ==> HasIn(B, y, 1)
    ensures Grows(tb, L, B, O, L, B, O)
  {
    assert L[..|L|] == L;
    assert L[|L|..] == [];
  }

  lemma LogGrowsTrans(tb: Table, L0: seq<Event>, L1: seq<Event>, L2: seq<Event>)
    requires LogGrows(tb, L0, L1) && LogGrows(tb, L1, L2)
    ensures LogGrows(tb, L0, L2)
  {
    assert L2[..|L0|] == L1[..|L0|];
  }

  /** What follows `a` entries of `c`, when `c` extends `b`. */
  lemma SliceAfterPrefix<T>(a: nat, b: seq<T>, c: seq<T>)
    requires a <= |b| <= |c| && c[..|b|] == b
    ensures c[a..] == b[a..] + c[|b|..]
  {
  }

  lemma TextGrowsTrans(L0: seq<Event>, O0: string, L1: seq<Event>, O1: string, L2: seq<Event>, O2: string)
    requires |L1| <= |L2| && L2[..|L1|] == L1
    requires TextGrows(L0, O0, L1, O1) && TextGrows(L1, O1, L2, O2)
    ensures TextGrows(L0, O0, L2, O2)
  {
    var x, y := L1[|L0|..], L2[|L1|..];
    SliceAfterPrefix(|L0|, L1, L2);
    EventsTextAppend(x, y);
    Associative(O0, EventsText(x), EventsText(y));
  }

  lemma MarksGrowTrans(L0: seq<Event>, B0: seq<bv8>, L1: seq<Event>, B1: seq<bv8>, L2: seq<Event>, B2: seq<bv8>)
    requires TermIds(L0) <= TermIds(L1) <= TermIds(L2)
    requires MarksGrow(L0, B0, L1, B1) && MarksGrow(L1, B1, L2, B2)
    ensures MarksGrow(L0, B0, L2, B2)
  {
  }

  lemma GrowsTrans(tb: Table, L0: seq<Event>, B0: seq<bv8>, O0: string, L1: seq<Event>, B1: seq<bv8>, O1: string,
                   L2: seq<Event>, B2: seq<bv8>, O2: string)
    requires Grows(tb, L0, B0, O0, L1, B1, O1) && Grows(tb, L1, B1, O1, L2, B2, O2)
    ensures Grows(tb, L0, B0, O0, L2, B2, O2)
  {
    LogGrowsTrans(tb, L0, L1, L2);
    TextGrowsTrans(L0, O0, L1, O1, L2, O2);
    MarksGrowTrans(L0, B0, L1, B1, L2, B2);
  }

  /** Marking a term that is already marked. */
  lemma GrowsMarkedAgain(tb: Table, L: seq<Event>, B0: seq<bv8>, O: string, tId: nat)
    requires Ordered(tb, L) && HasIn(B0, tId, 1)
    requires forall y: nat :: y in TermIds(L) ==> HasIn(B0, y, 1)
    ensures Grows(tb, L, B0, O, L, Marked(B0, tId, 1), O)
  {
    GrowsNone(tb, L, B0, O);
    forall y: nat
      ensures HasIn(Marked(B0, tId, 1), y, 1) <==> HasIn(B0, y, 1)
      ensures HasIn(Marked(B0, tId, 1), y, 2) <==> HasIn(B0, y, 2)
    {
      MarkedLaws(B0, tId, 1, y, 1);
      MarkedLaws(B0, tId, 1, y, 2);
    }
  }

  /** Appending one line to the log and its text to the output. */
  lemma SnocGrows(tb: Table, L0: seq<Event>, O0: string, L: seq<Event>, O: string, e: Event)
    requires LogGrows(tb, L0, L) && TextGrows(L0, O0, L, O) && !e.AtomDir?
    requires DepsIn(tb, e, TermIds(L), ElemIds(L))
    ensures LogGrows(tb, L0, L + [e]) && TextGrows(L0, O0, L + [e], O + LineOf(e))
    ensures TermIds(L + [e]) == TermIds(L) + (if e.TermDir? then {e.id} else {})
    ensures ElemIds(L + [e]) == ElemIds(L) + (if e.ElementDir? then {e.id} else {})
  {
    OrderedSnoc(tb, L, e);
    assert (L + [e])[..|L0|] == L0;
    assert (L + [e])[|L0|..] == L[|L0|..] + [e];
    EventsTextSnoc(L[|L0|..], e);
    Associative(O0, EventsText(L[|L0|..]), LineOf(e));
  }

  /** Marking `tId` and then logging its term line. */
  lemma MarksGrowTerm(L0: seq<Event>, B0: seq<bv8>, L: seq<Event>, B: seq<bv8>, tId: nat, t: Term)
    requires !HasIn(B0, tId, 1) && tId !in TermIds(L0) && TermIds(L0) <= TermIds(L)
    requires MarksGrow(L0, Marked(B0, tId, 1), L, B)
    ensures MarksGrow(L0, B0, L + [TermDir(tId, t)], B)
  {
    var e := TermDir(tId, t);
    assert (L + [e])[..|L|] == L;
    assert TermIds(L + [e]) == TermIds(L) + {tId};
    forall y: nat
      ensures HasIn(B, y, 1) <==> HasIn(B0, y, 1) || y in TermIds(L + [e])
      ensures HasIn(B, y, 2) <==> HasIn(B0, y, 2)
    {
      MarkedLaws(B0, tId, 1, y, 1);
      MarkedLaws(B0, tId, 1, y, 2);
    }
  }

  /** Logging the term line of `tId` after marking it. */
  lemma GrowsTerm(tb: Table, L0: seq<Event>, B0: seq<bv8>, O0: string, L: seq<Event>, B: seq<bv8>, O: string,
                  tId: nat, t: Term)
    requires !HasIn(B0, tId, 1)
    requires Grows(tb, L0, Marked(B0, tId, 1), O0, L, B, O) && tId !in TermIds(L0)
    requires DepsIn(tb, TermDir(tId, t), TermIds(L), ElemIds(L))
    ensures Grows(tb, L0, B0, O0, L + [TermDir(tId, t)], B, O + LineOf(TermDir(tId, t)))
  {
    SnocGrows(tb, L0, O0, L, O, TermDir(tId, t));
    MarksGrowTerm(L0, B0, L, B, tId, t);
  }

  /** A marked bit stays as it is when marked again. */
  lemma MarkedAgain(s: seq<bv8>, id: nat, mask: bv8)
    requires (mask == 1 || mask == 2) && HasIn(s, id, mask)
    ensures Marked(s, id, mask) == s
  {
    assert s[id] | mask == s[id];
  }

  // ---------------------------------------------------------------------------
  // The writer's theory output on values

  /** What the theory writer has: the marks of its `IdSet`, the theory lines
      logged so far and the text written. */
  datatype WState = WState(bits: seq<bv8>, log: seq<Event>, out: string)

  /** The ids of the table's terms that are not marked yet: every nested
      call of `term` is made after marking one of them, so they get fewer. */
  function Unmarked(tb: Table, bits: seq<bv8>): set<nat> {
    set y: nat | y < |tb.terms| && !HasIn(bits, y, 1)
  }

  /** Marking never adds an unmarked id, and marking an unmarked term of the
      table removes it. */
  lemma UnmarkedShrinks(tb: Table, bits: seq<bv8>, id: nat, mask: bv8)
    requires mask == 1 || mask == 2
    ensures Unmarked(tb, Marked(bits, id, mask)) <= Unmarked(tb, bits)
    ensures mask == 1 && id < |tb.terms| && !HasIn(bits, id, 1) ==>
      Unmarked(tb, Marked(bits, id, mask)) < Unmarked(tb, bits)
  {
    forall y: nat | y < |tb.terms|
      ensures HasIn(Marked(bits, id, mask), y, 1) <==> HasIn(bits, y, 1) || (y == id && mask == 1)
    {
      MarkedLaws(bits, id, mask, y, 1);
    }
    if mask == 1 && id < |tb.terms| && !HasIn(bits, id, 1) {
      assert id in Unmarked(tb, bits) - Unmarked(tb, Marked(bits, id, mask));
    }
  }

  /** `term(data, tId)`: a new term that is not marked is marked, the terms it
      refers to are written, and then its own line. A term that refers back
      to one being written finds it marked and skips it, so every table is
      written in finitely many steps. */
  function TermSpec(tb: Table, s: WState, tId: nat): (r: WState)
    ensures Unmarked(tb, r.bits) <= Unmarked(tb, s.bits)
    decreases Unmarked(tb, s.bits), 0
  {
    if !NewTermIn(tb, tId) || HasIn(s.bits, tId, 1) then s
    else
      var t := tb.terms[tId];
      UnmarkedShrinks(tb, s.bits, tId, 1);
      var s1 := TermsSpec(tb, WState(Marked(s.bits, tId, 1), s.log, s.out), TermRefs(t));
      var e := TermDir(tId, t);
      WState(s1.bits, s1.log + [e], s1.out + LineOf(e))
  }

  /** `term` on each of `ts` in turn. */
  function TermsSpec(tb: Table, s: WState, ts: seq<nat>): (r: WState)
    ensures Unmarked(tb, r.bits) <= Unmarked(tb, s.bits)
    decreases Unmarked(tb, s.bits), 1, |ts|
  {
    if ts == [] then s else TermsSpec(tb, TermSpec(tb, s, ts[0]), ts[1..])
  }

  /** The terms a term refers to are lower in the ranking. */
  lemma RefsBelow(tb: Table, rank: seq<nat>, tId: nat)
    requires Acyclic(tb.terms, rank) && tId < |tb.terms|
    ensures forall r :: r in TermRefs(tb.terms[tId]) ==> Height(rank, r) < Height(rank, tId)
  {
  }

  /** `term(data, tId)` keeps the log ordered and writes the text of the lines
      it logs; afterwards a new `tId` is logged. A marked term not yet
      logged is one a caller is still writing, higher than `tId`. */
  lemma {:induction false} TermSpecFacts(tb: Table, rank: seq<nat>, s: WState, tId: nat)
    requires Acyclic(tb.terms, rank) && Ordered(tb, s.log)
    requires forall y: nat :: y in TermIds(s.log) ==> HasIn(s.bits, y, 1)
    requires forall y: nat :: HasIn(s.bits, y, 1) ==> y in TermIds(s.log) || Height(rank, y) > Height(rank, tId)
    ensures var r := TermSpec(tb, s, tId);
      Grows(tb, s.log, s.bits, s.out, r.log, r.bits, r.out) &&
      (NewTermIn(tb, tId) ==> tId in TermIds(r.log))
    decreases Height(rank, tId), 1
  {
    if !NewTermIn(tb, tId) || HasIn(s.bits, tId, 1) {
      GrowsNone(tb, s.log, s.bits, s.out);
    } else {
      var t := tb.terms[tId];
      var m := WState(Marked(s.bits, tId, 1), s.log, s.out);
      forall y: nat
        ensures HasIn(m.bits, y, 1) <==> HasIn(s.bits, y, 1) || y == tId
      {
        MarkedLaws(s.bits, tId, 1, y, 1);
      }
      RefsBelow(tb, rank, tId);
      var s1 := TermsSpec(tb, m, TermRefs(t));
      TermsSpecFacts(tb, rank, m, TermRefs(t), Height(rank, tId));
      assert tId !in TermIds(s1.log);
      GrowsTerm(tb, s.log, s.bits, s.out, s1.log, s1.bits, s1.out, tId, t);
    }
  }

  /** `term` on each of `ts`: as `TermSpecFacts`, and each new term of `ts`
      is logged afterwards. */
  lemma {:induction false} TermsSpecFacts(tb: Table, rank: seq<nat>, s: WState, ts: seq<nat>, bound: nat)
    requires Acyclic(tb.terms, rank) && Ordered(tb, s.log)
    requires forall r :: r in ts ==> Height(rank, r) < bound
    requires forall y: nat :: y in TermIds(s.log) ==> HasIn(s.bits, y, 1)
    requires forall y: nat :: HasIn(s.bits, y, 1) ==> y in TermIds(s.log) || Height(rank, y) >= bound
    ensures var r := TermsSpec(tb, s, ts);
      Grows(tb, s.log, s.bits, s.out, r.log, r.bits, r.out) &&
      (forall x :: x in ts && NewTermIn(tb, x) ==> x in TermIds(r.log))
    decreases bound, 0, |ts|
  {
    if ts == [] {
      GrowsNone(tb, s.log, s.bits, s.out);
    } else {
      var s1 := TermSpec(tb, s, ts[0]);
      TermSpecFacts(tb, rank, s, ts[0]);
      var r := TermsSpec(tb, s1, ts[1..]);
      TermsSpecFacts(tb, rank, s1, ts[1..], bound);
      GrowsTrans(tb, s.log, s.bits, s.out, s1.log, s1.bits, s1.out, r.log, r.bits, r.out);
      forall x | x in ts && NewTermIn(tb, x)
        ensures x in TermIds(r.log)
      {
        if x != ts[0] {
          assert x in ts[1..];
        }
      }
    }
  }

  /** A bound above the height of every id. */
  function Ceiling(rank: seq<nat>): (c: nat)
    ensures forall x: nat :: Height(rank, x) < c
  {
    if rank == [] then 1
    else
      var n := |rank| - 1;
      var c0 := Ceiling(rank[..n]);
      assert forall x: nat :: x < n ==> Height(rank, x) == Height(rank[..n], x);
      if c0 > rank[n] + 1 then c0 else rank[n] + 2
  }

  const ConditionError := "theory conditions not supported"

  /** One element of a theory atom: a new element that is not marked is
      marked, its terms are written, and then its line, unless it has a
      condition. */
  function ElementSpec(tb: Table, s: WState, eId: nat): Result<WState>
  {
    if !NewElementIn(tb, eId) || HasIn(s.bits, eId, 2) then Ok(s)
    else
      var el := tb.elems[eId].value;
      var s1 := TermsSpec(tb, WState(Marked(s.bits, eId, 2), s.log, s.out), el.terms);
      if Condition(el) != 0 then Fail(ConditionError)
      else
        var e := ElementDir(eId, el.terms, []);
        Ok(WState(s1.bits, s1.log + [e], s1.out + LineOf(e)))
  }

  /** The elements `els` in turn, up to the first failure. */
  function ElementsSpec(tb: Table, s: WState, els: seq<nat>): Result<WState>
    decreases |els|
  {
    if els == [] then Ok(s)
    else
      var r := ElementSpec(tb, s, els[0]);
      if r.Fail? then r else ElementsSpec(tb, r.value, els[1..])
  }

  /** One theory atom: its elements, its term, its guard and right-hand side,
      then its line. */
  function AtomSpec(tb: Table, s: WState, a: Atom): Result<WState>
  {
    var r := ElementsSpec(tb, s, a.elements);
    if r.Fail? then r
    else
      var s1 := TermSpec(tb, r.value, a.term);
      var s2 := if a.guard.Some? then TermSpec(tb, TermSpec(tb, s1, a.guard.value.0), a.guard.value.1) else s1;
      var e := AtomLine(a);
      Ok(WState(s2.bits, s2.log + [e], s2.out + LineOf(e)))
  }

  /** The atoms in turn, up to the first failure. */
  function AtomsSpec(tb: Table, s: WState, atoms: seq<Atom>): Result<WState>
    decreases |atoms|
  {
    if atoms == [] then Ok(s)
    else
      var r := AtomSpec(tb, s, atoms[0]);
      if r.Fail? then r else AtomsSpec(tb, r.value, atoms[1..])
  }

  /** The marks are those of the logged terms and elements. */
  ghost predicate Settled(tb: Table, s: WState) {
    Ordered(tb, s.log) &&
    (forall y: nat :: HasIn(s.bits, y, 1) <==> y in TermIds(s.log)) &&
    (forall y: nat :: HasIn(s.bits, y, 2) <==> y in ElemIds(s.log))
  }

  /** From `s` the writer went on to `r`, keeping its log ordered, writing
      the text of the lines it added, of which the atom lines are `added`. */
  ghost predicate Advances(tb: Table, s: WState, r: WState, added: seq<Event>) {
    Ordered(tb, r.log) && |s.log| <= |r.log| && r.log[..|s.log|] == s.log &&
    TermIds(s.log) <= TermIds(r.log) && ElemIds(s.log) <= ElemIds(r.log) &&
    AtomEvents(r.log) == AtomEvents(s.log) + added &&
    TextGrows(s.log, s.out, r.log, r.out)
  }

  lemma AdvancesTrans(tb: Table, s0: WState, s1: WState, s2: WState, a1: seq<Event>, a2: seq<Event>)
    requires Advances(tb, s0, s1, a1) && Advances(tb, s1, s2, a2)
    ensures Advances(tb, s0, s2, a1 + a2)
  {
    assert s2.log[..|s0.log|] == s1.log[..|s0.log|];
    Associative(AtomEvents(s0.log), a1, a2);
    TextGrowsTrans(s0.log, s0.out, s1.log, s1.out, s2.log, s2.out);
  }

  /** A call of `term` on a settled state leaves it settled. */
  lemma TermSettled(tb: Table, rank: seq<nat>, s: WState, tId: nat)
    requires Acyclic(tb.terms, rank) && Settled(tb, s)
    ensures var r := TermSpec(tb, s, tId);
      Settled(tb, r) && Advances(tb, s, r, []) &&
      (NewTermIn(tb, tId) ==> tId in TermIds(r.log))
  {
    TermSpecFacts(tb, rank, s, tId);
    var r := TermSpec(tb, s, tId);
    assert AtomEvents(r.log) == AtomEvents(s.log) + [];
  }

  /** An element is written only if new and not written yet, and fails
      exactly when it then has a condition; otherwise the state stays
      settled and a new element is logged. */
  lemma ElementSpecFacts(tb: Table, rank: seq<nat>, s: WState, eId: nat)
    requires Acyclic(tb.terms, rank) && Settled(tb, s)
    ensures var r := ElementSpec(tb, s, eId);
      (r.Fail? <==> NewElementIn(tb, eId) && eId !in ElemIds(s.log) && Condition(tb.elems[eId].value) != 0) &&
      (r.Fail? ==> r.msg == ConditionError) &&
      (r.Ok? ==>
        Settled(tb, r.value) && Advances(tb, s, r.value, []) &&
        (NewElementIn(tb, eId) ==> eId in ElemIds(r.value.log)))
  {
    if !NewElementIn(tb, eId) || HasIn(s.bits, eId, 2) {
      GrowsNone(tb, s.log, s.bits, s.out);
      assert AtomEvents(s.log) == AtomEvents(s.log) + [];
    } else {
      var el := tb.elems[eId].value;
      var m := WState(Marked(s.bits, eId, 2), s.log, s.out);
      forall y: nat
        ensures HasIn(m.bits, y, 1) <==> HasIn(s.bits, y, 1)
        ensures HasIn(m.bits, y, 2) <==> HasIn(s.bits, y, 2) || y == eId
      {
        MarkedLaws(s.bits, eId, 2, y, 1);
        MarkedLaws(s.bits, eId, 2, y, 2);
      }
      var s1 := TermsSpec(tb, m, el.terms);
      TermsSpecFacts(tb, rank, m, el.terms, Ceiling(rank));
      if Condition(el) == 0 {
        var e := ElementDir(eId, el.terms, []);
        assert DepsIn(tb, e, TermIds(s1.log), ElemIds(s1.log));
        SnocGrows(tb, s.log, s.out, s1.log, s1.out, e);
        assert AtomEvents(s1.log + [e]) == AtomEvents(s.log) + [];
      }
    }
  }

  lemma {:induction false} ElementsSpecFacts(tb: Table, rank: seq<nat>, s: WState, els: seq<nat>)
    requires Acyclic(tb.terms, rank) && Settled(tb, s)
    ensures var r := ElementsSpec(tb, s, els);
      (r.Fail? ==> r.msg == ConditionError) &&
      (r.Ok? ==>
        Settled(tb, r.value) && Advances(tb, s, r.value, []) &&
        forall x :: x in els && NewElementIn(tb, x) ==> x in ElemIds(r.value.log))
    decreases |els|
  {
    if els == [] {
      GrowsNone(tb, s.log, s.bits, s.out);
      assert AtomEvents(s.log) == AtomEvents(s.log) + [];
    } else {
      var r1 := ElementSpec(tb, s, els[0]);
      ElementSpecFacts(tb, rank, s, els[0]);
      if r1.Ok? {
        ElementsSpecFacts(tb, rank, r1.value, els[1..]);
        var r := ElementsSpec(tb, r1.value, els[1..]);
        if r.Ok? {
          AdvancesTrans(tb, s, r1.value, r.value, [], []);
          forall x | x in els && NewElementIn(tb, x)
            ensures x in ElemIds(r.value.log)
          {
            if x != els[0] {
              assert x in els[1..];
            }
          }
        }
      }
    }
  }

  /** A theory atom is written after its new elements and terms, as one atom
      line, keeping the state settled. */
  lemma AtomSpecFacts(tb: Table, rank: seq<nat>, s: WState, a: Atom)
    requires Acyclic(tb.terms, rank) && Settled(tb, s)
    ensures var r := AtomSpec(tb, s, a);
      (r.Fail? ==> r.msg == ConditionError) &&
      (r.Ok? ==> Settled(tb, r.value) && Advances(tb, s, r.value, [AtomLine(a)]))
  {
    var r0 := ElementsSpec(tb, s, a.elements);
    ElementsSpecFacts(tb, rank, s, a.elements);
    if r0.Ok? {
      var s0 := r0.value;
      var s1 := TermSpec(tb, s0, a.term);
      TermSettled(tb, rank, s0, a.term);
      AdvancesTrans(tb, s, s0, s1, [], []);
      var s2 := s1;
      if a.guard.Some? {
        var g1 := TermSpec(tb, s1, a.guard.value.0);
        TermSettled(tb, rank, s1, a.guard.value.0);
        s2 := TermSpec(tb, g1, a.guard.value.1);
        TermSettled(tb, rank, g1, a.guard.value.1);
        AdvancesTrans(tb, s, s1, g1, [], []);
        AdvancesTrans(tb, s, g1, s2, [], []);
      }
      var e := AtomLine(a);
      assert DepsIn(tb, e, TermIds(s2.log), ElemIds(s2.log));
      AtomSnoc(tb, s, s2, e);
    }
  }

  /** Appending the atom line `e`. */
  lemma AtomSnoc(tb: Table, s: WState, s2: WState, e: Event)
    requires Settled(tb, s2) && Advances(tb, s, s2, []) && e.AtomDir?
    requires DepsIn(tb, e, TermIds(s2.log), ElemIds(s2.log))
    ensures var r := WState(s2.bits, s2.log + [e], s2.out + LineOf(e));
      Settled(tb, r) && Advances(tb, s, r, [e])
  {
    OrderedSnoc(tb, s2.log, e);
    AtomAdvances(tb, s, s2, e);
  }

  lemma AtomAdvances(tb: Table, s: WState, s2: WState, e: Event)
    requires Advances(tb, s, s2, []) && e.AtomDir?
    requires Ordered(tb, s2.log + [e])
    requires TermIds(s2.log + [e]) == TermIds(s2.log) && ElemIds(s2.log + [e]) == ElemIds(s2.log)
    requires AtomEvents(s2.log + [e]) == AtomEvents(s2.log) + [e]
    ensures Advances(tb, s, WState(s2.bits, s2.log + [e], s2.out + LineOf(e)), [e])
  {
    var r := WState(s2.bits, s2.log + [e], s2.out + LineOf(e));
    TextGrowsOne(s2.log, s2.out, e);
    TextGrowsTrans(s.log, s.out, s2.log, s2.out, r.log, r.out);
    assert r.log[..|s.log|] == s2.log[..|s.log|];
    assert AtomEvents(s.log) + [] == AtomEvents(s.log);
  }

  /** One more line adds its text. */
  lemma TextGrowsOne(L: seq<Event>, O: string, e: Event)
    ensures TextGrows(L, O, L + [e], O + LineOf(e))
  {
    assert (L + [e])[|L|..] == [e];
    JoinedOne(e, LineOf);
  }

  lemma JoinedOne<T>(x: T, f: T -> string)
    ensures Joined([x], f) == f(x)
  {
    assert [x][..0] == [];
  }

  /** The atoms in turn: the atom lines logged are those of `atoms`, in
      order. */
  lemma {:induction false} AtomsSpecFacts(tb: Table, rank: seq<nat>, s: WState, atoms: seq<Atom>)
    requires Acyclic(tb.terms, rank) && Settled(tb, s)
    ensures var r := AtomsSpec(tb, s, atoms);
      (r.Fail? ==> r.msg == ConditionError) &&
      (r.Ok? ==> Settled(tb, r.value) && Advances(tb, s, r.value, AtomLines(atoms)))
    decreases |atoms|
  {
    if atoms == [] {
      GrowsNone(tb, s.log, s.bits, s.out);
      assert AtomEvents(s.log) == AtomEvents(s.log) + AtomLines(atoms);
    } else {
      var r1 := AtomSpec(tb, s, atoms[0]);
      AtomSpecFacts(tb, rank, s, atoms[0]);
      if r1.Ok? {
        AtomsSpecFacts(tb, rank, r1.value, atoms[1..]);
        var r := AtomsSpec(tb, r1.value, atoms[1..]);
        if r.Ok? {
          AdvancesTrans(tb, s, r1.value, r.value, [AtomLine(atoms[0])], AtomLines(atoms[1..]));
          AtomLinesCons(atoms);
        }
      }
    }
  }

  /** `theory(data)` on values: a fresh `IdSet`, then the atoms added since
      the last update. */
  function TheorySpec(tb: Table, out: string, atoms: seq<Atom>): Result<WState>
  {
    AtomsSpec(tb, WState([], [], out), atoms)
  }

  /** What `theory(data)` promises: it fails only on an element condition;
      otherwise the lines it writes are ordered (each new term and element
      once, after what it refers to), its atom lines are those of the atoms in
      order, and the text is that of the lines. */
  lemma TheoryFacts(tb: Table, rank: seq<nat>, out: string, atoms: seq<Atom>)
    requires Acyclic(tb.terms, rank)
    ensures var r := TheorySpec(tb, out, atoms);
      (r.Fail? ==> r.msg == ConditionError) &&
      (r.Ok? ==>
        Ordered(tb, r.value.log) && AtomEvents(r.value.log) == AtomLines(atoms) &&
        r.value.out == out + EventsText(r.value.log))
  {
    var s := WState([], [], out);
    AtomsSpecFacts(tb, rank, s, atoms);
    var r := TheorySpec(tb, out, atoms);
    if r.Ok? {
      assert r.value.log[0..] == r.value.log;
    }
  }

  /** On a table that is not acyclic `term` still stops: a compound that
      lists itself as an argument is written once, its own reference being
      marked already when it is reached. */
  lemma SelfReferenceWrittenOnce(out: string)
    ensures var t := Compound(-1, [0]);
      TermSpec(Table([t], [], Up(0, 0, 0)), WState([], [], out), 0) ==
      WState(Marked([], 0, 1), [TermDir(0, t)], out + LineOf(TermDir(0, t)))
  {
    var t := Compound(-1, [0]);
    var tb := Table([t], [], Up(0, 0, 0));
    var m := WState(Marked([], 0, 1), [], out);
    MarkedLaws([], 0, 1, 0, 1);
    assert TermSpec(tb, m, 0) == m;
    assert TermsSpec(tb, m, [0]) == TermsSpec(tb, m, []);
    assert NewTermIn(tb, 0) && !HasIn([], 0, 1) && TermRefs(t) == [0];
    assert m == WState(Marked(WState([], [], out).bits, 0, 1), [], out);
  }

  /** `AspifOutput::IdSet`. */
  class IdSet {
    var bits: seq<bv8>

    constructor ()
      ensures bits == []
    {
      bits := [];
    }

    predicate Has(id: nat, mask: bv8)
      reads this
    {
      HasIn(bits, id, mask)
    }

    /** `add(id, mask)`: true exactly when the bit was clear; the bit is set
        either way. */
    method Add(id: nat, mask: bv8) returns (added: bool)
      requires mask == 1 || mask == 2
      modifies this
      ensures added <==> !old(Has(id, mask))
      ensures bits == Marked(old(bits), id, mask)
      ensures forall j: nat, m: bv8 :: (m == 1 || m == 2) ==> (Has(j, m) <==> old(Has(j, m)) || (j == id && m == mask))
    {
      if |bits| <= id {
        bits := bits + seq(id + 1 - |bits|, _ => 0);
      }
      added := bits[id] & mask == 0;
      assert added <==> !old(Has(id, mask));
      bits := bits[id := bits[id] | mask];
      forall j: nat, m: bv8 | m == 1 || m == 2
        ensures Has(j, m) <==> old(Has(j, m)) || (j == id && m == mask)
      {
        MarkedLaws(old(bits), id, mask, j, m);
      }
    }
  }

  // ---------------------------------------------------------------------------
  // The writer

  class AspifOutput {
    /** The text written to the stream so far. */
    var out: string
    /** The theory lines written by the current `theory()` call. */
    ghost var log: seq<Event>

    constructor ()
      ensures out == "" && log == []
    {
      out := "";
      log := [];
    }

    /** `term(data, tId)`. */
    method Term(data: TheoryData, ids: IdSet, tId: nat)
      requires data.Valid()
      modifies this, ids
      decreases Unmarked(TableOf(data), ids.bits), 0
      ensures WState(ids.bits, log, out) == TermSpec(TableOf(data), old(WState(ids.bits, log, out)), tId)
    {
      if !data.IsNewTerm(tId) {
        return;
      }
      ghost var B0 := ids.bits;
      var added := ids.Add(tId, 1);
      if !added {
        MarkedAgain(B0, tId, 1);
        return;
      }
      var t := data.terms.data[tId];
      ghost var tb, m := TableOf(data), WState(ids.bits, log, out);
      assert m == WState(Marked(B0, tId, 1), old(log), old(out));
      UnmarkedShrinks(tb, B0, tId, 1);
      if t.Compound? {
        TermsOut(data, ids, TermRefs(t));
      }
      assert WState(ids.bits, log, out) == TermsSpec(tb, m, TermRefs(t));
      TermLine(tId, t);
      log := log + [TermDir(tId, t)];
    }

    /** `term(data, id)` for each of `ts` in turn. */
    method TermsOut(data: TheoryData, ids: IdSet, ts: seq<nat>)
      requires data.Valid()
      modifies this, ids
      decreases Unmarked(TableOf(data), ids.bits), 1, |ts|
      ensures WState(ids.bits, log, out) == TermsSpec(TableOf(data), old(WState(ids.bits, log, out)), ts)
    {
      ghost var tb := TableOf(data);
      var k := 0;
      while k < |ts|
        invariant 0 <= k <= |ts|
        invariant Unmarked(tb, ids.bits) <= Unmarked(tb, old(ids.bits))
        invariant TermsSpec(tb, WState(ids.bits, log, out), ts[k..]) ==
          TermsSpec(tb, old(WState(ids.bits, log, out)), ts)
      {
        assert ts[k..][0] == ts[k] && ts[k..][1..] == ts[k + 1..];
        Term(data, ids, ts[k]);
        k := k + 1;
      }
      assert ts[k..] == [];
    }

    /** One element of `theory(data)`'s loop. On a condition the element
        line is left unfinished and the call fails. */
    method WriteElement(data: TheoryData, ids: IdSet, eId: nat) returns (r: Result<()>)
      requires data.Valid()
      modifies this, ids
      ensures var sp := ElementSpec(TableOf(data), old(WState(ids.bits, log, out)), eId);
        (r.Ok? <==> sp.Ok?) && (r.Ok? ==> WState(ids.bits, log, out) == sp.value) && (r.Fail? ==> r.msg == sp.msg)
    {
      if !data.IsNewElement(eId) {
        return Ok(());
      }
      ghost var B0 := ids.bits;
      var added := ids.Add(eId, 2);
      if !added {
        MarkedAgain(B0, eId, 2);
        return Ok(());
      }
      var el := data.elems.data[eId].value;
      TermsOut(data, ids, el.terms);
      if Condition(el) != 0 {
        StartDir(CodeTheory);
        AddFields([Int(CodeElement), Int(eId)] + SpanFields(el.terms));
        return Fail(ConditionError);
      }
      ElementLine(eId, el.terms);
      log := log + [ElementDir(eId, el.terms, [])];
      r := Ok(());
    }

    /** One atom of `theory(data)`'s loop. */
    method WriteAtom(data: TheoryData, ids: IdSet, a: Atom) returns (r: Result<()>)
      requires data.Valid()
      modifies this, ids
      ensures var sp := AtomSpec(TableOf(data), old(WState(ids.bits, log, out)), a);
        (r.Ok? <==> sp.Ok?) && (r.Ok? ==> WState(ids.bits, log, out) == sp.value) && (r.Fail? ==> r.msg == sp.msg)
    {
      ghost var tb := TableOf(data);
      var k := 0;
      while k < |a.elements|
        invariant 0 <= k <= |a.elements|
        invariant ElementsSpec(tb, WState(ids.bits, log, out), a.elements[k..]) ==
          ElementsSpec(tb, old(WState(ids.bits, log, out)), a.elements)
      {
        assert a.elements[k..][0] == a.elements[k] && a.elements[k..][1..] == a.elements[k + 1..];
        r := WriteElement(data, ids, a.elements[k]);
        if r.Fail? {
          return;
        }
        k := k + 1;
      }
      assert a.elements[k..] == [];
      Term(data, ids, a.term);
      if a.guard.Some? {
        Term(data, ids, a.guard.value.0);
        Term(data, ids, a.guard.value.1);
      }
      AtomOut(a);
      log := log + [AtomLine(a)];
      r := Ok(());
    }

    /** `theory(data)`: the atoms added since the last update, with a fresh
        `IdSet`. */
    method Theory(data: TheoryData) returns (r: Result<()>)
      requires data.Valid()
      modifies this
      ensures var sp := TheorySpec(TableOf(data), old(out), data.atoms.data[data.frame.atom..]);
        (r.Ok? <==> sp.Ok?) && (r.Ok? ==> log == sp.value.log && out == sp.value.out) && (r.Fail? ==> r.msg == sp.msg)
    {
      var ids := new IdSet();
      log := [];
      r := WriteAtoms(data, ids, data.atoms.data[data.frame.atom..]);
    }

    /** The loop of `theory(data)` over the atoms. */
    method WriteAtoms(data: TheoryData, ids: IdSet, atoms: seq<Atom>) returns (r: Result<()>)
      requires data.Valid()
      modifies this, ids
      ensures var sp := AtomsSpec(TableOf(data), old(WState(ids.bits, log, out)), atoms);
        (r.Ok? <==> sp.Ok?) && (r.Ok? ==> WState(ids.bits, log, out) == sp.value) && (r.Fail? ==> r.msg == sp.msg)
    {
      ghost var tb := TableOf(data);
      ghost var s0 := WState(ids.bits, log, out);
      var i := 0;
      while i < |atoms|
        invariant 0 <= i <= |atoms|
        invariant AtomsSpec(tb, WState(ids.bits, log, out), atoms[i..]) == AtomsSpec(tb, s0, atoms)
      {
        assert atoms[i..][0] == atoms[i] && atoms[i..][1..] == atoms[i + 1..];
        r := WriteAtom(data, ids, atoms[i]);
        if r.Fail? {
          return;
        }
        i := i + 1;
      }
      assert atoms[i..] == [];
      r := Ok(());
    }

    /** An element line with the empty condition `add(0)`. */
    method ElementLine(eId: nat, terms: seq<nat>)
      modifies this`out
      ensures out == old(out) + LineOf(ElementDir(eId, terms, []))
    {
      Line(CodeTheory, [Int(CodeElement), Int(eId)] + SpanFields(terms) + SpanFields([]));
      ElementDirLine(eId, terms, []);
    }

    /** The line of a theory atom, with its guard and right-hand side when it
        has one. */
    method AtomOut(a: Atom)
      modifies this`out
      ensures out == old(out) + LineOf(AtomLine(a))
    {
      var fs := [Int(if a.guard.Some? then CodeAtomWithGuard else CodeAtom), Int(a.atom), Int(OccCode(a.occ)), Int(a.term)] +
        SpanFields(a.elements) + (if a.guard.Some? then [Int(a.guard.value.0), Int(a.guard.value.1)] else []);
      Line(CodeTheory, fs);
      AtomDirLine(a, fs);
    }

    /** The line of a term: its code, its id, then its fields. */
    method TermLine(tId: nat, t: Term)
      requires t != Invalid
      modifies this`out
      ensures out == old(out) + LineOf(TermDir(tId, t))
    {
      Line(CodeTheory, [Int(TermCode(t)), Int(tId)] + TermFields(t));
      TermDirLine(tId, t);
    }

    /** `startDir(r)`: the directive code, with no blank before it. */
    method StartDir(code: nat)
      modifies this`out
      ensures out == old(out) + Text(Int(code))
    {
      out := out + NatToString(code);
    }

    /** `add(x)` over the fields of a number or a span, one at a time. */
    method AddFields(fs: seq<Token>)
      modifies this`out
      ensures out == old(out) + FieldsText(fs)
    {
      var i := 0;
      while i < |fs|
        invariant 0 <= i <= |fs|
        invariant out == old(out) + FieldsText(fs[..i])
      {
        FieldsTextSnoc(old(out), fs, i);
        out := out + " " + Text(fs[i]);
        i := i + 1;
      }
      assert fs[..i] == fs;
    }

    /** `endDir()`. */
    method EndDir()
      modifies this`out
      ensures out == old(out) + "\n"
    {
      out := out + "\n";
    }

    /** Writes a directive line whose first field is a code. */
    method Line(code: nat, fs: seq<Token>)
      modifies this`out
      ensures out == old(out) + LineText([Int(code)] + fs)
    {
      StartDir(code);
      AddFields(fs);
      EndDir();
      LineParts(old(out), code, fs);
    }

    /** `initProgram(inc)`: the header line "asp 1 0 0", with " incremental" when
        requested. */
    method InitProgram(inc: bool)
      modifies this`out
      ensures out == old(out) + LineText(EventLine(Event.InitProgram(inc)))
    {
      var fs := [Int(1), Int(0), Int(0)] + (if inc then [Word("incremental")] else []);
      ghost var line := EventLine(Event.InitProgram(inc));
      assert line == [Word("asp")] + fs;
      assert line[0] == Word("asp") && line[1..] == fs;
      out := out + "asp";
      AddFields(fs);
      EndDir();
    }

    /** `beginStep()` writes nothing. */
    method BeginStep()
      ensures out == old(out)
    {
    }

    /** `rule(head, body)`. */
    method Rule(head: HeadView, body: BodyView)
      modifies this`out
      ensures out == old(out) + LineText(EventLine(Event.Rule(head, body)))
    {
      Line(CodeRule, RuleFields(head, body));
    }

    /** `minimize(prio, lits)`. */
    method Minimize(prio: int, lits: seq<WeightLit>)
      modifies this`out
      ensures out == old(out) + LineText(EventLine(Event.Minimize(prio, lits)))
    {
      Line(CodeMinimize, [Int(prio)] + WeightSpanFields(lits));
      assert EventLine(Event.Minimize(prio, lits)) == [Int(CodeMinimize)] + ([Int(prio)] + WeightSpanFields(lits));
    }

    /** `output(str, cond)`: the length of the string, then its text. */
    method Output(name: string, cond: seq<int>)
      modifies this`out
      ensures out == old(out) + LineText(EventLine(Event.Output(name, cond)))
    {
      Line(CodeOutput, [Int(|name|), Word(name)] + SpanFields(cond));
      OutputLine(name, cond);
    }

    /** `external(a, v)`. */
    method External(a: nat, v: nat)
      modifies this`out
      ensures out == old(out) + LineText(EventLine(Event.External(a, v)))
    {
      Line(CodeExternal, [Int(a), Int(v)]);
    }

    /** `assume(lits)`. */
    method Assume(lits: seq<int>)
      modifies this`out
      ensures out == old(out) + LineText(EventLine(Event.Assume(lits)))
    {
      Line(CodeAssume, SpanFields(lits));
    }

    /** `project(atoms)`. */
    method Project(atoms: seq<nat>)
      modifies this`out
      ensures out == old(out) + LineText(EventLine(Event.Project(atoms)))
    {
      Line(CodeProject, SpanFields(atoms));
    }

    /** `acycEdge(s, t, cond)`. */
    method AcycEdge(s: int, t: int, cond: seq<int>)
      modifies this`out
      ensures out == old(out) + LineText(EventLine(Event.Edge(s, t, cond)))
    {
      Line(CodeEdge, [Int(s), Int(t)] + SpanFields(cond));
      assert EventLine(Event.Edge(s, t, cond)) == [Int(CodeEdge)] + ([Int(s), Int(t)] + SpanFields(cond));
    }

    /** `heuristic(a, t, bias, prio, cond)`: the modifier before the atom. */
    method Heuristic(a: nat, modifier: nat, bias: int, prio: nat, cond: seq<int>)
      modifies this`out
      ensures out == old(out) + LineText(EventLine(Event.Heuristic(a, modifier, bias, prio, cond)))
    {
      Line(CodeHeuristic, [Int(modifier), Int(a), Int(bias), Int(prio)] + SpanFields(cond));
      assert EventLine(Event.Heuristic(a, modifier, bias, prio, cond)) ==
        [Int(CodeHeuristic)] + ([Int(modifier), Int(a), Int(bias), Int(prio)] + SpanFields(cond));
    }

    /** `endStep()`: the line "0". */
    method EndStep()
      modifies this`out
      ensures out == old(out) + LineText(EventLine(Event.EndStep))
    {
      Line(CodeEnd, []);
    }
  }
}
