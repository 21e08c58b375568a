/** The aspif reader `AspifInput`: the header check of `doAttach`, the
    directive loop of `doParse` and the theory directives of `matchTheory`.
    The input is the sequence of fields of the lines (see `Aspif.Token`): the
    matchers take the next number or string and return the input after it. */
module AspifReader {
  import opened BasicTypes
  import opened TheoryTerms
  import opened TheoryStore
  import opened Aspif

  /** What a matcher gives: the value read and the input after it. */
  type Read<T> = Result<(T, seq<Token>)>

  const IntMax: int := TWO31 - 1

  /** The messages of the matchers' default arguments. */
  const PosExpected := "unsigned integer expected"
  const IntExpected := "integer expected"
  const AtomExpected := "atom expected"
  const LitExpected := "literal expected"

  // ---------------------------------------------------------------------------
  // Matchers

  /** The input after the line breaks at its front: a number may follow on a
      later line. */
  function Skip(ts: seq<Token>): (r: seq<Token>)
    ensures |r| <= |ts| && (r != [] ==> r[0] != Eol)
  {
    if ts != [] && ts[0] == Eol then Skip(ts[1..]) else ts
  }

  /** `matchInt(lo, hi, msg)` and `matchPos(max, msg)`: the next number, which
      must lie in `[lo, hi]`. */
  function MatchInt(ts: seq<Token>, lo: int, hi: int, msg: string): (r: Read<int>)
    ensures r.Ok? ==> lo <= r.value.0 <= hi && |r.value.1| < |ts|
    ensures r.Fail? ==> r.msg == msg
  {
    var u := Skip(ts);
    if u != [] && u[0].Int? && lo <= u[0].n <= hi then Ok((u[0].n, u[1..])) else Fail(msg)
  }

  /** The numbers a list of atoms, literals or ids may hold. */
  datatype Item = IdItem | AtomItem | LitItem

  predicate ItemOk(k: Item, x: int) {
    match k
    case IdItem => 0 <= x <= IdMax
    case AtomItem => AtomMin <= x <= AtomMax
    case LitItem => x != 0 && -(AtomMax as int) <= x <= AtomMax
  }

  /** `matchPos()`, `matchAtom()` or `matchLit()`. */
  function MatchItem(ts: seq<Token>, k: Item): (r: Read<int>)
    ensures r.Ok? ==> ItemOk(k, r.value.0) && |r.value.1| < |ts|
  {
    var u := Skip(ts);
    if u != [] && u[0].Int? && ItemOk(k, u[0].n) then Ok((u[0].n, u[1..]))
    else Fail(match k case IdItem => PosExpected case AtomItem => AtomExpected case LitItem => LitExpected)
  }

  /** `n` items, one after the other. */
  function MatchItems(ts: seq<Token>, n: nat, k: Item): (r: Read<seq<int>>)
    ensures r.Ok? ==> |r.value.0| == n && |r.value.1| <= |ts|
    ensures r.Ok? ==> forall i :: 0 <= i < n ==> ItemOk(k, r.value.0[i])
    decreases n
  {
    if n == 0 then Ok(([], ts))
    else
      var x := MatchItem(ts, k);
      if x.Fail? then Fail(x.msg)
      else
        var rest := MatchItems(x.value.1, n - 1, k);
        if rest.Fail? then Fail(rest.msg) else Ok(([x.value.0] + rest.value.0, rest.value.1))
  }

  /** A count (`msg` when it is missing), then that many items: the head atoms
      and `matchTermList`, and `matchLits` for literals. */
  function MatchSpan(ts: seq<Token>, k: Item, msg: string): (r: Read<seq<int>>)
    ensures r.Ok? ==> |r.value.0| <= IdMax && |r.value.1| < |ts|
    ensures r.Ok? ==> forall i :: 0 <= i < |r.value.0| ==> ItemOk(k, r.value.0[i])
  {
    var c := MatchInt(ts, 0, IdMax, msg);
    if c.Fail? then Fail(c.msg) else MatchItems(c.value.1, c.value.0, k)
  }

  function AsNats(xs: seq<int>): (r: seq<nat>)
    requires forall i :: 0 <= i < |xs| ==> xs[i] >= 0
    ensures |r| == |xs| && forall i :: 0 <= i < |xs| ==> r[i] == xs[i]
  {
    seq(|xs|, i requires 0 <= i < |xs| => xs[i] as nat)
  }

  /** How the weight of a body literal is read: not at all for a rule body
      without weights, as an unsigned number for a sum, as any number for a
      minimize literal. */
  datatype Weights = UnitWeight | PosWeight | AnyWeight

  function MatchWeight(ts: seq<Token>, w: Weights): (r: Read<int>)
    ensures r.Ok? ==> |r.value.1| <= |ts|
  {
    match w
    case UnitWeight => Ok((1, ts))
    case PosWeight => MatchInt(ts, 0, IntMax, "non-negative weight expected!")
    case AnyWeight => MatchInt(ts, -TWO31, IntMax, IntExpected)
  }

  /** `n` body literals, each a literal and then its weight. */
  function MatchWeightLits(ts: seq<Token>, n: nat, w: Weights): (r: Read<seq<WeightLit>>)
    ensures r.Ok? ==> |r.value.0| == n && |r.value.1| <= |ts|
    ensures r.Ok? ==> forall i :: 0 <= i < n ==> ItemOk(LitItem, r.value.0[i].lit)
    ensures r.Ok? && w == UnitWeight ==> forall i :: 0 <= i < n ==> r.value.0[i].weight == 1
    ensures r.Ok? && w == PosWeight ==> forall i :: 0 <= i < n ==> 0 <= r.value.0[i].weight <= IntMax
    decreases n
  {
    if n == 0 then Ok(([], ts))
    else
      var l := MatchItem(ts, LitItem);
      if l.Fail? then Fail(l.msg)
      else
        var x := MatchWeight(l.value.1, w);
        if x.Fail? then Fail(x.msg)
        else
          var rest := MatchWeightLits(x.value.1, n - 1, w);
          if rest.Fail? then Fail(rest.msg)
          else Ok(([WeightLit(l.value.0, x.value.0)] + rest.value.0, rest.value.1))
  }

  /** `matchString()`: the length, then the characters. A zero-length string
      copies nothing; the empty field after its length is passed over. */
  function MatchString(ts: seq<Token>): (r: Read<string>)
    ensures r.Ok? ==> |r.value.0| <= IdMax && |r.value.1| < |ts|
  {
    var n := MatchInt(ts, 0, IdMax, "non-negative string length expected");
    if n.Fail? then Fail(n.msg)
    else
      var u := n.value.1;
      if n.value.0 == 0 then Ok(("", if u != [] && u[0] == Word("") then u[1..] else u))
      else if u != [] && u[0].Word? && |u[0].s| == n.value.0 then Ok((u[0].s, u[1..]))
      else Fail("invalid string")
  }

  /** `skipLine()`: the input after the next line break. */
  function SkipLine(ts: seq<Token>): (r: seq<Token>)
    ensures |r| <= |ts|
  {
    if ts == [] then [] else if ts[0] == Eol then ts[1..] else SkipLine(ts[1..])
  }

  // ---------------------------------------------------------------------------
  // Directives

  function HeadKind(c: int): HeadType {
    if c == 0 then Disjunctive else Choice
  }

  function BodyKind(c: int): BodyType {
    if c == 0 then Normal else if c == 1 then Sum else Count
  }

  /** A rule body: its type, a bound for every type but a normal one, and the
      literals, with weights only for a sum. */
  function ReadBody(ts: seq<Token>): (r: Read<BodyView>)
    ensures r.Ok? ==> |r.value.1| < |ts|
    ensures r.Ok? && r.value.0.kind == Normal ==> r.value.0.bound == BoundNone
    ensures r.Ok? && r.value.0.kind != Sum ==> forall i :: 0 <= i < |r.value.0.lits| ==> r.value.0.lits[i].weight == 1
  {
    var bt := MatchInt(ts, 0, 2, "invalid body type");
    if bt.Fail? then Fail(bt.msg)
    else
      var kind := BodyKind(bt.value.0);
      var bound := if kind != Normal then MatchInt(bt.value.1, -TWO31, IntMax, IntExpected) else Ok((BoundNone, bt.value.1));
      if bound.Fail? then Fail(bound.msg)
      else
        var n := MatchInt(bound.value.1, 0, IdMax, "number of body literals expected");
        if n.Fail? then Fail(n.msg)
        else
          var lits := MatchWeightLits(n.value.1, n.value.0, if kind == Sum then PosWeight else UnitWeight);
          if lits.Fail? then Fail(lits.msg) else Ok((BodyView(kind, bound.value.0, lits.value.0), lits.value.1))
  }

  /** The `Rule` case: head type and atoms, then the body. */
  function ReadRule(ts: seq<Token>): (r: Read<Event>)
    ensures r.Ok? ==> r.value.0.Rule? && |r.value.1| < |ts|
  {
    var ht := MatchInt(ts, 0, 1, "invalid head type");
    if ht.Fail? then Fail(ht.msg)
    else
      var atoms := MatchSpan(ht.value.1, AtomItem, "number of head atoms expected");
      if atoms.Fail? then Fail(atoms.msg)
      else
        var body := ReadBody(atoms.value.1);
        if body.Fail? then Fail(body.msg)
        else Ok((Event.Rule(HeadView(HeadKind(ht.value.0), AsNats(atoms.value.0)), body.value.0), body.value.1))
  }

  /** The `Minimize` case: the priority, then literals with their weights. */
  function ReadMinimize(ts: seq<Token>): (r: Read<Event>)
    ensures r.Ok? ==> r.value.0.Minimize? && |r.value.1| < |ts|
  {
    var prio := MatchInt(ts, -TWO31, IntMax, IntExpected);
    if prio.Fail? then Fail(prio.msg)
    else
      var n := MatchInt(prio.value.1, 0, IdMax, "number of body literals expected");
      if n.Fail? then Fail(n.msg)
      else
        var lits := MatchWeightLits(n.value.1, n.value.0, AnyWeight);
        if lits.Fail? then Fail(lits.msg)
        else Ok((Event.Minimize(prio.value.0, lits.value.0), lits.value.1))
  }

  /** `matchLits`: a count, then that many literals. */
  function MatchLits(ts: seq<Token>): (r: Read<seq<int>>)
    ensures r.Ok? ==> |r.value.1| < |ts|
  {
    MatchSpan(ts, LitItem, PosExpected)
  }

  /** The `Output` case: the name, then the condition. */
  function ReadOutput(ts: seq<Token>): (r: Read<Event>)
    ensures r.Ok? ==> r.value.0.Output? && |r.value.1| < |ts|
  {
    var name := MatchString(ts);
    if name.Fail? then Fail(name.msg)
    else
      var cond := MatchLits(name.value.1);
      if cond.Fail? then Fail(cond.msg) else Ok((Event.Output(name.value.0, cond.value.0), cond.value.1))
  }

  /** The `Heuristic` case: modifier, atom, bias, priority and condition. */
  function ReadHeuristic(ts: seq<Token>): (r: Read<Event>)
    ensures r.Ok? ==> r.value.0.Heuristic? && |r.value.1| < |ts|
  {
    var m := MatchInt(ts, 0, 5, "invalid heuristic modifier");
    if m.Fail? then Fail(m.msg)
    else
      var a := MatchItem(m.value.1, AtomItem);
      if a.Fail? then Fail(a.msg)
      else
        var bias := MatchInt(a.value.1, -TWO31, IntMax, IntExpected);
        if bias.Fail? then Fail(bias.msg)
        else
          var prio := MatchInt(bias.value.1, 0, IntMax, "invalid heuristic priority");
          if prio.Fail? then Fail(prio.msg)
          else
            var cond := MatchLits(prio.value.1);
            if cond.Fail? then Fail(cond.msg)
            else Ok((Event.Heuristic(a.value.0, m.value.0, bias.value.0, prio.value.0, cond.value.0), cond.value.1))
  }

  /** The `Edge` case: start and end node, then the condition. */
  function ReadEdge(ts: seq<Token>): (r: Read<Event>)
    ensures r.Ok? ==> r.value.0.Edge? && |r.value.1| < |ts|
  {
    var s := MatchInt(ts, 0, IntMax, "invalid edge, start node expected");
    if s.Fail? then Fail(s.msg)
    else
      var t := MatchInt(s.value.1, 0, IntMax, "invalid edge, end node expected");
      if t.Fail? then Fail(t.msg)
      else
        var cond := MatchLits(t.value.1);
        if cond.Fail? then Fail(cond.msg) else Ok((Event.Edge(s.value.0, t.value.0, cond.value.0), cond.value.1))
  }

  const NoTheory := "theory directive not supported"

  /** A directive `matchTheory` reads: a term, an element or an atom. */
  predicate TheoryDir(e: Event) {
    e.TermDir? || e.ElementDir? || e.AtomDir?
  }
  const NoCondition := "theory condition not supported"

  /** A compound term: its type, then the argument list. A positive type
      names a function with that symbol (`addTerm(id, funcId, args)`); any other is
      read as a tuple (`addTerm(id, TupleType, args)`), whose type is stored as
      the base all the same. */
  function ReadCompound(ts: seq<Token>): (r: Read<Term>)
    ensures r.Ok? ==> r.value.0.Compound? && |r.value.1| < |ts|
  {
    var t := MatchInt(ts, -3, IntMax, "unrecognized compound term type");
    if t.Fail? then Fail(t.msg)
    else
      var args := MatchSpan(t.value.1, IdItem, PosExpected);
      if args.Fail? then Fail(args.msg)
      else if t.value.0 > 0 then Ok((FunctionTerm(t.value.0, AsNats(args.value.0)), args.value.1))
      else Ok((Compound(t.value.0, AsNats(args.value.0)), args.value.1))
  }

  /** An element: its terms, then its condition, which must be empty. */
  function ReadElement(ts: seq<Token>, id: nat): (r: Read<Event>)
    ensures r.Ok? ==> r.value.0.ElementDir? && r.value.0.id == id && r.value.0.cond == [] && |r.value.1| < |ts|
  {
    var terms := MatchSpan(ts, IdItem, PosExpected);
    if terms.Fail? then Fail(terms.msg)
    else
      var cond := MatchLits(terms.value.1);
      if cond.Fail? then Fail(cond.msg)
      else if |cond.value.0| != 0 then Fail(NoCondition)
      else Ok((ElementDir(id, AsNats(terms.value.0), []), cond.value.1))
  }

  /** A theory atom: occurrence, term, elements, and the guard's operator and
      right-hand side when `guarded`. */
  function ReadAtom(ts: seq<Token>, id: nat, guarded: bool): (r: Read<Event>)
    ensures r.Ok? ==> r.value.0.AtomDir? && r.value.0.atom == id && (r.value.0.guard.Some? <==> guarded) && |r.value.1| < |ts|
  {
    var occ := MatchInt(ts, 0, 1, "unrecognized theory atom occurrence");
    if occ.Fail? then Fail(occ.msg)
    else
      var term := MatchItem(occ.value.1, IdItem);
      if term.Fail? then Fail(term.msg)
      else
        var elems := MatchSpan(term.value.1, IdItem, PosExpected);
        if elems.Fail? then Fail(elems.msg)
        else
          var o := if occ.value.0 == 0 then Head else Body;
          var es := AsNats(elems.value.0);
          if !guarded then Ok((AtomDir(id, o, term.value.0, es, None), elems.value.1))
          else
            var op := MatchItem(elems.value.1, IdItem);
            if op.Fail? then Fail(op.msg)
            else
              var rhs := MatchItem(op.value.1, IdItem);
              if rhs.Fail? then Fail(rhs.msg)
              else Ok((AtomDir(id, o, term.value.0, es, Some((op.value.0 as nat, rhs.value.0 as nat))), rhs.value.1))
  }

  /** `matchTheory(rt)` once the theory directive's type `code` and id are
      read. */
  function ReadTheoryBody(ts: seq<Token>, code: int, id: nat): (r: Read<Event>)
    ensures r.Ok? ==> |r.value.1| <= |ts|
    ensures r.Ok? ==> match r.value.0
      case TermDir(x, t) => x == id && t != Invalid
      case ElementDir(x, _, c) => x == id && c == []
      case AtomDir(x, _, _, _, _) => x == id
      case _ => false
  {
    if code == CodeNumber then
      var n := MatchInt(ts, -TWO31, IntMax, IntExpected);
      if n.Fail? then Fail(n.msg) else Ok((TermDir(id, Num(n.value.0)), n.value.1))
    else if code == CodeSymbol then
      var s := MatchString(ts);
      if s.Fail? then Fail(s.msg) else Ok((TermDir(id, Sym(s.value.0)), s.value.1))
    else if code == CodeCompound then
      var t := ReadCompound(ts);
      if t.Fail? then Fail(t.msg) else Ok((TermDir(id, t.value.0), t.value.1))
    else if code == CodeElement then ReadElement(ts, id)
    else if code == CodeAtom || code == CodeAtomWithGuard then ReadAtom(ts, id, code == CodeAtomWithGuard)
    else Fail("unrecognized theory directive type")
  }

  /** The `Theory` case: the type is read before the reader checks that it has
      theory data, the id after. */
  function ReadTheory(ts: seq<Token>, theory: bool): (r: Read<Event>)
    ensures r.Ok? ==> theory && |r.value.1| < |ts| && TheoryDir(r.value.0)
    ensures r.Ok? && r.value.0.TermDir? ==> r.value.0.term != Invalid
    ensures !theory ==> r.Fail?
  {
    var code := MatchItem(ts, IdItem);
    if code.Fail? then Fail(code.msg)
    else if !theory then Fail(NoTheory)
    else
      var id := MatchItem(code.value.1, IdItem);
      if id.Fail? then Fail(id.msg) else ReadTheoryBody(id.value.1, code.value.0, id.value.0)
  }

  /** The `Project` case: a count, then the atoms. */
  function ReadProject(ts: seq<Token>): (r: Read<Event>)
    ensures r.Ok? ==> r.value.0.Project? && |r.value.1| < |ts|
  {
    var atoms := MatchSpan(ts, AtomItem, "number of atoms expected");
    if atoms.Fail? then Fail(atoms.msg) else Ok((Event.Project(AsNats(atoms.value.0)), atoms.value.1))
  }

  /** The `External` case: the atom, then its value. */
  function ReadExternal(ts: seq<Token>): (r: Read<Event>)
    ensures r.Ok? ==> r.value.0.External? && |r.value.1| < |ts|
  {
    var a := MatchItem(ts, AtomItem);
    if a.Fail? then Fail(a.msg)
    else
      var v := MatchInt(a.value.1, 0, 3, "value expected");
      if v.Fail? then Fail(v.msg) else Ok((Event.External(a.value.0, v.value.0), v.value.1))
  }

  /** The `Assume` case: the literals. */
  function ReadAssume(ts: seq<Token>): (r: Read<Event>)
    ensures r.Ok? ==> r.value.0.Assume? && |r.value.1| < |ts|
  {
    var lits := MatchLits(ts);
    if lits.Fail? then Fail(lits.msg) else Ok((Event.Assume(lits.value.0), lits.value.1))
  }

  /** The case of `doParse`'s switch for a directive code other than 0 and
      the comment code. */
  function ReadDirective(code: int, u: seq<Token>, theory: bool): (r: Read<Event>)
    ensures r.Ok? ==> |r.value.1| < |u|
    ensures r.Ok? && TheoryDir(r.value.0) ==> theory
    ensures r.Ok? && r.value.0.TermDir? ==> r.value.0.term != Invalid
  {
    if code == CodeRule then ReadRule(u)
    else if code == CodeMinimize then ReadMinimize(u)
    else if code == CodeProject then ReadProject(u)
    else if code == CodeOutput then ReadOutput(u)
    else if code == CodeExternal then ReadExternal(u)
    else if code == CodeAssume then ReadAssume(u)
    else if code == CodeHeuristic then ReadHeuristic(u)
    else if code == CodeEdge then ReadEdge(u)
    else ReadTheory(u, theory)
  }

  /** What one line of a step gives: its end, a comment, or a directive. */
  datatype Line = End | Skipped | Directive(e: Event)

  /** One pass of the `doParse` loop: the rule type, then the case for it. */
  function ReadLine(ts: seq<Token>, theory: bool): (r: Read<Line>)
    ensures r.Ok? ==> |r.value.1| < |ts|
    ensures r.Ok? && r.value.0.Directive? && TheoryDir(r.value.0.e) ==> theory
    ensures r.Ok? && r.value.0.Directive? && r.value.0.e.TermDir? ==> r.value.0.e.term != Invalid
  {
    var rt := MatchInt(ts, 0, CodeComment, "rule type or 0 expected");
    if rt.Fail? then Fail(rt.msg)
    else
      var code, u := rt.value.0, rt.value.1;
      if code == CodeEnd then Ok((End, u))
      else if code == CodeComment then Ok((Skipped, SkipLine(u)))
      else
        var d := ReadDirective(code, u, theory);
        if d.Fail? then Fail(d.msg) else Ok((Directive(d.value.0), d.value.1))
  }

  /** The directives of one step, up to and including its rule type 0, and the
      input after it. */
  function ParseStep(ts: seq<Token>, theory: bool): (r: Read<seq<Event>>)
    decreases |ts|
  {
    var l := ReadLine(ts, theory);
    if l.Fail? then Fail(l.msg)
    else
      match l.value.0
      case End => Ok(([], l.value.1))
      case Skipped => ParseStep(l.value.1, theory)
      case Directive(e) =>
        var rest := ParseStep(l.value.1, theory);
        if rest.Fail? then Fail(rest.msg) else Ok(([e] + rest.value.0, rest.value.1))
  }

  /** The problem line up to its end: `None` when the input does not start
      with "asp", else the incremental flag. */
  function ReadHeader(ts: seq<Token>): (r: Read<Option<bool>>)
    ensures r.Ok? && r.value.0.None? ==> r.value.1 == ts
  {
    if ts == [] || ts[0] != Word("asp") then Ok((None, ts))
    else
      var major := MatchInt(ts[1..], 0, IdMax, PosExpected);
      if major.Fail? then Fail(major.msg)
      else if major.value.0 != 1 then Fail("unsupported major version")
      else
        var minor := MatchInt(major.value.1, 0, IdMax, PosExpected);
        if minor.Fail? then Fail(minor.msg)
        else if minor.value.0 != 0 then Fail("unsupported minor version")
        else
          var rev := MatchInt(minor.value.1, 0, IdMax, "revision number expected");
          if rev.Fail? then Fail(rev.msg)
          else
            var u := rev.value.1;
            if u != [] && u[0] == Word("incremental") then Ok((Some(true), u[1..])) else Ok((Some(false), u))
  }

  const ExtraCharacters := "invalid extra characters in problem line"

  /** The outcome `p0` of a whole step is that of its remainder `p` once the
      directives `done` are read. */
  ghost predicate Continues(p0: Read<seq<Event>>, done: seq<Event>, p: Read<seq<Event>>) {
    (p0.Ok? <==> p.Ok?) &&
    (p.Ok? ==> p0.value.0 == done + p.value.0 && p0.value.1 == p.value.1) &&
    (p.Fail? ==> p0.msg == p.msg)
  }

  /** What reading one more line does to the outcome of the rest of a step. */
  lemma ContinuesStep(p0: Read<seq<Event>>, done: seq<Event>, ts: seq<Token>, theory: bool)
    requires Continues(p0, done, ParseStep(ts, theory))
    ensures var l := ReadLine(ts, theory);
      (l.Fail? ==> p0 == Fail(l.msg)) &&
      (l.Ok? && l.value.0.End? ==> p0 == Ok((done, l.value.1))) &&
      (l.Ok? && l.value.0.Skipped? ==> Continues(p0, done, ParseStep(l.value.1, theory))) &&
      (l.Ok? && l.value.0.Directive? ==> Continues(p0, done + [l.value.0.e], ParseStep(l.value.1, theory)))
  {
    var l := ReadLine(ts, theory);
    if l.Ok? && l.value.0.End? {
      StepAtEnd(ts, theory);
      assert done + [] == done;
    } else if l.Ok? && l.value.0.Directive? {
      StepAtDirective(p0, done, ts, theory);
    }
  }

  lemma StepAtEnd(ts: seq<Token>, theory: bool)
    requires ReadLine(ts, theory).Ok? && ReadLine(ts, theory).value.0.End?
    ensures ParseStep(ts, theory) == Ok(([], ReadLine(ts, theory).value.1))
  {
  }

  lemma StepAtDirective(p0: Read<seq<Event>>, done: seq<Event>, ts: seq<Token>, theory: bool)
    requires Continues(p0, done, ParseStep(ts, theory))
    requires ReadLine(ts, theory).Ok? && ReadLine(ts, theory).value.0.Directive?
    ensures var l := ReadLine(ts, theory);
      Continues(p0, done + [l.value.0.e], ParseStep(l.value.1, theory))
  {
    var l := ReadLine(ts, theory);
    var e := l.value.0.e;
    var rest := ParseStep(l.value.1, theory);
    if rest.Ok? {
      assert ParseStep(ts, theory) == Ok(([e] + rest.value.0, rest.value.1));
      assert done + ([e] + rest.value.0) == done + [e] + rest.value.0;
    } else {
      assert ParseStep(ts, theory) == Fail(rest.msg);
    }
  }

  // ---------------------------------------------------------------------------
  // Reading back what the writer wrote

  lemma MatchIntHead(n: int, rest: seq<Token>, lo: int, hi: int, msg: string)
    ensures MatchInt([Int(n)] + rest, lo, hi, msg) == if lo <= n <= hi then Ok((n, rest)) else Fail(msg)
  {
    assert ([Int(n)] + rest)[1..] == rest;
  }

  lemma MatchItemHead(n: int, rest: seq<Token>, k: Item)
    requires ItemOk(k, n)
    ensures MatchItem([Int(n)] + rest, k) == Ok((n, rest))
  {
    assert ([Int(n)] + rest)[1..] == rest;
  }

  /** A span of items the reader accepts: at most `idMax` of them, each in
      range. */
  predicate SpanOk(xs: seq<int>, k: Item) {
    |xs| <= IdMax && forall i :: 0 <= i < |xs| ==> ItemOk(k, xs[i])
  }

  predicate WeightOk(w: Weights, x: int) {
    match w
    case UnitWeight => true
    case PosWeight => 0 <= x <= IntMax
    case AnyWeight => IsInt32(x)
  }

  predicate WeightLitsOk(ws: seq<WeightLit>, w: Weights) {
    |ws| <= IdMax && forall i :: 0 <= i < |ws| ==> ItemOk(LitItem, ws[i].lit) && WeightOk(w, ws[i].weight)
  }

  lemma {:induction false} MatchItemsRoundTrip(xs: seq<int>, rest: seq<Token>, k: Item)
    requires forall i :: 0 <= i < |xs| ==> ItemOk(k, xs[i])
    ensures MatchItems(Ints(xs) + rest, |xs|, k) == Ok((xs, rest))
    decreases |xs|
  {
    if xs == [] {
      assert Ints(xs) + rest == rest;
    } else {
      assert Ints(xs) + rest == [Int(xs[0])] + (Ints(xs[1..]) + rest);
      MatchItemHead(xs[0], Ints(xs[1..]) + rest, k);
      MatchItemsRoundTrip(xs[1..], rest, k);
      assert [xs[0]] + xs[1..] == xs;
    }
  }

  /** A span reads back as itself. */
  lemma MatchSpanRoundTrip(xs: seq<int>, rest: seq<Token>, k: Item, msg: string)
    requires SpanOk(xs, k)
    ensures MatchSpan(SpanFields(xs) + rest, k, msg) == Ok((xs, rest))
  {
    assert SpanFields(xs) + rest == [Int(|xs|)] + (Ints(xs) + rest);
    MatchIntHead(|xs|, Ints(xs) + rest, 0, IdMax, msg);
    MatchItemsRoundTrip(xs, rest, k);
  }

  lemma PairsCons(ws: seq<WeightLit>, rest: seq<Token>)
    requires ws != []
    ensures Pairs(ws) + rest == [Int(ws[0].lit)] + ([Int(ws[0].weight)] + (Pairs(ws[1..]) + rest))
  {
  }

  lemma WeightLitsCons(ws: seq<WeightLit>)
    requires ws != []
    ensures [WeightLit(ws[0].lit, ws[0].weight)] + ws[1..] == ws
  {
  }

  lemma WeightLitsOkTail(ws: seq<WeightLit>, w: Weights)
    requires ws != [] && WeightLitsOk(ws, w)
    ensures WeightLitsOk(ws[1..], w)
  {
    forall i | 0 <= i < |ws[1..]|
      ensures ItemOk(LitItem, ws[1..][i].lit) && WeightOk(w, ws[1..][i].weight)
    {
      assert ws[1..][i] == ws[i + 1];
    }
  }

  lemma {:induction false} MatchPairsRoundTrip(ws: seq<WeightLit>, rest: seq<Token>, w: Weights)
    requires w != UnitWeight && WeightLitsOk(ws, w)
    ensures MatchWeightLits(Pairs(ws) + rest, |ws|, w) == Ok((ws, rest))
    decreases |ws|
  {
    if ws == [] {
      assert Pairs(ws) + rest == rest;
    } else {
      var tail := Pairs(ws[1..]) + rest;
      PairsCons(ws, rest);
      MatchItemHead(ws[0].lit, [Int(ws[0].weight)] + tail, LitItem);
      MatchIntHead(ws[0].weight, tail, if w == PosWeight then 0 else -TWO31, IntMax,
                   if w == PosWeight then "non-negative weight expected!" else IntExpected);
      WeightLitsOkTail(ws, w);
      MatchPairsRoundTrip(ws[1..], rest, w);
      WeightLitsCons(ws);
    }
  }

  /** The literals of `ws`, each with weight 1. */
  function UnitLits(ws: seq<WeightLit>): (r: seq<WeightLit>)
    ensures |r| == |ws| && forall i :: 0 <= i < |ws| ==> r[i] == WeightLit(ws[i].lit, 1)
  {
    seq(|ws|, i requires 0 <= i < |ws| => WeightLit(ws[i].lit, 1))
  }

  lemma LitsCons(ws: seq<WeightLit>, rest: seq<Token>)
    requires ws != []
    ensures Ints(LitsOf(ws)) + rest == [Int(ws[0].lit)] + (Ints(LitsOf(ws[1..])) + rest)
  {
    LitsOfCons(ws);
    IntsCons(LitsOf(ws), ws[0].lit, LitsOf(ws[1..]), rest);
  }

  lemma LitsOfCons(ws: seq<WeightLit>)
    requires ws != []
    ensures LitsOf(ws) == [ws[0].lit] + LitsOf(ws[1..])
  {
  }

  lemma IntsCons(xs: seq<int>, x: int, ys: seq<int>, rest: seq<Token>)
    requires xs == [x] + ys
    ensures Ints(xs) + rest == [Int(x)] + (Ints(ys) + rest)
  {
    assert xs[1..] == ys;
  }

  lemma UnitLitsCons(ws: seq<WeightLit>)
    requires ws != []
    ensures [WeightLit(ws[0].lit, 1)] + UnitLits(ws[1..]) == UnitLits(ws)
  {
  }

  lemma {:induction false} MatchUnitRoundTrip(ws: seq<WeightLit>, rest: seq<Token>)
    requires WeightLitsOk(ws, UnitWeight)
    ensures MatchWeightLits(Ints(LitsOf(ws)) + rest, |ws|, UnitWeight) == Ok((UnitLits(ws), rest))
    decreases |ws|
  {
    if ws == [] {
      assert Ints(LitsOf(ws)) + rest == rest;
    } else {
      LitsCons(ws, rest);
      MatchItemHead(ws[0].lit, Ints(LitsOf(ws[1..])) + rest, LitItem);
      WeightLitsOkTail(ws, UnitWeight);
      MatchUnitRoundTrip(ws[1..], rest);
      UnitLitsCons(ws);
    }
  }

  lemma AsNatsOfNats(xs: seq<nat>)
    ensures AsNats(xs) == xs
  {
  }

  lemma MatchStringRoundTrip(s: string, rest: seq<Token>)
    requires |s| <= IdMax
    ensures MatchString([Int(|s|), Word(s)] + rest) == Ok((s, rest))
  {
    assert [Int(|s|), Word(s)] + rest == [Int(|s|)] + ([Word(s)] + rest);
    MatchIntHead(|s|, [Word(s)] + rest, 0, IdMax, "non-negative string length expected");
    assert ([Word(s)] + rest)[1..] == rest;
  }

  /** The directives the reader accepts: every number within the range its
      matcher allows, and no element condition. */
  predicate Readable(e: Event) {
    match e
    case Rule(h, b) =>
      SpanOk(h.atoms, AtomItem) && WeightLitsOk(b.lits, if b.kind == Normal then UnitWeight else PosWeight) &&
      (b.kind != Normal ==> IsInt32(b.bound))
    case Minimize(prio, ws) => IsInt32(prio) && WeightLitsOk(ws, AnyWeight)
    case Project(atoms) => SpanOk(atoms, AtomItem)
    case Output(name, cond) => |name| <= IdMax && SpanOk(cond, LitItem)
    case External(a, v) => ItemOk(AtomItem, a) && v <= 3
    case Assume(lits) => SpanOk(lits, LitItem)
    case Heuristic(a, m, bias, prio, cond) =>
      m <= 5 && ItemOk(AtomItem, a) && IsInt32(bias) && prio <= IntMax && SpanOk(cond, LitItem)
    case Edge(s, t, cond) => 0 <= s <= IntMax && 0 <= t <= IntMax && SpanOk(cond, LitItem)
    case TermDir(id, t) => id <= IdMax && TermReadable(t)
    case ElementDir(id, terms, cond) => id <= IdMax && SpanOk(terms, IdItem) && cond == []
    case AtomDir(a, _, term, elems, g) =>
      a <= IdMax && term <= IdMax && SpanOk(elems, IdItem) && (g.Some? ==> g.value.0 <= IdMax && g.value.1 <= IdMax)
    case _ => false
  }

  predicate TermReadable(t: Term) {
    match t
    case Invalid => false
    case Num(n) => IsInt32(n)
    case Sym(s) => |s| <= IdMax
    case Compound(b, args) => -3 <= b <= IntMax && SpanOk(args, IdItem)
  }

  /** What the reader gives back for a directive the writer wrote: a normal
      body returns with weight 1 on each literal and no bound, and every other
      body as a sum. */
  function ReadBack(e: Event): (r: Event) {
    match e
    case Rule(h, b) =>
      Event.Rule(h, if b.kind == Normal then BodyView(Normal, BoundNone, UnitLits(b.lits)) else BodyView(Sum, b.bound, b.lits))
    case _ => e
  }

  function BodyBack(b: BodyView): BodyView {
    if b.kind == Normal then BodyView(Normal, BoundNone, UnitLits(b.lits)) else BodyView(Sum, b.bound, b.lits)
  }

  lemma BodyRoundTrip(b: BodyView, rest: seq<Token>)
    requires WeightLitsOk(b.lits, if b.kind == Normal then UnitWeight else PosWeight)
    requires b.kind != Normal ==> IsInt32(b.bound)
    ensures ReadBody(BodyFields(b) + rest) == Ok((BodyBack(b), rest))
  {
    if b.kind == Normal {
      var lits := Ints(LitsOf(b.lits)) + rest;
      assert BodyFields(b) + rest == [Int(0)] + ([Int(|b.lits|)] + lits);
      MatchIntHead(0, [Int(|b.lits|)] + lits, 0, 2, "invalid body type");
      MatchIntHead(|b.lits|, lits, 0, IdMax, "number of body literals expected");
      MatchUnitRoundTrip(b.lits, rest);
    } else {
      var lits := Pairs(b.lits) + rest;
      assert BodyFields(b) + rest == [Int(1)] + ([Int(b.bound)] + ([Int(|b.lits|)] + lits));
      MatchIntHead(1, [Int(b.bound)] + ([Int(|b.lits|)] + lits), 0, 2, "invalid body type");
      MatchIntHead(b.bound, [Int(|b.lits|)] + lits, -TWO31, IntMax, IntExpected);
      MatchIntHead(|b.lits|, lits, 0, IdMax, "number of body literals expected");
      MatchPairsRoundTrip(b.lits, rest, PosWeight);
    }
  }

  lemma RuleRoundTrip(h: HeadView, b: BodyView, rest: seq<Token>)
    requires SpanOk(h.atoms, AtomItem)
    requires WeightLitsOk(b.lits, if b.kind == Normal then UnitWeight else PosWeight)
    requires b.kind != Normal ==> IsInt32(b.bound)
    ensures ReadRule(RuleFields(h, b) + rest) == Ok((Event.Rule(h, BodyBack(b)), rest))
  {
    var ts := RuleFields(h, b) + rest;
    assert ts == [Int(HeadCode(h.kind))] + (SpanFields(h.atoms) + (BodyFields(b) + rest));
    MatchIntHead(HeadCode(h.kind), SpanFields(h.atoms) + (BodyFields(b) + rest), 0, 1, "invalid head type");
    MatchSpanRoundTrip(h.atoms, BodyFields(b) + rest, AtomItem, "number of head atoms expected");
    AsNatsOfNats(h.atoms);
    assert HeadKind(HeadCode(h.kind)) == h.kind;
    BodyRoundTrip(b, rest);
  }

  lemma CompoundRoundTrip(b: int, args: seq<nat>, rest: seq<Token>)
    requires -3 <= b <= IntMax && SpanOk(args, IdItem)
    ensures ReadCompound([Int(b)] + SpanFields(args) + rest) == Ok((Compound(b, args), rest))
  {
    assert [Int(b)] + SpanFields(args) + rest == [Int(b)] + (SpanFields(args) + rest);
    MatchIntHead(b, SpanFields(args) + rest, -3, IntMax, "unrecognized compound term type");
    MatchSpanRoundTrip(args, rest, IdItem, PosExpected);
    AsNatsOfNats(args);
  }

  lemma ElementRoundTrip(id: nat, terms: seq<nat>, rest: seq<Token>)
    requires SpanOk(terms, IdItem)
    ensures ReadElement(SpanFields(terms) + SpanFields([]) + rest, id) == Ok((ElementDir(id, terms, []), rest))
  {
    assert SpanFields(terms) + SpanFields([]) + rest == SpanFields(terms) + (SpanFields([]) + rest);
    MatchSpanRoundTrip(terms, SpanFields([]) + rest, IdItem, PosExpected);
    MatchSpanRoundTrip([], rest, LitItem, PosExpected);
    AsNatsOfNats(terms);
  }

  function GuardFields(g: Option<(nat, nat)>): seq<Token> {
    if g.Some? then [Int(g.value.0), Int(g.value.1)] else []
  }

  lemma AtomRoundTrip(a: nat, occ: Occurrence, term: nat, elems: seq<nat>, g: Option<(nat, nat)>, rest: seq<Token>)
    requires term <= IdMax && SpanOk(elems, IdItem) && (g.Some? ==> g.value.0 <= IdMax && g.value.1 <= IdMax)
    ensures ReadAtom([Int(OccCode(occ)), Int(term)] + SpanFields(elems) + GuardFields(g) + rest, a, g.Some?) ==
            Ok((AtomDir(a, occ, term, elems, g), rest))
  {
    var gs := GuardFields(g) + rest;
    AtomTokens(OccCode(occ), term, elems, GuardFields(g), rest);
    AtomHead(occ, term, elems, gs);
    if g.Some? {
      GuardTokens(g.value.0, g.value.1, rest);
      MatchItemHead(g.value.0, [Int(g.value.1)] + rest, IdItem);
      MatchItemHead(g.value.1, rest, IdItem);
    } else {
      assert gs == rest;
    }
  }

  lemma AtomTokens(occ: int, term: int, elems: seq<int>, guard: seq<Token>, rest: seq<Token>)
    ensures [Int(occ), Int(term)] + SpanFields(elems) + guard + rest ==
      [Int(occ)] + ([Int(term)] + (SpanFields(elems) + (guard + rest)))
  {
  }

  lemma GuardTokens(op: nat, rhs: nat, rest: seq<Token>)
    ensures GuardFields(Some((op, rhs))) + rest == [Int(op)] + ([Int(rhs)] + rest)
  {
  }

  /** The occurrence, term and elements of an atom line read back. */
  lemma AtomHead(occ: Occurrence, term: nat, elems: seq<nat>, gs: seq<Token>)
    requires term <= IdMax && SpanOk(elems, IdItem)
    ensures var ts := [Int(OccCode(occ))] + ([Int(term)] + (SpanFields(elems) + gs));
      var o := MatchInt(ts, 0, 1, "unrecognized theory atom occurrence");
      o == Ok((OccCode(occ), [Int(term)] + (SpanFields(elems) + gs))) &&
      MatchItem(o.value.1, IdItem) == Ok((term, SpanFields(elems) + gs)) &&
      MatchSpan(SpanFields(elems) + gs, IdItem, PosExpected) == Ok((elems, gs)) &&
      AsNats(elems) == elems
  {
    MatchIntHead(OccCode(occ), [Int(term)] + (SpanFields(elems) + gs), 0, 1, "unrecognized theory atom occurrence");
    MatchItemHead(term, SpanFields(elems) + gs, IdItem);
    MatchSpanRoundTrip(elems, gs, IdItem, PosExpected);
    AsNatsOfNats(elems);
  }

  /** A term line after its code and id reads back as the term. */
  lemma TermBodyRoundTrip(id: nat, t: Term, rest: seq<Token>)
    requires TermReadable(t)
    ensures ReadTheoryBody(TermFields(t) + rest, TermCode(t), id) == Ok((TermDir(id, t), rest))
  {
    match t {
      case Num(n) =>
        MatchIntHead(n, rest, -TWO31, IntMax, IntExpected);
      case Sym(s) =>
        MatchStringRoundTrip(s, rest);
      case Compound(b, args) =>
        CompoundRoundTrip(b, args, rest);
    }
  }

  /** The theory code and the id, then the rest of a theory line. */
  lemma TheoryHead(code: nat, id: nat, fs: seq<Token>, rest: seq<Token>)
    requires code <= IdMax && id <= IdMax
    ensures ReadTheory([Int(code), Int(id)] + fs + rest, true) == ReadTheoryBody(fs + rest, code, id)
  {
    assert [Int(code), Int(id)] + fs + rest == [Int(code)] + ([Int(id)] + (fs + rest));
    MatchItemHead(code, [Int(id)] + (fs + rest), IdItem);
    MatchItemHead(id, fs + rest, IdItem);
  }

  /** A term line reads back as the term. */
  lemma TermLineRoundTrip(id: nat, t: Term, rest: seq<Token>)
    requires id <= IdMax && TermReadable(t)
    ensures ReadTheory(EventLine(TermDir(id, t))[1..] + rest, true) == Ok((TermDir(id, t), rest))
  {
    assert EventLine(TermDir(id, t))[1..] == [Int(TermCode(t)), Int(id)] + TermFields(t);
    TheoryHead(TermCode(t), id, TermFields(t), rest);
    TermBodyRoundTrip(id, t, rest);
  }

  /** An element line reads back as the element. */
  lemma ElementLineRoundTrip(id: nat, terms: seq<nat>, rest: seq<Token>)
    requires id <= IdMax && SpanOk(terms, IdItem)
    ensures ReadTheory(EventLine(ElementDir(id, terms, []))[1..] + rest, true) == Ok((ElementDir(id, terms, []), rest))
  {
    var fs := SpanFields(terms) + SpanFields([]);
    ElementDirTokens(id, terms);
    TheoryHead(CodeElement, id, fs, rest);
    ElementRoundTrip(id, terms, rest);
  }

  lemma ElementDirTokens(id: nat, terms: seq<nat>)
    ensures EventLine(ElementDir(id, terms, []))[1..] == [Int(CodeElement), Int(id)] + (SpanFields(terms) + SpanFields([]))
  {
    var fs := SpanFields(terms) + SpanFields([]);
    assert EventLine(ElementDir(id, terms, [])) == [Int(CodeTheory)] + ([Int(CodeElement), Int(id)] + fs);
    DropHead(Int(CodeTheory), [Int(CodeElement), Int(id)] + fs);
  }

  /** A theory atom line reads back as the atom. */
  lemma AtomLineRoundTrip(a: nat, occ: Occurrence, term: nat, elems: seq<nat>, g: Option<(nat, nat)>, rest: seq<Token>)
    requires Readable(AtomDir(a, occ, term, elems, g))
    ensures ReadTheory(EventLine(AtomDir(a, occ, term, elems, g))[1..] + rest, true) == Ok((AtomDir(a, occ, term, elems, g), rest))
  {
    var code := if g.Some? then CodeAtomWithGuard else CodeAtom;
    var fs := [Int(OccCode(occ)), Int(term)] + SpanFields(elems) + GuardFields(g);
    AtomDirTokens(a, occ, term, elems, g);
    TheoryHead(code, a, fs, rest);
    TheoryBodyAtom(fs + rest, code, a);
    AtomRoundTrip(a, occ, term, elems, g, rest);
  }

  lemma AtomDirTokens(a: nat, occ: Occurrence, term: nat, elems: seq<nat>, g: Option<(nat, nat)>)
    ensures Writes(AtomDir(a, occ, term, elems, g))
    ensures EventLine(AtomDir(a, occ, term, elems, g))[1..] ==
      [Int(if g.Some? then CodeAtomWithGuard else CodeAtom), Int(a)] + ([Int(OccCode(occ)), Int(term)] + SpanFields(elems) + GuardFields(g))
  {
    var code := Int(if g.Some? then CodeAtomWithGuard else CodeAtom);
    Regroup(Int(CodeTheory), code, Int(a), Int(OccCode(occ)), Int(term), SpanFields(elems), GuardFields(g));
    DropHead(Int(CodeTheory), [code, Int(a)] + ([Int(OccCode(occ)), Int(term)] + SpanFields(elems) + GuardFields(g)));
  }

  lemma Regroup(t0: Token, t1: Token, t2: Token, t3: Token, t4: Token, xs: seq<Token>, ys: seq<Token>)
    ensures [t0, t1, t2, t3, t4] + xs + ys == [t0] + ([t1, t2] + ([t3, t4] + xs + ys))
  {
  }

  lemma DropHead(t: Token, xs: seq<Token>)
    ensures ([t] + xs)[1..] == xs
  {
  }

  lemma TheoryBodyAtom(ts: seq<Token>, code: int, id: nat)
    requires code == CodeAtom || code == CodeAtomWithGuard
    ensures ReadTheoryBody(ts, code, id) == ReadAtom(ts, id, code == CodeAtomWithGuard)
  {
  }

  /** The directive code the writer puts first on a line. */
  function DirCode(e: Event): nat
    requires Writes(e) && !e.InitProgram?
  {
    match e
    case Rule(_, _) => CodeRule
    case Minimize(_, _) => CodeMinimize
    case Project(_) => CodeProject
    case Output(_, _) => CodeOutput
    case External(_, _) => CodeExternal
    case Assume(_) => CodeAssume
    case Heuristic(_, _, _, _, _) => CodeHeuristic
    case Edge(_, _, _) => CodeEdge
    case EndStep => CodeEnd
    case _ => CodeTheory
  }

  lemma MinimizeRoundTrip(prio: int, ws: seq<WeightLit>, rest: seq<Token>)
    requires IsInt32(prio) && WeightLitsOk(ws, AnyWeight)
    ensures ReadMinimize([Int(prio)] + WeightSpanFields(ws) + rest) == Ok((Event.Minimize(prio, ws), rest))
  {
    assert [Int(prio)] + WeightSpanFields(ws) + rest == [Int(prio)] + ([Int(|ws|)] + (Pairs(ws) + rest));
    MatchIntHead(prio, [Int(|ws|)] + (Pairs(ws) + rest), -TWO31, IntMax, IntExpected);
    MatchIntHead(|ws|, Pairs(ws) + rest, 0, IdMax, "number of body literals expected");
    MatchPairsRoundTrip(ws, rest, AnyWeight);
  }

  lemma OutputRoundTrip(name: string, cond: seq<int>, rest: seq<Token>)
    requires |name| <= IdMax && SpanOk(cond, LitItem)
    ensures ReadOutput([Int(|name|), Word(name)] + SpanFields(cond) + rest) == Ok((Event.Output(name, cond), rest))
  {
    assert [Int(|name|), Word(name)] + SpanFields(cond) + rest == [Int(|name|), Word(name)] + (SpanFields(cond) + rest);
    MatchStringRoundTrip(name, SpanFields(cond) + rest);
    MatchSpanRoundTrip(cond, rest, LitItem, PosExpected);
  }

  lemma ExternalRoundTrip(a: nat, v: nat, rest: seq<Token>)
    requires ItemOk(AtomItem, a) && v <= 3
    ensures ReadExternal([Int(a), Int(v)] + rest) == Ok((Event.External(a, v), rest))
  {
    assert [Int(a), Int(v)] + rest == [Int(a)] + ([Int(v)] + rest);
    MatchItemHead(a, [Int(v)] + rest, AtomItem);
    MatchIntHead(v, rest, 0, 3, "value expected");
  }

  lemma HeuristicRoundTrip(a: nat, m: nat, bias: int, prio: nat, cond: seq<int>, rest: seq<Token>)
    requires m <= 5 && ItemOk(AtomItem, a) && IsInt32(bias) && prio <= IntMax && SpanOk(cond, LitItem)
    ensures ReadHeuristic([Int(m), Int(a), Int(bias), Int(prio)] + SpanFields(cond) + rest) ==
            Ok((Event.Heuristic(a, m, bias, prio, cond), rest))
  {
    var c := SpanFields(cond) + rest;
    assert [Int(m), Int(a), Int(bias), Int(prio)] + SpanFields(cond) + rest ==
           [Int(m)] + ([Int(a)] + ([Int(bias)] + ([Int(prio)] + c)));
    MatchIntHead(m, [Int(a)] + ([Int(bias)] + ([Int(prio)] + c)), 0, 5, "invalid heuristic modifier");
    MatchItemHead(a, [Int(bias)] + ([Int(prio)] + c), AtomItem);
    MatchIntHead(bias, [Int(prio)] + c, -TWO31, IntMax, IntExpected);
    MatchIntHead(prio, c, 0, IntMax, "invalid heuristic priority");
    MatchSpanRoundTrip(cond, rest, LitItem, PosExpected);
  }

  lemma EdgeRoundTrip(s: int, t: int, cond: seq<int>, rest: seq<Token>)
    requires 0 <= s <= IntMax && 0 <= t <= IntMax && SpanOk(cond, LitItem)
    ensures ReadEdge([Int(s), Int(t)] + SpanFields(cond) + rest) == Ok((Event.Edge(s, t, cond), rest))
  {
    var c := SpanFields(cond) + rest;
    assert [Int(s), Int(t)] + SpanFields(cond) + rest == [Int(s)] + ([Int(t)] + c);
    MatchIntHead(s, [Int(t)] + c, 0, IntMax, "invalid edge, start node expected");
    MatchIntHead(t, c, 0, IntMax, "invalid edge, end node expected");
    MatchSpanRoundTrip(cond, rest, LitItem, PosExpected);
  }

  /** The rule case reads back a rule line. */
  lemma RuleDirective(h: HeadView, b: BodyView, rest: seq<Token>)
    requires Readable(Event.Rule(h, b))
    ensures ReadDirective(CodeRule, EventLine(Event.Rule(h, b))[1..] + rest, true) == Ok((ReadBack(Event.Rule(h, b)), rest))
  {
    var u := RuleFields(h, b);
    RuleLineFields(h, b);
    RuleRoundTrip(h, b, rest);
    RuleCase(u + rest);
  }

  lemma RuleLineFields(h: HeadView, b: BodyView)
    ensures EventLine(Event.Rule(h, b))[1..] == RuleFields(h, b)
  {
  }

  lemma RuleCase(u: seq<Token>)
    ensures ReadDirective(CodeRule, u, true) == ReadRule(u)
  {
  }

  lemma MinimizeDirective(prio: int, ws: seq<WeightLit>, rest: seq<Token>)
    requires Readable(Event.Minimize(prio, ws))
    ensures ReadDirective(CodeMinimize, EventLine(Event.Minimize(prio, ws))[1..] + rest, true) == Ok((Event.Minimize(prio, ws), rest))
  {
    assert EventLine(Event.Minimize(prio, ws))[1..] == [Int(prio)] + WeightSpanFields(ws);
    MinimizeRoundTrip(prio, ws, rest);
  }

  lemma ProjectDirective(atoms: seq<nat>, rest: seq<Token>)
    requires Readable(Event.Project(atoms))
    ensures ReadDirective(CodeProject, EventLine(Event.Project(atoms))[1..] + rest, true) == Ok((Event.Project(atoms), rest))
  {
    assert EventLine(Event.Project(atoms))[1..] == SpanFields(atoms);
    MatchSpanRoundTrip(atoms, rest, AtomItem, "number of atoms expected");
    AsNatsOfNats(atoms);
  }

  lemma OutputDirective(name: string, cond: seq<int>, rest: seq<Token>)
    requires Readable(Event.Output(name, cond))
    ensures ReadDirective(CodeOutput, EventLine(Event.Output(name, cond))[1..] + rest, true) == Ok((Event.Output(name, cond), rest))
  {
    assert EventLine(Event.Output(name, cond))[1..] == [Int(|name|), Word(name)] + SpanFields(cond);
    OutputRoundTrip(name, cond, rest);
  }

  lemma ExternalDirective(a: nat, v: nat, rest: seq<Token>)
    requires Readable(Event.External(a, v))
    ensures ReadDirective(CodeExternal, EventLine(Event.External(a, v))[1..] + rest, true) == Ok((Event.External(a, v), rest))
  {
    assert EventLine(Event.External(a, v))[1..] == [Int(a), Int(v)];
    ExternalRoundTrip(a, v, rest);
  }

  lemma AssumeDirective(lits: seq<int>, rest: seq<Token>)
    requires Readable(Event.Assume(lits))
    ensures ReadDirective(CodeAssume, EventLine(Event.Assume(lits))[1..] + rest, true) == Ok((Event.Assume(lits), rest))
  {
    assert EventLine(Event.Assume(lits))[1..] == SpanFields(lits);
    MatchSpanRoundTrip(lits, rest, LitItem, PosExpected);
  }

  lemma HeuristicDirective(a: nat, m: nat, bias: int, prio: nat, cond: seq<int>, rest: seq<Token>)
    requires Readable(Event.Heuristic(a, m, bias, prio, cond))
    ensures ReadDirective(CodeHeuristic, EventLine(Event.Heuristic(a, m, bias, prio, cond))[1..] + rest, true) ==
            Ok((Event.Heuristic(a, m, bias, prio, cond), rest))
  {
    assert EventLine(Event.Heuristic(a, m, bias, prio, cond))[1..] == [Int(m), Int(a), Int(bias), Int(prio)] + SpanFields(cond);
    HeuristicRoundTrip(a, m, bias, prio, cond, rest);
  }

  lemma EdgeDirective(s: int, t: int, cond: seq<int>, rest: seq<Token>)
    requires Readable(Event.Edge(s, t, cond))
    ensures ReadDirective(CodeEdge, EventLine(Event.Edge(s, t, cond))[1..] + rest, true) == Ok((Event.Edge(s, t, cond), rest))
  {
    assert EventLine(Event.Edge(s, t, cond))[1..] == [Int(s), Int(t)] + SpanFields(cond);
    EdgeRoundTrip(s, t, cond, rest);
  }

  /** The theory case reads back a theory line. */
  lemma TheoryDirective(e: Event, rest: seq<Token>)
    requires (e.TermDir? || e.ElementDir? || e.AtomDir?) && Readable(e)
    ensures ReadDirective(CodeTheory, EventLine(e)[1..] + rest, true) == Ok((e, rest))
  {
    match e {
      case TermDir(id, t) => TermLineRoundTrip(id, t, rest);
      case ElementDir(id, terms, _) => ElementLineRoundTrip(id, terms, rest);
      case AtomDir(a, occ, term, elems, g) => AtomLineRoundTrip(a, occ, term, elems, g, rest);
    }
  }

  /** The fields after the directive code read back as the directive. */
  lemma DirectiveRoundTrip(e: Event, rest: seq<Token>)
    requires Readable(e)
    ensures Writes(e) && !e.InitProgram? && EventLine(e)[0] == Int(DirCode(e))
    ensures ReadDirective(DirCode(e), EventLine(e)[1..] + rest, true) == Ok((ReadBack(e), rest))
  {
    match e {
      case Rule(h, b) => RuleDirective(h, b, rest);
      case Minimize(prio, ws) => MinimizeDirective(prio, ws, rest);
      case Project(atoms) => ProjectDirective(atoms, rest);
      case Output(name, cond) => OutputDirective(name, cond, rest);
      case External(a, v) => ExternalDirective(a, v, rest);
      case Assume(lits) => AssumeDirective(lits, rest);
      case Heuristic(a, m, bias, prio, cond) => HeuristicDirective(a, m, bias, prio, cond, rest);
      case Edge(s, t, cond) => EdgeDirective(s, t, cond, rest);
      case TermDir(_, _) => TheoryDirective(e, rest);
      case ElementDir(_, _, _) => TheoryDirective(e, rest);
      case AtomDir(_, _, _, _, _) => TheoryDirective(e, rest);
    }
  }

  /** Every directive line the reader accepts reads back as the directive,
      a rule body as `ReadBack` describes. */
  lemma LineRoundTrip(e: Event, rest: seq<Token>)
    requires Readable(e)
    ensures Writes(e)
    ensures ReadLine(EventLine(e) + rest, true) == Ok((Directive(ReadBack(e)), rest))
  {
    DirectiveRoundTrip(e, rest);
    HeadSplit(EventLine(e), rest);
    ReadLineDirective(DirCode(e), EventLine(e)[1..] + rest, true, Ok((ReadBack(e), rest)));
  }

  lemma HeadSplit(line: seq<Token>, rest: seq<Token>)
    requires |line| > 0
    ensures line + rest == [line[0]] + (line[1..] + rest)
  {
  }

  /** A line with a directive code reads as what the case for it reads. */
  lemma ReadLineDirective(code: nat, u: seq<Token>, theory: bool, d: Read<Event>)
    requires CodeRule <= code <= CodeTheory && d == ReadDirective(code, u, theory) && d.Ok?
    ensures ReadLine([Int(code)] + u, theory) == Ok((Directive(d.value.0), d.value.1))
  {
    MatchIntHead(code, u, 0, CodeComment, "rule type or 0 expected");
  }

  /** Each directive of `es` is one the reader accepts. */
  predicate AllReadable(es: seq<Event>) {
    es == [] || (Readable(es[0]) && AllReadable(es[1..]))
  }

  /** The lines of a step as the writer produces them: its directives, then
      the line "0". */
  function StepTokens(es: seq<Event>): seq<Token>
    requires AllReadable(es)
  {
    if es == [] then EventLine(Event.EndStep) else EventLine(es[0]) + ([Eol] + StepTokens(es[1..]))
  }

  function ReadBacks(es: seq<Event>): (r: seq<Event>)
    ensures |r| == |es| && forall i :: 0 <= i < |es| ==> r[i] == ReadBack(es[i])
  {
    seq(|es|, i requires 0 <= i < |es| => ReadBack(es[i]))
  }

  /** A step the writer wrote, its directives and then "0", reads back as its
      directives; the reader stops right after the "0". */
  lemma {:induction false} StepRoundTrip(es: seq<Event>, rest: seq<Token>)
    requires AllReadable(es)
    ensures ParseStep(StepTokens(es) + rest, true) == Ok((ReadBacks(es), rest))
    decreases |es|
  {
    if es == [] {
      EmptyStepRoundTrip(rest);
    } else {
      StepRoundTrip(es[1..], rest);
      StepRoundTripCons(es, rest);
    }
  }

  lemma EmptyStepRoundTrip(rest: seq<Token>)
    ensures ParseStep(StepTokens([]) + rest, true) == Ok((ReadBacks([]), rest))
  {
    assert StepTokens([]) + rest == [Int(CodeEnd)] + rest;
    ParseStepEnd(rest);
    assert ReadBacks([]) == [];
  }

  /** One more directive in front of a step that reads back. */
  lemma StepRoundTripCons(es: seq<Event>, rest: seq<Token>)
    requires es != [] && AllReadable(es)
    requires ParseStep(StepTokens(es[1..]) + rest, true) == Ok((ReadBacks(es[1..]), rest))
    ensures ParseStep(StepTokens(es) + rest, true) == Ok((ReadBacks(es), rest))
  {
    StepTokensCons(es, rest);
    ReadBacksCons(es);
    StepCons(es[0], StepTokens(es[1..]) + rest, ReadBacks(es[1..]), rest);
  }

  lemma StepTokensCons(es: seq<Event>, rest: seq<Token>)
    requires es != [] && AllReadable(es)
    ensures Writes(es[0])
    ensures StepTokens(es) + rest == EventLine(es[0]) + ([Eol] + (StepTokens(es[1..]) + rest))
  {
    var more := StepTokens(es[1..]);
    Associative(EventLine(es[0]), [Eol] + more, rest);
    Associative([Eol], more, rest);
  }

  lemma ReadBacksCons(es: seq<Event>)
    requires es != []
    ensures ReadBacks(es) == [ReadBack(es[0])] + ReadBacks(es[1..])
  {
    assert [ReadBack(es[0])] + ReadBacks(es[1..]) == ReadBacks(es);
  }

  /** One directive line in front of a step that reads back. */
  lemma StepCons(e: Event, more: seq<Token>, rbs: seq<Event>, rest: seq<Token>)
    requires Readable(e) && ParseStep(more, true) == Ok((rbs, rest))
    ensures Writes(e)
    ensures ParseStep(EventLine(e) + ([Eol] + more), true) == Ok(([ReadBack(e)] + rbs, rest))
  {
    LineRoundTrip(e, [Eol] + more);
    ParseStepLine(EventLine(e) + ([Eol] + more), true, ReadBack(e), [Eol] + more);
    ParseStepSkipsEol(more, true);
  }

  /** Rule type 0 ends the step. */
  lemma ParseStepEnd(rest: seq<Token>)
    ensures ParseStep([Int(CodeEnd)] + rest, true) == Ok(([], rest))
  {
    MatchIntHead(CodeEnd, rest, 0, CodeComment, "rule type or 0 expected");
  }

  /** A directive line, then the rest of the step. */
  lemma ParseStepLine(ts: seq<Token>, theory: bool, e: Event, u: seq<Token>)
    requires ReadLine(ts, theory) == Ok((Directive(e), u))
    ensures ParseStep(ts, theory) ==
      var r := ParseStep(u, theory); if r.Fail? then Fail(r.msg) else Ok(([e] + r.value.0, r.value.1))
  {
  }

  /** A line break before a rule type is passed over. */
  lemma ParseStepSkipsEol(ts: seq<Token>, theory: bool)
    ensures ParseStep([Eol] + ts, theory) == ParseStep(ts, theory)
  {
    assert ([Eol] + ts)[1..] == ts;
    assert Skip([Eol] + ts) == Skip(ts);
    assert ReadLine([Eol] + ts, theory) == ReadLine(ts, theory);
  }

  /** The header the writer writes reads back with its incremental flag. */
  lemma HeaderRoundTrip(inc: bool, rest: seq<Token>)
    ensures ReadHeader(EventLine(Event.InitProgram(inc)) + [Eol] + rest) == Ok((Some(inc), [Eol] + rest))
  {
    var t := (if inc then [Word("incremental")] else []) + ([Eol] + rest);
    var ts := EventLine(Event.InitProgram(inc)) + [Eol] + rest;
    HeaderReadTokens(inc, rest);
    MatchIntHead(1, [Int(0)] + ([Int(0)] + t), 0, IdMax, PosExpected);
    MatchIntHead(0, [Int(0)] + t, 0, IdMax, PosExpected);
    MatchIntHead(0, t, 0, IdMax, "revision number expected");
    assert ts[0] == Word("asp");
    assert MatchInt(ts[1..], 0, IdMax, PosExpected) == Ok((1, [Int(0)] + ([Int(0)] + t)));
    if inc {
      assert t == [Word("incremental")] + ([Eol] + rest);
      assert t[1..] == [Eol] + rest;
    } else {
      assert t == [Eol] + rest;
    }
  }

  lemma HeaderReadTokens(inc: bool, rest: seq<Token>)
    ensures var t := (if inc then [Word("incremental")] else []) + ([Eol] + rest);
      var ts := EventLine(Event.InitProgram(inc)) + [Eol] + rest;
      ts == [Word("asp")] + ([Int(1)] + ([Int(0)] + ([Int(0)] + t))) &&
      ts[1..] == [Int(1)] + ([Int(0)] + ([Int(0)] + t))
  {
    var t := (if inc then [Word("incremental")] else []) + ([Eol] + rest);
    var ts := EventLine(Event.InitProgram(inc)) + [Eol] + rest;
    assert ts == [Word("asp")] + ([Int(1)] + ([Int(0)] + ([Int(0)] + t)));
  }

  /** Only version 1.0 is accepted. */
  lemma VersionChecked(major: nat, minor: nat, rest: seq<Token>)
    requires major <= IdMax && minor <= IdMax
    ensures major != 1 ==> ReadHeader([Word("asp"), Int(major)] + rest) == Fail("unsupported major version")
    ensures ReadHeader([Word("asp"), Int(1), Int(minor)] + rest).Fail? <==> minor != 0 || MatchInt(rest, 0, IdMax, "revision number expected").Fail?
    ensures minor != 0 ==> ReadHeader([Word("asp"), Int(1), Int(minor)] + rest) == Fail("unsupported minor version")
  {
    assert ([Word("asp"), Int(major)] + rest)[1..] == [Int(major)] + rest;
    MatchIntHead(major, rest, 0, IdMax, PosExpected);
    assert ([Word("asp"), Int(1), Int(minor)] + rest)[1..] == [Int(1)] + ([Int(minor)] + rest);
    MatchIntHead(1, [Int(minor)] + rest, 0, IdMax, PosExpected);
    MatchIntHead(minor, rest, 0, IdMax, PosExpected);
  }

  // ---------------------------------------------------------------------------
  // Handing theory directives to the theory data

  /** What the model reports where the source computes a table size `id + 1`
      that wraps to 0 (see `Store`). */
  const TableFull := "vector: max capacity exceeded!"

  /** What `matchTheory` hands to the theory data: a term (`addTerm`), an
      element without condition (`addElement(id, terms, 0)`) or an atom
      (`addAtom`); any other directive leaves the tables alone. For the id
      `2^32 - 1`, or a `2^32`-th atom, the source grows the table to the
      wrapped size 0, which is undefined behaviour; the model fails there. */
  function Store(s: Tables, e: Event): (r: Result<Tables>)
    requires TablesOk(s)
    ensures r.Ok? ==> TablesOk(r.value)
    ensures !TheoryDir(e) ==> r == Ok(s)
    ensures r.Ok? && !e.TermDir? ==> r.value.terms == s.terms
    ensures r.Ok? && !e.ElementDir? ==> r.value.elems == s.elems
  {
    match e
    case TermDir(id, t) =>
      if id >= IdMax then Fail(TableFull)
      else
        var p := PutTerm(s.terms, id, t);
        if p.Fail? then Fail(p.msg) else Ok(s.(terms := p.value))
    case ElementDir(id, ts, _) =>
      if id >= IdMax then Fail(TableFull)
      else
        var p := PutElement(s.elems, id, ts, 0);
        if p.Fail? then Fail(p.msg) else Ok(s.(elems := p.value))
    case AtomDir(a, occ, term, es, g) =>
      if |s.atoms.data| + 1 >= TWO32 then Fail(TableFull)
      else
        var p := PutAtom(s.atoms, NewAtom(a, occ, term, es, g));
        if p.Fail? then Fail(p.msg) else Ok(s.(atoms := p.value))
    case _ => Ok(s)
  }

  /** The directives of a step handed to the theory data in order, up to the
      first failure. */
  function StoreAll(s: Tables, es: seq<Event>): (r: Result<Tables>)
    requires TablesOk(s)
    ensures r.Ok? ==> TablesOk(r.value)
    decreases |es|
  {
    if es == [] then Ok(s)
    else
      var x := Store(s, es[0]);
      if x.Fail? then Fail(x.msg) else StoreAll(x.value, es[1..])
  }

  /** A term id defined in the tables cannot be defined by a directive of the
      step: storing the step fails. */
  lemma {:induction false} DefinedTermFails(s: Tables, es: seq<Event>, j: nat)
    requires TablesOk(s) && j < |es| && es[j].TermDir?
    requires es[j].id < |s.terms.data| && s.terms.data[es[j].id] != Invalid
    ensures StoreAll(s, es).Fail?
    decreases j
  {
    var id := es[j].id;
    var x := Store(s, es[0]);
    if es[0].TermDir? && es[0].id < IdMax {
      PutTermKeeps(s.terms, es[0].id, es[0].term, id);
    }
    if x.Ok? {
      assert j > 0;
      DefinedTermFails(x.value, es[1..], j - 1);
    }
  }

  /** "Redefinition of theory term!": two term directives of a step with the
      same id make storing the step fail. */
  lemma {:induction false} RedefinedTermFails(s: Tables, es: seq<Event>, i: nat, j: nat)
    requires TablesOk(s) && i < j < |es| && es[i].TermDir? && es[j].TermDir?
    requires es[i].id == es[j].id && es[i].term != Invalid
    ensures StoreAll(s, es).Fail?
    decreases i
  {
    var x := Store(s, es[0]);
    if x.Ok? {
      if i == 0 {
        DefinedTermFails(x.value, es[1..], j - 1);
      } else {
        RedefinedTermFails(x.value, es[1..], i - 1, j - 1);
      }
    }
  }

  /** An element id defined in the tables cannot be defined again. */
  lemma {:induction false} DefinedElementFails(s: Tables, es: seq<Event>, j: nat)
    requires TablesOk(s) && j < |es| && es[j].ElementDir?
    requires es[j].id < |s.elems.data| && s.elems.data[es[j].id].Some?
    ensures StoreAll(s, es).Fail?
    decreases j
  {
    var id := es[j].id;
    var x := Store(s, es[0]);
    if es[0].ElementDir? && es[0].id < IdMax {
      PutElementKeeps(s.elems, es[0].id, es[0].terms, 0, id);
    }
    if x.Ok? {
      assert j > 0;
      DefinedElementFails(x.value, es[1..], j - 1);
    }
  }

  /** "Redefinition of theory element!": two element directives of a step with
      the same id make storing the step fail. */
  lemma {:induction false} RedefinedElementFails(s: Tables, es: seq<Event>, i: nat, j: nat)
    requires TablesOk(s) && i < j < |es| && es[i].ElementDir? && es[j].ElementDir? && es[i].id == es[j].id
    ensures StoreAll(s, es).Fail?
    decreases i
  {
    var x := Store(s, es[0]);
    if x.Ok? {
      if i == 0 {
        DefinedElementFails(x.value, es[1..], j - 1);
      } else {
        RedefinedElementFails(x.value, es[1..], i - 1, j - 1);
      }
    }
  }

  /** The step "9 0 1 5", "9 0 1 6", "0" parses, and storing it fails on the
      second definition of term 1. */
  lemma TermRedefinitionExample(s: Tables)
    requires TablesOk(s)
    ensures var es := [TermDir(1, Num(5)), TermDir(1, Num(6))];
      AllReadable(es) &&
      ParseStep(StepTokens(es), true) == Ok((es, [])) &&
      StoreAll(s, es).Fail?
  {
    var es := [TermDir(1, Num(5)), TermDir(1, Num(6))];
    assert es[1..] == [TermDir(1, Num(6))] && es[1..][1..] == [];
    StepRoundTrip(es, []);
    assert StepTokens(es) + [] == StepTokens(es);
    assert ReadBacks(es) == es;
    RedefinedTermFails(s, es, 0, 1);
  }

  /** The lines of that step. */
  lemma TermRedefinitionTokens()
    ensures var es := [TermDir(1, Num(5)), TermDir(1, Num(6))];
      AllReadable(es) &&
      StepTokens(es) == [Int(CodeTheory), Int(CodeNumber), Int(1), Int(5), Eol,
                         Int(CodeTheory), Int(CodeNumber), Int(1), Int(6), Eol, Int(CodeEnd)]
  {
    var es := [TermDir(1, Num(5)), TermDir(1, Num(6))];
    assert es[1..] == [TermDir(1, Num(6))] && es[1..][1..] == [];
    assert EventLine(es[0]) == [Int(CodeTheory), Int(CodeNumber), Int(1), Int(5)];
    assert EventLine(es[1]) == [Int(CodeTheory), Int(CodeNumber), Int(1), Int(6)];
    assert EventLine(Event.EndStep) == [Int(CodeEnd)];
  }

  // ---------------------------------------------------------------------------
  // The reader

  class AspifInput {
    /** The input not read yet. */
    var input: seq<Token>
    /** The calls made on the `LpElement` output, and the theory directives
        handed to the theory data, in order. */
    var events: seq<Event>
    /** The `TheoryData` given to the constructor, if any (`theory_`). */
    const data: TheoryData?
    /** Whether there is one. */
    const theory: bool

    predicate Valid()
      reads this, data
    {
      theory == (data != null) && (data != null ==> data.Valid())
    }

    constructor (input: seq<Token>, data: TheoryData?)
      requires data != null ==> data.Valid()
      ensures Valid()
      ensures this.input == input && this.data == data && events == []
    {
      this.input := input;
      this.data := data;
      theory := data != null;
      events := [];
    }

    /** `doAttach(inc)`: false when the input is not aspif; otherwise the
        version must be 1.0, `initProgram(inc)` is called, and the problem line
        must end right there. */
    method DoAttach() returns (r: Result<bool>, inc: bool)
      modifies this
      ensures var h := ReadHeader(old(input));
        (h.Fail? ==> r == Fail(h.msg) && events == old(events) && input == old(input)) &&
        (h.Ok? && h.value.0.None? ==> r == Ok(false) && events == old(events) && input == old(input)) &&
        (h.Ok? && h.value.0.Some? ==>
          inc == h.value.0.value && events == old(events) + [Event.InitProgram(inc)] &&
          (var u := h.value.1;
           if u != [] && u[0] == Eol then r == Ok(true) && input == u[1..] else r == Fail(ExtraCharacters)))
    {
      inc := false;
      var h := ReadHeader(input);
      if h.Fail? {
        return Fail(h.msg), inc;
      }
      if h.value.0.None? {
        return Ok(false), inc;
      }
      inc := h.value.0.value;
      events := events + [Event.InitProgram(inc)];
      var u := h.value.1;
      if u != [] && u[0] == Eol {
        input := u[1..];
        r := Ok(true);
      } else {
        r := Fail(ExtraCharacters);
      }
    }

    /** The call `matchTheory` makes on the theory data for the directive
        `e`, which the reader only reads with theory data present. */
    method StoreDirective(e: Event) returns (r: Result<()>)
      requires Valid() && (TheoryDir(e) ==> theory) && (e.TermDir? ==> e.term != Invalid)
      modifies data
      ensures Valid()
      ensures !theory ==> r == Ok(())
      ensures theory ==> data.frame == old(data.frame)
      ensures theory ==> var p := Store(old(data.Contents()), e);
        (r.Ok? <==> p.Ok?) && (r.Ok? ==> data.Contents() == p.value) && (r.Fail? ==> r.msg == p.msg)
    {
      r := Ok(());
      match e
      case TermDir(id, t) =>
        if id >= IdMax {
          return Fail(TableFull);
        }
        var x := data.AddTerm(id, t);
        if x.Fail? {
          return Fail(x.msg);
        }
      case ElementDir(id, ts, _) =>
        if id >= IdMax {
          return Fail(TableFull);
        }
        var x := data.AddElement(id, ts, 0);
        if x.Fail? {
          return Fail(x.msg);
        }
      case AtomDir(a, occ, term, es, g) =>
        if |data.atoms.data| + 1 >= TWO32 {
          return Fail(TableFull);
        }
        var x := data.AddAtom(a, occ, term, es, g);
        if x.Fail? {
          return Fail(x.msg);
        }
      case _ =>
    }

    /** `doParse()`: `beginStep`, the directives up to rule type 0, `endStep`;
        each theory directive is stored in the theory data as it is read, and a
        failure there ends the step like a syntax error. */
    method DoParse() returns (r: Result<()>)
      requires Valid()
      modifies this, data
      ensures Valid()
      ensures var p := ParseStep(old(input), theory);
        (p.Fail? ==> r.Fail?) &&
        (r.Ok? ==> p.Ok? && events == old(events) + [Event.BeginStep] + p.value.0 + [Event.EndStep] && input == p.value.1)
      ensures var p := ParseStep(old(input), theory);
        !theory ==> (r.Ok? <==> p.Ok?) && (r.Fail? ==> r.msg == p.msg)
      ensures var p := ParseStep(old(input), theory);
        theory && p.Ok? ==>
          var st := StoreAll(old(data.Contents()), p.value.0);
          (r.Ok? <==> st.Ok?) && (r.Ok? ==> data.Contents() == st.value) && (r.Fail? ==> r.msg == st.msg)
    {
      events := events + [Event.BeginStep];
      ghost var e0 := events;
      ghost var p0 := ParseStep(input, theory);
      ghost var t0 := if theory then data.Contents() else Tables(Vec([], 0), Vec([], 0), Vec([], 0));
      ghost var done: seq<Event> := [];
      while true
        invariant Valid()
        invariant events == e0 + done
        invariant Continues(p0, done, ParseStep(input, theory))
        invariant theory && p0.Ok? ==> StoreAll(t0, p0.value.0) == StoreAll(data.Contents(), ParseStep(input, theory).value.0)
        decreases |input|
      {
        var l := ReadLine(input, theory);
        ContinuesStep(p0, done, input, theory);
        if l.Fail? {
          return Fail(l.msg);
        }
        ghost var before := input;
        input := l.value.1;
        match l.value.0
        case End =>
          events := events + [Event.EndStep];
          return Ok(());
        case Skipped =>
        case Directive(e) =>
          ParseStepLine(before, theory, e, input);
          var x := StoreDirective(e);
          if x.Fail? {
            return Fail(x.msg);
          }
          events := events + [e];
          done := done + [e];
      }
    }
  }
}
