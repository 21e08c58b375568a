/** `TheoryData`: id-indexed tables of theory terms and elements, the list of
    theory atoms, and the frame that tells what was added since the last
    `update()`. */
module TheoryStore {
  import opened BasicTypes
  import opened TheoryTerms

  // ---------------------------------------------------------------------------
  // Growable vectors

  /** `TheoryData::Vec<T>`: the entries in use and the capacity. */
  datatype Vec<T> = Vec(data: seq<T>, cap: nat)

  predicate VecOk<T>(v: Vec<T>) {
    |v.data| <= v.cap < TWO32
  }

  /** `(cap * 3) >> 1` in 32-bit unsigned arithmetic. */
  function NextCap(cap: nat): nat {
    ((cap * 3) % TWO32) / 2
  }

  /** Growing can only fail when the capacity must grow and the 32-bit
      computation of the next capacity wraps below the current one. */
  predicate CanGrow<T>(v: Vec<T>, ns: nat) {
    !(v.cap < ns && NextCap(v.cap) < v.cap)
  }

  function Fill<T>(def: T, n: nat): (r: seq<T>)
    ensures |r| == n && forall k :: 0 <= k < n ==> r[k] == def
  {
    if n == 0 then [] else Fill(def, n - 1) + [def]
  }

  /** `grow(vec, ns, def)`: the capacity grows by half, or to `max(ns, 8)` when
      that is not enough; the entries `[sz, ns)` are set to `def`. */
  function Grow<T>(v: Vec<T>, ns: nat, def: T): (r: Result<Vec<T>>)
    requires VecOk(v) && |v.data| <= ns < TWO32
    ensures r.Ok? <==> CanGrow(v, ns)
    ensures r.Ok? ==> VecOk(r.value) && |r.value.data| == ns && r.value.cap >= v.cap
    ensures r.Ok? ==> r.value.data[..|v.data|] == v.data
    ensures r.Ok? ==> forall k :: |v.data| <= k < ns ==> r.value.data[k] == def
    ensures r.Ok? && v.cap >= ns ==> r.value.cap == v.cap
  {
    var filled := v.data + Fill(def, ns - |v.data|);
    assert filled[..|v.data|] == v.data;
    if v.cap < ns then
      var newCap := NextCap(v.cap);
      if newCap < v.cap then Fail("vector: max capacity exceeded!")
      else Ok(Vec(filled, if ns > newCap then (if ns > 8 then ns else 8) else newCap))
    else Ok(Vec(filled, v.cap))
  }

  // ---------------------------------------------------------------------------
  // Elements and atoms

  /** `COND_DEFERRED`. */
  const CondDeferred: nat := 0xFFFF_FFFF

  /** `TheoryElement`: its terms, whether a condition slot was allocated
      (`nCond_`), and that slot. */
  datatype Element = Element(terms: seq<nat>, hasCond: bool, slot: nat)

  /** `newElement(terms, c)`: a slot exists only for a non-zero condition. */
  function NewElement(terms: seq<nat>, c: nat): (e: Element)
    ensures Condition(e) == c && e.terms == terms
  {
    Element(terms, c != 0, c)
  }

  /** `condition()`. */
  function Condition(e: Element): nat {
    if e.hasCond then e.slot else 0
  }

  datatype Occurrence = Head | Body

  /** `TheoryAtom`: the program atom in a 30-bit field, its occurrence, its
      term, its elements, and the optional guard (operator and right-hand
      side). */
  datatype Atom = Atom(atom: nat, occ: Occurrence, term: nat, elements: seq<nat>, guard: Option<(nat, nat)>)

  const TWO30: nat := 0x4000_0000

  /** `newAtom`: `atom_` keeps the low 30 bits of the atom. */
  function NewAtom(a: nat, occ: Occurrence, term: nat, elements: seq<nat>, guard: Option<(nat, nat)>): (r: Atom)
    ensures r.atom < TWO30 && (a < TWO30 ==> r.atom == a)
    ensures r.occ == occ && r.term == term && r.elements == elements && r.guard == guard
  {
    Atom(a % TWO30, occ, term, elements, guard)
  }

  /** `TheoryAtom::elements()` for element ids stored from address `addr` on. */
  function ElementsOf(a: Atom, addr: nat): (s: Span)
    ensures Begin(s) == addr && End(s) == addr + |a.elements|
  {
    Span(addr, |a.elements|)
  }

  /** An atom stays in `filter` when it has no program atom or `f` rejects
      it. */
  predicate Stays(a: Atom, f: Atom -> bool) {
    a.atom == 0 || !f(a)
  }

  /** The atoms that stay, in order. */
  function Survivors(s: seq<Atom>, f: Atom -> bool): seq<Atom> {
    if s == [] then [] else Survivors(s[..|s| - 1], f) + if Stays(s[|s| - 1], f) then [s[|s| - 1]] else []
  }

  /** The survivors are exactly the atoms that stay, none added. */
  lemma {:induction false} SurvivorsFacts(s: seq<Atom>, f: Atom -> bool)
    ensures |Survivors(s, f)| <= |s|
    ensures forall a :: a in Survivors(s, f) <==> a in s && Stays(a, f)
    decreases |s|
  {
    if s != [] {
      var n := |s| - 1;
      SurvivorsFacts(s[..n], f);
      assert s == s[..n] + [s[n]];
    }
  }

  // ---------------------------------------------------------------------------
  // The three tables as values

  /** The term table, the element table and the atom list of a `TheoryData`. */
  datatype Tables = Tables(terms: Vec<Term>, elems: Vec<Option<Element>>, atoms: Vec<Atom>)

  predicate TablesOk(s: Tables) {
    VecOk(s.terms) && VecOk(s.elems) && VecOk(s.atoms)
  }

  /** `setTerm(id) = t`: the table grows to hold `id`, and a defined id is a
      redefinition. */
  function PutTerm(v: Vec<Term>, id: nat, t: Term): (r: Result<Vec<Term>>)
    requires VecOk(v) && id < IdMax
    ensures r.Ok? ==> VecOk(r.value)
  {
    var g := if id < |v.data| then Ok(v) else Grow(v, id + 1, Invalid);
    if g.Fail? then Fail(g.msg)
    else if g.value.data[id] != Invalid then Fail("Redefinition of theory term!")
    else Ok(g.value.(data := g.value.data[id := t]))
  }

  /** `addElement(id, ts, c)` on the element table. */
  function PutElement(v: Vec<Option<Element>>, id: nat, ts: seq<nat>, c: nat): (r: Result<Vec<Option<Element>>>)
    requires VecOk(v) && id < IdMax
    ensures r.Ok? ==> VecOk(r.value)
  {
    var g := if id < |v.data| then Ok(v) else Grow(v, id + 1, None);
    if g.Fail? then Fail(g.msg)
    else if g.value.data[id].Some? then Fail("Redefinition of theory element!")
    else Ok(g.value.(data := g.value.data[id := Some(NewElement(ts, c))]))
  }

  /** `addAtom(...)` on the atom list. */
  function PutAtom(v: Vec<Atom>, x: Atom): (r: Result<Vec<Atom>>)
    requires VecOk(v) && |v.data| + 1 < TWO32
    ensures r.Ok? ==> VecOk(r.value)
  {
    Grow(v, |v.data| + 1, x)
  }

  /** Once defined, a term keeps its definition: a second definition of its id
      is refused, and defining another id leaves it alone. */
  lemma PutTermKeeps(v: Vec<Term>, id: nat, t: Term, k: nat)
    requires VecOk(v) && id < IdMax && k < |v.data| && v.data[k] != Invalid
    ensures k == id ==> PutTerm(v, id, t) == Fail("Redefinition of theory term!")
    ensures PutTerm(v, id, t).Ok? ==> k < |PutTerm(v, id, t).value.data| && PutTerm(v, id, t).value.data[k] == v.data[k]
  {
  }

  /** The same for elements. */
  lemma PutElementKeeps(v: Vec<Option<Element>>, id: nat, ts: seq<nat>, c: nat, k: nat)
    requires VecOk(v) && id < IdMax && k < |v.data| && v.data[k].Some?
    ensures k == id ==> PutElement(v, id, ts, c) == Fail("Redefinition of theory element!")
    ensures PutElement(v, id, ts, c).Ok? ==>
      k < |PutElement(v, id, ts, c).value.data| && PutElement(v, id, ts, c).value.data[k] == v.data[k]
  {
  }

  datatype Up = Up(atom: nat, term: nat, elem: nat)

  class TheoryData {
    var terms: Vec<Term>
    var elems: Vec<Option<Element>>
    var atoms: Vec<Atom>
    var frame: Up

    predicate Valid()
      reads this
    {
      VecOk(terms) && VecOk(elems) && VecOk(atoms) &&
      frame.atom <= |atoms.data| && frame.term <= |terms.data| && frame.elem <= |elems.data|
    }

    constructor ()
      ensures Valid() && terms == Vec([], 0) && elems == Vec([], 0) && atoms == Vec([], 0)
      ensures frame == Up(0, 0, 0)
    {
      terms, elems, atoms := Vec([], 0), Vec([], 0), Vec([], 0);
      frame := Up(0, 0, 0);
    }

    /** The tables as a value. */
    function Contents(): Tables
      reads this
    {
      Tables(terms, elems, atoms)
    }

    /** `hasTerm(id)`. */
    predicate HasTerm(id: nat)
      reads this
    {
      id < |terms.data| && terms.data[id] != Invalid
    }

    /** `isNewTerm(id)`. */
    predicate IsNewTerm(id: nat)
      reads this
    {
      HasTerm(id) && id >= frame.term
    }

    /** `hasElement(id)`. */
    predicate HasElement(id: nat)
      reads this
    {
      id < |elems.data| && elems.data[id].Some?
    }

    /** `isNewElement(id)`. */
    predicate IsNewElement(id: nat)
      reads this
    {
      HasElement(id) && id >= frame.elem
    }

    /** `getTerm(id)`. */
    function GetTerm(id: nat): (r: Result<Term>)
      reads this
      ensures r.Ok? <==> HasTerm(id)
      ensures r.Ok? ==> r.value != Invalid && r.value == terms.data[id]
    {
      if !HasTerm(id) then Fail("Invalid term id!") else Ok(terms.data[id])
    }

    /** `getElement(id)`. */
    function GetElement(id: nat): (r: Result<Element>)
      reads this
      ensures r.Ok? <==> HasElement(id)
      ensures r.Ok? ==> elems.data[id] == Some(r.value)
    {
      if !HasElement(id) then Fail("Invalid element id!") else Ok(elems.data[id].value)
    }

    /** `numAtoms()`. */
    function NumAtoms(): nat
      reads this
    {
      |atoms.data|
    }

    /** The slot `id` can be set: it is free, and growing to it can succeed. */
    predicate CanSetTerm(id: nat)
      reads this
    {
      !HasTerm(id) && (id < |terms.data| || CanGrow(terms, id + 1))
    }

    /** `setTerm(id)` followed by the assignment of one of the `addTerm`
        overloads: the table grows to hold `id`, a defined id is a
        redefinition. */
    method AddTerm(id: nat, t: Term) returns (r: Result<Term>)
      requires Valid() && id < IdMax && t != Invalid
      modifies this
      ensures Valid() && elems == old(elems) && atoms == old(atoms) && frame == old(frame)
      ensures r.Ok? <==> old(CanSetTerm(id))
      ensures old(HasTerm(id)) ==> r == Fail("Redefinition of theory term!")
      ensures r.Fail? ==> terms == old(terms)
      ensures r.Ok? ==> r.value == t && HasTerm(id) && terms.data[id] == t
      ensures r.Ok? ==> |terms.data| == if id < |old(terms.data)| then |old(terms.data)| else id + 1
      ensures r.Ok? ==> forall k :: 0 <= k < |terms.data| && k != id ==>
                          terms.data[k] == if k < |old(terms.data)| then old(terms.data)[k] else Invalid
      ensures var p := PutTerm(old(terms), id, t); (r.Ok? <==> p.Ok?) && (r.Ok? ==> terms == p.value) && (r.Fail? ==> r.msg == p.msg)
    {
      var v := terms;
      if id >= |v.data| {
        var g := Grow(v, id + 1, Invalid);
        if g.Fail? {
          return Fail(g.msg);
        }
        v := g.value;
      }
      if v.data[id] != Invalid {
        return Fail("Redefinition of theory term!");
      }
      terms := v.(data := v.data[id := t]);
      r := Ok(t);
    }

    /** `removeTerm(id)`: a defined term is reset to the default; its id can be
        defined again. */
    method RemoveTerm(id: nat)
      requires Valid()
      modifies this
      ensures Valid() && elems == old(elems) && atoms == old(atoms) && frame == old(frame)
      ensures !HasTerm(id) && terms.cap == old(terms.cap) && |terms.data| == |old(terms.data)|
      ensures forall k :: k != id ==> (HasTerm(k) <==> old(HasTerm(k)))
      ensures forall k :: 0 <= k < |terms.data| && k != id ==> terms.data[k] == old(terms.data)[k]
      ensures old(HasTerm(id)) ==> CanSetTerm(id)
    {
      if HasTerm(id) {
        terms := terms.(data := terms.data[id := Invalid]);
      }
    }

    /** `addElement(id, terms, c)`. */
    method AddElement(id: nat, ts: seq<nat>, c: nat) returns (r: Result<Element>)
      requires Valid() && id < IdMax
      modifies this
      ensures Valid() && terms == old(terms) && atoms == old(atoms) && frame == old(frame)
      ensures r.Ok? <==> !old(HasElement(id)) && (id < |old(elems.data)| || CanGrow(old(elems), id + 1))
      ensures old(HasElement(id)) ==> r == Fail("Redefinition of theory element!")
      ensures r.Fail? ==> elems == old(elems)
      ensures r.Ok? ==> r.value == NewElement(ts, c) && GetElement(id) == Ok(r.value)
      ensures r.Ok? ==> |elems.data| == if id < |old(elems.data)| then |old(elems.data)| else id + 1
      ensures r.Ok? ==> forall k :: 0 <= k < |elems.data| && k != id ==>
                          elems.data[k] == if k < |old(elems.data)| then old(elems.data)[k] else None
      ensures var p := PutElement(old(elems), id, ts, c); (r.Ok? <==> p.Ok?) && (r.Ok? ==> elems == p.value) && (r.Fail? ==> r.msg == p.msg)
    {
      var v := elems;
      if id >= |v.data| {
        var g := Grow(v, id + 1, None);
        if g.Fail? {
          return Fail(g.msg);
        }
        v := g.value;
      }
      if v.data[id].Some? {
        return Fail("Redefinition of theory element!");
      }
      var e := NewElement(ts, c);
      elems := v.(data := v.data[id := Some(e)]);
      r := Ok(e);
    }

    /** `addAtom(...)`, with or without a guard: appended to the atoms. */
    method AddAtom(a: nat, occ: Occurrence, term: nat, elements: seq<nat>, guard: Option<(nat, nat)>)
      returns (r: Result<Atom>)
      requires Valid() && |atoms.data| + 1 < TWO32
      modifies this
      ensures Valid() && terms == old(terms) && elems == old(elems) && frame == old(frame)
      ensures r.Ok? <==> CanGrow(old(atoms), |old(atoms.data)| + 1)
      ensures r.Fail? ==> atoms == old(atoms)
      ensures r.Ok? ==> r.value == NewAtom(a, occ, term, elements, guard)
      ensures r.Ok? ==> atoms.data == old(atoms.data) + [r.value]
      ensures var p := PutAtom(old(atoms), NewAtom(a, occ, term, elements, guard));
        (r.Ok? <==> p.Ok?) && (r.Ok? ==> atoms == p.value) && (r.Fail? ==> r.msg == p.msg)
    {
      var x := NewAtom(a, occ, term, elements, guard);
      var g := Grow(atoms, |atoms.data| + 1, x);
      if g.Fail? {
        return Fail(g.msg);
      }
      assert g.value.data == atoms.data + [x];
      atoms := g.value;
      r := Ok(x);
    }

    /** `setCondition(id, c)`: only an element added with a deferred condition
        takes a new one. */
    method SetCondition(id: nat, c: nat) returns (r: Result<()>)
      requires Valid()
      modifies this
      ensures Valid() && terms == old(terms) && atoms == old(atoms) && frame == old(frame)
      ensures !old(HasElement(id)) ==> r == Fail("Invalid element id!") && elems == old(elems)
      ensures old(HasElement(id)) ==>
        (r.Ok? <==> Condition(old(elems.data)[id].value) == CondDeferred) &&
        (r.Fail? ==> r == Fail("Precondition violated!"))
      ensures r.Fail? ==> elems == old(elems)
      ensures r.Ok? ==> (elems.cap == old(elems.cap) &&
        elems.data == old(elems.data)[id := Some(old(elems.data)[id].value.(slot := c))] &&
        GetElement(id).value.terms == old(GetElement(id)).value.terms &&
        Condition(GetElement(id).value) == c)
    {
      var e := GetElement(id);
      if e.Fail? {
        return Fail(e.msg);
      }
      if Condition(e.value) != CondDeferred {
        return Fail("Precondition violated!");
      }
      elems := elems.(data := elems.data[id := Some(e.value.(slot := c))]);
      r := Ok(());
    }

    /** `update()`: the frame moves to the current sizes, so nothing is new. */
    method Update()
      requires Valid()
      modifies this
      ensures Valid() && terms == old(terms) && elems == old(elems) && atoms == old(atoms)
      ensures frame == Up(|atoms.data|, |terms.data|, |elems.data|)
      ensures forall id :: !IsNewTerm(id) && !IsNewElement(id)
    {
      frame := Up(|atoms.data|, |terms.data|, |elems.data|);
    }

    /** `reset()`: all tables emptied and the frame cleared. */
    method Reset()
      modifies this
      ensures Valid() && terms == Vec([], 0) && elems == Vec([], 0) && atoms == Vec([], 0)
      ensures frame == Up(0, 0, 0)
      ensures forall id :: !HasTerm(id) && !HasElement(id)
    {
      terms, elems, atoms := Vec([], 0), Vec([], 0), Vec([], 0);
      frame := Up(0, 0, 0);
    }

    /** `filter(f)`: the atoms since the last update are compacted in place
        through a write position; those with a program atom that `f` accepts
        are dropped. */
    method Filter(f: Atom -> bool)
      requires Valid()
      modifies this
      ensures Valid() && terms == old(terms) && elems == old(elems) && frame == old(frame)
      ensures atoms.cap == old(atoms.cap)
      ensures atoms.data == old(atoms.data)[..frame.atom] + Survivors(old(atoms.data)[frame.atom..], f)
    {
      var w := CompactAtoms(atoms.data, frame.atom, f);
      atoms := atoms.(data := w);
    }
  }

  /** One more atom of `src` considered. */
  lemma SurvivorsStep(src: seq<Atom>, start: nat, it: nat, f: Atom -> bool)
    requires start <= it < |src|
    ensures Survivors(src[start..it + 1], f) == Survivors(src[start..it], f) + if Stays(src[it], f) then [src[it]] else []
  {
    assert src[start..it + 1][..it - start] == src[start..it];
  }

  /** The loop of `filter` on the atom array `src`, writing through `j`. */
  method CompactAtoms(src: seq<Atom>, start: nat, f: Atom -> bool) returns (r: seq<Atom>)
    requires start <= |src|
    ensures r == src[..start] + Survivors(src[start..], f)
    ensures |r| <= |src|
  {
    var w := src;
    var j := start;
    var it := start;
    while it != |w|
      invariant start <= j <= it <= |w| == |src|
      invariant w[..j] == src[..start] + Survivors(src[start..it], f)
      invariant forall k :: it <= k < |w| ==> w[k] == src[k]
    {
      var a := w[it];
      SurvivorsStep(src, start, it, f);
      if Stays(a, f) {
        ghost var w0 := w;
        w := w[j := a];
        assert w[..j + 1] == w0[..j] + [a];
        assert forall k :: it < k < |w| ==> w[k] == w0[k];
        j := j + 1;
      }
      it := it + 1;
    }
    assert src[start..it] == src[start..];
    SurvivorsFacts(src[start..], f);
    r := w[..j];
  }

  // ---------------------------------------------------------------------------
  // Visiting terms

  /** What `visitTheoryTerm` hands to `op`. */
  datatype Visit =
    | VisitNumber(n: int)
    | VisitSymbol(name: string)
    | VisitFunction(name: string, args: seq<nat>)
    | VisitTuple(kind: int, args: seq<nat>)

  /** `visitTheoryTerm(it, op)` on the term with id `id`: a function passes the
      symbol of its function term, which must be a symbol. */
  function VisitTerm(td: TheoryData, id: nat): (r: Result<Visit>)
    reads td
  {
    var t := td.GetTerm(id);
    if t.Fail? then Fail(t.msg)
    else match t.value
      case Invalid => Fail("Invalid term!")
      case Num(n) => Ok(VisitNumber(n))
      case Sym(s) => Ok(VisitSymbol(s))
      case Compound(base, args) =>
        if base < 0 then Ok(VisitTuple(base, args))
        else
          var f := td.GetTerm(base);
          if f.Fail? then Fail(f.msg)
          else if !f.value.Sym? then Fail("Invalid term cast!")
          else Ok(VisitFunction(f.value.name, args))
  }

  /** `op` sees the number, the symbol, or the arguments with the function's
      name or the tuple type, according to the term's kind; a visit fails only
      on an undefined id or a function whose name is not a symbol. */
  lemma VisitByKind(td: TheoryData, id: nat)
    ensures VisitTerm(td, id).Fail? <==>
      !td.HasTerm(id) ||
      (td.terms.data[id].Compound? && td.terms.data[id].base >= 0 &&
       !(td.HasTerm(td.terms.data[id].base) && td.terms.data[td.terms.data[id].base].Sym?))
    ensures td.HasTerm(id) && td.terms.data[id].Num? ==> VisitTerm(td, id) == Ok(VisitNumber(td.terms.data[id].n))
    ensures td.HasTerm(id) && td.terms.data[id].Sym? ==> VisitTerm(td, id) == Ok(VisitSymbol(td.terms.data[id].name))
    ensures VisitTerm(td, id).Ok? && td.terms.data[id].Compound? ==>
      (VisitTerm(td, id).value.VisitTuple? <==> IsTuple(td.terms.data[id]) == Ok(true)) &&
      VisitTerm(td, id).value.args == td.terms.data[id].args
  {
  }

  // ---------------------------------------------------------------------------
  // Iterator adaptor

  /** `IteratorAdaptor`: the theory it reads and a position in an id array. */
  datatype Cursor = Cursor(data: nat, elem: int)

  function Next(c: Cursor): Cursor { c.(elem := c.elem + 1) }
  function Prev(c: Cursor): Cursor { c.(elem := c.elem - 1) }

  /** `operator==`: the same theory and the same position. */
  predicate Same(x: Cursor, y: Cursor) {
    x.data == y.data && x.elem == y.elem
  }

  /** `operator*` over the id array `ids`: the term at the current id. */
  function Deref(td: TheoryData, ids: seq<nat>, c: Cursor): Result<Term>
    reads td
    requires 0 <= c.elem < |ids|
  {
    td.GetTerm(ids[c.elem])
  }

  /** `++` and `--` move by one id and undo each other, and equality is equality
      of both parts. */
  lemma CursorLaws(c: Cursor, d: Cursor, n: nat)
    ensures Prev(Next(c)) == c && Next(Prev(c)) == c
    ensures Next(c).data == c.data && Next(c).elem == c.elem + 1
    ensures Same(c, d) <==> c == d
    ensures Same(Next(c), Next(d)) <==> Same(c, d)
  {
  }
}
