/** The node and edge vocabulary of clasp's program-dependency graph: edges
    packed into one 32-bit word, the bit-field state of a node with its value
    assignment, the flag vector used while simplifying a rule, and the sorted
    set of non-head-cycle-free components. */
module LogicProgramTypes {
  import BasicTypes

  // ---------------------------------------------------------------------------
  // Edges
  // ---------------------------------------------------------------------------

  /** `PrgNode::Type`. */
  datatype NodeType = AtomNode | BodyNode | DisjNode

  function NodeCode(t: NodeType): nat {
    match t
    case AtomNode => 0
    case BodyNode => 1
    case DisjNode => 2
  }

  /** `PrgEdge::Type`: a gamma edge only matters when nogoods are created, a
      choice edge only stipulates support. */
  datatype EdgeType = Normal | Gamma | Choice | GammaChoice

  function EdgeCode(t: EdgeType): nat {
    match t
    case Normal => 0
    case Gamma => 1
    case Choice => 2
    case GammaChoice => 3
  }

  function EdgeTypeOf(code: nat): (t: EdgeType)
    requires code < 4
    ensures EdgeCode(t) == code
  {
    if code == 0 then Normal else if code == 1 then Gamma else if code == 2 then Choice else GammaChoice
  }

  /** `isChoice(EdgeType)`. */
  predicate IsChoiceType(t: EdgeType) {
    EdgeCode(t) >= 2
  }

  const NoScc: nat := 0x7FF_FFFF
  const NoNode: nat := 0xFFF_FFFF
  const NoLit: nat := 1

  /** The ids a node stores: its `id_` bit-field has 28 bits. */
  type NodeId = x: int | 0 <= x < 0x1000_0000

  /** An unsigned 32-bit word. */
  type Word32 = x: int | 0 <= x < 0x1_0000_0000

  /** An edge is its packed representation: the node id in the upper 28 bits,
      then two bits of node type, then two bits of edge type. Shifts and masks
      are written as multiplication, division and remainder by powers of two;
      the three fields never overlap, so the bitwise or is a sum. */
  datatype Edge = Edge(rep: Word32)

  /** `PrgEdge::noEdge()`. */
  const NoEdge := Edge(0xFFFF_FFFF)

  /** `PrgEdge::newEdge(n, eType)`: `id << 4 | nodeType << 2 | eType`. */
  function NewEdge(id: NodeId, n: NodeType, t: EdgeType): Edge {
    Edge(id * 16 + NodeCode(n) * 4 + EdgeCode(t))
  }

  /** `node()`: `rep >> 4`. */
  function Node(e: Edge): nat {
    e.rep / 16
  }

  /** `type()`: `rep & 3`, which always names an edge type. */
  function TypeOf(e: Edge): EdgeType {
    EdgeTypeOf(e.rep % 4)
  }

  /** `nodeType()`: `(rep >> 2) & 3`, as a raw code. */
  function NodeTypeBits(e: Edge): nat {
    (e.rep / 4) % 4
  }

  /** `(rep & 2) == 0`, `(rep & 2) != 0` and `(rep & 1) != 0`. */
  predicate IsNormal(e: Edge) { (e.rep / 2) % 2 == 0 }
  predicate IsChoice(e: Edge) { (e.rep / 2) % 2 != 0 }
  predicate IsGamma(e: Edge) { e.rep % 2 != 0 }
  predicate IsAtom(e: Edge) { NodeTypeBits(e) == NodeCode(AtomNode) }
  predicate IsBody(e: Edge) { NodeTypeBits(e) == NodeCode(BodyNode) }
  predicate IsDisj(e: Edge) { NodeTypeBits(e) == NodeCode(DisjNode) }

  /** `operator<`: edges compare by their packed representation. */
  predicate Less(a: Edge, b: Edge) { a.rep < b.rep }

  /** Packing then unpacking an edge gives back its node, node type and edge
      type. */
  lemma NewEdgeDecodes(id: NodeId, n: NodeType, t: EdgeType)
    ensures Node(NewEdge(id, n, t)) == id
    ensures TypeOf(NewEdge(id, n, t)) == t
    ensures NodeTypeBits(NewEdge(id, n, t)) == NodeCode(n)
    ensures IsAtom(NewEdge(id, n, t)) <==> n == AtomNode
    ensures IsBody(NewEdge(id, n, t)) <==> n == BodyNode
    ensures IsDisj(NewEdge(id, n, t)) <==> n == DisjNode
  {
    Unpack(id, NodeCode(n), EdgeCode(t));
  }

  lemma Unpack(x: nat, n: nat, t: nat)
    requires n < 4 && t < 4
    ensures (x * 16 + n * 4 + t) / 16 == x
    ensures (x * 16 + n * 4 + t) % 4 == t
    ensures ((x * 16 + n * 4 + t) / 4) % 4 == n
  {
  }

  /** Two packed edges are equal exactly when their parts are. */
  lemma NewEdgeInjective(id1: NodeId, n1: NodeType, t1: EdgeType, id2: NodeId, n2: NodeType, t2: EdgeType)
    ensures NewEdge(id1, n1, t1) == NewEdge(id2, n2, t2) <==> id1 == id2 && n1 == n2 && t1 == t2
  {
    NewEdgeDecodes(id1, n1, t1);
    NewEdgeDecodes(id2, n2, t2);
    if NewEdge(id1, n1, t1) == NewEdge(id2, n2, t2) {
      assert NodeCode(n1) == NodeCode(n2);
    }
  }

  /** The semantic tests read the edge type: normal semantics for normal and
      gamma edges, choice semantics for the other two, and the gamma bit for
      the gamma kinds. */
  lemma EdgeKinds(id: NodeId, n: NodeType, t: EdgeType)
    ensures IsNormal(NewEdge(id, n, t)) <==> t == Normal || t == Gamma
    ensures IsChoice(NewEdge(id, n, t)) <==> IsChoiceType(t)
    ensures IsChoice(NewEdge(id, n, t)) <==> !IsNormal(NewEdge(id, n, t))
    ensures IsGamma(NewEdge(id, n, t)) <==> t == Gamma || t == GammaChoice
  {
    var r := NewEdge(id, n, t).rep;
    NewEdgeDecodes(id, n, t);
    LowBits(r);
  }

  /** Bits 0 and 1 of a word are read off its remainder by four. */
  lemma LowBits(r: nat)
    ensures (r / 2) % 2 == (r % 4) / 2
    ensures r % 2 == (r % 4) % 2
  {
    var q, m := r / 4, r % 4;
    assert r == 2 * (2 * q) + m;
    assert r / 2 == 2 * q + m / 2;
    assert r % 2 == m % 2;
  }

  /** No packed edge is `noEdge`: the node-type bits of a real edge are never
      both set. */
  lemma NoEdgeIsNoNewEdge(id: NodeId, n: NodeType, t: EdgeType)
    ensures NewEdge(id, n, t) != NoEdge
  {
    NewEdgeDecodes(id, n, t);
    assert NodeTypeBits(NoEdge) == 3;
  }

  /** Since the node id sits in the high bits, edges to smaller node ids come
      first. */
  lemma EdgesOrderByNode(a: Edge, b: Edge)
    requires Node(a) < Node(b)
    ensures Less(a, b)
  {
  }

  // ---------------------------------------------------------------------------
  // Nodes
  // ---------------------------------------------------------------------------

  /** The two-bit `val_` field. */
  type ValueRep = x: int | 0 <= x < 4

  const ValueFree: ValueRep := 0
  const ValueTrue: ValueRep := 1
  const ValueFalse: ValueRep := 2
  const ValueWeakTrue: ValueRep := 3

  /** The value `assignValueImpl` actually requests: with `noWeak` a weak_true
      request is strengthened to true. */
  function Requested(v: ValueRep, noWeak: bool): ValueRep {
    if v == ValueWeakTrue && noWeak then ValueTrue else v
  }

  /** A held value satisfies a request when it is the requested value, or true
      where weak_true was asked for. */
  predicate Satisfies(held: ValueRep, want: ValueRep) {
    held == want || (want == ValueWeakTrue && held == ValueTrue)
  }

  /** `assignValueImpl(v, noWeak)` on a node holding `cur`: the new value and
      the result. A free node takes any value, weak_true may be upgraded to
      true, and nothing else changes an assigned value; the call succeeds
      exactly when the node ends up satisfying the request. */
  function Assigned(cur: ValueRep, v: ValueRep, noWeak: bool): (r: (ValueRep, bool))
    ensures r.1 <==> Satisfies(r.0, Requested(v, noWeak))
    ensures r.0 != cur ==> r.1 && r.0 == Requested(v, noWeak)
    ensures cur != ValueFree && cur != ValueWeakTrue ==> r.0 == cur
    ensures cur == ValueFree ==> r.0 == Requested(v, noWeak)
    ensures noWeak && r.0 == ValueWeakTrue ==> cur == ValueWeakTrue
  {
    var w := Requested(v, noWeak);
    if cur == ValueFree || w == cur || (cur == ValueWeakTrue && w == ValueTrue) then (w, true)
    else (cur, w == ValueWeakTrue && cur == ValueTrue)
  }

  /** Repeating a successful assignment changes nothing and succeeds again. */
  lemma AssignedIdempotent(cur: ValueRep, v: ValueRep, noWeak: bool)
    requires Assigned(cur, v, noWeak).1
    ensures Assigned(Assigned(cur, v, noWeak).0, v, noWeak) == Assigned(cur, v, noWeak)
  {
  }

  /** A `PrgNode`: its literal id, its scc flag, its (equivalence) id, its
      value and its eq and seen flags, each a bit-field of the source. */
  class PrgNode {
    var litId: nat
    var noScc: bool
    var id: NodeId
    var val: ValueRep
    var eq: bool
    var seen: bool

    predicate Relevant() reads this { !eq }
    predicate Removed() reads this { eq && id == NoNode }
    predicate IsEq() reads this { eq && id != NoNode }
    predicate IgnoreScc() reads this { noScc }
    predicate HasVar() reads this { litId != NoLit }

    /** `var()`: the literal id without its sign bit. */
    function Var(): nat reads this { litId / 2 }

    /** `setLiteral(x)`: the 31-bit field keeps the low bits of the id. */
    method SetLiteral(x: nat)
      requires BasicTypes.IsUint32(x)
      modifies this`litId
      ensures litId == x % 0x8000_0000
    {
      litId := x % 0x8000_0000;
    }

    /** `clearLiteral(clVal)`. */
    method ClearLiteral(clVal: bool)
      modifies this`litId, this`val
      ensures !HasVar()
      ensures val == if clVal then ValueFree else old(val)
    {
      litId := NoLit;
      if clVal {
        val := ValueFree;
      }
    }

    method SetValue(v: ValueRep)
      modifies this`val
      ensures val == v
    {
      val := v;
    }

    /** `setEq(eqId)`: the node becomes equivalent to `eqId`, or removed when
        that is `noNode`; the 28-bit field keeps the low bits of the id. */
    method SetEq(eqId: nat)
      requires BasicTypes.IsUint32(eqId)
      modifies this`id, this`eq, this`seen
      ensures id == eqId % 0x1000_0000 && eq && seen
      ensures IsEq() <==> eqId % 0x1000_0000 != NoNode
      ensures Removed() <==> eqId % 0x1000_0000 == NoNode
    {
      id := eqId % 0x1000_0000;
      eq := true;
      seen := true;
    }

    method SetIgnoreScc(b: bool)
      modifies this`noScc
      ensures IgnoreScc() == b
    {
      noScc := b;
    }

    /** `markRemoved()`: an eq node keeps its equivalence; any other node is
        removed. */
    method MarkRemoved()
      modifies this`id, this`eq, this`seen
      ensures old(IsEq()) ==> id == old(id) && eq == old(eq) && seen == old(seen)
      ensures !old(IsEq()) ==> Removed() && seen
      ensures !Relevant()
    {
      if !IsEq() {
        SetEq(NoNode);
      }
    }

    method SetSeen(b: bool)
      modifies this`seen
      ensures seen == b
    {
      seen := b;
    }

    /** `resetId(id, seen)`: the node is relevant again. */
    method ResetId(newId: nat, b: bool)
      requires BasicTypes.IsUint32(newId)
      modifies this`id, this`eq, this`seen
      ensures id == newId % 0x1000_0000 && seen == b
      ensures Relevant() && !Removed() && !IsEq()
    {
      id := newId % 0x1000_0000;
      eq := false;
      seen := b;
    }

    /** `assignValueImpl(v, noWeak)`. */
    method AssignValueImpl(v: ValueRep, noWeak: bool) returns (ok: bool)
      modifies this`val
      ensures (val, ok) == Assigned(old(val), v, noWeak)
    {
      var w := v;
      if w == ValueWeakTrue && noWeak {
        w := ValueTrue;
      }
      if val == ValueFree || w == val || (val == ValueWeakTrue && w == ValueTrue) {
        SetValue(w);
        return true;
      }
      return w == ValueWeakTrue && val == ValueTrue;
    }
  }

  /** A node is in exactly one of the states relevant, removed, and
      equivalent to another node. */
  lemma NodeStatus(n: PrgNode)
    ensures n.Relevant() <==> !n.Removed() && !n.IsEq()
    ensures !(n.Removed() && n.IsEq())
  {
  }

  // ---------------------------------------------------------------------------
  // Atom state during rule simplification
  // ---------------------------------------------------------------------------

  const PosFlag: bv8 := 0x1
  const NegFlag: bv8 := 0x2
  const HeadBit: bv8 := 0x4
  const ChoiceFlag: bv8 := 0x8
  const DisjFlag: bv8 := 0x10
  const RuleMask: bv8 := 0x1F
  const FactFlag: bv8 := 0x20
  const FalseFlag: bv8 := 0x40
  const SimpMask: bv8 := 0x7F
  const DomFlag: bv8 := 0x80

  /** A solver literal: its variable, its sign, and the spare flag bit clasp
      keeps in a literal's representation. */
  datatype Literal = Literal(v: nat, sign: bool, flagged: bool)

  /** `~x`: the complement keeps the flag bit. */
  function Negate(x: Literal): Literal { Literal(x.v, !x.sign, x.flagged) }

  /** `x.unflag()`. */
  function Unflag(x: Literal): Literal { Literal(x.v, x.sign, false) }

  /** `x.id()`: the variable and the sign, without the flag. */
  function LitId(x: Literal): nat { 2 * x.v + (if x.sign then 1 else 0) }

  /** `encodeLit(x)`: the signed integer of the solver interface, negative
      for a negative literal. */
  function EncodeLit(x: Literal): int { if x.sign then -(x.v as int) else x.v }

  /** `decodeVar(lit)`: the variable of a signed integer literal. */
  function DecodeVar(lit: int): nat { if lit >= 0 then lit else -lit }

  /** `x.id()` tells literals apart up to their flag, and `encodeLit` keeps
      the variable. */
  lemma IdMeans(x: Literal, y: Literal)
    ensures LitId(x) == LitId(y) <==> Unflag(x) == Unflag(y)
    ensures DecodeVar(EncodeLit(x)) == x.v
    ensures x.v > 0 ==> (EncodeLit(x) < 0 <==> x.sign)
  {
  }

  /** `pos_flag + p.sign()`: the flag of a body literal. */
  function BodyFlag(p: Literal): (f: bv8)
    ensures f == if p.sign then NegFlag else PosFlag
  {
    PosFlag + (if p.sign then 1 else 0)
  }

  /** `headFlag(t)`: head or choice flag for an atom by the edge's semantics,
      the disjunction flag otherwise. */
  function HeadFlag(t: Edge): (f: bv8)
    ensures IsAtom(t) && IsNormal(t) ==> f == HeadBit
    ensures IsAtom(t) && IsChoice(t) ==> f == ChoiceFlag
    ensures !IsAtom(t) ==> f == DisjFlag
  {
    if IsAtom(t) then HeadBit << (if IsChoice(t) then 1 else 0) else DisjFlag
  }

  /** `isSet(v, f)` on the flag vector `s`. */
  predicate IsSetIn(s: seq<bv8>, v: nat, f: bv8) {
    v < |s| && s[v] & f != 0
  }

  /** The flags of `v`, zero beyond the vector. */
  function FlagsOf(s: seq<bv8>, v: nat): bv8 {
    if v < |s| then s[v] else 0
  }

  /** `resize(sz)`: truncated, or padded with cleared entries. */
  function Resized(s: seq<bv8>, sz: nat): (r: seq<bv8>)
    ensures |r| == sz
    ensures forall w :: 0 <= w < sz ==> r[w] == FlagsOf(s, w)
  {
    if sz <= |s| then s[..sz] else s + seq(sz - |s|, _ => 0)
  }

  /** `grow(v)`: large enough to hold `v`, nothing else changes. */
  function Grown(s: seq<bv8>, v: nat): (r: seq<bv8>)
    ensures |r| == if v < |s| then |s| else v + 1
    ensures forall w :: 0 <= w < |r| ==> r[w] == FlagsOf(s, w)
  {
    if v < |s| then s else Resized(s, v + 1)
  }

  /** `set(v, f)`. */
  function SetIn(s: seq<bv8>, v: nat, f: bv8): (r: seq<bv8>)
    ensures |r| == if v < |s| then |s| else v + 1
    ensures r[v] == FlagsOf(s, v) | f
    ensures forall w :: 0 <= w < |r| && w != v ==> r[w] == FlagsOf(s, w)
  {
    var g := Grown(s, v);
    g[v := g[v] | f]
  }

  /** `clear(v, f)`: never grows the vector. */
  function ClearIn(s: seq<bv8>, v: nat, f: bv8): (r: seq<bv8>)
    ensures |r| == |s|
    ensures v < |s| ==> r[v] == s[v] & !f
    ensures forall w :: 0 <= w < |s| && w != v ==> r[w] == s[w]
  {
    if v < |s| then s[v := s[v] & !f] else s
  }

  /** After `set(v, f)`, a flag test on `v` succeeds when it shares a bit with
      `f` or succeeded before; tests on other variables are unaffected. */
  lemma SetThenIsSet(s: seq<bv8>, v: nat, f: bv8, w: nat, g: bv8)
    ensures IsSetIn(SetIn(s, v, f), w, g) <==> (w == v && f & g != 0) || IsSetIn(s, w, g)
  {
    var r := SetIn(s, v, f);
    if w == v {
      OrAnd(FlagsOf(s, v), f, g);
    } else if w < |r| {
      assert r[w] == FlagsOf(s, w);
    }
  }

  lemma OrAnd(x: bv8, f: bv8, g: bv8)
    ensures ((x | f) & g != 0) <==> (x & g != 0 || f & g != 0)
  {
  }

  lemma AndNot(x: bv8, f: bv8, g: bv8)
    ensures (x & !f) & f == 0
    ensures (x & !f) & g != 0 ==> x & g != 0
  {
  }

  /** After `clear(v, f)`, no flag of `f` is set on `v`, and a flag test only
      succeeds where it succeeded before. */
  lemma ClearThenIsSet(s: seq<bv8>, v: nat, f: bv8, w: nat, g: bv8)
    ensures !IsSetIn(ClearIn(s, v, f), v, f)
    ensures IsSetIn(ClearIn(s, v, f), w, g) ==> IsSetIn(s, w, g)
    ensures w != v ==> (IsSetIn(ClearIn(s, v, f), w, g) <==> IsSetIn(s, w, g))
  {
    if v < |s| {
      AndNot(s[v], f, g);
    }
  }

  /** `AtomState`: a vector of flag bytes indexed by variable. */
  class AtomState {
    var state: seq<bv8>

    constructor ()
      ensures state == []
    {
      state := [];
    }

    /** `isSet(v, f)`: false beyond the vector. */
    predicate IsSet(v: nat, f: bv8) reads this { IsSetIn(state, v, f) }

    predicate IsFact(v: nat) reads this { IsSet(v, FactFlag) }

    /** `inHead(t)` for an edge, and `inHead(atom)`. */
    predicate InHead(t: Edge) reads this { IsSet(Node(t), HeadFlag(t)) }
    predicate InHeadAtom(atom: nat) reads this { IsSet(atom, HeadBit) }

    /** `inBody(p)`. */
    predicate InBody(p: Literal) reads this { IsSet(p.v, BodyFlag(p)) }

    method Swap(o: AtomState)
      modifies this, o
      ensures state == old(o.state) && o.state == old(state)
    {
      state, o.state := o.state, state;
    }

    method Set(v: nat, f: bv8)
      modifies this
      ensures state == SetIn(old(state), v, f)
    {
      if v >= |state| {
        state := Resized(state, v + 1);
      }
      state := state[v := state[v] | f];
    }

    method Clear(v: nat, f: bv8)
      modifies this
      ensures state == ClearIn(old(state), v, f)
    {
      if v < |state| {
        state := state[v := state[v] & !f];
      }
    }

    method AddToHeadAtom(v: nat)
      modifies this
      ensures state == SetIn(old(state), v, HeadBit)
    {
      Set(v, HeadBit);
    }

    method AddToHead(t: Edge)
      modifies this
      ensures state == SetIn(old(state), Node(t), HeadFlag(t))
    {
      Set(Node(t), HeadFlag(t));
    }

    method AddToBody(p: Literal)
      modifies this
      ensures state == SetIn(old(state), p.v, BodyFlag(p))
    {
      Set(p.v, BodyFlag(p));
    }

    method ClearRule(v: nat)
      modifies this
      ensures state == ClearIn(old(state), v, RuleMask)
    {
      Clear(v, RuleMask);
    }

    method ClearHead(t: Edge)
      modifies this
      ensures state == ClearIn(old(state), Node(t), HeadFlag(t))
    {
      Clear(Node(t), HeadFlag(t));
    }

    method ClearBody(p: Literal)
      modifies this
      ensures state == ClearIn(old(state), p.v, BodyFlag(p))
    {
      Clear(p.v, BodyFlag(p));
    }

    method Resize(sz: nat)
      modifies this
      ensures state == Resized(old(state), sz)
    {
      state := Resized(state, sz);
    }

    /** `allMarked(first, last, f)`. */
    method AllMarked(vars: seq<nat>, f: bv8) returns (all: bool)
      ensures all <==> forall k :: 0 <= k < |vars| ==> IsSet(vars[k], f)
    {
      var i := 0;
      while i < |vars|
        invariant 0 <= i <= |vars|
        invariant forall k :: 0 <= k < i ==> IsSet(vars[k], f)
      {
        if !IsSet(vars[i], f) {
          return false;
        }
        i := i + 1;
      }
      return true;
    }

    /** `inBody(first, last)`: every literal is in the body. */
    method InBodyAll(lits: seq<Literal>) returns (all: bool)
      ensures all <==> forall k :: 0 <= k < |lits| ==> InBody(lits[k])
    {
      all := true;
      var i := 0;
      while i < |lits| && all
        decreases |lits| - i, all
        invariant 0 <= i <= |lits|
        invariant forall k :: 0 <= k < i ==> InBody(lits[k])
        invariant !all ==> i < |lits| && !InBody(lits[i])
      {
        all := InBody(lits[i]);
        if all {
          i := i + 1;
        }
      }
    }
  }

  // ---------------------------------------------------------------------------
  // Non-hcf components
  // ---------------------------------------------------------------------------

  predicate StrictlySorted(xs: seq<nat>) {
    forall i, j :: 0 <= i < j < |xs| ==> xs[i] < xs[j]
  }

  /** `std::lower_bound`: the first position whose element is not below `x`. */
  method LowerBound(xs: seq<nat>, x: nat) returns (i: nat)
    requires StrictlySorted(xs)
    ensures i <= |xs|
    ensures forall k :: 0 <= k < i ==> xs[k] < x
    ensures forall k :: i <= k < |xs| ==> x <= xs[k]
  {
    var lo, hi := 0, |xs|;
    while lo < hi
      invariant 0 <= lo <= hi <= |xs|
      invariant forall k :: 0 <= k < lo ==> xs[k] < x
      invariant forall k :: hi <= k < |xs| ==> x <= xs[k]
    {
      var mid := lo + (hi - lo) / 2;
      if xs[mid] < x {
        lo := mid + 1;
      } else {
        hi := mid;
      }
    }
    return lo;
  }

  /** Inserting `x` at its lower bound keeps the sequence strictly sorted. */
  lemma InsertSorted(xs: seq<nat>, i: nat, x: nat)
    requires StrictlySorted(xs) && i <= |xs|
    requires forall k :: 0 <= k < i ==> xs[k] < x
    requires forall k :: i <= k < |xs| ==> x < xs[k]
    ensures StrictlySorted(xs[..i] + [x] + xs[i..])
  {
    var ys := xs[..i] + [x] + xs[i..];
    forall a, b | 0 <= a < b < |ys|
      ensures ys[a] < ys[b]
    {
      if b < i {
        assert ys[a] == xs[a] && ys[b] == xs[b];
      } else if b == i {
        assert ys[a] == xs[a];
      } else if a == i {
        assert ys[b] == xs[b - 1];
      } else if a < i {
        assert ys[a] == xs[a] && ys[b] == xs[b - 1];
        assert xs[a] < x < xs[b - 1];
      } else {
        assert ys[a] == xs[a - 1] && ys[b] == xs[b - 1];
      }
    }
  }

  /** `NonHcfSet`: the ids of the components that are not head-cycle free,
      kept sorted and without duplicates. */
  class NonHcfSet {
    var sccs: seq<nat>

    ghost predicate Valid() reads this { StrictlySorted(sccs) }

    constructor ()
      ensures Valid() && sccs == []
    {
      sccs := [];
    }

    /** `add(scc)`: inserted at its lower bound unless already present. */
    method Add(scc: nat)
      requires Valid()
      modifies this
      ensures Valid()
      ensures forall y :: y in sccs <==> y in old(sccs) || y == scc
      ensures |sccs| == |old(sccs)| + (if scc in old(sccs) then 0 else 1)
    {
      var it := LowerBound(sccs, scc);
      if it == |sccs| || sccs[it] != scc {
        InsertSorted(sccs, it, scc);
        assert sccs == sccs[..it] + sccs[it..];
        sccs := sccs[..it] + [scc] + sccs[it..];
      }
    }

    /** `find(scc)`: `noScc` is never found, whatever was added. */
    method Find(scc: nat) returns (found: bool)
      requires Valid()
      ensures found <==> scc != NoScc && scc in sccs
    {
      var it := |sccs|;
      if scc != NoScc {
        it := LowerBound(sccs, scc);
      }
      found := it != |sccs| && sccs[it] == scc;
    }
  }
}
