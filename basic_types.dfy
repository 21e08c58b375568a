/** Potassco's basic types for reading and writing logic programs: atoms,
    literals, weight literals, spans and the rule head and body views. */
module BasicTypes {

  datatype Result<T> = Ok(value: T) | Fail(msg: string)

  datatype Option<T> = None | Some(value: T)

  const TWO31: int := 0x8000_0000
  const TWO32: int := 0x1_0000_0000

  predicate IsInt32(x: int) { -TWO31 <= x < TWO31 }
  predicate IsUint32(x: int) { 0 <= x < TWO32 }

  /** `static_cast<int32_t>` of an unsigned 32-bit (or wider) integer: the low
      32 bits read in two's complement. */
  function ToInt32(u: int): (r: int)
    ensures IsInt32(r)
  {
    var w := u % TWO32;
    if w >= TWO31 then w - TWO32 else w
  }

  /** `static_cast<uint32_t>` of a signed integer. */
  function ToUint32(x: int): (r: nat)
    ensures IsUint32(r)
  {
    x % TWO32
  }

  /** The two casts undo each other on 32-bit values. */
  lemma CastsRoundTrip(x: int, u: int)
    ensures IsInt32(x) ==> ToInt32(ToUint32(x)) == x
    ensures IsUint32(u) ==> ToUint32(ToInt32(u)) == u
  {
  }

  // ---------------------------------------------------------------------------
  // Atoms and literals

  /** Ids are `[0, idMax]`, atoms `[atomMin, atomMax]`. */
  const IdMax: nat := 0xFFFF_FFFF
  const AtomMin: nat := 1
  const AtomMax: nat := 0x7FFF_FFFF

  /** `atom(lit)`: the magnitude of the literal. */
  function Atom(lit: int): nat
    requires IsInt32(lit)
  {
    if lit >= 0 then lit else -lit
  }

  /** `id(lit)`: the literal read as an unsigned id. */
  function Id(lit: int): nat
    requires IsInt32(lit)
  {
    ToUint32(lit)
  }

  /** `lit(a)`: the atom read as a signed literal. */
  function Lit(a: nat): int
    requires IsUint32(a)
  {
    ToInt32(a)
  }

  /** `neg(a)`: the negative literal of an atom. */
  function Neg(a: nat): int
    requires IsUint32(a)
  {
    -Lit(a)
  }

  /** `weight(atom)` and `weight(lit)`: a plain atom or literal weighs 1. */
  function AtomWeight(a: nat): int { 1 }
  function LitWeight(lit: int): int { 1 }

  /** On the atom range, `lit` is the identity, `neg` gives a negative literal,
      and `atom` recovers the atom from both. */
  lemma AtomOfLiterals(a: nat)
    requires AtomMin <= a <= AtomMax
    ensures Lit(a) == a && Neg(a) < 0 && IsInt32(Neg(a))
    ensures Atom(Lit(a)) == a && Atom(Neg(a)) == a
    ensures AtomWeight(a) == 1 && LitWeight(Neg(a)) == 1
  {
  }

  /** A literal and its complement share their atom, and `id` and `lit`
      convert between literals and ids without loss. */
  lemma LiteralLaws(lit: int)
    requires IsInt32(lit) && lit != -TWO31
    ensures Atom(-lit) == Atom(lit) && Atom(lit) <= AtomMax
    ensures Lit(Id(lit)) == lit
    ensures lit < 0 ==> Id(lit) > AtomMax
  {
  }

  // ---------------------------------------------------------------------------
  // Weight literals

  datatype WeightLit = WeightLit(lit: int, weight: int)

  /** `operator==(WeightLit_t, WeightLit_t)`. */
  predicate WeightLitEq(x: WeightLit, y: WeightLit) {
    x.lit == y.lit && x.weight == y.weight
  }

  /** `operator<(WeightLit_t, WeightLit_t)`: by literal, then by weight. */
  predicate WeightLitLess(x: WeightLit, y: WeightLit) {
    if x.lit != y.lit then x.lit < y.lit else x.weight < y.weight
  }

  /** `operator==(Lit_t, WeightLit_t)`. */
  predicate LitEqWeightLit(lit: int, w: WeightLit) {
    lit == w.lit && w.weight == 1
  }

  /** Equality of weight literals is equality of both fields, and `<` is a
      strict total order on them. */
  lemma WeightLitOrder(x: WeightLit, y: WeightLit, z: WeightLit)
    ensures WeightLitEq(x, y) <==> x == y
    ensures !WeightLitLess(x, x)
    ensures WeightLitLess(x, y) && WeightLitLess(y, z) ==> WeightLitLess(x, z)
    ensures x != y ==> (WeightLitLess(x, y) <==> !WeightLitLess(y, x))
  {
  }

  /** A plain literal equals a weight literal exactly when that is the literal
      with its own weight 1. */
  lemma LitEqualsWeightLit(lit: int, w: WeightLit)
    ensures LitEqWeightLit(lit, w) <==> w == WeightLit(lit, LitWeight(lit))
    ensures !LitEqWeightLit(lit, w) <==> !WeightLitEq(WeightLit(lit, 1), w)
  {
  }

  // ---------------------------------------------------------------------------
  // Spans

  /** `Span<T>`: a start address, 0 for the null pointer, and a length. */
  datatype Span = Span(first: nat, size: nat)

  function Begin(s: Span): nat { s.first }

  /** `end(s)`. */
  function End(s: Span): (e: nat)
    ensures e - Begin(s) == s.size
  {
    s.first + s.size
  }

  predicate EmptySpan(s: Span) { s.size == 0 }

  /** `toSpan(c)` of a container whose first element lives at `addr`: the
      null span for an empty container. */
  function ToSpan<T>(c: seq<T>, addr: nat): (s: Span)
    requires addr != 0
    ensures EmptySpan(s) <==> |c| == 0
    ensures |c| == 0 ==> s == Span(0, 0)
    ensures |c| > 0 ==> Begin(s) == addr && End(s) == addr + |c|
  {
    if |c| != 0 then Span(addr, |c|) else Span(0, 0)
  }

  // ---------------------------------------------------------------------------
  // Rule heads and bodies

  datatype HeadType = Disjunctive | Choice
  datatype BodyType = Normal | Sum | Count

  function HeadCode(t: HeadType): nat {
    match t
    case Disjunctive => 0
    case Choice => 1
  }

  function BodyCode(t: BodyType): nat {
    match t
    case Normal => 0
    case Sum => 1
    case Count => 2
  }

  /** `Body_t::BOUND_NONE`. */
  const BoundNone: int := -1

  datatype HeadView = HeadView(kind: HeadType, atoms: seq<nat>)
  datatype BodyView = BodyView(kind: BodyType, bound: int, lits: seq<WeightLit>)

  /** `hasWeights(b)`. */
  predicate HasWeights(b: BodyView) { b.kind == Sum }

  /** `hasBound(b)`. */
  predicate HasBound(b: BodyView) { b.kind != Normal }

  /** Only sum bodies carry weights, every body but a normal one carries a
      bound, so weights come with a bound and a count body has a bound but no
      weights. */
  lemma BodyShape(b: BodyView)
    ensures HasWeights(b) ==> HasBound(b)
    ensures b.kind == Count ==> HasBound(b) && !HasWeights(b)
    ensures !HasBound(b) <==> b.kind == Normal
  {
  }

  /** The `Theory_t` codes of the aspif theory directives. */
  const CodeNumber: nat := 0
  const CodeSymbol: nat := 1
  const CodeCompound: nat := 2
  const CodeElement: nat := 4
  const CodeAtom: nat := 5
  const CodeAtomWithGuard: nat := 6

  /** The `Directive_t` codes of aspif lines. */
  const CodeEnd: nat := 0
  const CodeRule: nat := 1
  const CodeMinimize: nat := 2
  const CodeProject: nat := 3
  const CodeOutput: nat := 4
  const CodeExternal: nat := 5
  const CodeAssume: nat := 6
  const CodeHeuristic: nat := 7
  const CodeEdge: nat := 8
  const CodeTheory: nat := 9
  const CodeComment: nat := 10

  // ---------------------------------------------------------------------------
  // Decimal text

  function Digit(d: nat): char
    requires d < 10
  {
    "0123456789"[d]
  }

  /** The decimal digits of `n`, as `operator<<` writes them. */
  function NatToString(n: nat): (s: string)
    ensures |s| > 0 && forall i :: 0 <= i < |s| ==> '0' <= s[i] <= '9'
  {
    if n < 10 then [Digit(n)] else NatToString(n / 10) + [Digit(n % 10)]
  }

  function IntToString(n: int): string {
    if n < 0 then "-" + NatToString(-n) else NatToString(n)
  }

  /** The number a string of decimal digits denotes. */
  function DigitsValue(s: string): nat
    requires forall i :: 0 <= i < |s| ==> '0' <= s[i] <= '9'
  {
    if s == [] then 0 else 10 * DigitsValue(s[..|s| - 1]) + (s[|s| - 1] - '0') as nat
  }

  /** Reading the printed digits back gives the number. */
  lemma {:induction false} NatToStringRoundTrip(n: nat)
    ensures DigitsValue(NatToString(n)) == n
  {
    if n >= 10 {
      var s := NatToString(n);
      assert s[..|s| - 1] == NatToString(n / 10);
      NatToStringRoundTrip(n / 10);
    }
  }

  /** A negative number prints as a minus sign before the digits of its
      magnitude, and no other number starts with a minus sign. */
  lemma IntToStringSign(n: int)
    ensures |IntToString(n)| > 0
    ensures IntToString(n)[0] == '-' <==> n < 0
    ensures n < 0 ==> DigitsValue(IntToString(n)[1..]) == -n
    ensures n >= 0 ==> DigitsValue(IntToString(n)) == n
  {
    if n < 0 {
      var s := NatToString(-n);
      assert IntToString(n) == "-" + s;
      assert IntToString(n)[1..] == s;
      NatToStringRoundTrip(-n);
    } else {
      var s := NatToString(n);
      assert IntToString(n) == s;
      assert '0' <= s[0] <= '9';
      NatToStringRoundTrip(n);
    }
  }
}
