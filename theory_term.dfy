/** `TheoryTerm`: a number, a symbol or a compound (function or tuple) packed
    into one 64-bit word whose low two bits are the type. */
module TheoryTerms {
  import opened BasicTypes

  const TWO64: int := 0x1_0000_0000_0000_0000

  /** `nulTerm`, the word of a default term. */
  const NulTerm: nat := 0xFFFF_FFFF_FFFF_FFFF

  /** `typeMask`. */
  const TypeMask: nat := 3

  /** `Theory_t` restricted to the term kinds; `ReservedType` is the fourth value of
      the two type bits. */
  datatype TermType = NumberType | SymbolType | CompoundType | ReservedType

  function TypeCode(t: TermType): (c: nat)
    ensures c < 4
  {
    match t
    case NumberType => 0
    case SymbolType => 1
    case CompoundType => 2
    case ReservedType => 3
  }

  function CodeType(c: nat): (t: TermType)
    requires c < 4
    ensures TypeCode(t) == c
  {
    if c == 0 then NumberType else if c == 1 then SymbolType else if c == 2 then CompoundType else ReservedType
  }

  // ---------------------------------------------------------------------------
  // The word

  /** `TheoryTerm(num)`: the number shifted left by two bits, type bits 0. */
  function NumberWord(num: int): (d: nat)
    requires IsInt32(num)
    ensures d < TWO64
  {
    ((num % TWO64) * 4) % TWO64
  }

  /** `TheoryTerm(sym)` and `TheoryTerm(FuncData*)`: the pointer with the type in
      its low bits, or "Invalid pointer alignment!" for an unaligned
      pointer. */
  function PointerWord(p: nat, t: TermType): (r: Result<nat>)
    requires p < TWO64
    ensures r.Ok? <==> p % 4 == 0
  {
    if p % 4 != 0 then Fail("Invalid pointer alignment!") else Ok(p + TypeCode(t))
  }

  /** `valid()`. */
  predicate Valid(d: nat) { d != NulTerm }

  /** `type()`: the two low bits, or "Invalid term!" for the default word. */
  function TypeOf(d: nat): Result<TermType> {
    if !Valid(d) then Fail("Invalid term!") else Ok(CodeType(d % 4))
  }

  /** `number()`: the word shifted right by two and truncated to `int`
      (`assertType` first). */
  function NumberOf(d: nat): Result<int> {
    var t := TypeOf(d);
    if t.Fail? then Fail(t.msg)
    else if t.value != NumberType then Fail("Invalid term cast!")
    else Ok(ToInt32(d / 4))
  }

  /** `getPtr()`: the word with the type bits cleared. */
  function PtrOf(d: nat): nat {
    d - d % 4
  }

  lemma NumberWordShape(num: int)
    requires IsInt32(num)
    ensures NumberWord(num) % 4 == 0
    ensures (NumberWord(num) / 4) % TWO32 == num % TWO32
  {
    var u := num % TWO64;
    var q := (u * 4) / TWO64;
    assert NumberWord(num) == u * 4 - q * TWO64;
    assert NumberWord(num) == 4 * (u - q * 0x4000_0000_0000_0000);
    var k := u - q * 0x4000_0000_0000_0000;
    assert NumberWord(num) / 4 == k;
    assert k == u - (q * 0x4000_0000) * TWO32;
    assert u == num + (if num < 0 then TWO64 else 0);
    assert TWO64 == 0x1_0000_0000 * TWO32;
  }

  /** Every 32-bit number survives the encoding: its word is a valid number
      term holding it. */
  lemma NumberRoundTrip(num: int)
    requires IsInt32(num)
    ensures Valid(NumberWord(num)) && TypeOf(NumberWord(num)) == Ok(NumberType)
    ensures NumberOf(NumberWord(num)) == Ok(num)
  {
    NumberWordShape(num);
    CastsRoundTrip(num, 0);
  }

  /** An aligned pointer's word, tagged as a symbol or a compound, is valid,
      has that type and gives the pointer back. */
  lemma PointerRoundTrip(p: nat, t: TermType)
    requires p < TWO64 && p % 4 == 0 && (t == SymbolType || t == CompoundType)
    ensures PointerWord(p, t).Ok?
    ensures var d := PointerWord(p, t).value;
      Valid(d) && TypeOf(d) == Ok(t) && PtrOf(d) == p
  {
  }

  /** A default term is invalid, and asking for its type or number throws. */
  lemma DefaultTermInvalid()
    ensures !Valid(NulTerm) && TypeOf(NulTerm).Fail? && NumberOf(NulTerm).Fail?
  {
  }

  /** A word holding a non-number type has no number. */
  lemma NumberOnlyOfNumbers(d: nat)
    ensures NumberOf(d).Ok? <==> TypeOf(d) == Ok(NumberType)
  {
  }

  // ---------------------------------------------------------------------------
  // Decoded terms

  /** A term with what its pointer refers to: `Compound(base, args)` is the
      `FuncData` with its `base` (function id, or tuple type when negative). */
  datatype Term = Invalid | Num(n: int) | Sym(name: string) | Compound(base: int, args: seq<nat>)

  /** `type()` of a decoded term. */
  function Kind(t: Term): Result<TermType> {
    match t
    case Invalid => Fail("Invalid term!")
    case Num(_) => Ok(NumberType)
    case Sym(_) => Ok(SymbolType)
    case Compound(_, _) => Ok(CompoundType)
  }

  /** The word of a decoded term whose symbol text or `FuncData` lives at the
      aligned address `p`. */
  function WordOf(t: Term, p: nat): (d: nat)
    requires p < TWO64 - 4 && p % 4 == 0
    requires t.Num? ==> IsInt32(t.n)
  {
    match t
    case Invalid => NulTerm
    case Num(n) => NumberWord(n)
    case Sym(_) => p + TypeCode(SymbolType)
    case Compound(_, _) => p + TypeCode(CompoundType)
  }

  /** The type a decoded term reports is the one in its word. */
  lemma KindAgrees(t: Term, p: nat)
    requires p < TWO64 - 4 && p % 4 == 0
    requires t.Num? ==> IsInt32(t.n)
    ensures Kind(t) == TypeOf(WordOf(t, p))
    ensures t.Num? ==> NumberOf(WordOf(t, p)) == Ok(t.n)
  {
    if t.Num? {
      NumberRoundTrip(t.n);
    }
  }

  /** `isFunction()`: a compound with a non-negative base. */
  function IsFunction(t: Term): Result<bool> {
    if t.Invalid? then Fail("Invalid term!") else Ok(t.Compound? && t.base >= 0)
  }

  /** `isTuple()`: a compound with a negative base. */
  function IsTuple(t: Term): Result<bool> {
    if t.Invalid? then Fail("Invalid term!") else Ok(t.Compound? && t.base < 0)
  }

  /** `function()`: the function symbol's term id, or a throw. */
  function FunctionOf(t: Term): Result<nat> {
    if t.Compound? && t.base >= 0 then Ok(t.base)
    else if t.Invalid? then Fail("Invalid term!")
    else Fail("Invalid term cast: not a function!")
  }

  /** `size()`: the number of arguments, 0 for a non-compound. */
  function Size(t: Term): Result<nat> {
    if t.Invalid? then Fail("Invalid term!") else Ok(if t.Compound? then |t.args| else 0)
  }

  /** On a valid term, a compound is exactly one of function and tuple (by the
      sign of its base), others are neither and have no arguments, and
      `function()` succeeds exactly on functions. */
  lemma CompoundClassified(t: Term)
    requires !t.Invalid?
    ensures IsFunction(t).Ok? && IsTuple(t).Ok? && Size(t).Ok?
    ensures t.Compound? ==> (IsFunction(t).value <==> t.base >= 0) && (IsTuple(t).value <==> t.base < 0)
    ensures t.Compound? ==> (IsFunction(t).value <==> !IsTuple(t).value)
    ensures !t.Compound? ==> !IsFunction(t).value && !IsTuple(t).value && Size(t).value == 0
    ensures FunctionOf(t).Ok? <==> IsFunction(t).value
  {
  }

  /** Every accessor of the default term throws. */
  lemma InvalidThrows()
    ensures Kind(Invalid).Fail? && IsFunction(Invalid).Fail? && IsTuple(Invalid).Fail?
    ensures FunctionOf(Invalid).Fail? && Size(Invalid).Fail?
  {
  }

  /** `addTerm(id, funcId, args)` stores `static_cast<int32_t>(funcId)` as the
      base. */
  function FunctionTerm(funcId: nat, args: seq<nat>): Term
    requires IsUint32(funcId)
  {
    Compound(ToInt32(funcId), args)
  }

  /** A function term stays a function only for symbol ids below 2^31; a larger
      id turns into a negative base and the term reads as a tuple. */
  lemma FunctionTermKind(funcId: nat, args: seq<nat>)
    requires IsUint32(funcId)
    ensures IsFunction(FunctionTerm(funcId, args)) == Ok(funcId < TWO31)
    ensures funcId < TWO31 ==> FunctionOf(FunctionTerm(funcId, args)) == Ok(funcId)
  {
  }

  // ---------------------------------------------------------------------------
  // Tuple brackets

  /** `Tuple_t::Type`. */
  const Bracket: int := -3
  const Brace: int := -2
  const Paren: int := -1

  /** `Tuple_t::parens(t)`. */
  function Parens(t: int): (p: (string, string))
    ensures t == Paren ==> p == ("(", ")")
    ensures t == Brace ==> p == ("{", "}")
    ensures t != Paren && t != Brace ==> p == ("[", "]")
  {
    if t == Paren then ("(", ")") else if t == Brace then ("{", "}") else ("[", "]")
  }
}
