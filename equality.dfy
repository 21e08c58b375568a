/** Equality classes of variables (`EqualityClass`, `EqualityProcessor`): every
    member of a class is tied to the class's top variable by one `Edge`. */
module Equalities {

  const M: int := 0x1_0000_0000
  const H: int := 0x8000_0000

  predicate IsInt32(x: int) { -H <= x < H }

  /** Two's complement wrap-around of a 32-bit product; C++ leaves signed
      overflow undefined, the model takes the usual wrapping behaviour. */
  function Wrap(x: int): (r: int)
    ensures IsInt32(r)
  {
    (x + H) % M - H
  }

  lemma WrapIsShift(x: int) returns (q: int)
    ensures Wrap(x) == x - q * M
  {
    q := (x + H) / M;
  }

  lemma WrapCongruent(u: int, v: int, k: int)
    requires u == v + k * M
    ensures Wrap(u) == Wrap(v)
  {
    var q := WrapIsShift(v);
    var p := WrapIsShift(u);
    assert Wrap(u) - Wrap(v) == (k + q - p) * M;
  }

  lemma WrapKeeps(x: int)
    requires IsInt32(x)
    ensures Wrap(x) == x
  {
  }

  /** Wrapping an intermediate product does not change the wrapped result. */
  lemma {:induction false} WrapMul(a: int, x: int, y: int)
    ensures Wrap(Wrap(a * x) * y) == Wrap(a * Wrap(x * y))
  {
    var q := WrapIsShift(a * x);
    var p := WrapIsShift(x * y);
    assert Wrap(a * x) * y == a * x * y + (-q * y) * M by {
      assert (a * x - q * M) * y == a * x * y - q * M * y;
    }
    WrapCongruent(Wrap(a * x) * y, a * x * y, -q * y);
    assert a * Wrap(x * y) == a * x * y + (-p * a) * M by {
      assert a * (x * y - p * M) == a * (x * y) - a * p * M;
    }
    WrapCongruent(a * Wrap(x * y), a * x * y, -p * a);
  }

  /** The value of an `Edge`: `firstCoef * var == secondCoef * top + constant`. */
  datatype EdgeValue = EdgeValue(firstCoef: int, secondCoef: int, constant: int)

  predicate EdgeInt32(e: EdgeValue) {
    IsInt32(e.firstCoef) && IsInt32(e.secondCoef) && IsInt32(e.constant)
  }

  /** All three fields multiplied by `x` in 32-bit arithmetic. */
  function Scale(e: EdgeValue, x: int): (r: EdgeValue)
    ensures EdgeInt32(r)
  {
    EdgeValue(Wrap(e.firstCoef * x), Wrap(e.secondCoef * x), Wrap(e.constant * x))
  }

  /** Scaling by 1 keeps an edge, and scaling twice is scaling once by the
      (wrapped) product. */
  lemma ScaleLaws(e: EdgeValue, x: int, y: int)
    requires EdgeInt32(e)
    ensures Scale(e, 1) == e
    ensures Scale(Scale(e, x), y) == Scale(e, Wrap(x * y))
  {
    WrapKeeps(e.firstCoef);
    WrapKeeps(e.secondCoef);
    WrapKeeps(e.constant);
    WrapMul(e.firstCoef, x, y);
    WrapMul(e.secondCoef, x, y);
    WrapMul(e.constant, x, y);
  }

  /** Without overflow the scaled edge states the same equation times `x`. */
  lemma ScaleMultipliesEquation(e: EdgeValue, x: int, v: int, t: int)
    requires IsInt32(e.firstCoef * x) && IsInt32(e.secondCoef * x) && IsInt32(e.constant * x)
    ensures var s := Scale(e, x);
      s.firstCoef * v - s.secondCoef * t - s.constant == x * (e.firstCoef * v - e.secondCoef * t - e.constant)
  {
    WrapKeeps(e.firstCoef * x);
    WrapKeeps(e.secondCoef * x);
    WrapKeeps(e.constant * x);
    var s := Scale(e, x);
    assert s.firstCoef * v == x * (e.firstCoef * v);
    assert s.secondCoef * t == x * (e.secondCoef * t);
  }

  class Edge {
    var firstCoef: int
    var secondCoef: int
    var constant: int

    function Value(): EdgeValue
      reads this
    {
      EdgeValue(firstCoef, secondCoef, constant)
    }

    constructor (firstCoef: int, secondCoef: int, constant: int)
      ensures Value() == EdgeValue(firstCoef, secondCoef, constant)
    {
      this.firstCoef := firstCoef;
      this.secondCoef := secondCoef;
      this.constant := constant;
    }

    /** `operator*`: a new edge, the receiver untouched. */
    method Times(x: int) returns (e: Edge)
      ensures fresh(e) && e.Value() == Scale(Value(), x)
    {
      e := new Edge(firstCoef, secondCoef, constant);
      e.firstCoef := Wrap(e.firstCoef * x);
      e.secondCoef := Wrap(e.secondCoef * x);
      e.constant := Wrap(e.constant * x);
    }

    /** `operator*=`: the receiver scaled in place and returned. */
    method TimesAssign(x: int) returns (e: Edge)
      modifies this
      ensures e == this && Value() == Scale(old(Value()), x)
    {
      firstCoef := Wrap(firstCoef * x);
      secondCoef := Wrap(secondCoef * x);
      constant := Wrap(constant * x);
      e := this;
    }
  }

  class EqualityClass {
    const top: nat
    /** Member variable to its edge with `top`. */
    var constraints: map<nat, EdgeValue>

    /** `EqualityClass(top)`: a class of the top variable alone. */
    constructor (top: nat)
      ensures this.top == top && constraints == map[]
    {
      this.top := top;
      constraints := map[];
    }

    /** `top()`. */
    function Top(): (t: nat)
      ensures t == top
    {
      top
    }
  }

  class EqualityProcessor {
    /** `equalityClasses_`: a variable to the (shared) class it belongs to. */
    var classes: map<nat, EqualityClass>

    constructor ()
      ensures classes == map[]
    {
      classes := map[];
    }

    predicate HasEquality(v: nat)
      reads this
    {
      v in classes
    }

    /** `getEqualities(v)`, only for a variable that has a class. */
    function GetEqualities(v: nat): EqualityClass
      requires HasEquality(v)
      reads this
    {
      classes[v]
    }

    /** `isValid(v)`: a variable without a class, or the top of its class. */
    predicate IsValid(v: nat)
      reads this, classes.Values
    {
      !HasEquality(v) || GetEqualities(v).Top() == v
    }

    /** Every class is reached from its own top variable. */
    predicate Shared()
      reads this, classes.Values
    {
      forall v :: v in classes ==> classes[v].top in classes && classes[classes[v].top] == classes[v]
    }
  }

  /** A variable without a class is valid; with one, it is valid exactly when
      it is the class's top. */
  lemma ValidCharacterised(p: EqualityProcessor, v: nat)
    ensures !p.HasEquality(v) ==> p.IsValid(v)
    ensures p.HasEquality(v) ==> (p.IsValid(v) <==> p.classes[v].top == v)
  {
  }

  /** In a state where every class is reached from its top, the top of each
      equality class is valid and no other member of it is. */
  lemma OneValidPerClass(p: EqualityProcessor, v: nat, w: nat)
    requires p.Shared() && p.HasEquality(v)
    ensures p.IsValid(p.classes[v].top)
    ensures p.HasEquality(w) && p.classes[w] == p.classes[v] && p.IsValid(w) && p.IsValid(v) ==> v == w
  {
  }
}
