/** `clingcon::TheoryParser`: reading constraint names, guards, arithmetic
    and variables out of the theory terms of a program, and creating the order
    variables that stand for terms. */
module TheoryParsing {
  import opened BasicTypes
  import opened TheoryTerms
  import opened TheoryStore
  import OrderDomain
  import Variables
  import Constraints
  import LiteralStorage

  // ---------------------------------------------------------------------------
  // Well-formed term tables

  /** `j` is a defined term ranked below `i`: every reference of a compound
      goes down the rank, so the terms form no cycle. */
  predicate Refs(terms: seq<Term>, rank: seq<nat>, i: nat, j: int)
    requires |rank| == |terms| && i < |terms|
  {
    0 <= j < |terms| && terms[j] != Invalid && rank[j] < rank[i]
  }

  /** Every function symbol and every argument a compound names is defined
      and ranked below the compound. */
  predicate WellFormed(terms: seq<Term>, rank: seq<nat>) {
    |rank| == |terms| &&
    forall i :: 0 <= i < |terms| && terms[i].Compound? ==>
      (terms[i].base >= 0 ==> Refs(terms, rank, i, terms[i].base)) &&
      (forall k :: 0 <= k < |terms[i].args| ==> Refs(terms, rank, i, terms[i].args[k]))
  }

  /** `getTerm(id)` succeeds on `id` and on everything it refers to. */
  predicate Defined(terms: seq<Term>, rank: seq<nat>, id: nat) {
    WellFormed(terms, rank) && id < |terms| && terms[id] != Invalid
  }

  // ---------------------------------------------------------------------------
  // Printing

  /** The strings joined with `sep` between neighbours. */
  function Join(xs: seq<string>, sep: string): string {
    if |xs| == 0 then "" else if |xs| == 1 then xs[0] else xs[0] + sep + Join(xs[1..], sep)
  }

  /** `toString(term)`: a number in decimal, a symbol as its text, a function
      as its name with the arguments in parentheses, and a tuple as its
      arguments alone. Arguments are separated by commas. */
  function ToString(terms: seq<Term>, ghost rank: seq<nat>, id: nat): string
    requires Defined(terms, rank, id)
    decreases rank[id], 1
  {
    match terms[id]
    case Num(n) => IntToString(n)
    case Sym(s) => s
    case Compound(b, args) =>
      if b >= 0 then ToString(terms, rank, b) + "(" + Join(ArgStrings(terms, rank, id, 0), ",") + ")"
      else Join(ArgStrings(terms, rank, id, 0), ",")
  }

  /** The printed arguments of the compound `parent` from the `k`-th on. */
  function ArgStrings(terms: seq<Term>, ghost rank: seq<nat>, parent: nat, k: nat): seq<string>
    requires Defined(terms, rank, parent) && terms[parent].Compound? && k <= |terms[parent].args|
    decreases rank[parent], 0, |terms[parent].args| - k
  {
    var args := terms[parent].args;
    if k == |args| then [] else [ToString(terms, rank, args[k])] + ArgStrings(terms, rank, parent, k + 1)
  }

  /** There is one printed string per argument, the argument's own. */
  lemma {:induction false} ArgStringsAt(terms: seq<Term>, rank: seq<nat>, parent: nat, k: nat, i: nat)
    requires Defined(terms, rank, parent) && terms[parent].Compound? && k <= |terms[parent].args|
    requires k <= i < |terms[parent].args|
    ensures |ArgStrings(terms, rank, parent, k)| == |terms[parent].args| - k
    ensures Defined(terms, rank, terms[parent].args[i])
    ensures ArgStrings(terms, rank, parent, k)[i - k] == ToString(terms, rank, terms[parent].args[i])
    decreases |terms[parent].args| - k
  {
    assert Refs(terms, rank, parent, terms[parent].args[i]);
    if i > k {
      ArgStringsAt(terms, rank, parent, k + 1, i);
    } else if k + 1 < |terms[parent].args| {
      ArgStringsAt(terms, rank, parent, k + 1, k + 1);
    }
  }

  /** A function prints as its name followed by its arguments in parentheses;
      a tuple prints its arguments with no bracket at all, so a tuple of one
      argument prints as that argument and the empty tuple as nothing. */
  lemma PrintedShapes(terms: seq<Term>, rank: seq<nat>, id: nat)
    requires Defined(terms, rank, id) && terms[id].Compound?
    ensures var s := ToString(terms, rank, id);
      if terms[id].base >= 0 then
        Defined(terms, rank, terms[id].base) &&
        s == ToString(terms, rank, terms[id].base) + "(" + Join(ArgStrings(terms, rank, id, 0), ",") + ")"
      else
        s == Join(ArgStrings(terms, rank, id, 0), ",") &&
        (|terms[id].args| == 0 ==> s == "") &&
        (|terms[id].args| == 1 ==> s == ToString(terms, rank, terms[id].args[0]))
  {
    if terms[id].base >= 0 {
      assert Refs(terms, rank, id, terms[id].base);
    } else if |terms[id].args| == 1 {
      ArgStringsAt(terms, rank, id, 0, 0);
    }
  }

  // ---------------------------------------------------------------------------
  // Arithmetic

  /** The operators `isNumber` and `getNumber` evaluate. */
  datatype Op = UnaryPlus | UnaryMinus | Plus | Minus | Times

  /** The operator a function name and arity stand for, if any. */
  function OpOf(name: string, arity: nat): (r: Option<Op>)
    ensures r.Some? ==> (arity == 1 <==> r.value == UnaryPlus || r.value == UnaryMinus)
    ensures r.Some? ==> 1 <= arity <= 2
  {
    if name == "+" && arity == 1 then Some(UnaryPlus)
    else if name == "-" && arity == 1 then Some(UnaryMinus)
    else if name == "+" && arity == 2 then Some(Plus)
    else if name == "-" && arity == 2 then Some(Minus)
    else if name == "*" && arity == 2 then Some(Times)
    else None
  }

  /** The operator of a term: a function whose printed name and arity name
      one. */
  function OpOfTerm(terms: seq<Term>, ghost rank: seq<nat>, id: nat): Option<Op>
    requires Defined(terms, rank, id)
  {
    match terms[id]
    case Compound(b, args) =>
      if b >= 0 then
        assert Refs(terms, rank, id, b);
        OpOf(ToString(terms, rank, b), |args|)
      else None
    case _ => None
  }

  /** `isNumber(id)`: a number, or an operator over numbers. */
  predicate IsNumber(terms: seq<Term>, ghost rank: seq<nat>, id: nat)
    requires Defined(terms, rank, id)
    decreases rank[id]
  {
    terms[id].Num? ||
    (OpOfTerm(terms, rank, id).Some? &&
     forall k :: 0 <= k < |terms[id].args| ==> IsNumber(terms, rank, terms[id].args[k]))
  }

  /** `getNumber(id)`: the value of the arithmetic, unary minus negating. */
  function GetNumber(terms: seq<Term>, ghost rank: seq<nat>, id: nat): int
    requires Defined(terms, rank, id) && IsNumber(terms, rank, id)
    decreases rank[id]
  {
    if terms[id].Num? then terms[id].n
    else
      var args := terms[id].args;
      assert Refs(terms, rank, id, args[0]);
      match OpOfTerm(terms, rank, id).value
      case UnaryPlus => GetNumber(terms, rank, args[0])
      case UnaryMinus => -GetNumber(terms, rank, args[0])
      case Plus => assert Refs(terms, rank, id, args[1]); GetNumber(terms, rank, args[0]) + GetNumber(terms, rank, args[1])
      case Minus => assert Refs(terms, rank, id, args[1]); GetNumber(terms, rank, args[0]) - GetNumber(terms, rank, args[1])
      case Times => assert Refs(terms, rank, id, args[1]); GetNumber(terms, rank, args[0]) * GetNumber(terms, rank, args[1])
  }

  /** Arithmetic expressions as trees, with their usual value. */
  datatype Expr = Const(n: int) | Neg(e: Expr) | Pos(e: Expr) | Add(l: Expr, r: Expr) | Sub(l: Expr, r: Expr) | Mul(l: Expr, r: Expr)

  function Eval(e: Expr): int {
    match e
    case Const(n) => n
    case Neg(x) => -Eval(x)
    case Pos(x) => Eval(x)
    case Add(x, y) => Eval(x) + Eval(y)
    case Sub(x, y) => Eval(x) - Eval(y)
    case Mul(x, y) => Eval(x) * Eval(y)
  }

  /** The operator applied to the trees of its arguments. */
  function Apply(op: Op, xs: seq<Expr>): Expr
    requires |xs| == (if op == UnaryPlus || op == UnaryMinus then 1 else 2)
  {
    match op
    case UnaryPlus => Pos(xs[0])
    case UnaryMinus => Neg(xs[0])
    case Plus => Add(xs[0], xs[1])
    case Minus => Sub(xs[0], xs[1])
    case Times => Mul(xs[0], xs[1])
  }

  /** The expression tree a term unfolds to, when it is arithmetic. */
  function ToExpr(terms: seq<Term>, ghost rank: seq<nat>, id: nat): Option<Expr>
    requires Defined(terms, rank, id)
    decreases rank[id]
  {
    match terms[id]
    case Num(n) => Some(Const(n))
    case Compound(_, args) =>
      var op := OpOfTerm(terms, rank, id);
      if op.None? then None
      else
        assert Refs(terms, rank, id, args[0]);
        var x := ToExpr(terms, rank, args[0]);
        if |args| == 1 then
          if x.None? then None else Some(Apply(op.value, [x.value]))
        else
          assert Refs(terms, rank, id, args[1]);
          var y := ToExpr(terms, rank, args[1]);
          if x.None? || y.None? then None else Some(Apply(op.value, [x.value, y.value]))
    case _ => None
  }

  /** A term is a number exactly when it unfolds to an arithmetic tree, and
      then `getNumber` is the tree's value. */
  lemma {:induction false} NumberIsExpression(terms: seq<Term>, rank: seq<nat>, id: nat)
    requires Defined(terms, rank, id)
    ensures IsNumber(terms, rank, id) <==> ToExpr(terms, rank, id).Some?
    ensures IsNumber(terms, rank, id) ==> GetNumber(terms, rank, id) == Eval(ToExpr(terms, rank, id).value)
    decreases rank[id]
  {
    if terms[id].Compound? && OpOfTerm(terms, rank, id).Some? {
      var args := terms[id].args;
      assert Refs(terms, rank, id, args[0]);
      NumberIsExpression(terms, rank, args[0]);
      if |args| == 2 {
        assert Refs(terms, rank, id, args[1]);
        NumberIsExpression(terms, rank, args[1]);
      }
    }
  }

  // ---------------------------------------------------------------------------
  // Variables

  /** `isalpha` in the C locale. */
  predicate IsAlpha(c: char) { 'a' <= c <= 'z' || 'A' <= c <= 'Z' }

  /** The name test of `check`: an empty name yields the terminating NUL,
      which is no letter. */
  predicate NameOk(name: string) { |name| > 0 && IsAlpha(name[0]) }

  /** `check(id)` as written: its function branch tests the name and the
      arguments and then leaves the branch, reaching the final
      `return false` whichever way the tests come out. */
  predicate CheckAsWritten(terms: seq<Term>, ghost rank: seq<nat>, id: nat)
    requires Defined(terms, rank, id)
    decreases rank[id]
  {
    match terms[id]
    case Num(_) => true
    case Sym(_) => true
    case Compound(b, args) =>
      if b >= 0 then false
      else forall k :: 0 <= k < |args| ==> CheckAsWritten(terms, rank, args[k])
    case Invalid => false
  }

  /** `check(id)` as intended: a function passes when its name starts with a
      letter and every argument passes. */
  predicate Check(terms: seq<Term>, ghost rank: seq<nat>, id: nat)
    requires Defined(terms, rank, id)
    decreases rank[id]
  {
    match terms[id]
    case Num(_) => true
    case Sym(_) => true
    case Compound(b, args) =>
      (b >= 0 ==> (assert Refs(terms, rank, id, b); NameOk(ToString(terms, rank, b)))) &&
      forall k :: 0 <= k < |args| ==> Check(terms, rank, args[k])
    case Invalid => false
  }

  /** As written, `check` rejects every function term, whatever its name and
      arguments. */
  lemma CheckAsWrittenRejectsFunctions(terms: seq<Term>, rank: seq<nat>, id: nat)
    requires Defined(terms, rank, id) && terms[id].Compound? && terms[id].base >= 0
    ensures !CheckAsWritten(terms, rank, id)
  {
  }

  /** The term `f(1)`: the symbol `f`, the number 1 and the function. */
  const SampleTerms: seq<Term> := [Sym("f"), Num(1), Compound(0, [1])]
  const SampleRank: seq<nat> := [0, 0, 1]

  /** `f(1)` is a well-named function over a number, which the intended
      `check` accepts and the written one rejects. */
  lemma CheckAsWrittenCounterexample()
    ensures Defined(SampleTerms, SampleRank, 2)
    ensures Check(SampleTerms, SampleRank, 2) && !CheckAsWritten(SampleTerms, SampleRank, 2)
  {
    assert Refs(SampleTerms, SampleRank, 2, 0);
    assert Refs(SampleTerms, SampleRank, 2, 1);
    assert ToString(SampleTerms, SampleRank, 0) == "f";
  }

  /** The two agree on terms without functions, so the written `check` accepts
      only terms the intended one accepts. */
  lemma {:induction false} CheckAsWrittenStricter(terms: seq<Term>, rank: seq<nat>, id: nat)
    requires Defined(terms, rank, id)
    ensures CheckAsWritten(terms, rank, id) ==> Check(terms, rank, id)
    decreases rank[id]
  {
    if terms[id].Compound? && terms[id].base < 0 && CheckAsWritten(terms, rank, id) {
      var args := terms[id].args;
      forall k | 0 <= k < |args|
        ensures Check(terms, rank, args[k])
      {
        assert Refs(terms, rank, id, args[k]);
        CheckAsWrittenStricter(terms, rank, args[k]);
      }
    }
  }

  /** With the intended `check`, a function term such as `x(1)` whose name
      starts with a letter and whose arguments pass is a variable, which the
      written `check` never allows. */
  lemma WellNamedFunctionsAreVariables(terms: seq<Term>, rank: seq<nat>, id: nat)
    requires Defined(terms, rank, id) && terms[id].Compound? && terms[id].base >= 0
    requires Refs(terms, rank, id, terms[id].base) && NameOk(ToString(terms, rank, terms[id].base))
    requires forall k :: 0 <= k < |terms[id].args| ==> Check(terms, rank, terms[id].args[k])
    ensures IsVariable(terms, rank, id)
    ensures !CheckAsWritten(terms, rank, id)
  {
  }

  /** `isVariable(id)`: a symbol or a compound that passes `check`. */
  predicate IsVariable(terms: seq<Term>, ghost rank: seq<nat>, id: nat)
    requires Defined(terms, rank, id)
  {
    (terms[id].Compound? || terms[id].Sym?) && Check(terms, rank, id)
  }

  /** No arithmetic term is a variable: a number is neither symbol nor
      compound, and an operator name starts with no letter. */
  lemma NumbersAreNotVariables(terms: seq<Term>, rank: seq<nat>, id: nat)
    requires Defined(terms, rank, id) && IsNumber(terms, rank, id)
    ensures !IsVariable(terms, rank, id)
  {
    if terms[id].Compound? {
      var b := terms[id].base;
      assert Refs(terms, rank, id, b);
      var name := ToString(terms, rank, b);
      assert name == "+" || name == "-" || name == "*";
      assert !NameOk(name);
    }
  }

  // ---------------------------------------------------------------------------
  // Constraint names and guards

  /** `TheoryParser::CType`. */
  datatype CType = SumConstraint | DomConstraint | DistinctConstraint | ShowConstraint | MinimizeConstraint

  /** The name of each constraint type. */
  function CTypeName(t: CType): string {
    match t
    case SumConstraint => "sum"
    case DomConstraint => "dom"
    case DistinctConstraint => "distinct"
    case ShowConstraint => "show"
    case MinimizeConstraint => "minimize"
  }

  /** The constraint type a printed name stands for. */
  function NameType(s: string): Option<CType> {
    if s == "sum" then Some(SumConstraint)
    else if s == "dom" then Some(DomConstraint)
    else if s == "show" then Some(ShowConstraint)
    else if s == "distinct" then Some(DistinctConstraint)
    else if s == "minimize" then Some(MinimizeConstraint)
    else None
  }

  /** Exactly the five names are recognised, each as its own type. */
  lemma NameTypeInverse(s: string, t: CType)
    ensures NameType(CTypeName(t)) == Some(t)
    ensures NameType(s) == Some(t) <==> s == CTypeName(t)
  {
  }

  /** The symbol of each relation. */
  function RelationSymbol(r: Constraints.Relation): string {
    match r
    case EQ => "="
    case LE => "<="
    case GE => ">="
    case LT => "<"
    case GT => ">"
    case NE => "!="
  }

  /** The relation a printed guard stands for. */
  function GuardRelation(s: string): Option<Constraints.Relation> {
    if s == "=" then Some(Constraints.EQ)
    else if s == "<=" then Some(Constraints.LE)
    else if s == ">=" then Some(Constraints.GE)
    else if s == "<" then Some(Constraints.LT)
    else if s == ">" then Some(Constraints.GT)
    else if s == "!=" then Some(Constraints.NE)
    else None
  }

  /** Exactly the six symbols are recognised, each as its own relation. */
  lemma GuardRelationInverse(s: string, r: Constraints.Relation)
    ensures GuardRelation(RelationSymbol(r)) == Some(r)
    ensures GuardRelation(s) == Some(r) <==> s == RelationSymbol(r)
  {
  }

  // ---------------------------------------------------------------------------
  // The parser

  /** `order::InvalidVar`, the variable of an unset view slot; taken as the
      largest 32-bit variable. */
  const InvalidVar: nat := 0xFFFF_FFFF

  /** `View(InvalidVar)`: the filler of the view table. */
  const NoView: Variables.View := Variables.View(InvalidVar, 1, 0)

  class TheoryParser {
    const td: TheoryData
    const vc: Variables.VariableCreator
    /** The domain `Domain()` of a variable created without a value. */
    const fullDomain: seq<OrderDomain.Range>
    /** A ranking of the term table witnessing that it has no cycles. */
    ghost var rank: seq<nat>
    var constraintOf: map<nat, CType>
    var guardOf: map<nat, Constraints.Relation>
    var views: seq<Variables.View>

    /** The term table is well formed, each cached answer is the one the term's
        printed name gives, and each view in the table is of a created
        variable. */
    ghost predicate Valid()
      reads this, td, vc
    {
      WellFormed(td.terms.data, rank) && vc.Valid() && OrderDomain.Normal(fullDomain) &&
      (forall id :: id in constraintOf ==>
        Defined(td.terms.data, rank, id) && NameType(ToString(td.terms.data, rank, id)) == Some(constraintOf[id])) &&
      (forall id :: id in guardOf ==>
        Defined(td.terms.data, rank, id) && GuardRelation(ToString(td.terms.data, rank, id)) == Some(guardOf[id])) &&
      (forall j :: 0 <= j < |views| && views[j] != NoView ==> views[j].v < |vc.domains|)
    }

    constructor (td: TheoryData, vc: Variables.VariableCreator, fullDomain: seq<OrderDomain.Range>, ghost rank: seq<nat>)
      requires WellFormed(td.terms.data, rank) && vc.Valid() && OrderDomain.Normal(fullDomain)
      ensures Valid()
      ensures this.td == td && this.vc == vc && this.fullDomain == fullDomain && this.rank == rank
      ensures constraintOf == map[] && guardOf == map[] && views == []
    {
      this.td, this.vc, this.fullDomain, this.rank := td, vc, fullDomain, rank;
      constraintOf, guardOf, views := map[], map[], [];
    }

    /** `getConstraintType(id, t)`: the type the term's printed name stands
        for, remembered for the id; an unknown name is not remembered. */
    method GetConstraintType(id: nat) returns (ok: bool, t: CType)
      requires Valid() && Defined(td.terms.data, rank, id)
      modifies this
      ensures Valid()
      ensures ok <==> NameType(ToString(td.terms.data, rank, id)).Some?
      ensures ok ==> t == NameType(ToString(td.terms.data, rank, id)).value
      ensures constraintOf == if ok then old(constraintOf)[id := t] else old(constraintOf)
      ensures rank == old(rank) && guardOf == old(guardOf) && views == old(views)
    {
      if id !in constraintOf {
        var s := ToString(td.terms.data, rank, id);
        var n := NameType(s);
        if n.None? {
          return false, SumConstraint;
        }
        constraintOf := constraintOf[id := n.value];
      }
      ok, t := true, constraintOf[id];
    }

    /** `getGuard(id, rel)`: the relation the term's printed symbol stands
        for, remembered for the id; an unknown symbol is not remembered. */
    method GetGuard(id: nat) returns (ok: bool, rel: Constraints.Relation)
      requires Valid() && Defined(td.terms.data, rank, id)
      modifies this
      ensures Valid()
      ensures ok <==> GuardRelation(ToString(td.terms.data, rank, id)).Some?
      ensures ok ==> rel == GuardRelation(ToString(td.terms.data, rank, id)).value
      ensures guardOf == if ok then old(guardOf)[id := rel] else old(guardOf)
      ensures rank == old(rank) && constraintOf == old(constraintOf) && views == old(views)
    {
      if id !in guardOf {
        var s := ToString(td.terms.data, rank, id);
        var g := GuardRelation(s);
        if g.None? {
          return false, Constraints.EQ;
        }
        guardOf := guardOf[id := g.value];
      }
      ok, rel := true, guardOf[id];
    }

    /** The first step of `getView(id)`: the view already made for the id. */
    function CachedView(id: nat): (r: Option<Variables.View>)
      reads this
      ensures r.Some? <==> id < |views| && views[id] != NoView
      ensures r.Some? ==> r.value == views[id]
    {
      if |views| > id && views[id] != NoView then Some(views[id]) else None
    }

    /** The view table grown to hold `id`, unset slots filled with `NoView`,
        and `id` set to `v`. */
    static function Stored(vs: seq<Variables.View>, id: nat, v: Variables.View): (r: seq<Variables.View>)
      ensures |r| == if id < |vs| then |vs| else id + 1
      ensures r[id] == v
      ensures forall j :: 0 <= j < |r| && j != id ==> r[j] == if j < |vs| then vs[j] else NoView
    {
      (if id < |vs| then vs else vs + seq(id + 1 - |vs|, _ => NoView))[id := v]
    }

    /** `createVar(id)` and `createVar(id, val)`: a fresh variable over `d`,
        whose view is stored for the id. */
    method CreateVarOver(id: nat, d: seq<OrderDomain.Range>) returns (v: Variables.View)
      requires Valid() && id < IdMax && OrderDomain.Normal(d)
      requires id < |views| ==> views[id] == NoView
      requires |vc.domains| < InvalidVar
      modifies this, vc
      ensures Valid()
      ensures v == Variables.View(|old(vc.domains)|, 1, 0) && vc.domains == old(vc.domains) + [LiteralStorage.Some(d)]
      ensures views == Stored(old(views), id, v)
      ensures vc.mems == old(vc.mems) + [LiteralStorage.Store(0, [], map[], 0)]
      ensures vc.clauses == old(vc.clauses) && vc.equalities == old(vc.equalities) && vc.equalLits == old(vc.equalLits)
      ensures rank == old(rank) && constraintOf == old(constraintOf) && guardOf == old(guardOf)
      ensures CachedView(id) == Some(v)
    {
      var x := vc.CreateVariable(d);
      v := Variables.View(x, 1, 0);
      views := Stored(views, id, v);
    }

    /** `createVar(id)`: a fresh variable over the full domain. */
    method CreateVar(id: nat) returns (v: Variables.View)
      requires Valid() && id < IdMax
      requires id < |views| ==> views[id] == NoView
      requires |vc.domains| < InvalidVar
      modifies this, vc
      ensures Valid()
      ensures v == Variables.View(|old(vc.domains)|, 1, 0) && vc.domains == old(vc.domains) + [LiteralStorage.Some(fullDomain)]
      ensures views == Stored(old(views), id, v)
      ensures rank == old(rank) && constraintOf == old(constraintOf) && guardOf == old(guardOf)
      ensures CachedView(id) == Some(v)
    {
      v := CreateVarOver(id, fullDomain);
    }

    /** `createVar(id, val)`: a fresh variable over the single value `val`, so
        that `getView(id)` afterwards finds this view. */
    method CreateVarValue(id: nat, val: int) returns (v: Variables.View)
      requires Valid() && id < IdMax && IsInt32(val)
      requires id < |views| ==> views[id] == NoView
      requires |vc.domains| < InvalidVar
      modifies this, vc
      ensures Valid()
      ensures v == Variables.View(|old(vc.domains)|, 1, 0) && vc.domains == old(vc.domains) + [LiteralStorage.Some([OrderDomain.Range(val, val)])]
      ensures views == Stored(old(views), id, v)
      ensures rank == old(rank) && constraintOf == old(constraintOf) && guardOf == old(guardOf)
      ensures CachedView(id) == Some(v)
    {
      v := CreateVarOver(id, [OrderDomain.Range(val, val)]);
    }
  }
}
