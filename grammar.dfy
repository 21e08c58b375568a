/** The string-building program builder of gringo's parser tests: every
    callback of the non-ground grammar writes its piece of program text into
    a buffer, takes the buffer's contents, and finished statements are
    collected and joined at the end. The index tables the pieces are stored
    in between callbacks are left out; the methods return the built text. */
module NongroundGrammarTest {
  import opened FrontEndOptions

  /** How a literal is negated. */
  datatype NAF = Pos | Not | NotNot

  /** The prefix `print(naf)` writes. */
  function NafText(naf: NAF): string {
    match naf
    case Pos => ""
    case Not => "#not "
    case NotNot => "#not #not "
  }

  /** Double default negation is written as two single ones, and a positive
      literal gets no prefix. */
  lemma NafTexts()
    ensures NafText(NotNot) == NafText(Not) + NafText(Not)
    ensures NafText(Pos) == [] && NafText(Not) != []
  {
  }

  /** Joining one more piece adds the separator and the piece. */
  lemma {:induction false} JoinSnoc(v: seq<string>, x: string, sep: string)
    requires v != []
    ensures Join(v + [x], sep) == Join(v, sep) + sep + x
    decreases |v|
  {
    if |v| == 1 {
      assert (v + [x])[1..] == [x];
    } else {
      assert (v + [x])[1..] == v[1..] + [x];
      JoinSnoc(v[1..], x, sep);
    }
  }

  /** The inner lists joined with `,`, the results joined with `;`. */
  function NestedText(vv: seq<seq<string>>): string {
    Join(seq(|vv|, i requires 0 <= i < |vv| => Join(vv[i], ",")), ";")
  }

  /** An aggregate: the first bound's left form, the function and its
      elements in braces, then the right forms of the other bounds. */
  function AggregateText(fun: string, bounds: seq<(string, string)>, elems: seq<string>): string {
    (if bounds == [] then "" else bounds[0].0) + fun + "{" + Join(elems, ";") + "}"
    + (if bounds == [] then "" else RightForms(bounds[1..]))
  }

  /** The right forms of bounds, in order. */
  function RightForms(bounds: seq<(string, string)>): string {
    if bounds == [] then "" else RightForms(bounds[..|bounds| - 1]) + bounds[|bounds| - 1].1
  }

  /** One more bound adds its right form. */
  lemma RightFormsSnoc(head: string, bounds: seq<(string, string)>, i: nat)
    requires 1 <= i < |bounds|
    ensures head + RightForms(bounds[1..i + 1]) == head + RightForms(bounds[1..i]) + bounds[i].1
  {
    assert bounds[1..i + 1][..i - 1] == bounds[1..i];
    assert head + (RightForms(bounds[1..i]) + bounds[i].1) == head + RightForms(bounds[1..i]) + bounds[i].1;
  }

  /** A tuple: its arguments joined with `,`, with a trailing comma when
      there is exactly one argument or the tuple is forced. */
  function TupleText(args: seq<string>, forceComma: bool): string {
    "(" + Join(args, ",") + (if forceComma then "," else "") + ")"
  }

  /** A one-element theory tuple differs from the parenthesised element,
      while a pair needs no trailing comma. */
  lemma OneTuple(x: string, y: string)
    ensures TupleText([x], true) == "(" + x + ",)"
    ensures TupleText([x], true) != "(" + x + ")"
    ensures TupleText([x, y], false) == "(" + x + "," + y + ")"
  {
    assert |TupleText([x], true)| == |"(" + x + ")"| + 1;
    assert [x, y][1..] == [y];
    assert Join([x, y], ",") == x + "," + y;
  }

  /** The joined statements split back at line breaks, when no statement
      holds a line break and the last one is not empty. */
  lemma StatementsSplit(statements: seq<string>)
    requires statements != [] && statements[|statements| - 1] != []
    requires forall k :: 0 <= k < |statements| ==> '\n' !in statements[k]
    ensures SplitOf(Join(statements, "\n"), {'\n'}, true) == statements
  {
    SplitJoin(statements, '\n');
  }

  /** `TestNongroundProgramBuilder`: the text buffer `current_` and the
      finished statements. */
  class TestBuilder {
    var current: string
    var statements: seq<string>

    constructor ()
      ensures current == [] && statements == []
    {
      current := [];
      statements := [];
    }

    /** `str()`: the buffered text, leaving the buffer empty. */
    method Str() returns (r: string)
      modifies this`current
      ensures r == old(current) && current == []
    {
      r := current;
      current := [];
    }

    /** `print(vec, sep)`: the elements with `sep` between neighbours;
        nothing for no elements. */
    method Print(vec: seq<string>, sep: string)
      modifies this`current
      ensures current == old(current) + Join(vec, sep)
    {
      if |vec| > 0 {
        current := current + vec[0];
        var i := 1;
        while i < |vec|
          invariant 1 <= i <= |vec|
          invariant current == old(current) + Join(vec[..i], sep)
        {
          JoinSnoc(vec[..i], vec[i], sep);
          assert vec[..i + 1] == vec[..i] + [vec[i]];
          current := current + sep + vec[i];
          i := i + 1;
        }
        assert vec[..|vec|] == vec;
      }
    }

    /** `print(StringVecVec)`: each inner list joined with `,`, the inner
        results separated by `;`. */
    method PrintNested(vv: seq<seq<string>>)
      modifies this`current
      ensures current == old(current) + NestedText(vv)
    {
      ghost var inner := seq(|vv|, i requires 0 <= i < |vv| => Join(vv[i], ","));
      if |vv| > 0 {
        Print(vv[0], ",");
        var i := 1;
        while i < |vv|
          invariant 1 <= i <= |vv|
          invariant current == old(current) + Join(inner[..i], ";")
        {
          current := current + ";";
          Print(vv[i], ",");
          JoinSnoc(inner[..i], inner[i], ";");
          assert inner[..i + 1] == inner[..i] + [inner[i]];
          i := i + 1;
        }
        assert inner[..|vv|] == inner;
      }
    }

    /** `print(naf)`. */
    method PrintNaf(naf: NAF)
      modifies this`current
      ensures current == old(current) + NafText(naf)
    {
      match naf {
        case Not => current := current + "#not ";
        case NotNot => current := current + "#not #not ";
        case Pos =>
      }
    }

    /** `print(fun, bounds, elems)` for an aggregate; `fun` is the printed
        aggregate function and `bounds` the bounds' left and right forms. */
    method PrintAggregate(fun: string, bounds: seq<(string, string)>, elems: seq<string>)
      modifies this`current
      ensures current == old(current) + AggregateText(fun, bounds, elems)
    {
      if bounds != [] {
        current := current + bounds[0].0;
      }
      current := current + fun + "{";
      Print(elems, ";");
      current := current + "}";
      if bounds != [] {
        ghost var head := current;
        var i := 1;
        while i < |bounds|
          invariant 1 <= i <= |bounds|
          invariant current == head + RightForms(bounds[1..i])
        {
          RightFormsSnoc(head, bounds, i);
          current := current + bounds[i].1;
          i := i + 1;
        }
        assert bounds[1..i] == bounds[1..];
      }
    }

    /** `theorytermtuple(args)`: the tuple text, with a trailing comma for a
        single element. */
    method TheoryTermTuple(args: seq<string>) returns (r: string)
      modifies this`current
      ensures r == old(current) + TupleText(args, |args| == 1) && current == []
    {
      current := current + "(";
      var size := |args|;
      Print(args, ",");
      if size == 1 {
        current := current + ",";
      }
      current := current + ")";
      r := Str();
    }

    /** `term(args, forceTuple)`: the tuple text, with a trailing comma when
        forced. */
    method TermTuple(args: seq<string>, forceTuple: bool) returns (r: string)
      modifies this`current
      ensures r == old(current) + TupleText(args, forceTuple) && current == []
    {
      current := current + "(";
      Print(args, ",");
      if forceTuple {
        current := current + ",";
      }
      current := current + ")";
      r := Str();
    }

    /** `toString()`: the statements joined with line breaks, clearing them
        and the buffer. */
    method ToString() returns (r: string)
      modifies this`current, this`statements
      ensures r == old(current) + Join(old(statements), "\n")
      ensures statements == [] && current == []
    {
      Print(statements, "\n");
      statements := [];
      r := Str();
    }
  }
}
