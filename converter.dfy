/** The FlatZinc answer converter: it reads a solver's answer text from standard
    input and writes one FlatZinc constraint per atom of every line that follows an
    "Answer:" line. Standard input is a string, standard output is the string the
    program writes and the exit status is an int. */
module Converter {

  /** The characters Python 2's `str.split()` treats as whitespace. */
  predicate IsSpace(c: char) {
    c == ' ' || c == '\t' || c == '\n' || c == '\r' || c as int == 11 || c as int == 12
  }

  /** `f.readline()`: everything up to and including the next newline, or the
      whole remainder when there is none; the empty string at end of input. */
  function ReadLine(s: string): (r: (string, string))
    ensures r.0 + r.1 == s
    ensures s != [] ==> r.0 != []
  {
    if s == [] then ([], [])
    else if s[0] == '\n' then ([s[0]], s[1..])
    else
      var (line, rest) := ReadLine(s[1..]);
      ([s[0]] + line, rest)
  }

  /** The line read holds no newline except a final one, which is missing only at
      the end of the input. */
  lemma {:induction false} ReadLineIsLine(s: string)
    ensures var r := ReadLine(s);
      (forall i :: 0 <= i < |r.0| - 1 ==> r.0[i] != '\n') &&
      (r.1 != [] ==> r.0[|r.0| - 1] == '\n') &&
      ('\n' !in s ==> r.0 == s)
  {
    if s != [] && s[0] != '\n' {
      assert forall x :: x in s[1..] ==> x in s;
      ReadLineIsLine(s[1..]);
    }
  }

  /** `pat` occurs in `s` at position `i`. */
  predicate OccursAt(pat: string, s: string, i: int) {
    0 <= i && i + |pat| <= |s| && s[i..i + |pat|] == pat
  }

  /** `s.find(pat, k)`: the first position at or after `k` where `pat` occurs, or -1. */
  function FindFrom(s: string, pat: string, k: nat): int
    decreases |s| - k
  {
    if k + |pat| > |s| then -1
    else if s[k..k + |pat|] == pat then k
    else FindFrom(s, pat, k + 1)
  }

  /** `find` gives the first occurrence at or after `k`, and -1 only when there is none. */
  lemma {:induction false} FindFromCorrect(s: string, pat: string, k: nat)
    ensures var r := FindFrom(s, pat, k);
      (r == -1 || (k <= r && OccursAt(pat, s, r))) &&
      (forall j :: k <= j && (r == -1 || j < r) ==> !OccursAt(pat, s, j))
    decreases |s| - k
  {
    if k + |pat| <= |s| && s[k..k + |pat|] != pat {
      FindFromCorrect(s, pat, k + 1);
    }
  }

  function Find(s: string, pat: string): int {
    FindFrom(s, pat, 0)
  }

  /** `s.replace(a, b)` for one-character strings: every `a` becomes `b`. */
  function Replace(s: string, a: char, b: char): string {
    if s == [] then [] else [if s[0] == a then b else s[0]] + Replace(s[1..], a, b)
  }

  /** Every occurrence of `a` is replaced and nothing else changes. */
  lemma {:induction false} ReplaceAll(s: string, a: char, b: char)
    ensures |Replace(s, a, b)| == |s|
    ensures forall i :: 0 <= i < |s| ==> Replace(s, a, b)[i] == if s[i] == a then b else s[i]
  {
    if s != [] {
      ReplaceAll(s[1..], a, b);
    }
  }

  /** Length of the maximal run of non-whitespace characters at the start of `s`. */
  function WordLength(s: string): (n: nat)
    requires s != [] && !IsSpace(s[0])
    ensures 1 <= n <= |s|
  {
    if |s| == 1 || IsSpace(s[1]) then 1 else 1 + WordLength(s[1..])
  }

  /** The run is maximal: it stops at the first whitespace character. */
  lemma {:induction false} WordLengthMaximal(s: string)
    requires s != [] && !IsSpace(s[0])
    ensures forall i :: 0 <= i < WordLength(s) ==> !IsSpace(s[i])
    ensures WordLength(s) < |s| ==> IsSpace(s[WordLength(s)])
  {
    if |s| > 1 && !IsSpace(s[1]) {
      WordLengthMaximal(s[1..]);
    }
  }

  /** All characters of `s` that are not whitespace. */
  function Strip(s: string): string {
    if s == [] then [] else (if IsSpace(s[0]) then [] else [s[0]]) + Strip(s[1..])
  }

  function Concat(ts: seq<string>): string {
    if ts == [] then [] else ts[0] + Concat(ts[1..])
  }

  predicate IsToken(t: string) {
    t != [] && forall c :: c in t ==> !IsSpace(c)
  }

  lemma {:induction false} StripWord(w: string)
    requires forall c :: c in w ==> !IsSpace(c)
    ensures Strip(w) == w
  {
    if w != [] {
      assert w[0] in w;
      assert forall c :: c in w[1..] ==> c in w;
      StripWord(w[1..]);
    }
  }

  lemma {:induction false} StripAppend(a: string, b: string)
    ensures Strip(a + b) == Strip(a) + Strip(b)
  {
    if a != [] {
      assert (a + b)[0] == a[0];
      assert (a + b)[1..] == a[1..] + b;
      StripAppend(a[1..], b);
      var h := if IsSpace(a[0]) then [] else [a[0]];
      assert Strip(a + b) == h + Strip(a[1..] + b);
      assert Strip(a) == h + Strip(a[1..]);
    } else {
      assert a + b == b;
    }
  }

  /** `line.split()`: the maximal runs of non-whitespace characters, in order. */
  function Split(s: string): seq<string>
    decreases |s|
  {
    if s == [] then []
    else if IsSpace(s[0]) then Split(s[1..])
    else
      var n := WordLength(s);
      [s[..n]] + Split(s[n..])
  }

  /** The tokens are non-empty and whitespace-free, and together they hold every
      non-whitespace character of the line, in order. */
  lemma {:induction false} SplitTokens(s: string)
    ensures forall t :: t in Split(s) ==> IsToken(t)
    ensures Concat(Split(s)) == Strip(s)
    decreases |s|
  {
    if s != [] {
      if IsSpace(s[0]) {
        SplitTokens(s[1..]);
      } else {
        var n := WordLength(s);
        WordLengthMaximal(s);
        assert s == s[..n] + s[n..];
        StripAppend(s[..n], s[n..]);
        StripWord(s[..n]);
        SplitTokens(s[n..]);
        assert Split(s) == [s[..n]] + Split(s[n..]);
      }
    }
  }

  lemma {:induction false} WordLengthAppend(a: string, b: string)
    requires a != [] && !IsSpace(a[0])
    requires WordLength(a) < |a| || (b != [] && IsSpace(b[0]))
    ensures WordLength(a + b) == WordLength(a)
  {
    if |a| > 1 && !IsSpace(a[1]) {
      assert (a + b)[1..] == a[1..] + b;
      WordLengthAppend(a[1..], b);
    }
  }

  /** A single whitespace character separates the tokens on its two sides. */
  lemma {:induction false} SplitAtSpace(a: string, c: char, b: string)
    requires IsSpace(c)
    ensures Split(a + [c] + b) == Split(a) + Split(b)
    decreases |a|
  {
    if a == [] {
      assert a + [c] + b == [c] + b;
      assert ([c] + b)[1..] == b;
    } else if IsSpace(a[0]) {
      assert (a + [c] + b)[1..] == a[1..] + [c] + b;
      SplitAtSpace(a[1..], c, b);
    } else {
      var n := WordLength(a);
      assert a + [c] + b == a + ([c] + b);
      WordLengthAppend(a, [c] + b);
      assert (a + [c] + b)[..n] == a[..n];
      assert (a + [c] + b)[n..] == a[n..] + [c] + b;
      if n < |a| {
        SplitAtSpace(a[n..], c, b);
      } else {
        assert a[n..] == [];
        SplitAtSpace(a[n..], c, b);
      }
    }
  }

  /** A whitespace-free word is one token. */
  lemma {:induction false} SplitWord(w: string)
    requires IsToken(w)
    ensures Split(w) == [w]
  {
    assert w[0] in w;
    var n := WordLength(w);
    WordLengthMaximal(w);
    assert w[..n] == w;
    assert w[n..] == [];
  }

  /** The output line for one atom of an answer. */
  function ConvertAtom(atom: string): string {
    if Find(atom, "=") != -1 then "constraint int_eq(" + Replace(atom, '=', ',') + ");\n"
    else "constraint bool_clause([" + atom + "],[]);\n"
  }

  /** The output for a whole answer line, one converted atom after the other. */
  function Emit(toks: seq<string>): string {
    if toks == [] then [] else ConvertAtom(toks[0]) + Emit(toks[1..])
  }

  /** The lines `readline` returns one after the other until it returns the empty
      string: the input cut after every newline. */
  function Lines(s: string): seq<string>
    decreases |s|
  {
    if s == [] then [] else [ReadLine(s).0] + Lines(ReadLine(s).1)
  }

  /** Reading line by line loses nothing: the lines put back together are the input,
      and none of them is empty. */
  lemma {:induction false} LinesConcat(s: string)
    ensures Concat(Lines(s)) == s
    ensures forall k :: 0 <= k < |Lines(s)| ==> Lines(s)[k] != []
    decreases |s|
  {
    if s != [] {
      LinesConcat(ReadLine(s).1);
    }
  }

  /** A line is skipped unless it holds "Answer:"; the exact line "\r\n" is skipped
      in any case. */
  predicate IsAnswerLine(line: string) {
    line != "\r\n" && Find(line, "Answer:") != -1
  }

  /** The lines that get converted: the line after each "Answer:" line, in order
      (the empty string when the input ends right after an "Answer:" line). The line
      taken is not itself scanned for "Answer:". */
  function Answers(ls: seq<string>): seq<string>
  {
    if ls == [] then []
    else if !IsAnswerLine(ls[0]) then Answers(ls[1..])
    else if |ls| == 1 then [[]]
    else [ls[1]] + Answers(ls[2..])
  }

  /** The text written for the converted lines. */
  function EmitAll(answers: seq<string>): string {
    if answers == [] then [] else Emit(Split(answers[0])) + EmitAll(answers[1..])
  }

  /** Some converted line holds at least one atom. */
  function AnyAtom(answers: seq<string>): bool {
    answers != [] && (Split(answers[0]) != [] || AnyAtom(answers[1..]))
  }

  datatype Outcome = Outcome(stdout: string, status: int)

  /** The whole script: `args` are the command-line arguments after the script name. */
  function Converter(args: seq<string>, input: string): Outcome {
    if |args| != 0 then Outcome("No arguments required\n", 1)
    else
      var answers := Answers(Lines(input));
      Outcome(EmitAll(answers), if AnyAtom(answers) then 0 else 1)
  }

  /** The `for atom in line` loop: the text written for the atoms of one answer
      line and the exit status after it. */
  method WriteAtoms(atoms: seq<string>, exit0: int) returns (text: string, exit: int)
    ensures text == Emit(atoms)
    ensures exit == if atoms != [] then 0 else exit0
  {
    text, exit := "", exit0;
    for i := 0 to |atoms|
      invariant text == Emit(atoms[..i])
      invariant exit == if i > 0 then 0 else exit0
    {
      exit := 0;
      EmitSnoc(atoms, i);
      text := text + ConvertAtom(atoms[i]);
    }
    assert atoms[..|atoms|] == atoms;
  }

  /** The script's `while True` loop over the lines of `input`. */
  method Run(args: seq<string>, input: string) returns (r: Outcome)
    ensures r == Converter(args, input)
  {
    if |args| != 0 {
      return Outcome("No arguments required\n", 1);
    }
    var lines := Lines(input);
    var exit := 1;
    var out := "";
    var i := 0;
    ghost var done: seq<string> := [];
    assert lines[0..] == lines;
    while i < |lines|
      invariant 0 <= i <= |lines|
      invariant Answers(lines) == done + Answers(lines[i..])
      invariant out == EmitAll(done)
      invariant exit == if AnyAtom(done) then 0 else 1
    {
      ghost var here := lines[i..];
      var line := lines[i];
      i := i + 1;
      assert here[1..] == lines[i..];
      if line == "\r\n" {
        continue;
      }
      if Find(line, "Answer:") != -1 {
        var next: string := [];
        if i < |lines| {
          next := lines[i];
          i := i + 1;
          assert here[2..] == lines[i..];
        }
        var text;
        text, exit := WriteAtoms(Split(next), exit);
        EmitAllSnoc(done, next);
        AnyAtomSnoc(done, next);
        done := done + [next];
        out := out + text;
      }
    }
    assert lines[i..] == [];
    assert done == Answers(lines);
    return Outcome(out, exit);
  }

  lemma {:induction false} EmitAllSnoc(a: seq<string>, x: string)
    ensures EmitAll(a + [x]) == EmitAll(a) + Emit(Split(x))
  {
    if a == [] {
      assert a + [x] == [x];
      assert EmitAll([x]) == Emit(Split(x)) + EmitAll([]);
    } else {
      assert (a + [x])[0] == a[0];
      assert (a + [x])[1..] == a[1..] + [x];
      EmitAllSnoc(a[1..], x);
    }
  }

  lemma {:induction false} AnyAtomSnoc(a: seq<string>, x: string)
    ensures AnyAtom(a + [x]) == (AnyAtom(a) || Split(x) != [])
  {
    if a == [] {
      assert a + [x] == [x];
      assert AnyAtom([x]) == (Split(x) != [] || AnyAtom([]));
    } else {
      assert (a + [x])[0] == a[0];
      assert (a + [x])[1..] == a[1..] + [x];
      AnyAtomSnoc(a[1..], x);
    }
  }

  lemma EmitSnoc(toks: seq<string>, i: nat)
    requires i < |toks|
    ensures Emit(toks[..i + 1]) == Emit(toks[..i]) + ConvertAtom(toks[i])
  {
    assert toks[..i + 1] == toks[..i] + [toks[i]];
    EmitAppend(toks[..i], [toks[i]]);
    EmitOne(toks[i]);
  }

  lemma EmitOne(x: string)
    ensures Emit([x]) == ConvertAtom(x)
  {
    assert Emit([x]) == ConvertAtom(x) + Emit([]);
  }

  /** The output for two token lists one after the other. */
  lemma {:induction false} EmitAppend(a: seq<string>, b: seq<string>)
    ensures Emit(a + b) == Emit(a) + Emit(b)
    decreases |a|
  {
    if a == [] {
      assert a + b == b;
    } else {
      assert (a + b)[0] == a[0] && (a + b)[1..] == a[1..] + b;
      EmitAppend(a[1..], b);
      StringAssoc(ConvertAtom(a[0]), Emit(a[1..]), Emit(b));
    }
  }

  lemma StringAssoc(x: string, y: string, z: string)
    ensures x + (y + z) == x + y + z
  {
  }

  function CountChar(s: string, c: char): nat {
    if s == [] then 0 else (if s[0] == c then 1 else 0) + CountChar(s[1..], c)
  }

  lemma {:induction false} CountCharAppend(a: string, b: string, c: char)
    ensures CountChar(a + b, c) == CountChar(a, c) + CountChar(b, c)
  {
    if a != [] {
      assert (a + b)[0] == a[0];
      assert (a + b)[1..] == a[1..] + b;
      CountCharAppend(a[1..], b, c);
      assert CountChar(a + b, c) == (if a[0] == c then 1 else 0) + CountChar(a[1..] + b, c);
    } else {
      assert a + b == b;
    }
  }

  lemma {:induction false} CountCharAbsent(s: string, c: char)
    requires c !in s
    ensures CountChar(s, c) == 0
  {
    if s != [] {
      assert forall x :: x in s[1..] ==> x in s;
      CountCharAbsent(s[1..], c);
    }
  }

  /** A converted atom is one line: it ends in the only newline it contains. */
  lemma ConvertAtomOneLine(atom: string)
    requires IsToken(atom)
    ensures var r := ConvertAtom(atom); r != [] && r[|r| - 1] == '\n' && CountChar(r, '\n') == 1
  {
    var body := if Find(atom, "=") != -1 then Replace(atom, '=', ',') else atom;
    var pre := if Find(atom, "=") != -1 then "constraint int_eq(" else "constraint bool_clause([";
    var post := if Find(atom, "=") != -1 then ");" else "],[]);";
    BodyHasNoNewline(atom);
    assert ConvertAtom(atom) == pre + body + post + "\n";
    OneLineOf(pre, body, post);
  }

  /** The converted atom's text, with or without its `=` replaced, holds no
      newline. */
  lemma BodyHasNoNewline(atom: string)
    requires IsToken(atom)
    ensures '\n' !in atom && '\n' !in Replace(atom, '=', ',')
  {
    assert IsSpace('\n');
    ReplaceAll(atom, '=', ',');
    var body := Replace(atom, '=', ',');
    forall i | 0 <= i < |body| ensures body[i] != '\n' {
      assert atom[i] in atom;
    }
  }

  /** Text without newlines, then a newline: one line. */
  lemma OneLineOf(pre: string, body: string, post: string)
    requires '\n' !in pre && '\n' !in body && '\n' !in post
    ensures var r := pre + body + post + "\n"; r != [] && r[|r| - 1] == '\n' && CountChar(r, '\n') == 1
  {
    CountCharAbsent(pre, '\n');
    CountCharAbsent(body, '\n');
    CountCharAbsent(post, '\n');
    CountCharAppend(pre, body, '\n');
    CountCharAppend(pre + body, post, '\n');
    CountCharAppend(pre + body + post, "\n", '\n');
    assert CountChar("\n", '\n') == 1 + CountChar([], '\n');
  }

  /** Each atom of an answer line gives exactly one output line, in order. */
  lemma {:induction false} EmitLines(toks: seq<string>)
    requires forall t :: t in toks ==> IsToken(t)
    ensures CountChar(Emit(toks), '\n') == |toks|
    ensures toks != [] ==> Emit(toks) == ConvertAtom(toks[0]) + Emit(toks[1..])
  {
    if toks != [] {
      assert toks[0] in toks;
      ConvertAtomOneLine(toks[0]);
      CountCharAppend(ConvertAtom(toks[0]), Emit(toks[1..]), '\n');
      assert forall t :: t in toks[1..] ==> t in toks;
      EmitLines(toks[1..]);
    }
  }

  /** An atom with an '=' becomes an int_eq whose arguments hold no '=' at all:
      every occurrence is replaced, not only the first. */
  lemma IntEqReplacesAll(atom: string)
    requires Find(atom, "=") != -1
    ensures var r := ConvertAtom(atom);
      r == "constraint int_eq(" + Replace(atom, '=', ',') + ");\n" && '=' !in Replace(atom, '=', ',')
  {
    var r := Replace(atom, '=', ',');
    ReplaceAll(atom, '=', ',');
    assert forall i :: 0 <= i < |r| ==> r[i] != '=';
  }

  /** An atom without '=' becomes a bool_clause holding the atom unchanged. */
  lemma BoolClauseKeepsAtom(atom: string)
    requires '=' !in atom
    ensures ConvertAtom(atom) == "constraint bool_clause([" + atom + "],[]);\n"
  {
    FindFromCorrect(atom, "=", 0);
    forall j | 0 <= j
      ensures !OccursAt("=", atom, j)
    {
      if j + 1 <= |atom| {
        assert atom[j..j + 1][0] == atom[j];
        assert atom[j] in atom;
      }
    }
  }

  lemma {:induction false} FindAnywhere(p: string, q: string, pat: string)
    ensures Find(p + pat + q, pat) != -1
  {
    var s := p + pat + q;
    FindFromCorrect(s, pat, 0);
    assert s[|p|..|p| + |pat|] == pat;
    assert OccursAt(pat, s, |p|);
  }

  /** A line holding "Answer:" anywhere triggers the conversion of the line after
      it, and scanning goes on after that line. */
  lemma AnswerAnywhere(p: string, q: string, next: string, rest: seq<string>)
    ensures Answers([p + "Answer:" + q, next] + rest) == [next] + Answers(rest)
  {
    FindAnywhere(p, q, "Answer:");
    var ls := [p + "Answer:" + q, next] + rest;
    assert |ls[0]| >= 7;
    assert ls[2..] == rest;
  }

  /** Cutting after a newline that ends a line. */
  lemma {:induction false} LineSplit(a: string, b: string)
    requires '\n' !in a
    ensures ReadLine(a + "\n" + b) == (a + "\n", b)
  {
    if a == [] {
      assert a + "\n" + b == ['\n'] + b;
      assert (['\n'] + b)[1..] == b;
    } else {
      assert (a + "\n" + b)[0] == a[0];
      assert (a + "\n" + b)[1..] == a[1..] + "\n" + b;
      assert forall x :: x in a[1..] ==> x in a;
      assert a[0] in a;
      LineSplit(a[1..], b);
      assert [a[0]] + (a[1..] + "\n") == a + "\n";
    }
  }

  /** A text line ending in a newline is the first line read. */
  lemma LinesCons(a: string, b: string)
    requires '\n' !in a
    ensures Lines(a + "\n" + b) == [a + "\n"] + Lines(b)
  {
    LineSplit(a, b);
  }

  /** A line that is exactly "\r\n" is skipped and writes nothing. */
  lemma SkipCrLf(rest: seq<string>)
    ensures Answers(["\r\n"] + rest) == Answers(rest)
  {
    assert (["\r\n"] + rest)[1..] == rest;
  }

  /** The line taken after an "Answer:" line is converted even when it holds
      "Answer:" itself, and it is not scanned again: the line after it is not
      converted. */
  lemma AnswerLineNotRescanned(next: string)
    requires Find(next, "Answer:") == -1
    ensures Answers(["Answer:\n", "Answer:\n", next]) == ["Answer:\n"]
  {
    AnswerAnywhere("", "\n", "Answer:\n", [next]);
    assert "" + "Answer:" + "\n" == "Answer:\n";
    var t := [next];
    assert t[1..] == [];
  }

  /** Any extra command-line argument gives the message and exit status 1, whatever
      the input. */
  lemma ExtraArgument(args: seq<string>, input: string)
    requires args != []
    ensures Converter(args, input) == Outcome("No arguments required\n", 1)
  {
  }

  /** Some atom was converted exactly when some text was written. */
  lemma {:induction false} AnyAtomIffOutput(answers: seq<string>)
    ensures AnyAtom(answers) <==> EmitAll(answers) != []
  {
    if answers != [] {
      var toks := Split(answers[0]);
      AnyAtomIffOutput(answers[1..]);
      if toks != [] {
        SplitTokens(answers[0]);
        EmitLines(toks);
        ConvertAtomOneLine(toks[0]);
      }
    }
  }

  /** The exit status is 0 exactly when some atom was written. */
  lemma StatusZeroIffOutput(args: seq<string>, input: string)
    requires args == []
    ensures Converter(args, input).status == 0 <==> Converter(args, input).stdout != []
  {
    AnyAtomIffOutput(Answers(Lines(input)));
  }

  /** An "Answer:" line followed by an empty line converts nothing and exits 1. */
  lemma EmptyAnswerExitsOne(p: string, q: string)
    requires '\n' !in p && '\n' !in q
    ensures Converter([], p + "Answer:" + q + "\n" + "\n") == Outcome("", 1)
  {
    var a := p + "Answer:" + q;
    assert '\n' !in a;
    LinesCons(a, "\n");
    assert [] + "\n" + [] == "\n";
    LinesCons([], []);
    assert Lines([]) == [];
    var ls := Lines(a + "\n" + "\n");
    assert ls == [a + "\n", "\n"];
    AnswerAnywhere(p, q + "\n", "\n", []);
    assert p + "Answer:" + (q + "\n") == a + "\n";
    assert [a + "\n", "\n"] + [] == ls;
    assert Answers(ls) == ["\n"];
    SplitAtSpace([], '\n', []);
    assert [] + ['\n'] + [] == "\n";
    assert Split("\n") == [];
    assert EmitAll(["\n"]) == Emit([]) + EmitAll([]);
    assert !AnyAtom(["\n"]);
  }

  /** Nothing is converted exactly when no line is an "Answer:" line. */
  lemma {:induction false} NoAnswerLines(ls: seq<string>)
    ensures Answers(ls) == [] <==> forall k :: 0 <= k < |ls| ==> !IsAnswerLine(ls[k])
  {
    if ls != [] && !IsAnswerLine(ls[0]) {
      NoAnswerLines(ls[1..]);
      forall k | 1 <= k < |ls|
        ensures ls[k] == ls[1..][k - 1]
      {
      }
    }
  }

  /** Input without an "Answer:" line writes nothing and exits with status 1. */
  lemma NoAnswerNoOutput(input: string)
    requires forall k :: 0 <= k < |Lines(input)| ==> !IsAnswerLine(Lines(input)[k])
    ensures Converter([], input) == Outcome("", 1)
  {
    NoAnswerLines(Lines(input));
  }
}
