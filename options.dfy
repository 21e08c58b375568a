/** The option helpers of the gringo and clingo front ends: splitting an
    option value at delimiter characters, reading `name/arity` signature
    lists, switching warnings on and off, and the default option set. The
    gringo application and the clingo control header carry identical copies
    of these helpers and of the option record, so they are modelled once. */
module FrontEndOptions {
  import opened BasicTypes

  // ---------------------------------------------------------------------------
  // Splitting
  // ---------------------------------------------------------------------------

  /** `source.find_first_of(delimiter, from)`: the first delimiter position
      at or after `from`, or the length of `s` for `npos`. */
  function FindFirstOf(s: string, delims: set<char>, from: nat): (n: nat)
    requires from <= |s|
    ensures from <= n <= |s|
    ensures n < |s| ==> s[n] in delims
    ensures forall k :: from <= k < n ==> s[k] !in delims
    decreases |s| - from
  {
    if from == |s| then |s|
    else if s[from] in delims then from
    else FindFirstOf(s, delims, from + 1)
  }

  /** Every piece of `s` from `from` on between delimiter characters, the
      empty ones and the last one included. */
  function Pieces(s: string, delims: set<char>, from: nat): (ps: seq<string>)
    requires from <= |s|
    ensures |ps| > 0
    decreases |s| - from
  {
    var n := FindFirstOf(s, delims, from);
    if n == |s| then [s[from..]]
    else [s[from..n]] + Pieces(s, delims, n + 1)
  }

  /** The pieces that are not empty. */
  function NonEmpty(ps: seq<string>): seq<string> {
    if ps == [] then []
    else (if ps[0] == [] then [] else [ps[0]]) + NonEmpty(ps[1..])
  }

  /** The pieces without the last one when that one is empty. */
  function DropEmptyLast(ps: seq<string>): seq<string> {
    if ps != [] && ps[|ps| - 1] == [] then ps[..|ps| - 1] else ps
  }

  /** What `split` keeps of the pieces: the non-empty ones, or with
      `keepEmpty` all but an empty last one. */
  function Kept(ps: seq<string>, keepEmpty: bool): seq<string> {
    if keepEmpty then DropEmptyLast(ps) else NonEmpty(ps)
  }

  /** The result of `split(source, delimiter, keepEmpty)`. */
  function SplitOf(s: string, delims: set<char>, keepEmpty: bool): seq<string> {
    Kept(Pieces(s, delims, 0), keepEmpty)
  }

  /** Keeping distributes over a leading piece that is followed by more. */
  lemma KeptCons(p: string, rest: seq<string>, keepEmpty: bool)
    requires rest != []
    ensures Kept([p] + rest, keepEmpty) == (if keepEmpty || p != [] then [p] else []) + Kept(rest, keepEmpty)
  {
    if !keepEmpty {
      assert ([p] + rest)[1..] == rest;
    }
  }

  /** One turn of the loop in `split`: the piece before the next delimiter,
      then the pieces after it. */
  lemma SplitStep(s: string, delims: set<char>, prev: nat, keepEmpty: bool)
    requires prev <= |s| && FindFirstOf(s, delims, prev) < |s|
    ensures var next := FindFirstOf(s, delims, prev);
      Kept(Pieces(s, delims, prev), keepEmpty)
      == (if keepEmpty || next - prev != 0 then [s[prev..next]] else []) + Kept(Pieces(s, delims, next + 1), keepEmpty)
  {
    var next := FindFirstOf(s, delims, prev);
    KeptCons(s[prev..next], Pieces(s, delims, next + 1), keepEmpty);
  }

  /** After the last delimiter only a non-empty rest is kept. */
  lemma SplitLast(s: string, delims: set<char>, prev: nat, keepEmpty: bool)
    requires prev <= |s| && FindFirstOf(s, delims, prev) == |s|
    ensures Kept(Pieces(s, delims, prev), keepEmpty) == (if prev < |s| then [s[prev..]] else [])
  {
    assert Pieces(s, delims, prev) == [s[prev..]];
    if !keepEmpty {
      assert [s[prev..]][1..] == [];
      assert NonEmpty([]) == [];
    }
  }

  /** The kept pieces so far, then a piece if it is kept, then the rest. */
  lemma KeepPiece(results: seq<string>, piece: string, keep: bool, rest: seq<string>)
    ensures results + ((if keep then [piece] else []) + rest) ==
      (if keep then results + [piece] else results) + rest
  {
    if !keep {
      assert [] + rest == rest;
    }
  }

  /** One turn of the loop in `split`: the kept pieces so far followed by
      those kept from `prev` on stay equal to `whole` when the piece before
      the next delimiter is moved to the front part. */
  lemma SplitAdvance(s: string, delims: set<char>, prev: nat, keepEmpty: bool,
                     whole: seq<string>, results: seq<string>, results': seq<string>)
    requires prev <= |s| && FindFirstOf(s, delims, prev) < |s|
    requires whole == results + Kept(Pieces(s, delims, prev), keepEmpty)
    requires var next := FindFirstOf(s, delims, prev);
      results' == if keepEmpty || next - prev != 0 then results + [s[prev..next]] else results
    ensures whole == results' + Kept(Pieces(s, delims, FindFirstOf(s, delims, prev) + 1), keepEmpty)
  {
    var next := FindFirstOf(s, delims, prev);
    var rest := Kept(Pieces(s, delims, next + 1), keepEmpty);
    var keep := keepEmpty || next - prev != 0;
    SplitStep(s, delims, prev, keepEmpty);
    assert Kept(Pieces(s, delims, prev), keepEmpty) == (if keep then [s[prev..next]] else []) + rest;
    KeepPiece(results, s[prev..next], keep, rest);
  }

  /** `split`: the loop over delimiter positions, keeping empty pieces only
      when asked, and the rest after the last delimiter when it is not
      empty. */
  method Split(source: string, delims: set<char>, keepEmpty: bool) returns (results: seq<string>)
    ensures results == SplitOf(source, delims, keepEmpty)
  {
    ghost var whole := SplitOf(source, delims, keepEmpty);
    results := [];
    var prev := 0;
    var next := FindFirstOf(source, delims, prev);
    assert whole == results + Kept(Pieces(source, delims, prev), keepEmpty);
    while next < |source|
      invariant prev <= next <= |source|
      invariant next == FindFirstOf(source, delims, prev)
      invariant whole == results + Kept(Pieces(source, delims, prev), keepEmpty)
      decreases |source| - prev
    {
      ghost var before := results;
      if keepEmpty || next - prev != 0 {
        results := results + [source[prev..next]];
      }
      SplitAdvance(source, delims, prev, keepEmpty, whole, before, results);
      prev := next + 1;
      next := FindFirstOf(source, delims, prev);
    }
    SplitLast(source, delims, prev, keepEmpty);
    if prev < |source| {
      results := results + [source[prev..]];
    }
  }

  /** No piece holds a delimiter. */
  lemma {:induction false} PiecesHaveNoDelimiter(s: string, delims: set<char>, from: nat)
    requires from <= |s|
    ensures forall p, c :: p in Pieces(s, delims, from) && c in p ==> c !in delims
    decreases |s| - from
  {
    var n := FindFirstOf(s, delims, from);
    if n < |s| {
      PiecesHaveNoDelimiter(s, delims, n + 1);
      forall c | c in s[from..n] ensures c !in delims {
        var k :| 0 <= k < n - from && s[from..n][k] == c;
        assert s[from + k] == c;
      }
    } else {
      forall c | c in s[from..] ensures c !in delims {
        var k :| 0 <= k < |s| - from && s[from..][k] == c;
        assert s[from + k] == c;
      }
    }
  }

  /** The pieces joined with `sep` between neighbours. */
  function Join(ps: seq<string>, sep: string): string {
    if ps == [] then []
    else if |ps| == 1 then ps[0]
    else ps[0] + sep + Join(ps[1..], sep)
  }

  /** With one delimiter character, joining the pieces gives the text back. */
  lemma {:induction false} JoinPieces(s: string, c: char, from: nat)
    requires from <= |s|
    ensures Join(Pieces(s, {c}, from), [c]) == s[from..]
    decreases |s| - from
  {
    var n := FindFirstOf(s, {c}, from);
    if n < |s| {
      JoinPieces(s, c, n + 1);
      var rest := Pieces(s, {c}, n + 1);
      assert Pieces(s, {c}, from)[1..] == rest;
      assert s[from..] == s[from..n] + [c] + s[n + 1..];
    }
  }

  /** A stretch without delimiters is skipped by the search. */
  lemma {:induction false} SkipPlain(s: string, delims: set<char>, from: nat, stop: nat)
    requires from <= stop <= |s|
    requires forall k :: from <= k < stop ==> s[k] !in delims
    ensures FindFirstOf(s, delims, from) == FindFirstOf(s, delims, stop)
    decreases stop - from
  {
    if from < stop {
      SkipPlain(s, delims, from + 1, stop);
    }
  }

  /** A last piece without the delimiter is read whole. */
  lemma PiecesLast(p: string, x: string, c: char)
    requires c !in x
    ensures Pieces(p + x, {c}, |p|) == [x]
  {
    var s := p + x;
    forall k | |p| <= k < |s| ensures s[k] !in {c} {
      assert s[k] == x[k - |p|];
    }
    SkipPlain(s, {c}, |p|, |s|);
    assert s[|p|..] == x;
  }

  /** A piece without the delimiter, then the delimiter, is read as that
      piece before the pieces of the rest. */
  lemma PiecesCons(s: string, from: nat, x: string, c: char, next: nat)
    requires next == from + |x| + 1 <= |s| && s[from..from + |x|] == x && s[from + |x|] == c
    requires c !in x
    ensures Pieces(s, {c}, from) == [x] + Pieces(s, {c}, next)
  {
    forall k | from <= k < from + |x| ensures s[k] !in {c} {
      assert s[k] == s[from..from + |x|][k - from];
    }
    SkipPlain(s, {c}, from, from + |x|);
  }

  /** Splitting what was joined with a character none of the pieces holds
      gives the pieces back, after any text `p` before them. */
  lemma {:induction false} PiecesOfJoin(p: string, ps: seq<string>, c: char)
    requires ps != []
    requires forall k :: 0 <= k < |ps| ==> c !in ps[k]
    ensures Pieces(p + Join(ps, [c]), {c}, |p|) == ps
    decreases |ps|
  {
    if |ps| == 1 {
      PiecesLast(p, ps[0], c);
    } else {
      var r := Join(ps[1..], [c]);
      var q := p + ps[0] + [c];
      assert p + Join(ps, [c]) == q + r;
      assert |q| == |p| + |ps[0]| + 1;
      assert (q + r)[|p|..|p| + |ps[0]|] == ps[0] by {
        assert (q + r)[..|q|] == q;
        assert q[|p|..|p| + |ps[0]|] == ps[0];
      }
      assert (q + r)[|p| + |ps[0]|] == c;
      PiecesCons(q + r, |p|, ps[0], c, |q|);
      forall k | 0 <= k < |ps[1..]| ensures c !in ps[1..][k] {
        assert ps[1..][k] == ps[k + 1];
      }
      PiecesOfJoin(q, ps[1..], c);
      calc {
        Pieces(p + Join(ps, [c]), {c}, |p|);
        Pieces(q + r, {c}, |p|);
        [ps[0]] + Pieces(q + r, {c}, |q|);
        [ps[0]] + ps[1..];
        ps;
      }
    }
  }

  /** `split` with `keepEmpty` undoes a join whose last piece is not empty. */
  lemma SplitJoin(ps: seq<string>, c: char)
    requires ps != [] && ps[|ps| - 1] != []
    requires forall k :: 0 <= k < |ps| ==> c !in ps[k]
    ensures SplitOf(Join(ps, [c]), {c}, true) == ps
  {
    PiecesOfJoin([], ps, c);
    assert [] + Join(ps, [c]) == Join(ps, [c]);
  }

  /** The non-empty pieces are exactly the pieces that are not empty. */
  lemma {:induction false} NonEmptyMeans(ps: seq<string>)
    ensures forall p :: p in NonEmpty(ps) <==> p in ps && p != []
  {
    if ps != [] {
      NonEmptyMeans(ps[1..]);
      assert ps == [ps[0]] + ps[1..];
    }
  }

  /** What `split` returns never holds a delimiter, and without `keepEmpty`
      never holds an empty piece. */
  lemma SplitPieces(s: string, delims: set<char>, keepEmpty: bool)
    ensures forall p, c :: p in SplitOf(s, delims, keepEmpty) && c in p ==> c !in delims
    ensures !keepEmpty ==> forall p :: p in SplitOf(s, delims, keepEmpty) ==> p != []
  {
    PiecesHaveNoDelimiter(s, delims, 0);
    NonEmptyMeans(Pieces(s, delims, 0));
    var ps := Pieces(s, delims, 0);
    forall p | p in DropEmptyLast(ps) ensures p in ps {
      var k :| 0 <= k < |DropEmptyLast(ps)| && DropEmptyLast(ps)[k] == p;
      assert ps[k] == p;
    }
  }

  /** `FindFirstOf` is the first delimiter position from `from` on, or the
      length: any position with those properties is it. */
  lemma FindFirstOfIs(s: string, delims: set<char>, from: nat, m: nat)
    requires from <= m <= |s|
    requires m < |s| ==> s[m] in delims
    requires forall k :: from <= k < m ==> s[k] !in delims
    ensures FindFirstOf(s, delims, from) == m
  {
  }

  /** The pieces of `s == p + q` from a position inside `q` are those of `q`. */
  lemma {:induction false} PiecesShift(s: string, p: string, q: string, delims: set<char>, k: nat)
    requires s == p + q && k <= |q|
    ensures Pieces(s, delims, |p| + k) == Pieces(q, delims, k)
    decreases |q| - k
  {
    var m := FindFirstOf(q, delims, k);
    FindFirstOfIs(s, delims, |p| + k, |p| + m);
    assert s[|p| + k..|p| + m] == q[k..m];
    if m == |q| {
      assert s[|p| + k..] == q[k..];
    } else {
      PiecesShift(s, p, q, delims, m + 1);
    }
  }

  /** A delimiter between `x` and `y` separates their pieces: the pieces of
      `x + [c] + y` from a position in `x` are those of `x` from there, then
      those of `y`. */
  lemma {:induction false} PiecesAround(x: string, c: char, y: string, delims: set<char>, from: nat)
    requires c in delims && from <= |x|
    ensures Pieces(x + [c] + y, delims, from) == Pieces(x, delims, from) + Pieces(y, delims, 0)
    decreases |x| - from
  {
    var n := FindFirstOf(x, delims, from);
    if n < |x| {
      PiecesAround(x, c, y, delims, n + 1);
      assert (x + [c] + y)[..|x|] == x;
      PiecesAroundFound(x + [c] + y, x, delims, from, Pieces(y, delims, 0));
    } else {
      PiecesAroundLast(x, c, y, delims, from);
    }
  }

  /** `PiecesAround` when `x` has a delimiter from `from` on: the piece up to
      it is the same in `x` and in the longer `s`, and the pieces after it
      are `after` in `s`. */
  lemma PiecesAroundFound(s: string, x: string, delims: set<char>, from: nat, rest: seq<string>)
    requires |x| <= |s| && s[..|x|] == x
    requires from <= |x| && FindFirstOf(x, delims, from) < |x|
    requires var n := FindFirstOf(x, delims, from);
      Pieces(s, delims, n + 1) == Pieces(x, delims, n + 1) + rest
    ensures Pieces(s, delims, from) == Pieces(x, delims, from) + rest
  {
    var n := FindFirstOf(x, delims, from);
    var head, tail := [x[from..n]], Pieces(x, delims, n + 1);
    assert Pieces(s, delims, from) == head + (tail + rest) by {
      forall k | from <= k <= n
        ensures s[k] == x[k]
      {
        assert s[..|x|][k] == s[k];
      }
      FindFirstOfIs(s, delims, from, n);
      assert s[from..n] == x[from..n];
      PiecesBefore(s, delims, from, n);
    }
    assert Pieces(x, delims, from) == head + tail by {
      PiecesBefore(x, delims, from, n);
    }
    assert head + (tail + rest) == (head + tail) + rest;
  }

  /** `PiecesAround` when `x` has no delimiter from `from` on. */
  lemma PiecesAroundLast(x: string, c: char, y: string, delims: set<char>, from: nat)
    requires c in delims && from <= |x| && FindFirstOf(x, delims, from) == |x|
    ensures Pieces(x + [c] + y, delims, from) == Pieces(x, delims, from) + Pieces(y, delims, 0)
  {
    var s := x + [c] + y;
    assert Pieces(s, delims, from) == [x[from..]] + Pieces(s, delims, |x| + 1) by {
      FindFirstOfIs(s, delims, from, |x|);
      assert s[from..|x|] == x[from..];
      PiecesAt(s, delims, from);
    }
    PiecesShift(s, x + [c], y, delims, 0);
    PiecesAt(x, delims, from);
  }

  /** The piece before the delimiter at `n`, then the pieces after it. */
  lemma PiecesBefore(s: string, delims: set<char>, from: nat, n: nat)
    requires from <= n < |s| && FindFirstOf(s, delims, from) == n
    ensures Pieces(s, delims, from) == [s[from..n]] + Pieces(s, delims, n + 1)
  {
  }

  /** One piece, then the pieces after its delimiter. */
  lemma PiecesAt(s: string, delims: set<char>, from: nat)
    requires from <= |s|
    ensures var n := FindFirstOf(s, delims, from);
      Pieces(s, delims, from) == if n == |s| then [s[from..]] else [s[from..n]] + Pieces(s, delims, n + 1)
  {
  }

  /** Dropping empty pieces distributes over concatenation. */
  lemma {:induction false} NonEmptyAppend(ps: seq<string>, qs: seq<string>)
    ensures NonEmpty(ps + qs) == NonEmpty(ps) + NonEmpty(qs)
    decreases |ps|
  {
    if ps != [] {
      assert (ps + qs)[1..] == ps[1..] + qs;
      NonEmptyAppend(ps[1..], qs);
    } else {
      assert ps + qs == qs;
    }
  }

  /** The empty text is one empty piece. */
  lemma PiecesOfEmpty(delims: set<char>)
    ensures Pieces([], delims, 0) == [[]]
  {
    assert FindFirstOf([], delims, 0) == 0;
  }

  /** A trailing delimiter adds no piece: with `keepEmpty`, `s` followed by a
      delimiter splits into all the pieces of `s`, its empty ones and its
      last one included; without it, into the same pieces as `s`. */
  lemma SplitTrailingDelimiter(s: string, c: char, delims: set<char>)
    requires c in delims
    ensures SplitOf(s + [c], delims, true) == Pieces(s, delims, 0)
    ensures SplitOf(s + [c], delims, false) == SplitOf(s, delims, false)
  {
    PiecesAround(s, c, [], delims, 0);
    PiecesOfEmpty(delims);
    assert s + [c] + [] == s + [c];
    NonEmptyAppend(Pieces(s, delims, 0), [[]]);
    assert NonEmpty([[]]) == [] + NonEmpty([]);
  }

  /** Without `keepEmpty` a doubled delimiter splits like a single one. */
  lemma DoubledDelimiter(a: string, b: string, c: char, delims: set<char>)
    requires c in delims
    ensures SplitOf(a + [c, c] + b, delims, false) == SplitOf(a + [c] + b, delims, false)
  {
    var cb := [c] + b;
    var pa, pb, pcb := Pieces(a, delims, 0), Pieces(b, delims, 0), Pieces(cb, delims, 0);
    assert a + [c, c] + b == a + [c] + cb;
    PiecesAround(a, c, cb, delims, 0);
    assert cb == [] + [c] + b;
    PiecesAround([], c, b, delims, 0);
    PiecesOfEmpty(delims);
    assert pcb == [[]] + pb;
    PiecesAround(a, c, b, delims, 0);
    NonEmptyAppend(pa, pcb);
    NonEmptyAppend([[]], pb);
    assert NonEmpty([[]]) == [] + NonEmpty([]);
    assert NonEmpty(pcb) == NonEmpty(pb);
    NonEmptyAppend(pa, pb);
  }

  /** Without `keepEmpty` a delimiter at both ends changes nothing. */
  lemma OuterDelimiters(s: string, c: char, delims: set<char>)
    requires c in delims
    ensures SplitOf([c] + s + [c], delims, false) == SplitOf(s, delims, false)
  {
    assert [c] + s + [c] == [] + [c] + (s + [c]);
    PiecesAround([], c, s + [c], delims, 0);
    PiecesOfEmpty(delims);
    NonEmptyAppend([[]], Pieces(s + [c], delims, 0));
    assert NonEmpty([[]]) == [] + NonEmpty([]);
    SplitTrailingDelimiter(s, c, delims);
  }

  /** A text ending in a delimiter gives no trailing empty piece, even with
      `keepEmpty`, while empty pieces between delimiters are kept. */
  lemma SplitTrailing()
    ensures SplitOf("a,,b,", {','}, true) == ["a", "", "b"]
    ensures SplitOf("a,,b,", {','}, false) == ["a", "b"]
  {
    var s := "a,,b,";
    assert FindFirstOf(s, {','}, 0) == 1;
    assert FindFirstOf(s, {','}, 2) == 2;
    assert FindFirstOf(s, {','}, 3) == 4;
    assert FindFirstOf(s, {','}, 5) == 5;
    assert s[5..] == "" && s[3..4] == "b" && s[2..2] == "" && s[0..1] == "a";
    assert Pieces(s, {','}, 5) == [""];
    assert Pieces(s, {','}, 3) == ["b", ""];
    assert Pieces(s, {','}, 2) == ["", "b", ""];
    assert Pieces(s, {','}, 0) == ["a", "", "b", ""];
    assert NonEmpty(["a", "", "b", ""]) == ["a"] + NonEmpty(["", "b", ""]);
    assert NonEmpty(["", "b", ""]) == NonEmpty(["b", ""]);
    assert NonEmpty(["b", ""]) == ["b"] + NonEmpty([""]);
    assert NonEmpty([""]) == NonEmpty([]);
  }

  // ---------------------------------------------------------------------------
  // The option record
  // ---------------------------------------------------------------------------

  /** The output formats the helpers set or default to; the other formats
      are chosen by options outside this model. */
  datatype OutputFormat = Intermediate | Text

  /** The debug output level; only its default is set here. */
  datatype OutputDebug = DebugNone

  /** The warnings that can be switched off. */
  datatype Warning = OperationUndefined | AtomUndefined | FileIncluded | VariableUnbounded | GlobalVariable

  /** The name of a warning on the command line. */
  function WarningName(w: Warning): string {
    match w
    case OperationUndefined => "operation-undefined"
    case AtomUndefined => "atom-undefined"
    case FileIncluded => "file-included"
    case VariableUnbounded => "variable-unbounded"
    case GlobalVariable => "global-variable"
  }

  /** The command-line text that switches a warning off (`no-X`) or on (`X`). */
  function WarningText(w: Warning, off: bool): string {
    (if off then "no-" else "") + WarningName(w)
  }

  /** The warning named `name`, if any. */
  function WarningNamed(name: string): (r: Option<Warning>)
    ensures r.Some? ==> name == WarningName(r.value)
  {
    if name == "atom-undefined" then Some(AtomUndefined)
    else if name == "file-included" then Some(FileIncluded)
    else if name == "operation-undefined" then Some(OperationUndefined)
    else if name == "variable-unbounded" then Some(VariableUnbounded)
    else if name == "global-variable" then Some(GlobalVariable)
    else None
  }

  /** What `parseWarning` recognises in `str`: the warning and whether it is
      switched off. The source compares `str` with the ten texts in turn;
      no warning name starts with `no-`, so reading the prefix first and
      then the name picks the same entry. */
  function WarningSetting(str: string): (r: Option<(Warning, bool)>)
    ensures r.Some? ==> str == WarningText(r.value.0, r.value.1)
  {
    if |str| >= 3 && str[..3] == "no-" then
      match WarningNamed(str[3..])
      case Some(w) => (assert str == "no-" + str[3..]; Some((w, true)))
      case None => None
    else
      match WarningNamed(str)
      case Some(w) => Some((w, false))
      case None => None
  }

  /** Every warning text is recognised as itself, so `parseWarning` accepts
      exactly the ten texts. */
  lemma WarningRoundTrip(w: Warning, off: bool)
    ensures WarningSetting(WarningText(w, off)) == Some((w, off))
  {
    NamedRoundTrip(w);
    if off {
      WarningOff(w);
    } else {
      WarningOn(w);
    }
  }

  /** Each warning's name names it. */
  lemma NamedRoundTrip(w: Warning)
    ensures WarningNamed(WarningName(w)) == Some(w)
  {
    match w
    case AtomUndefined =>
    case FileIncluded =>
      assert WarningName(w)[0] != "atom-undefined"[0];
    case OperationUndefined =>
      assert WarningName(w)[0] != "atom-undefined"[0] && WarningName(w)[0] != "file-included"[0];
    case VariableUnbounded =>
      assert WarningName(w)[0] !in {'a', 'f', 'o'};
    case GlobalVariable =>
      assert WarningName(w)[0] !in {'a', 'f', 'o', 'v'};
  }

  lemma WarningOff(w: Warning)
    requires WarningNamed(WarningName(w)) == Some(w)
    ensures WarningSetting("no-" + WarningName(w)) == Some((w, true))
  {
    var t := "no-" + WarningName(w);
    assert t[..3] == "no-" && t[3..] == WarningName(w);
  }

  lemma WarningOn(w: Warning)
    requires WarningNamed(WarningName(w)) == Some(w)
    ensures WarningSetting(WarningName(w)) == Some((w, false))
  {
    var t := WarningName(w);
    assert t[0] != 'n';
    assert |t| < 3 || t[..3][0] != 'n';
  }

  /** A signature `name/arity` as given to the `foobar` option. */
  datatype Signature = Signature(name: string, arity: nat)

  /** What `parseFoobar` appends for the items `xs`, and whether every item
      was well formed; reading stops at the first bad item. `castUnsigned`
      stands for the unsigned conversion of the option library. */
  function Signatures(xs: seq<string>, castUnsigned: string -> Option<nat>): (seq<Signature>, bool)
  {
    if xs == [] then ([], true)
    else
      var y := SplitOf(xs[0], {'/'}, false);
      if |y| != 2 then ([], false)
      else if castUnsigned(y[1]).None? then ([], false)
      else
        var rest := Signatures(xs[1..], castUnsigned);
        ([Signature(y[0], castUnsigned(y[1]).value)] + rest.0, rest.1)
  }

  /** An item is well formed when it splits into exactly a name and an
      unsigned arity. */
  predicate WellFormedItem(x: string, castUnsigned: string -> Option<nat>) {
    var y := SplitOf(x, {'/'}, false);
    |y| == 2 && castUnsigned(y[1]).Some?
  }

  /** Reading succeeds exactly when every item is well formed, and then one
      signature is appended per item, in order; otherwise the items before
      the first bad one are appended. */
  lemma {:induction false} SignaturesMeans(xs: seq<string>, castUnsigned: string -> Option<nat>)
    ensures Signatures(xs, castUnsigned).1 <==> forall k :: 0 <= k < |xs| ==> WellFormedItem(xs[k], castUnsigned)
    ensures Signatures(xs, castUnsigned).1 ==> |Signatures(xs, castUnsigned).0| == |xs|
    ensures !Signatures(xs, castUnsigned).1 ==>
      exists bad :: 0 <= bad < |xs| && !WellFormedItem(xs[bad], castUnsigned)
        && |Signatures(xs, castUnsigned).0| == bad
        && forall k :: 0 <= k < bad ==> WellFormedItem(xs[k], castUnsigned)
  {
    if xs != [] {
      SignaturesMeans(xs[1..], castUnsigned);
      if WellFormedItem(xs[0], castUnsigned) {
        forall k | 1 <= k < |xs| ensures xs[k] == xs[1..][k - 1] { }
        if !Signatures(xs, castUnsigned).1 {
          var bad :| 0 <= bad < |xs[1..]| && !WellFormedItem(xs[1..][bad], castUnsigned)
            && |Signatures(xs[1..], castUnsigned).0| == bad
            && forall k :: 0 <= k < bad ==> WellFormedItem(xs[1..][k], castUnsigned);
          assert forall k :: 0 <= k < bad + 1 ==> WellFormedItem(xs[k], castUnsigned) by {
            forall k | 0 <= k < bad + 1 ensures WellFormedItem(xs[k], castUnsigned) {
              if k > 0 { assert xs[k] == xs[1..][k - 1]; }
            }
          }
          assert xs[bad + 1] == xs[1..][bad];
        }
      }
    }
  }

  /** Reading from item `i` on: a bad item stops, a good one is appended
      before the rest. */
  lemma SignaturesStep(xs: seq<string>, i: nat, castUnsigned: string -> Option<nat>)
    requires i < |xs|
    ensures var y := SplitOf(xs[i], {'/'}, false);
      Signatures(xs[i..], castUnsigned)
      == if |y| != 2 || castUnsigned(y[1]).None? then ([], false)
         else ([Signature(y[0], castUnsigned(y[1]).value)] + Signatures(xs[i + 1..], castUnsigned).0,
               Signatures(xs[i + 1..], castUnsigned).1)
  {
    assert xs[i..][0] == xs[i] && xs[i..][1..] == xs[i + 1..];
  }

  /** One item of `parseFoobar`'s loop: a bad item ends the result with the
      signatures read so far and failure; a good one moves its signature to
      the part read. */
  lemma ReadItem(whole: (seq<Signature>, bool), added: seq<Signature>, xs: seq<string>, i: nat,
                 castUnsigned: string -> Option<nat>)
    requires i < |xs|
    requires whole == (added + Signatures(xs[i..], castUnsigned).0, Signatures(xs[i..], castUnsigned).1)
    ensures var y := SplitOf(xs[i], {'/'}, false);
      if |y| != 2 || castUnsigned(y[1]).None? then whole == (added, false)
      else whole == (added + [Signature(y[0], castUnsigned(y[1]).value)] + Signatures(xs[i + 1..], castUnsigned).0,
                     Signatures(xs[i + 1..], castUnsigned).1)
  {
    SignaturesStep(xs, i, castUnsigned);
    var y := SplitOf(xs[i], {'/'}, false);
    if |y| != 2 || castUnsigned(y[1]).None? {
      assert added + [] == added;
    } else {
      var x := Signature(y[0], castUnsigned(y[1]).value);
      var rest := Signatures(xs[i + 1..], castUnsigned).0;
      assert added + ([x] + rest) == added + [x] + rest;
    }
  }

  /** A doubled slash is dropped before the count, so `p//1` reads as
      `p/1`. */
  lemma DoubledSlash()
    ensures SplitOf("p//1", {'/'}, false) == ["p", "1"]
  {
    var s := "p//1";
    assert FindFirstOf(s, {'/'}, 0) == 1;
    assert FindFirstOf(s, {'/'}, 2) == 2;
    assert FindFirstOf(s, {'/'}, 3) == 4;
    assert s[3..] == "1" && s[2..2] == "" && s[0..1] == "p";
    assert Pieces(s, {'/'}, 3) == ["1"];
    assert Pieces(s, {'/'}, 2) == ["", "1"];
    assert Pieces(s, {'/'}, 0) == ["p", "", "1"];
    assert NonEmpty(["p", "", "1"]) == ["p"] + NonEmpty(["", "1"]);
    assert NonEmpty(["", "1"]) == NonEmpty(["1"]);
    assert NonEmpty(["1"]) == ["1"] + NonEmpty([]);
  }

  /** Outer slashes are dropped too, so `/p/1/` reads as `p/1`. */
  lemma OuterSlashes()
    ensures SplitOf("/p/1/", {'/'}, false) == ["p", "1"]
  {
    var t := "/p/1/";
    assert FindFirstOf(t, {'/'}, 0) == 0;
    assert FindFirstOf(t, {'/'}, 1) == 2;
    assert FindFirstOf(t, {'/'}, 3) == 4;
    assert FindFirstOf(t, {'/'}, 5) == 5;
    assert t[5..] == "" && t[3..4] == "1" && t[1..2] == "p" && t[0..0] == "";
    assert Pieces(t, {'/'}, 5) == [""];
    assert Pieces(t, {'/'}, 3) == ["1", ""];
    assert Pieces(t, {'/'}, 1) == ["p", "1", ""];
    assert Pieces(t, {'/'}, 0) == ["", "p", "1", ""];
    assert NonEmpty(["", "p", "1", ""]) == NonEmpty(["p", "1", ""]);
    assert NonEmpty(["p", "1", ""]) == ["p"] + NonEmpty(["1", ""]);
    assert NonEmpty(["1", ""]) == ["1"] + NonEmpty([""]);
    assert NonEmpty([""]) == NonEmpty([]);
  }

  /** `GringoOptions` (and the identical `ClingoOptions`): the settings the
      front end reads from the command line. */
  class GringoOptions {
    var defines: seq<string>
    var outputDebug: OutputDebug
    var outputFormat: OutputFormat
    var verbose: bool
    var wNoOperationUndefined: bool
    var wNoAtomUndef: bool
    var wNoFileIncluded: bool
    var wNoVariableUnbounded: bool
    var wNoGlobalVariable: bool
    var rewriteMinimize: bool
    var keepFacts: bool
    var foobar: seq<Signature>

    /** Is warning `w` switched off? */
    function NoWarning(w: Warning): bool reads this {
      match w
      case OperationUndefined => wNoOperationUndefined
      case AtomUndefined => wNoAtomUndef
      case FileIncluded => wNoFileIncluded
      case VariableUnbounded => wNoVariableUnbounded
      case GlobalVariable => wNoGlobalVariable
    }

    /** The defaults: no defines, no debug output, the intermediate format,
        every warning on and every other switch off, no signatures. */
    constructor ()
      ensures defines == [] && outputDebug == DebugNone && outputFormat == Intermediate
      ensures !verbose && !rewriteMinimize && !keepFacts && foobar == []
      ensures forall w :: !NoWarning(w)
    {
      defines := [];
      outputDebug := DebugNone;
      outputFormat := Intermediate;
      verbose := false;
      wNoOperationUndefined := false;
      wNoAtomUndef := false;
      wNoFileIncluded := false;
      wNoVariableUnbounded := false;
      wNoGlobalVariable := false;
      rewriteMinimize := false;
      keepFacts := false;
      foobar := [];
    }

    /** `parseWarning`: a recognised `no-X` switches warning X off, `X`
        switches it on, nothing else changes; anything else is rejected and
        changes nothing. */
    method ParseWarning(str: string) returns (ok: bool)
      modifies this`wNoOperationUndefined, this`wNoAtomUndef, this`wNoFileIncluded,
        this`wNoVariableUnbounded, this`wNoGlobalVariable
      ensures ok <==> WarningSetting(str).Some?
      ensures ok ==> NoWarning(WarningSetting(str).value.0) == WarningSetting(str).value.1
      ensures forall w :: !(ok && w == WarningSetting(str).value.0) ==> NoWarning(w) == old(NoWarning(w))
    {
      var r := WarningSetting(str);
      if r.None? {
        return false;
      }
      match r.value.0 {
        case OperationUndefined => wNoOperationUndefined := r.value.1;
        case AtomUndefined => wNoAtomUndef := r.value.1;
        case FileIncluded => wNoFileIncluded := r.value.1;
        case VariableUnbounded => wNoVariableUnbounded := r.value.1;
        case GlobalVariable => wNoGlobalVariable := r.value.1;
      }
      return true;
    }

    /** `parseText`: the output format becomes text. */
    method ParseText(str: string) returns (ok: bool)
      modifies this`outputFormat
      ensures ok && outputFormat == Text
    {
      outputFormat := Text;
      return true;
    }

    /** `parseFoobar`: the comma-separated items are read in order and
        appended; the first bad item stops the reading with the items before
        it already appended. */
    method ParseFoobar(str: string, castUnsigned: string -> Option<nat>) returns (ok: bool)
      modifies this`foobar
      ensures var r := Signatures(SplitOf(str, {','}, false), castUnsigned);
        ok == r.1 && foobar == old(foobar) + r.0
    {
      var items := Split(str, {','}, false);
      ghost var whole := Signatures(items, castUnsigned);
      ghost var added: seq<Signature> := [];
      var i := 0;
      assert items[0..] == items && [] + whole.0 == whole.0;
      while i < |items|
        invariant 0 <= i <= |items|
        invariant foobar == old(foobar) + added
        invariant whole == (added + Signatures(items[i..], castUnsigned).0, Signatures(items[i..], castUnsigned).1)
      {
        ReadItem(whole, added, items, i, castUnsigned);
        var y := Split(items[i], {'/'}, false);
        if |y| != 2 {
          return false;
        }
        var a := castUnsigned(y[1]);
        if a.None? {
          return false;
        }
        foobar := foobar + [Signature(y[0], a.value)];
        added := added + [Signature(y[0], a.value)];
        i := i + 1;
      }
      assert items[i..] == [];
      assert added + [] == added;
      return true;
    }
  }
}
