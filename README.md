# A Dafny model of clingcon's core data structures

clingcon is a constraint answer set solver: it grounds a logic program with
gringo, solves it with clasp, and handles integer constraints through an order
encoding. This project models the sequential core of that system together with
the small FlatZinc answer converter shipped beside it, and proves properties of
the model. Each Dafny module follows one source file (or one part of it):

| module | file | what it models |
|---|---|---|
| `Converter` | `converter.dfy` | the FlatZinc answer converter: every line after an `Answer:` line becomes `int_eq` / `bool_clause` constraints; the exit status says whether anything was converted |
| `OrderDomain` | `domain.dfy` | integer domains as normal range lists (sorted, non-empty, neither overlapping nor touching) and the pure meaning of every domain operation |
| `Domains` | `domain_class.dfy` | `order::Domain`, editing its range list in place, each method proved against `OrderDomain` |
| `DomainIterator` | `domain_iterator.dfy` | the domain's `const_iterator` arithmetic, proved against the number of values before a position |
| `LiteralStorage` | `storage.dfy` | `orderStorage`, the vector/map store of a variable's order literals with flagged sentinels and map-to-vector conversion |
| `Variables` | `variables.dfy` | `VariableCreator`: variable domains replaced only on success, order literal memory, and the literal getters and setters |
| `Levels` | `levels.dfy` | `VariableStorage`, the per-level stack of restrictors |
| `Constraints` | `constraint.dfy` | linear constraints, reified constraints and `ReifiedAllDistinct` |
| `Equalities` | `equality.dfy` | equality classes of variables and their edges |
| `Propagation` | `propagator.dfy` | the linear propagator's constraint store, work queue, watch lists and bound propagation |
| `Normalizing` | `normalizer.dfy` | the normaliser's literal estimates, simple-domain derivation, constraint compaction and pairwise unequal encoding |
| `TheoryParsing` | `theoryparser.dfy` | reading constraint names, guards, numbers and variables from theory terms |
| `BasicTypes` | `basic_types.dfy` | Potassco's atoms, literals, weight literals, spans and body types, plus decimal printing |
| `TheoryTerms` | `theory_term.dfy` | the tagged 64-bit `TheoryTerm` encoding |
| `TheoryStore` | `theory_data.dfy` | `TheoryData`'s id-indexed term and element tables, atoms, update frame and `filter` |
| `Aspif`, `AspifReader` | `aspif.dfy`, `aspif_reader.dfy` | the aspif writer and reader, with round trips between them |
| `Backends` | `backends.dfy` | gringo's intermediate-format and smodels output backends |
| `LogicProgramTypes` | `logic_program_types.dfy` | clasp's packed edges, node state, rule-simplification flags and non-HCF component set |
| `ProgramBuilder` | `program_builder.dfy` | clasp's SAT and PB builders: clause filter, hard and soft clauses, soft bounds, variable counter |
| `ClaspBits`, `ClaspClingo` | `clingo.dfy` | the theory propagator's watch set and its trail with undo stack |
| `FrontEndOptions` | `options.dfy` | the gringo and clingo option helpers: `split`, signature lists, warnings, defaults |
| `NongroundGrammarTest` | `grammar.dfy` | the string-building program builder used by gringo's parser tests |

Imperative code is modelled by classes whose methods are proved against
specification functions, and the properties of those functions are proved as
lemmas. The SAT solver is not modelled: clauses it would be given are
appended to a log, and what it would answer is passed in as a parameter.
Output streams become strings that grow. The aspif reader works on the
sequence of fields of its input lines.

## Model

| member | source | states |
|---|---|---|
| Converter.ReadLineIsLine | third_party/clingcon/flatzinc_skeleton-1.3/converter.py:14 | a line read holds no newline except a final one, which is missing only at the end of the input |
| Converter.LinesConcat | third_party/clingcon/flatzinc_skeleton-1.3/converter.py:13-16 | reading line by line until the empty string loses nothing: the lines put together are the input and none is empty |
| Converter.LinesCons | third_party/clingcon/flatzinc_skeleton-1.3/converter.py:14 | a text line ending in a newline is the first line read |
| Converter.FindFromCorrect | third_party/clingcon/flatzinc_skeleton-1.3/converter.py:19 | `find` gives the first occurrence at or after the start, and -1 exactly when there is none |
| Converter.ReplaceAll | third_party/clingcon/flatzinc_skeleton-1.3/converter.py:25 | `replace` turns every occurrence of the character into the other and changes nothing else |
| Converter.WordLengthMaximal | third_party/clingcon/flatzinc_skeleton-1.3/converter.py:21 | the leading word that `split` cuts off stops exactly at the first whitespace character |
| Converter.SplitTokens | third_party/clingcon/flatzinc_skeleton-1.3/converter.py:21 | the tokens of `split()` are non-empty and whitespace-free and together hold every non-whitespace character of the line, in order |
| Converter.SplitAtSpace | third_party/clingcon/flatzinc_skeleton-1.3/converter.py:21 | a single whitespace character separates the tokens on its two sides |
| Converter.SplitWord | third_party/clingcon/flatzinc_skeleton-1.3/converter.py:21 | a whitespace-free word splits into itself alone |
| Converter.WriteAtoms | third_party/clingcon/flatzinc_skeleton-1.3/converter.py:22-27 | the `for atom in line` loop writes the converted atoms one after the other and sets the exit status to 0 exactly when there is an atom |
| Converter.Run | third_party/clingcon/flatzinc_skeleton-1.3/converter.py:8-30 | the script's readline loop produces exactly the output and exit status of the whole-input specification `Converter` |
| Converter.ConvertAtomOneLine | third_party/clingcon/flatzinc_skeleton-1.3/converter.py:24-27 | a converted atom is one output line: it ends in the only newline it holds |
| Converter.EmitLines | third_party/clingcon/flatzinc_skeleton-1.3/converter.py:21-27 | each whitespace-separated token of an answer line yields exactly one output line, in token order |
| Converter.IntEqReplacesAll | third_party/clingcon/flatzinc_skeleton-1.3/converter.py:24-25 | a token holding '=' becomes `constraint int_eq(...)` whose argument is the token with every '=' turned into ',' |
| Converter.BoolClauseKeepsAtom | third_party/clingcon/flatzinc_skeleton-1.3/converter.py:26-27 | a token without '=' becomes `constraint bool_clause([token],[]);` with the token unchanged |
| Converter.AnswerAnywhere | third_party/clingcon/flatzinc_skeleton-1.3/converter.py:19-21 | a line holding "Answer:" anywhere, not only at its start, triggers the conversion of the next line, and scanning continues after it |
| Converter.SkipCrLf | third_party/clingcon/flatzinc_skeleton-1.3/converter.py:17-18 | a line that is exactly "\r\n" writes nothing and scanning continues with the next line |
| Converter.AnswerLineNotRescanned | third_party/clingcon/flatzinc_skeleton-1.3/converter.py:19-21 | the line taken after an "Answer:" line is converted even when it holds "Answer:" itself, and is not scanned again |
| Converter.ExtraArgument | third_party/clingcon/flatzinc_skeleton-1.3/converter.py:8-10 | any extra command-line argument gives the message and exit status 1 whatever the input |
| Converter.AnyAtomIffOutput | third_party/clingcon/flatzinc_skeleton-1.3/converter.py:22-27 | some atom was converted exactly when some text was written |
| Converter.StatusZeroIffOutput | third_party/clingcon/flatzinc_skeleton-1.3/converter.py:12-30 | the exit status is 0 exactly when some output was written |
| Converter.EmptyAnswerExitsOne | third_party/clingcon/flatzinc_skeleton-1.3/converter.py:20-23 | an "Answer:" line followed by an empty line converts nothing and exits with status 1 |
| Converter.NoAnswerLines | third_party/clingcon/flatzinc_skeleton-1.3/converter.py:13-20 | no line is converted exactly when no line read contains "Answer:" (a bare "\r\n" never counts) |
| Converter.NoAnswerNoOutput | third_party/clingcon/flatzinc_skeleton-1.3/converter.py:12-30 | input without an "Answer:" line writes nothing and exits with status 1, since `exit` keeps its initial value |
| OrderDomain.LowerBoundDecidesMem | third_party/clingcon/liborder/src/domain.cpp:19-25 | in a normal range list, the first range whose upper bound is not below x decides membership: x is a value iff it lies in that range |
| OrderDomain.NormalBounds | third_party/clingcon/liborder/src/domain.cpp:19-25 | every value of a normal list lies between the first lower and the last upper bound |
| OrderDomain.AbsorbCovers | third_party/clingcon/liborder/src/domain.cpp:343-401 | the ranges the widening loop of `add` absorbs start at or below the bound and end at or below the new upper bound, and together with it they fill every value in between |
| OrderDomain.PlaceInsert | third_party/clingcon/liborder/src/domain.cpp:343-401 | when the new range goes in before `it` on its own, the list stays normal and gains exactly its values |
| OrderDomain.PlaceWiden | third_party/clingcon/liborder/src/domain.cpp:343-401 | when the range at `it` is only widened downwards, the list stays normal and gains exactly the new values |
| OrderDomain.AbsorbMem | third_party/clingcon/liborder/src/domain.cpp:343-401 | the widened range holds exactly the values of the added range and of the ranges it swallows |
| OrderDomain.PlaceAbsorb | third_party/clingcon/liborder/src/domain.cpp:343-401 | when the range at `it` grows upwards it swallows exactly the ranges it reaches and the list stays normal |
| OrderDomain.PlaceFacts | third_party/clingcon/liborder/src/domain.cpp:343-401 | the middle part of `add` leaves a list that is normal except possibly at the range below the returned position, holding the old values and those of the added range |
| OrderDomain.MergeFacts | third_party/clingcon/liborder/src/domain.cpp:343-401 | merging the range below with the placed range restores the normal form without changing the values |
| OrderDomain.AddFacts | third_party/clingcon/liborder/src/domain.cpp:343-401 | the corrected `add` on a normal list keeps it sorted, disjoint and non-adjacent, the set becomes old ∪ [l,u], an empty range changes nothing, and the returned position holds the range |
| OrderDomain.AddAsWrittenFacts | third_party/clingcon/liborder/src/domain.cpp:343-401 | `add` as written still adds exactly the values of the range, but only keeps the ranges sorted and disjoint: two may touch |
| OrderDomain.AddAsWrittenLeavesTouching | third_party/clingcon/liborder/src/domain.cpp:381-395 | adding [1,6] to [0,0],[5,5] with the code as written leaves the touching ranges [0,0],[1,6] instead of the single range [0,6] |
| OrderDomain.NormalSlice | third_party/clingcon/liborder/src/domain.cpp:66-94 | a prefix or a suffix of a normal list is normal |
| OrderDomain.DropBelow | third_party/clingcon/liborder/src/domain.cpp:66-94 | the ranges `intersect` erases before the lower bound hold only values below it |
| OrderDomain.SplitAtUpper | third_party/clingcon/liborder/src/domain.cpp:66-94 | the ranges before the lower bound of `upper` end below it, and a value up to `upper` after them lies in the range at that bound |
| OrderDomain.CutUpperFacts | third_party/clingcon/liborder/src/domain.cpp:66-94 | cutting a normal list above `upper` keeps it normal and keeps exactly the values up to `upper`, reporting non-emptiness |
| OrderDomain.IntersectFacts | third_party/clingcon/liborder/src/domain.cpp:66-94 | `intersect(lower, upper)` keeps exactly old ∩ [lower,upper] in normal form and returns non-emptiness; lower > upper empties the domain and returns false |
| OrderDomain.FirstRangeBelow | third_party/clingcon/liborder/src/domain.cpp:135-168 | in a normal list a value not above the first upper bound and not below the first lower bound is in the first range |
| OrderDomain.ReplaceInside | third_party/clingcon/liborder/src/domain.cpp:135-168 | replacing one range by a normal list of ranges inside it keeps the list normal and changes the values accordingly |
| OrderDomain.RemoveValueFacts | third_party/clingcon/liborder/src/domain.cpp:135-168 | `remove(x)` deletes exactly x, splitting an interior range, and keeps the list normal |
| OrderDomain.UnifyFacts | third_party/clingcon/liborder/src/domain.cpp:170-183 | `unify`, as `remove(lower, upper)` uses it, keeps the list normal and yields the union of the two sets |
| OrderDomain.IntersectPart | third_party/clingcon/liborder/src/domain.cpp:170-183 | the part of a normal list between two bounds is a normal list holding exactly those values |
| OrderDomain.UnionOutside | third_party/clingcon/liborder/src/domain.cpp:170-183 | removing [lower,upper] from a list bounded by its extreme values leaves the part below `lower` and the part above `upper` |
| OrderDomain.RemoveRangeFacts | third_party/clingcon/liborder/src/domain.cpp:170-183 | `remove(lower, upper)` keeps exactly the values outside [lower,upper] in normal form and returns non-emptiness |
| OrderDomain.RemoveEmptyRange | third_party/clingcon/liborder/src/domain.cpp:170-174 | `remove(lower, upper)` with lower > upper changes nothing and returns true |
| OrderDomain.RemoveAllFacts | third_party/clingcon/liborder/src/domain.cpp:185-194 | `remove(d)` takes out exactly the values of d when it succeeds, and when it fails the domain is empty |
| OrderDomain.ReversedIs | third_party/clingcon/liborder/src/domain.cpp:276-298 | a list holding at each position the negated range from the other end is the reversed list |
| OrderDomain.ReversedFacts | third_party/clingcon/liborder/src/domain.cpp:276-298 | `reverse` negates the set (y is a value iff -y was one) and keeps the list normal |
| OrderDomain.ReversedTwice | third_party/clingcon/liborder/src/domain.cpp:276-298 | reversing twice gives the list back |
| OrderDomain.ShiftedIs | third_party/clingcon/liborder/src/domain.cpp:323-341 | the ranges before the first out-of-bounds one moved by d and the rest unchanged is what `+= d` leaves when it stops there |
| OrderDomain.ShiftedFacts | third_party/clingcon/liborder/src/domain.cpp:323-341 | moving every range by d keeps the list normal and y is a value iff y-d was one |
| OrderDomain.ShiftFacts | third_party/clingcon/liborder/src/domain.cpp:323-341 | `+= d` without overflow moves the set by d; it sets the overflow flag exactly when a moved bound leaves [min,max]; `+= 0` changes nothing |
| Domains.LowerBoundSearch | third_party/clingcon/liborder/src/domain.cpp:21 | the binary `lower_bound` search returns the first range at or after the start whose upper bound is not below v |
| Domains.MemInAll | third_party/clingcon/liborder/src/domain.cpp:27-51 | having visited every range of a list, the values seen are exactly its values |
| Domains.UpperBoundsAreValues | third_party/clingcon/liborder/src/domain.cpp:27-51 | every upper bound of a normal list is one of its values |
| Domains.QuotientExact | third_party/clingcon/liborder/src/domain.cpp:241-274 | q·m equals i exactly when i divides by m with quotient q |
| Domains.Domain.In | third_party/clingcon/liborder/src/domain.cpp:19-25 | `in(x)` returns true iff x lies in some range of the sorted range list |
| Domains.Domain.InAll | third_party/clingcon/liborder/src/domain.cpp:27-51 | `in(d)` returns true iff every value of d is a value of this domain |
| Domains.Domain.Add | third_party/clingcon/liborder/src/domain.cpp:343-401 | `add(start, r)` sets the ranges to the corrected `Add` of the old ranges: normal form kept, values old ∪ r, the result the position of the range holding r |
| Domains.Domain.PlaceAt | third_party/clingcon/liborder/src/domain.cpp:350-385 | the middle part of `add` once `it` is found leaves the ranges given by `Place` |
| Domains.Domain.AbsorbAt | third_party/clingcon/liborder/src/domain.cpp:366-385 | the widening branch gives the range at `it` the new bounds and erases every following range starting at or below u+1, as `Absorb` says |
| Domains.Domain.Intersect | third_party/clingcon/liborder/src/domain.cpp:66-94 | `intersect(lower, upper)` leaves the ranges of the specification `Intersect` and returns its non-emptiness flag |
| Domains.Domain.RemoveValue | third_party/clingcon/liborder/src/domain.cpp:135-168 | `remove(x)` leaves the ranges of `RemoveValue` and returns whether any value is left |
| Domains.Domain.CutAt | third_party/clingcon/liborder/src/domain.cpp:141-166 | once the range holding x is found, it is shrunk at an end, dropped when it held only x, or split around x |
| Domains.Domain.UnifyWith | third_party/clingcon/liborder/src/domain.cpp:180 | `unify(d)` adds the ranges of d in turn from the front, leaving the ranges of `Unify` |
| Domains.Domain.RemoveRange | third_party/clingcon/liborder/src/domain.cpp:170-183 | `remove(lower, upper)` cuts the part below into a copy, the part above here, unifies them and leaves the ranges of `RemoveRange` |
| Domains.Domain.Reverse | third_party/clingcon/liborder/src/domain.cpp:276-298 | the two-cursor swap-and-negate loop leaves exactly the reversed, negated list |
| Domains.Domain.ShiftBy | third_party/clingcon/liborder/src/domain.cpp:323-341 | `+= d` moves the ranges one by one, stopping with the overflow flag at the first that leaves [min,max], as `Shift` says |
| Domains.Domain.ConstrainDomain | third_party/clingcon/liborder/src/domain.cpp:53-64 | `constrainDomain(times, c, div)` keeps exactly the values i with (times·i+c) % div == 0 and returns non-emptiness |
| Domains.Domain.InplaceDivide | third_party/clingcon/liborder/src/domain.cpp:241-274 | `inplace_divide(n)` keeps the normal form and afterwards q is a value iff q·n was a value before, for every q other than the loop sentinel -min-1 |
| Domains.Domain.RemoveAll | third_party/clingcon/liborder/src/domain.cpp:185-194 | `remove(d)` removes the ranges of d in turn and gives up as soon as a removal leaves the domain empty, as `RemoveAll` says |
| DomainIterator.PrefixGrows | third_party/clingcon/liborder/src/domain.cpp:449-463 | every range of a normal list holds a value, so the counts of values before each range grow |
| DomainIterator.NextPos | third_party/clingcon/liborder/src/domain.cpp:403-415 | `++` moves an iterator on a value to the position of the next value |
| DomainIterator.PrevPos | third_party/clingcon/liborder/src/domain.cpp:417-429 | `--` moves an iterator to the position of the previous value |
| DomainIterator.NextPrev | third_party/clingcon/liborder/src/domain.cpp:403-429 | `++` and `--` undo each other |
| DomainIterator.LessPos | third_party/clingcon/liborder/src/domain.cpp:431-447 | on valid iterators `<` and `>` compare the positions |
| DomainIterator.Distance | third_party/clingcon/liborder/src/domain.cpp:449-463 | `a - m` is the difference of the two positions, negative when m is past a |
| DomainIterator.Advance | third_party/clingcon/liborder/src/domain.cpp:465-487 | `+= x` for x ≥ 0 lands (x + steps) mod 2^32 values after the start of the current range, the unsigned 32-bit sum of the source; for x < 0 it moves x positions back |
| DomainIterator.Retreat | third_party/clingcon/liborder/src/domain.cpp:489-523 | `-= x` moves the iterator to the position x back |
| LiteralStorage.DropTestNeverOnPrepared | third_party/clingcon/liborder/order/storage.h:110-114 | the "drop map" test `store_ == (hasvector & hasmap)` compares with 0, so it never holds for a prepared store |
| LiteralStorage.BothKeepMap | third_party/clingcon/liborder/order/storage.h:100-134 | consequently, with both containers in use, `setLiteral` writes the vector slot and keeps the map growing: the map is never dropped |
| LiteralStorage.ConvertMovesEntries | third_party/clingcon/liborder/order/storage.h:122-133 | a map-only store whose map reaches a third of `maxSize_` becomes a store with both flags, an empty map and every entry in the vector at its index, sentinels elsewhere |
| LiteralStorage.SetLiteralReady | third_party/clingcon/liborder/order/storage.h:100-134 | `setLiteral` keeps the store well formed: containers used only when flagged, one vector slot per position, map keys below `maxSize_` |
| LiteralStorage.SetThenGet | third_party/clingcon/liborder/order/storage.h:90-146 | after `setLiteral(i, l)`, `hasNoLiteral(i)` is false and `getLiteral(i)` is l, except that `emplace` keeps a literal a map-only store already held at i |
| LiteralStorage.SetLiteralElsewhere | third_party/clingcon/liborder/order/storage.h:100-134 | `setLiteral(i, l)` changes no other position, including when the map is converted to a vector |
| LiteralStorage.SetSizePads | third_party/clingcon/liborder/order/storage.h:79-88 | `setSize(n)` gives the vector n slots, keeps the old ones and pads with flagged sentinels that hold no literal |
| LiteralStorage.CountPadding | third_party/clingcon/liborder/order/storage.h:55-88 | growing the vector with sentinels adds nothing to `numLits` |
| LiteralStorage.CountWrite | third_party/clingcon/liborder/order/storage.h:55-65 | writing a literal into a sentinel slot adds one to the `count_if` of `numLits` |
| LiteralStorage.NumLitsGrows | third_party/clingcon/liborder/order/storage.h:55-134 | in vector-only mode, setting a literal at an empty position adds one to `numLits` |
| LiteralStorage.OrderStorage.UseVector | third_party/clingcon/liborder/order/storage.h:48 | `useVector()` ors the vector flag into `store_` and changes nothing else |
| LiteralStorage.OrderStorage.UseMap | third_party/clingcon/liborder/order/storage.h:49 | `useMap()` ors the map flag into `store_` and changes nothing else |
| LiteralStorage.OrderStorage.NumLitsCount | third_party/clingcon/liborder/order/storage.h:55-65 | `numLits()` is the map size when a map is used, else the number of non-sentinel vector slots, else 0 |
| LiteralStorage.OrderStorage.SetSizeTo | third_party/clingcon/liborder/order/storage.h:79-88 | `setSize(s)` leaves the store of the specification `SetSize`: `maxSize_` set, the vector resized with sentinels when one is used |
| LiteralStorage.OrderStorage.SetLiteralAt | third_party/clingcon/liborder/order/storage.h:100-134 | `setLiteral(index, l)` runs the vector write, the drop test, the emplace and the conversion in order, leaving the store of `SetLiteral` |
| LiteralStorage.OrderStorage.ConvertMap | third_party/clingcon/liborder/order/storage.h:122-133 | the conversion loop moves the map entries into the vector one at a time, leaving the store of `Convert` |
| LiteralStorage.FreshFacts | third_party/clingcon/liborder/src/storage.cpp:303-322 | an unprepared store holds no literal, and the containers `prepareOrderLitMemory` chooses give a prepared store with none yet |
| LiteralStorage.PrepareFacts | third_party/clingcon/liborder/src/storage.cpp:303-324 | `prepareOrderLitMemory` is a no-op on a prepared store; otherwise the store becomes prepared with `size` positions, the map for lazy literals, the vector unless lazy and large, and the true literal at the last position |
| LiteralStorage.PrepareLeavesEmpty | third_party/clingcon/liborder/src/storage.cpp:303-324 | preparing an unprepared store leaves every position but the last without a literal |
| LiteralStorage.LEAtEnds | third_party/clingcon/liborder/order/storage.h:505-520 | `getLELiteral` at the end position is the true literal and touches nothing; at the last value it is the true literal `prepareOrderLitMemory` stored |
| LiteralStorage.LEExistingOrNew | third_party/clingcon/liborder/order/storage.h:505-520 | an existing order literal is returned with the store left as prepared; a missing one is created from the new literal, which the position then holds |
| LiteralStorage.GEIsNotLE | third_party/clingcon/liborder/order/storage.h:541-556 | inside the domain `getGELiteral` at k is the negation of `getLELiteral` at k-1, with the same effect on the store |
| LiteralStorage.GEAtEnds | third_party/clingcon/liborder/order/storage.h:541-548 | `getGELiteral` is the false literal at the end position and the true literal at position 0, touching nothing |
| Variables.ViewValueFacts | third_party/clingcon/liborder/src/storage.cpp:43-50 | the view a·v+c takes the value x exactly at the variable value (x-c)/a when a divides x-c, and at none otherwise |
| Variables.CountBelowBounds | third_party/clingcon/liborder/src/storage.cpp:340-344 | the `lower_bound` position of a value grows with the value and never exceeds the domain size |
| Variables.IntersectSize | third_party/clingcon/liborder/src/storage.cpp:340-383 | after `intersect(newLower, newUpper)` the domain keeps exactly the positions from the `lower_bound` of newLower to the `upper_bound` of newUpper, so its size is `end - start` |
| Variables.FalseUnitsExact | third_party/clingcon/liborder/src/storage.cpp:369-372 | the clauses of the first loop falsify exactly the literals before the kept window, one clause each, in order |
| Variables.TrueUnitsExact | third_party/clingcon/liborder/src/storage.cpp:373-376 | the clauses of the second loop assert exactly the literals after the kept window, one clause each, in order |
| Variables.UnitsAround | third_party/clingcon/liborder/src/storage.cpp:366-384 | for a window [start, end) of the vector: a unit clause falsifying each existing literal before it and one asserting each after it, and the window moved to the front |
| Variables.ChangeBoundsFacts | third_party/clingcon/liborder/src/storage.cpp:327-391 | narrowing the bounds of a domain with order literals makes the literals of the values below newLower false and those above newUpper true, and keeps the literals of the values kept, in place from 0 |
| Variables.ChangeBoundsSteps | third_party/clingcon/liborder/src/storage.cpp:327-391 | `domainChange(var, newLower, newUpper)`: hi < lo posts the empty clause and fails; unchanged bounds change nothing; otherwise the two loops, the move and the resize |
| Variables.FalseUnitsOf | third_party/clingcon/liborder/src/storage.cpp:369-372 | the first loop of `domainChange` posts `{~l}` for each literal present at the positions before the window, in order |
| Variables.TrueUnitsOf | third_party/clingcon/liborder/src/storage.cpp:373-376 | the second loop of `domainChange` posts `{l}` for each literal present at the positions after the window, in order |
| Variables.DomainChangeBounds | third_party/clingcon/liborder/src/storage.cpp:327-391 | the body of `domainChange` leaves exactly the clauses, store and result of the specification `ChangeBounds` |
| Variables.SizeOf | third_party/clingcon/liborder/src/storage.cpp:383 | `Domain::size()` is at least the number of ranges, hence positive for a non-empty domain |
| Variables.ChangeBoundsReady | third_party/clingcon/liborder/src/storage.cpp:327-391 | `domainChange(var, newLower, newUpper)` keeps the store well formed and leaves a narrowed store with one slot per value kept |
| Variables.LELiteralReady | third_party/clingcon/liborder/order/storage.h:505-520 | the store `getLELiteral` leaves is well formed and, once prepared, has one slot per value of the domain |
| Variables.GELiteralReady | third_party/clingcon/liborder/order/storage.h:541-556 | the store `getGELiteral` leaves is well formed and, once prepared, has one slot per value of the domain |
| Variables.StoreAtFacts | third_party/clingcon/liborder/src/storage.cpp:69-73 | storing into a prepared store keeps it well formed; an empty slot receives l (~l for `setGELit`), a filled one is equated with l |
| Variables.PrepareStoreFacts | third_party/clingcon/liborder/src/storage.cpp:68-73 | after `prepareOrderLitMemory` and the store step, the store is prepared with one slot per value and a vector-only store keeps to its vector |
| Variables.StoreEmptySlot | third_party/clingcon/liborder/src/storage.cpp:70-71 | storing into a slot that is empty once the store is prepared fills it and equates nothing |
| Variables.EqualLitAfterLE | third_party/clingcon/liborder/src/storage.cpp:145-146 | when no literal for v = x exists at the first value, `setLELit` there makes l that literal |
| Variables.EqualLitAfterGE | third_party/clingcon/liborder/src/storage.cpp:147-148 | when no literal for v = x exists at the last value, `setGELit` there makes l that literal |
| Variables.ConsistentUpdate | third_party/clingcon/liborder/src/storage.cpp:11-20 | replacing one variable's domain and store by a matching pair keeps the tables consistent |
| Variables.VariableCreator.CreateVariable | third_party/clingcon/liborder/order/storage.h:408-413 | `createVariable(d)` returns the previous variable count, appends d, and that id is valid with no order literals |
| Variables.VariableCreator.RemoveVar | third_party/clingcon/liborder/order/storage.h:398-406 | after `removeVar(v)`, `isValid(v)` is false and nothing else changes |
| Variables.VariableCreator.DomainChange | third_party/clingcon/liborder/src/storage.cpp:393-399 | `domainChange(var, d)` for a variable without order literals: an empty domain posts the empty clause and returns false, any other succeeds |
| Variables.VariableCreator.ConstrainDomain | third_party/clingcon/liborder/src/storage.cpp:11-20 | `constrainDomain(v, times, c, div)` works on a copy: on failure the domain is unchanged and no value was kept; on success v's domain holds exactly the kept values |
| Variables.VariableCreator.RemoveFromView | third_party/clingcon/liborder/src/storage.cpp:43-59 | `removeFromView(view, x)`: when x-c does not divide by a it returns true with no change, else it removes (x-c)/a from a copy that replaces the domain only on success |
| Variables.VariableCreator.ChangeBoundsOf | third_party/clingcon/liborder/src/storage.cpp:327-391 | `domainChange(var, newLower, newUpper)` appends the clauses and replaces the store of var as `ChangeBounds` says, and returns its result |
| Variables.VariableCreator.ConstrainView | third_party/clingcon/liborder/order/storage.h:425-437 | `constrainView(view, lower, upper)` with lower > upper returns false and changes nothing; otherwise the divided bounds narrow the domain after `domainChange` |
| Variables.VariableCreator.ConstrainUpperBound | third_party/clingcon/liborder/order/storage.h:448-453 | `constrainUpperBound(view, u)` is `constrainView` from the view's value at the bound mapping to its lowest value up to u |
| Variables.VariableCreator.ConstrainLowerBound | third_party/clingcon/liborder/order/storage.h:457-462 | `constrainLowerBound(view, l)` is `constrainView` from l up to the view's value at the bound mapping to its highest value |
| Variables.VariableCreator.PrepareOrderLitMemory | third_party/clingcon/liborder/src/storage.cpp:303-324 | `prepareOrderLitMemory(var)` replaces the store of var by the prepared store of `Prepare`: a no-op when already prepared |
| Variables.VariableCreator.GetLELiteral | third_party/clingcon/liborder/order/storage.h:505-520 | `getLELiteral(it)` returns and leaves the literal and store of `LELiteral`: true at the end, else the existing or newly created order literal; on a reversed view it hands over to `getGELiteral` on the variable's own iterator |
| Variables.VariableCreator.GetGELiteral | third_party/clingcon/liborder/order/storage.h:541-556 | `getGELiteral(it)` returns and leaves the literal and store of `GELiteral`: false at the end, true at 0, else the negated order literal of the position before; on a reversed view it hands over to `getLELiteral` on the variable's own iterator |
| Variables.VariableCreator.PrepareAndStore | third_party/clingcon/liborder/src/storage.cpp:68-73 | preparing the store of v, then storing l at the slot or equating it with the literal there, as `PrepareStore` says |
| Variables.VariableCreator.SetLELit | third_party/clingcon/liborder/src/storage.cpp:61-80 | `setLELit(it, l)`: a reversed view hands over to `setGELit` on the variable's own iterator; otherwise the end iterator equates l with false and returns the solver's answer, else l becomes the order literal v <= x, or is equated with the one stored, and a refused equation returns false at once; an assigned l then narrows the domain upwards or downwards |
| Variables.VariableCreator.SetGELit | third_party/clingcon/liborder/src/storage.cpp:82-105 | `setGELit(it, l)`: a reversed view hands over to `setLELit` on the variable's own iterator; otherwise false at the end and true at position 0, returning the solver's answer to the equation, else l becomes v >= x stored negated in the slot before, or is equated with it, a refused equation returning false at once; an assigned l then narrows the domain |
| Variables.VariableCreator.SetOrderLitAsEqual | third_party/clingcon/liborder/src/storage.cpp:144-148 | at the first (last) value, where v = x is the order literal v <= x (v >= x), `setEqualLit` falls back to `setLELit` (`setGELit`) |
| Variables.VariableCreator.SetEqualLit | third_party/clingcon/liborder/src/storage.cpp:134-155 | `setEqualLit(it, l)` on the end iterator equates l with false; an existing equal literal is equated with l; both return the solver's answer; otherwise the order-literal fallbacks, else l is recorded as the literal for v = x and the result is true |
| Levels.Pop | third_party/clingcon/liborder/src/storage.cpp:548-554 | `removeLevel()` pops exactly one restrictor for each variable in the top level's set, leaving the other stacks alone |
| Levels.Changes | third_party/clingcon/liborder/src/storage.cpp:557-572 | a sequence of changes at one level keeps every stack non-empty and records exactly the changed variables in the level's set |
| Levels.ChangesKeepBelow | third_party/clingcon/liborder/src/storage.cpp:557-572 | changes at a level keep the stacks of untouched variables, and everything below the top of the touched ones, as the level began |
| Levels.LevelRestores | third_party/clingcon/liborder/src/storage.cpp:548-572 | `addLevel()`, any changes, then `removeLevel()` give back exactly the stacks the level began with |
| Levels.TouchedPush | third_party/clingcon/liborder/src/storage.cpp:557-572 | with a new top level recording v, the number of levels holding v grows by one |
| Levels.InitStacks | third_party/clingcon/liborder/src/storage.cpp:533-545 | `init()` gives each valid variable one restrictor over its whole domain and the others none |
| Levels.ValidSet | third_party/clingcon/liborder/src/storage.cpp:533-545 | `init()` records exactly the valid variables at its level |
| Levels.InitLayered | third_party/clingcon/liborder/src/storage.cpp:533-545 | the stacks `init()` builds hold one restrictor per level that changed each variable |
| Levels.VariableStorage.constructor | third_party/clingcon/liborder/src/storage.cpp:521-545 | the constructor runs `init()`: one level, and one full-domain restrictor for each valid variable recorded at it |
| Levels.VariableStorage.AddLevel | third_party/clingcon/liborder/order/storage.h:717 | `addLevel()` pushes an empty level set and changes no stack |
| Levels.VariableStorage.RemoveLevel | third_party/clingcon/liborder/src/storage.cpp:548-554 | `removeLevel()` leaves the stacks of `Pop` and drops the top level set, keeping the layering invariant |
| Levels.VariableStorage.ConstrainVariable | third_party/clingcon/liborder/src/storage.cpp:557-572 | `constrainVariable(r)`, for an r inside v's current window (the source's assertions), pushes r on v's first change at the top level and records v there, and overwrites the top on later changes |
| Levels.VariableStorage.ConstrainUpperBound | third_party/clingcon/liborder/order/storage.h:722-736 | `constrainUpperBound(it)`: on a reversed view it is `constrainLowerBound` one position further; otherwise the end iterator changes nothing, any other ends the current window at it (emptied when it lies before the window), and the result is non-emptiness |
| Levels.VariableStorage.ConstrainLowerBound | third_party/clingcon/liborder/order/storage.h:739-751 | `constrainLowerBound(it)`: on a reversed view it is `constrainUpperBound` at the same position; otherwise the window starts at it, or is emptied at its end when it lies past it, and the result is non-emptiness |
| Constraints.SameLinearIgnoresMarks | third_party/clingcon/liborder/order/constraint.h:26 | `operator==` compares relation, constant and views and ignores the flag and the normalised mark; it is an equivalence |
| Constraints.InsertBySizeFacts | third_party/clingcon/liborder/order/constraint.h:57-69 | inserting a view into a list sorted by (domain size, abs(a)) keeps it sorted and adds exactly that view |
| Constraints.SortBySize | third_party/clingcon/liborder/order/constraint.h:57-69 | the result is ordered by domain size, ties by abs(a), and is a permutation of the input |
| Constraints.InsertUniqueFacts | third_party/clingcon/liborder/order/constraint.h:152-156 | putting a view in its place in a strictly increasing list keeps it strictly increasing, with the same elements plus that view |
| Constraints.SortUnique | third_party/clingcon/liborder/order/constraint.h:154-155 | `std::sort` then `std::unique` give a strictly increasing list with exactly the elements of the input |
| Constraints.StrictlySortedUnique | third_party/clingcon/liborder/order/constraint.h:154-155 | two strictly increasing lists with the same elements are equal, so the sorted, deduplicated result is unique |
| Constraints.LinearConstraint.constructor | third_party/clingcon/liborder/order/constraint.h:23 | a new constraint has no views, constant 0, the given relation and both marks clear |
| Constraints.LinearConstraint.SetRelation | third_party/clingcon/liborder/order/constraint.h:30 | `setRelation(r)` changes the relation only |
| Constraints.LinearConstraint.GetViews | third_party/clingcon/liborder/order/constraint.h:31 | the non-const `getViews()` returns the views and clears the normalised mark |
| Constraints.LinearConstraint.Add | third_party/clingcon/liborder/order/constraint.h:34 | `add(v)` appends v and clears the normalised mark |
| Constraints.LinearConstraint.AddRhs | third_party/clingcon/liborder/order/constraint.h:35 | `addRhs(c)` adds c to the constant and clears the normalised mark; requires the sum to fit in 32 bits, as signed overflow is undefined |
| Constraints.LinearConstraint.SetFlag | third_party/clingcon/liborder/order/constraint.h:40 | `setFlag(b)` changes the flag only |
| Constraints.LinearConstraint.Sort | third_party/clingcon/liborder/order/constraint.h:57-69 | `sort` reorders the views by domain size, then abs(a), as a permutation, and changes nothing else |
| Constraints.ReifiedAllDistinct.constructor | third_party/clingcon/liborder/order/constraint.h:152-156 | the views end up strictly sorted with duplicates removed and the same elements, and the literal is l |
| Constraints.ReifiedAllDistinct.Add | third_party/clingcon/liborder/order/constraint.h:157 | `add(var)` appends the view 1·var+0 |
| Constraints.ReifiedAllDistinct.Times | third_party/clingcon/liborder/order/constraint.h:160-165 | `times(x)` multiplies every view by x in place and leaves the literal unchanged; requires every product to fit in 32 bits, as signed overflow is undefined |
| Constraints.ReifiedAllDistinct.SetLiteral | third_party/clingcon/liborder/order/constraint.h:167 | `setLiteral(l)` changes the literal only |
| Equalities.WrapMul | third_party/clingcon/liborder/order/equality.h:20-21 | wrapping an intermediate 32-bit product does not change the wrapped result |
| Equalities.ScaleLaws | third_party/clingcon/liborder/order/equality.h:20-21 | scaling an edge by 1 keeps it, and scaling by x then y is scaling by the wrapped product x·y |
| Equalities.ScaleMultipliesEquation | third_party/clingcon/liborder/order/equality.h:20-21 | without overflow the scaled edge states the equation first·v = second·top + constant multiplied by x |
| Equalities.Edge.constructor | third_party/clingcon/liborder/order/equality.h:14-16 | `Edge(first, second, constant)` holds the three fields |
| Equalities.Edge.Times | third_party/clingcon/liborder/order/equality.h:20 | `operator*` returns a new edge with all three fields multiplied in 32 bits and leaves the receiver unchanged |
| Equalities.Edge.TimesAssign | third_party/clingcon/liborder/order/equality.h:21 | `operator*=` multiplies the three fields in place and returns the same edge |
| Equalities.EqualityClass.constructor | third_party/clingcon/liborder/order/equality.h:25 | `EqualityClass(t)` has top t and no constraints |
| Equalities.EqualityClass.Top | third_party/clingcon/liborder/order/equality.h:27 | `top()` returns the top variable given at construction |
| Equalities.EqualityProcessor.constructor | third_party/clingcon/liborder/order/equality.h:54 | a new processor has no equality classes |
| Equalities.ValidCharacterised | third_party/clingcon/liborder/order/equality.h:64-66 | `isValid(v)` is true when v has no class, and for a variable with a class it holds iff v is the class's top |
| Equalities.OneValidPerClass | third_party/clingcon/liborder/order/equality.h:64-66 | when every class is reached from its own top, the top of each class is valid and no other member of it is |
| Propagation.ClearQueueClearsAll | third_party/clingcon/liborder/src/linearpropagator.cpp:180-185 | when the flags set are exactly those of the queued ids, clearing the flags of the whole queue leaves no flag set |
| Propagation.RegisterFacts | third_party/clingcon/liborder/src/linearpropagator.cpp:155-169 | registering a constraint appends to the list of each variable one id per view on it with the given reversal, in view order, widening the table as needed, and changes nothing else |
| Propagation.RegisterWatching | third_party/clingcon/liborder/src/linearpropagator.cpp:155-169 | registration keeps every watch-list entry a constraint id |
| Propagation.QueuedAppend | third_party/clingcon/liborder/src/linearpropagator.cpp:151-154 | a new constraint stored flagged with its id queued keeps the queue invariant: flag set exactly when queued, no id twice |
| Propagation.RegisterViews | third_party/clingcon/liborder/src/linearpropagator.cpp:155-169 | the view loop of `addImp` leaves the watch lists of `Register` |
| Propagation.ClearAll | third_party/clingcon/liborder/src/linearpropagator.cpp:182-183 | the loop over the queue clears exactly the flags of the queued ids, as `ClearFlags` says |
| Propagation.ConstraintStorage.AddImp | third_party/clingcon/liborder/src/linearpropagator.cpp:147-172 | `addImp` appends the constraint with its flag set, enqueues its index, and registers it in `lbChanges_` for non-reversed views and `ubChanges_` for reversed ones |
| Propagation.ConstraintStorage.AddImps | third_party/clingcon/liborder/src/linearpropagator.cpp:174-178 | `addImp(vector)` appends every constraint flagged, in order, and queues their ids in order |
| Propagation.ConstraintStorage.AddLevel | third_party/clingcon/liborder/order/linearpropagator.h:32 | `addLevel()` is allowed only with an empty queue and changes nothing |
| Propagation.ConstraintStorage.AtFixPoint | third_party/clingcon/liborder/order/linearpropagator.h:35 | `atFixPoint()` holds iff the queue is empty |
| Propagation.ConstraintStorage.RemoveLevel | third_party/clingcon/liborder/src/linearpropagator.cpp:180-185 | `removeLevel()` clears the flag of every queued constraint, so no flag is left set, and empties the queue |
| Propagation.ConstraintStorage.RemoveConstraints | third_party/clingcon/liborder/src/linearpropagator.cpp:225-235 | `removeConstraints()` returns all constraints with flags cleared and leaves no constraints, no watch lists and an empty queue |
| Propagation.ConstraintStorage.QueueConstraint | third_party/clingcon/liborder/src/linearpropagator.cpp:497-506 | `queueConstraint(id)` enqueues id only if its flag is clear and then sets the flag, so no id is queued twice |
| Propagation.ConstraintStorage.WakeList | third_party/clingcon/liborder/src/linearpropagator.cpp:194-202 | walking one watch list queues, once each and in list order, exactly the unflagged listed constraints the bound change wakes, changes nothing but their flags, and ends where `WakeAll` says |
| Propagation.ConstraintStorage.ConstrainUpperBound | third_party/clingcon/liborder/src/linearpropagator.cpp:189-214 | a changed upper bound walks the variable's `ubChanges_` list and then its `lbChanges_` list (`Bound`), queueing exactly the constraints whose literal makes the change matter or is unassigned, and keeps the queue invariant |
| Propagation.ConstraintStorage.ConstrainLowerBound | third_party/clingcon/liborder/src/linearpropagator.cpp:217-220 | a changed lower bound queues exactly what an upper-bound change of the negated view queues |
| Propagation.LowerBoundFlipsOrientation | third_party/clingcon/liborder/src/linearpropagator.cpp:217-220 | negating a view with a non-zero factor flips its reversal |
| Propagation.StepFacts | third_party/clingcon/liborder/src/linearpropagator.cpp:239-250 | one pop of a queue worked from its end, in terms of the starting queue: the cleared flags grow by the popped id, and the popped constraint passes exactly when it lies after the last failing one |
| Propagation.LinearPropagator.PropagateSingleStep | third_party/clingcon/liborder/src/linearpropagator.cpp:239-258 | the storage ends exactly as `Step` says: nothing on an empty queue; otherwise the last queued id is popped (LIFO) and its flag cleared, a true constraint is propagated and every upper bound it tightens goes through `ConstrainUpperBound`, which may queue constraints again, the popped one included, and an unassigned one is propagated as an implication; the result is whether it passed |
| Propagation.LinearPropagator.Propagate | third_party/clingcon/liborder/src/linearpropagator.cpp:262-271 | `propagate` ends as `Run` says: single steps until the queue is empty, returning false at the first step that fails; when it passes within its fuel the queue is empty, a fixpoint |
| Propagation.WakeAllFacts | third_party/clingcon/liborder/src/linearpropagator.cpp:194-212 | walking a watch list only appends to the queue, keeps the queue invariant, changes nothing but flags, and queues exactly the listed constraints it wakes that were not queued |
| Propagation.BoundsFacts | third_party/clingcon/liborder/src/linearpropagator.cpp:474-478 | upper-bound changes pushed through the storage one after the other only queue constraints, keep the queue invariant and change nothing but flags |
| Propagation.ConstraintStorage.ConstrainUpperBounds | third_party/clingcon/liborder/src/linearpropagator.cpp:347-352 | each upper bound `propagate_true` tightens reaches the storage in order, with the result `Bounds` says |
| Propagation.Step | third_party/clingcon/liborder/src/linearpropagator.cpp:239-258 | a single step does nothing on an empty queue; otherwise it counts as one step and passes exactly when the last queued constraint passes its propagation (as true, or as an implication when unassigned) |
| Propagation.StepRequeues | third_party/clingcon/liborder/src/linearpropagator.cpp:243-256 | a step pops the last id and clears its flag, then only queues constraints again, the popped one included (the comment at line 265), keeping the queue invariant and changing nothing but flags |
| Propagation.Run | third_party/clingcon/liborder/src/linearpropagator.cpp:262-271 | a run takes at most its fuel in steps, fails only after a step, and when it passes with fuel left ends with an empty queue |
| Propagation.RunRequeues | third_party/clingcon/liborder/src/linearpropagator.cpp:262-271 | a whole run keeps the queue invariant and changes nothing but flags, a flag being set exactly when its id is still queued |
| Propagation.RunDrains | third_party/clingcon/liborder/src/linearpropagator.cpp:262-271 | when no propagation tightens a bound, a run with enough fuel is `Drain`: nothing is queued again and the queue is worked from its end |
| Propagation.DrainStopsAtLastFailing | third_party/clingcon/liborder/src/linearpropagator.cpp:262-271 | draining stops exactly at the last failing constraint of the queue, after the constraints behind it, whose flags are cleared; it passes iff none fails |
| Propagation.PropagateWithoutChanges | third_party/clingcon/liborder/src/linearpropagator.cpp:262-271 | without bound changes, `propagate` from a queue fails iff some queued constraint fails, stops at the last failing one, and leaves the ids before it queued and flagged |
| Propagation.SumUpdate | third_party/clingcon/liborder/src/linearpropagator.cpp:354-355 | replacing one summand changes the sum by the difference |
| Propagation.SumMono | third_party/clingcon/liborder/src/linearpropagator.cpp:294-304 | a sum grows with every summand |
| Propagation.ComputeMinMax | third_party/clingcon/liborder/src/linearpropagator.cpp:294-304 | `computeMinMax` is the pair of sums of the views' current lower and upper bounds |
| Propagation.MinMaxEncloses | third_party/clingcon/liborder/src/linearpropagator.cpp:294-304 | the two sums enclose the left-hand side of every assignment within the bounds |
| Propagation.LargestAtMostFacts | third_party/clingcon/liborder/src/linearpropagator.cpp:350-351 | the element before `upper_bound(up)` is the largest value of the range at or below up |
| Propagation.NewUpperDefined | third_party/clingcon/liborder/src/linearpropagator.cpp:340-355 | when up is not below the view's lower bound, the range has a value at or below up, so the cut is defined |
| Propagation.PropagateTrue | third_party/clingcon/liborder/src/linearpropagator.cpp:325-358 | `propagate_true` fails exactly when the sum of lower bounds exceeds the right-hand side; otherwise each upper bound becomes the largest value of its range leaving room for the others at their lower bounds |
| Propagation.PropagateTrueIdle | third_party/clingcon/liborder/src/linearpropagator.cpp:329-331 | when max ≤ rhs, no bound changes |
| Propagation.PropagateTrueConflict | third_party/clingcon/liborder/src/linearpropagator.cpp:342-346 | a failure is a real conflict: no assignment within the bounds satisfies the constraint |
| Propagation.PropagateTrueSound | third_party/clingcon/liborder/src/linearpropagator.cpp:347-355 | the new upper bounds lose no solution: every satisfying assignment within the old bounds lies within the new ones, which stay inside the old |
| Normalizing.LiteralCounts | third_party/clingcon/liborder/src/normalizer.cpp:796-803 | `allOrderLiterals` is max(n,1)-1 and `allLiterals` is max(2·(max(n,1)-1),1)-1: one order literal between neighbours, plus one equality literal per inner value |
| Normalizing.DeriveDomainConstant | third_party/clingcon/liborder/src/normalizer.cpp:127-134 | a domain constraint whose view has a == 0 sets its literal equal to true iff c is in the domain, and false otherwise |
| Normalizing.DeriveLinearEmpty | third_party/clingcon/liborder/src/normalizer.cpp:158-167 | without views the unit clause is ~v when LE with rhs < 0 or EQ with rhs ≠ 0, and v otherwise: it asserts the literal exactly when the empty sum satisfies the constraint |
| Normalizing.DeriveLinearSingle | third_party/clingcon/liborder/src/normalizer.cpp:168-189 | with one view and a decided literal, the restriction posted admits exactly the view values at which the constraint has the literal's truth value |
| Normalizing.DeriveLinearUndecided | third_party/clingcon/liborder/src/normalizer.cpp:155-157 | more than one view, or an undecided literal, keeps the constraint |
| Normalizing.Compact | third_party/clingcon/liborder/src/normalizer.cpp:721-757 | one compaction loop of `calculateDomains` fails iff some entry reports an empty domain; on success it keeps exactly the entries not reported simplified, as a multiset |
| Normalizing.SwapStep | third_party/clingcon/liborder/src/normalizer.cpp:721-757 | overwriting an entry with the last one of the window and shrinking the window keeps the other entries |
| Normalizing.CompactDone | third_party/clingcon/liborder/src/normalizer.cpp:721-757 | at the end of the loop every entry was either kept or dropped as simplified |
| Normalizing.KeptCounts | third_party/clingcon/liborder/src/normalizer.cpp:721-757 | what compaction keeps is, as a multiset, the list `Kept` of unsimplified constraints |
| Normalizing.RowAt | third_party/clingcon/liborder/src/normalizer.cpp:392-398 | entry k of a row is the view against the k-th later view |
| Normalizing.PairsCount | third_party/clingcon/liborder/src/normalizer.cpp:386-399 | `addDistinctPairwiseUnequal` builds one inequality per unordered pair: n·(n-1)/2 of them |
| Normalizing.PairsComplete | third_party/clingcon/liborder/src/normalizer.cpp:392-398 | every pair i < j has its inequality view_i - view_j ≠ 0 |
| Normalizing.PairsOnly | third_party/clingcon/liborder/src/normalizer.cpp:392-398 | every inequality built is that of a pair i < j |
| Normalizing.PairwiseUnequal | third_party/clingcon/liborder/src/normalizer.cpp:386-399 | the double loop builds exactly the inequalities of all pairs i < j, row by row, and none for a single view |
| Normalizing.AppendRow | third_party/clingcon/liborder/src/normalizer.cpp:393-398 | the inner loop appends view i against each later view, in order |
| Normalizing.Normalizer.CalculateDomains | third_party/clingcon/liborder/src/normalizer.cpp:721-772 | with `deriveSimpleDomain`'s answers as parameters, `calculateDomains` fails iff some constraint (a linear one after `normalize()`) reports an empty domain; on success it removes exactly the constraints reported as simplified from both lists, keeps the linear ones normalised, and restricts the domains along the equality classes as `RestrictToEqualities` states. The effects of `deriveSimpleDomain` on domains and clauses are not applied, so the variable creator changes only through `RestrictToEqualities` |
| Normalizing.Normalized | third_party/clingcon/liborder/src/normalizer.cpp:744-746 | every linear constraint is replaced by its normalised form, in place |
| Normalizing.RestrictToEqualities | third_party/clingcon/liborder/src/normalizer.cpp:759-772 | after `constrainDomain(top, secondCoef, constant, firstCoef)` for every edge, domains only narrow, a variable no edge concerns keeps its domain, and a top with a value passing all its edges keeps exactly the values passing all of them; the result of each call is ignored |
| Normalizing.RestrictStep | third_party/clingcon/liborder/src/normalizer.cpp:766-768 | one `constrainDomain` call cannot empty the domain of a top that has a value passing all its edges, so that value set shrinks by exactly the new edge |
| Normalizing.Normalizer.AddImp | third_party/clingcon/liborder/src/normalizer.cpp:1222-1228 | `addImp(l)` appends the normalised `<=` constraint with its views sorted by domain size to `linearImplications_` and changes nothing else |
| TheoryParsing.ArgStringsAt | third_party/clingcon/libclingcon/src/theoryparser.cpp:86-91 | the printed argument list has one entry per argument, and entry i is the i-th argument printed on its own |
| TheoryParsing.PrintedShapes | third_party/clingcon/libclingcon/src/theoryparser.cpp:69-101 | a function term prints as its name, an opening parenthesis, its comma-separated arguments and a closing parenthesis; a tuple prints only its comma-separated arguments, so a one-element tuple prints as its element and the empty tuple as nothing |
| TheoryParsing.OpOf | third_party/clingcon/libclingcon/src/theoryparser.cpp:117-141 | a recognised operator name has arity one or two, and arity one exactly for unary plus and minus |
| TheoryParsing.NumberIsExpression | third_party/clingcon/libclingcon/src/theoryparser.cpp:111-190 | a term passes `isNumber` exactly when it unfolds into an arithmetic tree of numbers, unary and binary plus and minus and times, and then `getNumber` is that tree's arithmetic value |
| TheoryParsing.CheckAsWrittenRejectsFunctions | third_party/clingcon/libclingcon/src/theoryparser.cpp:364-397 | as written, `check` returns false for every function term, whatever its name and arguments, because its function branch falls through to the final `return false` |
| TheoryParsing.CheckAsWrittenCounterexample | third_party/clingcon/libclingcon/src/theoryparser.cpp:364-397 | the term `f(1)` is accepted by the intended `check` and rejected by the written one |
| TheoryParsing.CheckAsWrittenStricter | third_party/clingcon/libclingcon/src/theoryparser.cpp:364-397 | every term the written `check` accepts is accepted by the intended one |
| TheoryParsing.NumbersAreNotVariables | third_party/clingcon/libclingcon/src/theoryparser.cpp:103-109 | no term that passes `isNumber` passes `isVariable`, since operator names do not start with a letter |
| TheoryParsing.NameTypeInverse | third_party/clingcon/libclingcon/src/theoryparser.cpp:11-36 | exactly the names sum, dom, show, distinct and minimize are recognised, each as its own constraint type, and each type's name is recognised as that type |
| TheoryParsing.GuardRelationInverse | third_party/clingcon/libclingcon/src/theoryparser.cpp:38-66 | exactly the guards =, <=, >=, <, > and != are recognised, each as its own relation, and each relation's symbol is recognised as that relation |
| TheoryParsing.TheoryParser.constructor | third_party/clingcon/libclingcon/clingcon/theoryparser.h:24-26 | a parser starts with no cached constraint types, guards or views, over a well-formed term table |
| TheoryParsing.TheoryParser.GetConstraintType | third_party/clingcon/libclingcon/src/theoryparser.cpp:11-36 | succeeds exactly when the term prints as a known constraint name, returns its type, and caches it for the id; an unknown name leaves the cache unchanged |
| TheoryParsing.TheoryParser.GetGuard | third_party/clingcon/libclingcon/src/theoryparser.cpp:38-66 | succeeds exactly when the term prints as a known relation symbol, returns its relation, and caches it for the id; an unknown symbol leaves the cache unchanged |
| TheoryParsing.TheoryParser.CachedView | third_party/clingcon/libclingcon/src/theoryparser.cpp:210-215 | a cached view is found exactly when the table is long enough and the slot is not the invalid view, and it is that slot's view |
| TheoryParsing.TheoryParser.CreateVarOver | third_party/clingcon/libclingcon/src/theoryparser.cpp:344-362 | a new variable with the given domain is created, and its unit view is stored at the id; the table grows as needed with invalid views; afterwards the cache finds it |
| TheoryParsing.TheoryParser.CreateVar | third_party/clingcon/libclingcon/src/theoryparser.cpp:344-352 | creates a variable over the full domain and stores its view at the id |
| TheoryParsing.TheoryParser.CreateVarValue | third_party/clingcon/libclingcon/src/theoryparser.cpp:354-362 | creates a variable over the single value and stores its view at the id |
| TheoryParsing.WellNamedFunctionsAreVariables | third_party/clingcon/libclingcon/src/theoryparser.cpp:103-108 | with the intended `check`, a function term whose name starts with a letter and whose arguments pass is a variable, while the written `check` rejects it |
| BasicTypes.ToInt32 | third_party/clingcon/liblp/potassco/basic_types.h:49 | the cast of a 32-bit id to a literal is always a signed 32-bit value |
| BasicTypes.ToUint32 | third_party/clingcon/liblp/potassco/basic_types.h:48 | the cast of a literal to an id is always an unsigned 32-bit value |
| BasicTypes.CastsRoundTrip | third_party/clingcon/liblp/potassco/basic_types.h:48-49 | the signed and unsigned 32-bit casts undo each other on values of their own range |
| BasicTypes.AtomOfLiterals | third_party/clingcon/liblp/potassco/basic_types.h:46-54 | for an atom in [atomMin, atomMax], `lit` is the atom itself, `neg` is a negative literal, `atom` recovers the atom from both, and plain atoms and literals weigh 1 |
| BasicTypes.LiteralLaws | third_party/clingcon/liblp/potassco/basic_types.h:46-52 | a literal and its complement have the same atom, which is at most atomMax; `lit(id(l)) == l`; a negative literal's id lies above atomMax |
| BasicTypes.WeightLitOrder | third_party/clingcon/liblp/potassco/basic_types.h:56-58 | weight-literal equality holds exactly when literal and weight agree, and `<` (literal first, then weight) is irreflexive, transitive and total on distinct values |
| BasicTypes.LitEqualsWeightLit | third_party/clingcon/liblp/potassco/basic_types.h:59-62 | a plain literal equals a weight literal exactly when the weight literal is that literal with weight 1, and the inequality operators are the negations |
| BasicTypes.End | third_party/clingcon/liblp/potassco/basic_types.h:75-76 | the end of a span lies exactly its size past its beginning |
| BasicTypes.ToSpan | third_party/clingcon/liblp/potassco/basic_types.h:79-86 | an empty container gives the null span of size 0; a non-empty one the span from its first element over all its elements |
| BasicTypes.BodyShape | third_party/clingcon/liblp/potassco/basic_types.h:185-186 | only sum bodies have weights, exactly the non-normal bodies have a bound, so weights imply a bound and a count body has a bound and no weights |
| BasicTypes.NatToString | third_party/clingcon/libclingcon/src/theoryparser.cpp:71-72 | a number prints as a non-empty string of decimal digits |
| BasicTypes.NatToStringRoundTrip | third_party/clingcon/libclingcon/src/theoryparser.cpp:71-72 | reading the printed decimal digits of a number back gives the number |
| BasicTypes.IntToStringSign | third_party/clingcon/libclingcon/src/theoryparser.cpp:71-72 | a number's text starts with a minus sign exactly when it is negative, and the digits after it (or the whole text) read back as its magnitude |
| TheoryTerms.TypeCode | third_party/clingcon/liblp/src/theory_data.cpp:79 | each term kind has a code that fits in the two type bits |
| TheoryTerms.CodeType | third_party/clingcon/liblp/src/theory_data.cpp:79 | decoding two type bits gives the kind with exactly that code |
| TheoryTerms.NumberWord | third_party/clingcon/liblp/src/theory_data.cpp:60-62 | a number term's word is a 64-bit value |
| TheoryTerms.PointerWord | third_party/clingcon/liblp/src/theory_data.cpp:63-76 | tagging a pointer succeeds exactly when it is 4-byte aligned, and fails with "Invalid pointer alignment!" otherwise |
| TheoryTerms.NumberWordShape | third_party/clingcon/liblp/src/theory_data.cpp:60-62 | a number's word has clear type bits, and shifting it right by two gives back the number's low 32 bits |
| TheoryTerms.NumberRoundTrip | third_party/clingcon/liblp/src/theory_data.cpp:60-83 | every 32-bit number survives its encoding: the word is a valid term of type Number whose `number()` is the number |
| TheoryTerms.PointerRoundTrip | third_party/clingcon/liblp/src/theory_data.cpp:63-86 | an aligned pointer tagged as a symbol or compound gives a valid word of that type from which `getPtr` recovers the pointer |
| TheoryTerms.DefaultTermInvalid | third_party/clingcon/liblp/src/theory_data.cpp:59-83 | the default term is not valid, and both `type()` and `number()` throw on it |
| TheoryTerms.NumberOnlyOfNumbers | third_party/clingcon/liblp/src/theory_data.cpp:77-83 | `number()` succeeds exactly on words whose type is Number |
| TheoryTerms.KindAgrees | third_party/clingcon/liblp/src/theory_data.cpp:59-83 | the type a term reports is the type stored in its word, and a number term's word holds its number |
| TheoryTerms.CompoundClassified | third_party/clingcon/liblp/src/theory_data.cpp:98-102 | on a valid term, a compound is a function exactly when its base is non-negative and a tuple exactly when it is negative; other terms are neither and have size 0; `function()` succeeds exactly on functions |
| TheoryTerms.InvalidThrows | third_party/clingcon/liblp/src/theory_data.cpp:79-102 | every accessor of the default term throws |
| TheoryTerms.FunctionTermKind | third_party/clingcon/liblp/src/theory_data.cpp:191-193 | a function term added with a function id below 2^31 is a function with that id; a larger id is cast to a negative base, and the term reads as a tuple |
| TheoryTerms.Parens | third_party/gringo/liblp/potassco/theory_data.h:37-40 | a parenthesis tuple gives "()", a brace tuple "{}", and every other tuple type "[]" |
| TheoryStore.Fill | third_party/clingcon/liblp/src/theory_data.cpp:215 | the filler has the requested length and holds the default everywhere |
| TheoryStore.Grow | third_party/clingcon/liblp/src/theory_data.cpp:203-217 | growing fails only when the 32-bit capacity computation wraps; otherwise the old entries are kept, the new ones up to the new size hold the default, the size is the requested one, and the capacity never shrinks (and does not change when it was already large enough) |
| TheoryStore.NewElement | third_party/clingcon/liblp/src/theory_data.cpp:106-123 | a new element keeps its terms, and its condition reads back as the one given (0 when none) |
| TheoryStore.NewAtom | third_party/clingcon/liblp/src/theory_data.cpp:128-139 | a new atom keeps occurrence, term, elements and guard, and its program atom fits in 30 bits, unchanged when it already fits |
| TheoryStore.ElementsOf | third_party/gringo/liblp/potassco/theory_data.h:129-135 | the elements span begins at the atom's first element id and ends exactly its size later |
| TheoryStore.SurvivorsFacts | third_party/gringo/liblp/potassco/theory_data.h:229-242 | the atoms kept by `filter` are exactly those without a program atom or rejected by `f`, and they are no more than before |
| TheoryStore.TheoryData.constructor | third_party/clingcon/liblp/src/theory_data.cpp:176 | a new theory store has empty term, element and atom tables and a cleared frame |
| TheoryStore.TheoryData.GetTerm | third_party/clingcon/liblp/src/theory_data.cpp:287-290 | `getTerm` succeeds exactly on defined ids and returns the stored, valid term; other ids give "Invalid term id!" |
| TheoryStore.TheoryData.GetElement | third_party/clingcon/liblp/src/theory_data.cpp:291-294 | `getElement` succeeds exactly on defined ids and returns the stored element |
| TheoryStore.TheoryData.AddTerm | third_party/clingcon/liblp/src/theory_data.cpp:180-239 | adding a term succeeds exactly when the id is free and the table can grow to hold it; a defined id gives "Redefinition of theory term!" and changes nothing; on success the term is stored, the table grows to the id with invalid filler, and all other entries are unchanged |
| TheoryStore.TheoryData.RemoveTerm | third_party/clingcon/liblp/src/theory_data.cpp:197-202 | after removing, the id holds no term and can be defined again; no other id changes, and the table keeps its size and capacity |
| TheoryStore.TheoryData.AddElement | third_party/clingcon/liblp/src/theory_data.cpp:218-224 | adding an element succeeds exactly when the id is free and the table can grow; a defined id gives "Redefinition of theory element!" and changes nothing; on success `getElement` returns the new element and no other entry changes |
| TheoryStore.TheoryData.AddAtom | third_party/clingcon/liblp/src/theory_data.cpp:225-232 | an added atom is appended at the end of the atom list, with or without a guard; nothing else changes |
| TheoryStore.PutTermKeeps | third_party/clingcon/liblp/src/theory_data.cpp:233-239 | on the term table as a value (`PutTerm`, which `AddTerm` is proved to agree with): a defined id is refused with "Redefinition of theory term!", and defining another id keeps it |
| TheoryStore.PutElementKeeps | third_party/clingcon/liblp/src/theory_data.cpp:218-224 | the same for elements (`PutElement`, which `AddElement` agrees with) and "Redefinition of theory element!" |
| TheoryStore.TheoryData.SetCondition | third_party/clingcon/liblp/src/theory_data.cpp:240-243 | an undefined id gives "Invalid element id!"; a defined element takes the new condition exactly when its condition is COND_DEFERRED, keeping its terms; otherwise it fails with "Precondition violated!" and nothing changes |
| TheoryStore.TheoryData.Update | third_party/clingcon/liblp/src/theory_data.cpp:258-262 | the frame moves to the current sizes, so no term or element is new afterwards |
| TheoryStore.TheoryData.Reset | third_party/clingcon/liblp/src/theory_data.cpp:245-257 | all tables become empty and the frame is cleared, so no id holds a term or element |
| TheoryStore.TheoryData.Filter | third_party/gringo/liblp/potassco/theory_data.h:229-242 | atoms before the frame are kept as they were, and later atoms are reduced to those without a program atom or rejected by `f`, in their order |
| TheoryStore.CompactAtoms | third_party/gringo/liblp/potassco/theory_data.h:231-241 | the compaction loop leaves the prefix before the start and then exactly the surviving atoms in order, never more atoms than before |
| TheoryStore.VisitByKind | third_party/gringo/liblp/potassco/theory_data.h:320-335 | a visit fails exactly on an undefined id or on a function whose name is not a symbol term; otherwise `op` gets the number, the symbol, or the arguments with the function name or the tuple type, by the term's kind |
| TheoryStore.CursorLaws | third_party/gringo/liblp/potassco/theory_data.h:281-305 | `++` and `--` move the position by one and undo each other, and two cursors are equal exactly when both the store and the position agree |
| Aspif.Ints | third_party/gringo/liblp/src/aspif.cpp:204-207 | each number becomes one numeric field, in order |
| Aspif.Pairs | third_party/gringo/liblp/src/aspif.cpp:208-214 | weight literals are written as two fields each, literal then weight |
| Aspif.LitsOf | third_party/gringo/liblp/src/aspif.cpp:239-242 | a normal body's literals are written without their weights, in order |
| Aspif.EventLine | third_party/gringo/liblp/src/aspif.cpp:231-274 | every directive the writer writes is a non-empty line |
| Aspif.OrderedMeans | third_party/gringo/liblp/src/aspif.cpp:289-343 | in the lines one `theory` call writes, no term is written twice, and a new term that a term line refers to is written on an earlier line |
| Aspif.MarkedLaws | third_party/gringo/liblp/src/aspif.cpp:276-284 | marking an id with a mask sets exactly that one bit of the id set and keeps every other bit |
| Aspif.AtomLine | third_party/gringo/liblp/src/aspif.cpp:312-317 | a theory atom is written as a theory atom line |
| Aspif.TermSpecFacts | third_party/gringo/liblp/src/aspif.cpp:320-343 | `term(data, tId)` keeps the written lines ordered, writes exactly their text, marks only the terms it writes, and afterwards a new `tId` has been written |
| Aspif.SelfReferenceWrittenOnce | third_party/gringo/liblp/src/aspif.cpp:320-329 | `term` marks an id before following its references, so a compound that lists itself is written exactly once and the call stops |
| Aspif.TermsSpecFacts | third_party/gringo/liblp/src/aspif.cpp:299-301 | `term` over a list of ids keeps the lines ordered and writes every new term of the list |
| Aspif.TermSettled | third_party/gringo/liblp/src/aspif.cpp:320-343 | a call of `term` on a state whose marks are those of the written lines leaves the marks matching the written lines, adds no atom line, and writes a new `tId` |
| Aspif.ElementSpecFacts | third_party/gringo/liblp/src/aspif.cpp:294-306 | an element fails exactly when it is new, not yet written and has a condition, with "theory conditions not supported"; otherwise the lines stay ordered and the element, when new, is written |
| Aspif.ElementsSpecFacts | third_party/gringo/liblp/src/aspif.cpp:294-306 | the elements of an atom in turn fail only on a condition; otherwise every new element is written and the lines stay ordered |
| Aspif.AtomSpecFacts | third_party/gringo/liblp/src/aspif.cpp:291-318 | one theory atom is written after its new elements and terms as exactly one atom line, failing only on an element condition |
| Aspif.AtomsSpecFacts | third_party/gringo/liblp/src/aspif.cpp:291-318 | the atom lines written for a list of atoms are exactly the lines of those atoms, in order |
| Aspif.TheoryFacts | third_party/gringo/liblp/src/aspif.cpp:289-319 | `theory(data)` fails only on an element condition; otherwise its lines write each new term and element once, after everything new they refer to, and the atom lines are those of the atoms since the last update, in order, and the output is their text |
| Aspif.IdSet.constructor | third_party/gringo/liblp/src/aspif.cpp:276-277 | a new id set is empty |
| Aspif.IdSet.Add | third_party/gringo/liblp/src/aspif.cpp:280-283 | `add(id, mask)` returns true exactly when that bit was clear before, and afterwards only that bit has been added |
| Aspif.AspifOutput.constructor | third_party/gringo/liblp/src/aspif.cpp:197-198 | a new writer has written nothing |
| Aspif.AspifOutput.Term | third_party/gringo/liblp/src/aspif.cpp:320-343 | writing a term does what the specification function for `term` describes, on the marks, lines and text |
| Aspif.AspifOutput.TermsOut | third_party/gringo/liblp/src/aspif.cpp:299-301 | writing the terms of a list does what `term` does on each in turn |
| Aspif.AspifOutput.WriteElement | third_party/gringo/liblp/src/aspif.cpp:294-306 | writing one element does what its specification function describes, including the failure on a condition |
| Aspif.AspifOutput.WriteAtom | third_party/gringo/liblp/src/aspif.cpp:291-318 | writing one atom does what its specification function describes |
| Aspif.AspifOutput.Theory | third_party/gringo/liblp/src/aspif.cpp:289-319 | `theory(data)` writes the atoms since the last update with a fresh id set, as the specification function says, so `TheoryFacts` applies to it |
| Aspif.AspifOutput.WriteAtoms | third_party/gringo/liblp/src/aspif.cpp:291-318 | the loop over the atoms does what the specification function describes, up to the first failure |
| Aspif.AspifOutput.ElementLine | third_party/gringo/liblp/src/aspif.cpp:302-305 | an element line is the code, the element type, the id, the terms and an empty condition |
| Aspif.AspifOutput.AtomOut | third_party/gringo/liblp/src/aspif.cpp:312-317 | a theory atom line carries the atom, occurrence, term, elements, and the guard and right-hand side when there is a guard |
| Aspif.AspifOutput.TermLine | third_party/gringo/liblp/src/aspif.cpp:331-342 | a term line is the code, the term type, the id and then the number, the symbol's length and text, or the compound's base and arguments |
| Aspif.AspifOutput.StartDir | third_party/gringo/liblp/src/aspif.cpp:200-203 | a directive starts with its code and no blank before it |
| Aspif.AspifOutput.AddFields | third_party/gringo/liblp/src/aspif.cpp:204-226 | each field is written after one blank; a span is written as its size and then its elements |
| Aspif.AspifOutput.EndDir | third_party/gringo/liblp/src/aspif.cpp:227-230 | a directive ends with a line break |
| Aspif.AspifOutput.Line | third_party/gringo/liblp/src/aspif.cpp:200-230 | a directive line is its code, each field after a blank, and a line break |
| Aspif.AspifOutput.InitProgram | third_party/gringo/liblp/src/aspif.cpp:231-235 | the header is "asp 1 0 0", then " incremental" when requested, then a line break |
| Aspif.AspifOutput.BeginStep | third_party/gringo/liblp/src/aspif.cpp:345-346 | beginning a step writes nothing |
| Aspif.AspifOutput.Rule | third_party/gringo/liblp/src/aspif.cpp:236-248 | a rule is "1", the head type and atoms, then "0" and the literals for a normal body, or "1", the bound and the literal-weight pairs for any other body, so a count body is written as a sum |
| Aspif.AspifOutput.Minimize | third_party/gringo/liblp/src/aspif.cpp:249-251 | a minimize line is "2", the priority and the weight literals |
| Aspif.AspifOutput.Output | third_party/gringo/liblp/src/aspif.cpp:252-257 | an output line is "4", the name's length, its text and the condition |
| Aspif.AspifOutput.External | third_party/gringo/liblp/src/aspif.cpp:258-260 | an external line is "5", the atom and the value |
| Aspif.AspifOutput.Assume | third_party/gringo/liblp/src/aspif.cpp:261-263 | an assume line is "6" and the literals |
| Aspif.AspifOutput.Project | third_party/gringo/liblp/src/aspif.cpp:264-266 | a project line is "3" and the atoms |
| Aspif.AspifOutput.AcycEdge | third_party/gringo/liblp/src/aspif.cpp:267-269 | an edge line is "8", the two nodes and the condition |
| Aspif.AspifOutput.Heuristic | third_party/gringo/liblp/src/aspif.cpp:270-274 | a heuristic line is "7", the modifier, the atom, the bias, the priority and the condition |
| Aspif.AspifOutput.EndStep | third_party/gringo/liblp/src/aspif.cpp:347-349 | a step ends with the line "0" |
| AspifReader.Skip | third_party/gringo/liblp/src/aspif.cpp:57 | passing line breaks leaves no line break in front |
| AspifReader.MatchInt | third_party/gringo/liblp/src/aspif.cpp:43-45 | a number read is within the allowed range and consumes input; a missing or out-of-range number fails with the given message |
| AspifReader.MatchItem | third_party/gringo/liblp/src/aspif.cpp:63-65 | an atom, literal or id read lies in its range |
| AspifReader.MatchItems | third_party/gringo/liblp/src/aspif.cpp:63-65 | reading n items gives exactly n, each in range |
| AspifReader.MatchSpan | third_party/gringo/liblp/src/aspif.cpp:93-95 | a count and then that many items, each in range, at most idMax of them |
| AspifReader.MatchWeightLits | third_party/gringo/liblp/src/aspif.cpp:72-76 | n body literals, each in range; weight 1 when no weights are read and a non-negative weight at most INT_MAX when they are |
| AspifReader.MatchString | third_party/gringo/liblp/src/aspif.cpp:132-139 | a string read is at most idMax long and consumes input |
| AspifReader.SkipLine | third_party/gringo/liblp/src/aspif.cpp:124 | a comment line is skipped without growing the input |
| AspifReader.ReadBody | third_party/gringo/liblp/src/aspif.cpp:67-77 | a normal body has no bound, and only a sum body has weights other than 1 |
| AspifReader.ReadRule | third_party/gringo/liblp/src/aspif.cpp:60-79 | the rule case reads a rule |
| AspifReader.ReadMinimize | third_party/gringo/liblp/src/aspif.cpp:80-90 | the minimize case reads a minimize directive |
| AspifReader.MatchLits | third_party/gringo/liblp/src/aspif.cpp:100 | a literal list is read as a count and that many literals |
| AspifReader.ReadOutput | third_party/gringo/liblp/src/aspif.cpp:98-101 | the output case reads an output directive |
| AspifReader.ReadHeuristic | third_party/gringo/liblp/src/aspif.cpp:111-117 | the heuristic case reads a heuristic directive |
| AspifReader.ReadEdge | third_party/gringo/liblp/src/aspif.cpp:118-122 | the edge case reads an edge directive |
| AspifReader.ReadCompound | third_party/gringo/liblp/src/aspif.cpp:160-165 | a compound term is read as a compound |
| AspifReader.ReadElement | third_party/gringo/liblp/src/aspif.cpp:166-172 | an element is read with the given id and an empty condition |
| AspifReader.ReadAtom | third_party/gringo/liblp/src/aspif.cpp:173-186 | a theory atom is read with the given id, and it has a guard exactly when the directive type says so |
| AspifReader.ReadTheoryBody | third_party/gringo/liblp/src/aspif.cpp:149-188 | a theory directive gives a term, an element (with no condition) or an atom with the given id |
| AspifReader.ReadTheory | third_party/gringo/liblp/src/aspif.cpp:123 | a theory directive fails when the reader has no theory data |
| AspifReader.ReadProject | third_party/gringo/liblp/src/aspif.cpp:91-97 | the project case reads a project directive |
| AspifReader.ReadExternal | third_party/gringo/liblp/src/aspif.cpp:102-107 | the external case reads an external directive |
| AspifReader.ReadAssume | third_party/gringo/liblp/src/aspif.cpp:108-110 | the assume case reads an assume directive |
| AspifReader.ReadDirective | third_party/gringo/liblp/src/aspif.cpp:58-125 | every case of the directive switch consumes input |
| AspifReader.ReadLine | third_party/gringo/liblp/src/aspif.cpp:57-125 | one pass of the parse loop consumes input |
| AspifReader.ReadHeader | third_party/gringo/liblp/src/aspif.cpp:41-47 | input that does not start with "asp" is left as it is |
| AspifReader.MatchSpanRoundTrip | third_party/gringo/liblp/src/aspif.cpp:208-226 | a span written as its count and elements reads back as itself |
| AspifReader.MatchPairsRoundTrip | third_party/gringo/liblp/src/aspif.cpp:208-214 | weight literals written as literal-weight pairs read back as themselves |
| AspifReader.MatchUnitRoundTrip | third_party/gringo/liblp/src/aspif.cpp:239-242 | a normal body's literals, written without weights, read back with weight 1 each |
| AspifReader.MatchStringRoundTrip | third_party/gringo/liblp/src/aspif.cpp:132-139 | a string written as its length and its text reads back as itself |
| AspifReader.BodyRoundTrip | third_party/gringo/liblp/src/aspif.cpp:67-77 | a body written by the writer reads back as a normal body with weight 1 and no bound, or otherwise as a sum body with its bound and weights |
| AspifReader.RuleRoundTrip | third_party/gringo/liblp/src/aspif.cpp:60-79 | a rule written by the writer reads back with the same head and the body as `BodyRoundTrip` says |
| AspifReader.CompoundRoundTrip | third_party/gringo/liblp/src/aspif.cpp:160-165 | a compound written as its base and arguments reads back as itself |
| AspifReader.ElementRoundTrip | third_party/gringo/liblp/src/aspif.cpp:166-172 | an element written with an empty condition reads back as itself |
| AspifReader.AtomRoundTrip | third_party/gringo/liblp/src/aspif.cpp:173-186 | a theory atom written with or without a guard reads back as itself |
| AspifReader.TermBodyRoundTrip | third_party/gringo/liblp/src/aspif.cpp:149-165 | a term written after its code and id reads back as the term |
| AspifReader.TermLineRoundTrip | third_party/gringo/liblp/src/aspif.cpp:320-343 | a term line reads back as the term |
| AspifReader.ElementLineRoundTrip | third_party/gringo/liblp/src/aspif.cpp:302-305 | an element line reads back as the element |
| AspifReader.AtomLineRoundTrip | third_party/gringo/liblp/src/aspif.cpp:312-317 | a theory atom line reads back as the atom |
| AspifReader.MinimizeRoundTrip | third_party/gringo/liblp/src/aspif.cpp:80-90 | a minimize directive reads back as itself |
| AspifReader.OutputRoundTrip | third_party/gringo/liblp/src/aspif.cpp:98-101 | an output directive reads back as itself |
| AspifReader.ExternalRoundTrip | third_party/gringo/liblp/src/aspif.cpp:102-107 | an external directive reads back as itself |
| AspifReader.HeuristicRoundTrip | third_party/gringo/liblp/src/aspif.cpp:111-117 | a heuristic directive reads back as itself |
| AspifReader.EdgeRoundTrip | third_party/gringo/liblp/src/aspif.cpp:118-122 | an edge directive reads back as itself |
| AspifReader.DirectiveRoundTrip | third_party/gringo/liblp/src/aspif.cpp:58-125 | every directive the reader accepts is written with its own code first, and the rest of its line reads back as the directive, a rule body as `BodyRoundTrip` says |
| AspifReader.LineRoundTrip | third_party/gringo/liblp/src/aspif.cpp:57-125 | every directive line the reader accepts reads back as the directive, with the rest of the input left over |
| AspifReader.ReadBacks | third_party/gringo/liblp/src/aspif.cpp:57-126 | each directive of a step reads back as `ReadBack` says, in order |
| AspifReader.StepRoundTrip | third_party/gringo/liblp/src/aspif.cpp:51-131 | a step written as its directives and then "0" reads back as those directives, and the reader stops right after the "0" |
| AspifReader.ParseStepEnd | third_party/gringo/liblp/src/aspif.cpp:57 | rule type 0 ends the step |
| AspifReader.HeaderRoundTrip | third_party/gringo/liblp/src/aspif.cpp:41-50 | the header the writer writes reads back with its incremental flag, up to the line break |
| AspifReader.VersionChecked | third_party/gringo/liblp/src/aspif.cpp:43-45 | a major version other than 1 fails with "unsupported major version", a minor version other than 0 with "unsupported minor version", and version 1.0 fails only when the revision number is missing |
| AspifReader.AspifInput.constructor | third_party/gringo/liblp/src/aspif.cpp:38 | a new reader holds its input and the theory data it was given, if any, and has reported nothing |
| AspifReader.AspifInput.DoAttach | third_party/gringo/liblp/src/aspif.cpp:41-50 | non-aspif input is not attached and left as it is; otherwise the version is checked, `initProgram` is called with the incremental flag, and the line must end right after it |
| AspifReader.AspifInput.DoParse | third_party/gringo/liblp/src/aspif.cpp:51-131 | `doParse` reports `beginStep`, the directives of the step up to rule type 0, and `endStep`; without theory data it fails exactly when the step does not parse, with that error; with theory data and a step that parses, it fails exactly when storing the step's theory directives in order fails (`StoreAll`), with that error, and otherwise leaves the tables as stored; a step that does not parse always fails |
| AspifReader.AspifInput.StoreDirective | third_party/gringo/liblp/src/aspif.cpp:149-188 | `matchTheory` stores a term, an element (condition 0) or an atom through `addTerm`, `addElement` or `addAtom`, with the outcome `Store` gives on the tables; other directives store nothing |
| AspifReader.Store | third_party/gringo/liblp/src/aspif.cpp:149-188 | only theory directives change the tables, a term only the term table and an element only the element table |
| AspifReader.DefinedTermFails | third_party/clingcon/liblp/src/theory_data.cpp:233-239 | a term directive for an id already defined makes storing the step fail |
| AspifReader.RedefinedTermFails | third_party/clingcon/liblp/src/theory_data.cpp:237 | two term directives of a step with the same id make storing the step fail ("Redefinition of theory term!") |
| AspifReader.DefinedElementFails | third_party/clingcon/liblp/src/theory_data.cpp:218-224 | an element directive for an id already defined makes storing the step fail |
| AspifReader.RedefinedElementFails | third_party/clingcon/liblp/src/theory_data.cpp:222 | two element directives of a step with the same id make storing the step fail ("Redefinition of theory element!") |
| AspifReader.TermRedefinitionExample | third_party/gringo/liblp/src/aspif.cpp:154-156 | the step "9 0 1 5", "9 0 1 6", "0" parses into two definitions of term 1, and storing it fails |
| AspifReader.TermRedefinitionTokens | third_party/gringo/liblp/src/aspif.cpp:154-156 | the lines of that step, as tokens |
| Backends.SpanText | third_party/gringo/libgringo/src/output/backends.cc:43-48 | a vector printed as its size and then each element after a blank is the aspif span field text |
| Backends.WeightSpanText | third_party/gringo/libgringo/src/output/backends.cc:50-54 | a weight-literal vector printed as its size and then literal and weight of each is the aspif weight span text |
| Backends.NormalBody | third_party/gringo/libgringo/src/output/backends.cc:189-193 | the smodels normal body is a normal body with one literal of weight 1 for each given literal, in order |
| Backends.RulePrinted | third_party/gringo/libgringo/src/output/backends.cc:73-83 | a head followed by a body prints exactly the aspif rule line of that head and body |
| Backends.MarkLaws | third_party/gringo/libgringo/src/output/backends.cc:118-120 | marking an id as seen adds exactly that id to the seen set |
| Backends.Printed | third_party/gringo/libgringo/src/output/backends.cc:132-133 | the terms printed before a compound are exactly its arguments and its function symbol |
| Backends.PrintTermFacts | third_party/gringo/libgringo/src/output/backends.cc:117-141 | `printTerm` fails only when a term is missing; otherwise it prints only term lines, ordered, each once and of a term not yet seen, with their text, and afterwards the term has been printed |
| Backends.SelfReferencePrintedOnce | third_party/gringo/libgringo/src/output/backends.cc:117-133 | `printTerm` marks an id before printing its arguments, so a compound that lists itself is printed exactly once and the call stops |
| Backends.PrintTermsFacts | third_party/gringo/libgringo/src/output/backends.cc:132-133 | printing a list of terms prints each of them, keeping the lines ordered |
| Backends.PrintTermConsistent | third_party/gringo/libgringo/src/output/backends.cc:117-141 | on a backend whose marks are those of the printed lines, `printTerm` keeps that so, adds no atom line, and prints the term |
| Backends.PrintElementFacts | third_party/gringo/libgringo/src/output/backends.cc:145-157 | one element is printed once, after its terms, with its condition; the backend stays consistent and the element is printed afterwards |
| Backends.PrintElementsFacts | third_party/gringo/libgringo/src/output/backends.cc:145-158 | every element of an atom is printed, keeping the lines ordered |
| Backends.PrintGuardFacts | third_party/gringo/libgringo/src/output/backends.cc:159-162 | the guard's right-hand side and operator are printed before the atom line |
| Backends.PrintAtomFacts | third_party/gringo/libgringo/src/output/backends.cc:143-167 | `printTheoryAtom` prints the atom's term, its new elements and its guard terms before exactly one atom line |
| Backends.PrintAtomsFacts | third_party/gringo/libgringo/src/output/backends.cc:143-167 | a run of `printTheoryAtom` calls prints, as atom lines, exactly the lines of those atoms, in order |
| Backends.FreshBackendFacts | third_party/gringo/libgringo/src/output/backends.cc:117-167 | on a fresh backend, the printed lines write each term and element once, after everything they refer to, the atom lines are those of the atoms in order, and the output is their text |
| Backends.IntermediateFormatBackend.constructor | third_party/gringo/libgringo/src/output/backends.cc:62-64 | a new backend has printed nothing and seen no term or element |
| Backends.IntermediateFormatBackend.StartLine | third_party/gringo/libgringo/src/output/backends.cc:74 | a line starts with its directive code |
| Backends.IntermediateFormatBackend.AddFields | third_party/gringo/libgringo/src/output/backends.cc:74-86 | each field is printed after one blank |
| Backends.IntermediateFormatBackend.Vec | third_party/gringo/libgringo/src/output/backends.cc:43-48 | a vector is printed as its size and then its elements |
| Backends.IntermediateFormatBackend.Weights | third_party/gringo/libgringo/src/output/backends.cc:50-54 | a weight-literal vector is printed as its size and then literal and weight of each |
| Backends.IntermediateFormatBackend.EndLine | third_party/gringo/libgringo/src/output/backends.cc:78 | a line ends with a line break |
| Backends.IntermediateFormatBackend.Init | third_party/gringo/libgringo/src/output/backends.cc:66-68 | `init` prints "asp 1 0 0", " incremental" when requested, and a line break |
| Backends.IntermediateFormatBackend.BeginStep | third_party/gringo/libgringo/src/output/backends.cc:70-71 | beginning a step prints nothing |
| Backends.IntermediateFormatBackend.PrintHead | third_party/gringo/libgringo/src/output/backends.cc:73-75 | the head prints the rule code, 1 for a choice or 0 for a disjunction, and the atoms |
| Backends.IntermediateFormatBackend.PrintNormalBody | third_party/gringo/libgringo/src/output/backends.cc:77-79 | a normal body prints "0" and the literals, ending the rule line |
| Backends.IntermediateFormatBackend.PrintWeightBody | third_party/gringo/libgringo/src/output/backends.cc:81-83 | a weight body prints "1", the lower bound and the literal-weight pairs, ending the rule line |
| Backends.IntermediateFormatBackend.PrintMinimize | third_party/gringo/libgringo/src/output/backends.cc:85-87 | prints the aspif minimize line |
| Backends.IntermediateFormatBackend.PrintProject | third_party/gringo/libgringo/src/output/backends.cc:89-91 | prints the aspif project line |
| Backends.IntermediateFormatBackend.PrintOutput | third_party/gringo/libgringo/src/output/backends.cc:93-95 | prints the aspif output line: the length of the text, the text and the condition |
| Backends.IntermediateFormatBackend.PrintEdge | third_party/gringo/libgringo/src/output/backends.cc:97-99 | prints the aspif edge line |
| Backends.IntermediateFormatBackend.PrintHeuristic | third_party/gringo/libgringo/src/output/backends.cc:101-103 | prints the aspif heuristic line, modifier before atom |
| Backends.IntermediateFormatBackend.PrintExternal | third_party/gringo/libgringo/src/output/backends.cc:105-107 | prints the aspif external line |
| Backends.IntermediateFormatBackend.PrintAssume | third_party/gringo/libgringo/src/output/backends.cc:109-111 | prints the aspif assume line |
| Backends.IntermediateFormatBackend.EndStep | third_party/gringo/libgringo/src/output/backends.cc:113-115 | ending a step prints "0" and a line break |
| Backends.IntermediateFormatBackend.PrintTerm | third_party/gringo/libgringo/src/output/backends.cc:117-141 | `printTerm` does what its specification function says on the seen marks, the lines and the text |
| Backends.IntermediateFormatBackend.PrintTerms | third_party/gringo/libgringo/src/output/backends.cc:132-133 | printing a list of terms does what `printTerm` does on each in turn |
| Backends.IntermediateFormatBackend.TermLine | third_party/gringo/libgringo/src/output/backends.cc:122-138 | a term line is the theory code, the term type, the id, and the number, the symbol's length and text, or the compound's base, size and arguments |
| Backends.IntermediateFormatBackend.PrintTheoryAtom | third_party/gringo/libgringo/src/output/backends.cc:143-167 | `printTheoryAtom` does what its specification function says |
| Backends.IntermediateFormatBackend.PrintElements | third_party/gringo/libgringo/src/output/backends.cc:145-158 | the element loop does what its specification function says |
| Backends.IntermediateFormatBackend.PrintElement | third_party/gringo/libgringo/src/output/backends.cc:146-157 | one element does what its specification function says |
| Backends.IntermediateFormatBackend.ElementLine | third_party/gringo/libgringo/src/output/backends.cc:152-156 | an element line is the theory code, the element type, the id, the terms and the condition |
| Backends.IntermediateFormatBackend.AtomLineOut | third_party/gringo/libgringo/src/output/backends.cc:163-166 | a theory atom line is the theory code, atom or guarded-atom type, the atom, occurrence, term, elements and the guard and right-hand side when guarded |
| Backends.HeaderLine | third_party/gringo/libgringo/src/output/backends.cc:66-68 | the header text is the aspif header line |
| Backends.SmodelsFormatBackend.constructor | third_party/gringo/libgringo/src/output/backends.cc:173-174 | a new smodels backend has made no calls on its writer |
| Backends.SmodelsFormatBackend.PrintHead | third_party/gringo/libgringo/src/output/backends.cc:184-187 | the head type and atoms are kept for the body that follows |
| Backends.SmodelsFormatBackend.PrintNormalBody | third_party/gringo/libgringo/src/output/backends.cc:189-194 | a normal body passes one rule to the writer, with the kept head and every literal with weight 1 |
| Backends.SmodelsFormatBackend.PrintWeightBody | third_party/gringo/libgringo/src/output/backends.cc:196-198 | a weight body passes one rule to the writer with the kept head and a sum body |
| Backends.SmodelsFormatBackend.PrintTheoryAtom | third_party/gringo/libgringo/src/output/backends.cc:228-230 | theory atoms always fail with "smodels format does not support theory atoms" |
| Backends.NormalBodyMeans | third_party/gringo/libgringo/src/output/backends.cc:189-194 | the smodels normal body has bound equal to its literal count (below 2^31), keeps the literals, gives each weight 1, and prints the same rule text as the intermediate backend |
| LogicProgramTypes.EdgeTypeOf | third_party/clingcon/clasp-3.2.x/libclasp/clasp/logic_program_types.h:144 | every two-bit code names the edge type whose code it is |
| LogicProgramTypes.NewEdgeDecodes | third_party/clingcon/clasp-3.2.x/libclasp/clasp/logic_program_types.h:147-170 | an edge packed from a node id, node type and edge type gives back that id, that type and that node type, and is an atom, body or disjunction edge exactly when its node type says so |
| LogicProgramTypes.NewEdgeInjective | third_party/clingcon/clasp-3.2.x/libclasp/clasp/logic_program_types.h:147-152 | two packed edges are equal exactly when their node ids, node types and edge types are equal |
| LogicProgramTypes.EdgeKinds | third_party/clingcon/clasp-3.2.x/libclasp/clasp/logic_program_types.h:159-164 | an edge is normal exactly for the normal and gamma types, choice exactly for the choice types and exactly when not normal, and gamma exactly for the two gamma types |
| LogicProgramTypes.NoEdgeIsNoNewEdge | third_party/clingcon/clasp-3.2.x/libclasp/clasp/logic_program_types.h:145-152 | no packed edge equals the no-edge value |
| LogicProgramTypes.EdgesOrderByNode | third_party/clingcon/clasp-3.2.x/libclasp/clasp/logic_program_types.h:154-171 | edges order first by their node id: an edge to a smaller node is always smaller |
| LogicProgramTypes.Assigned | third_party/clingcon/clasp-3.2.x/libclasp/clasp/logic_program_types.h:110-117 | assigning a value succeeds exactly when the resulting value satisfies the request; the value changes only from free or weak true and only to the requested value; with noWeak a weak true result means it was weak true before |
| LogicProgramTypes.AssignedIdempotent | third_party/clingcon/clasp-3.2.x/libclasp/clasp/logic_program_types.h:110-117 | a successful assignment repeated with the same value changes nothing and succeeds again |
| LogicProgramTypes.NodeStatus | third_party/clingcon/clasp-3.2.x/libclasp/clasp/logic_program_types.h:62-73 | a node is relevant exactly when it is neither removed nor equivalent to another node, and never both removed and equivalent |
| LogicProgramTypes.IdMeans | third_party/clingcon/clasp-3.2.x/libclasp/clasp/logic_program_types.h:76-80 | two literals have the same id exactly when they agree up to their flag; decoding an encoded literal gives its variable, and the encoding is negative exactly for a negative literal |
| LogicProgramTypes.PrgNode.SetLiteral | third_party/clingcon/clasp-3.2.x/libclasp/clasp/logic_program_types.h:98 | the literal field keeps the low 31 bits of the id |
| LogicProgramTypes.PrgNode.ClearLiteral | third_party/clingcon/clasp-3.2.x/libclasp/clasp/logic_program_types.h:99 | the node has no variable afterwards, and its value becomes free only when asked |
| LogicProgramTypes.PrgNode.SetValue | third_party/clingcon/clasp-3.2.x/libclasp/clasp/logic_program_types.h:100 | the value field holds the given value |
| LogicProgramTypes.PrgNode.SetEq | third_party/clingcon/clasp-3.2.x/libclasp/clasp/logic_program_types.h:101 | the node points to the truncated id and is marked equivalent and seen; it counts as equivalent exactly when that id is a node, and as removed otherwise |
| LogicProgramTypes.PrgNode.SetIgnoreScc | third_party/clingcon/clasp-3.2.x/libclasp/clasp/logic_program_types.h:102 | the ignore-component flag holds the given value |
| LogicProgramTypes.PrgNode.MarkRemoved | third_party/clingcon/clasp-3.2.x/libclasp/clasp/logic_program_types.h:103 | an equivalent node is left unchanged, any other node becomes removed and seen; either way the node is no longer relevant |
| LogicProgramTypes.PrgNode.SetSeen | third_party/clingcon/clasp-3.2.x/libclasp/clasp/logic_program_types.h:104 | the seen flag holds the given value |
| LogicProgramTypes.PrgNode.ResetId | third_party/clingcon/clasp-3.2.x/libclasp/clasp/logic_program_types.h:105-109 | the node gets the truncated id and the seen flag and is relevant again, neither removed nor equivalent |
| LogicProgramTypes.PrgNode.AssignValueImpl | third_party/clingcon/clasp-3.2.x/libclasp/clasp/logic_program_types.h:110-117 | the new value and the result are those of the assignment rule `Assigned` |
| LogicProgramTypes.BodyFlag | third_party/clingcon/clasp-3.2.x/libclasp/clasp/logic_program_types.h:282 | a positive literal uses the positive-body flag and a negative one the negative-body flag |
| LogicProgramTypes.HeadFlag | third_party/clingcon/clasp-3.2.x/libclasp/clasp/logic_program_types.h:313-315 | a normal atom edge uses the head flag, a choice atom edge the choice flag and any other edge the disjunction flag |
| LogicProgramTypes.Resized | third_party/clingcon/clasp-3.2.x/libclasp/clasp/logic_program_types.h:296 | resizing gives exactly the requested length, keeping old flags and filling new entries with no flags |
| LogicProgramTypes.Grown | third_party/clingcon/clasp-3.2.x/libclasp/clasp/logic_program_types.h:312 | growing for a variable extends the state only when the variable is beyond it, keeping every old flag |
| LogicProgramTypes.SetIn | third_party/clingcon/clasp-3.2.x/libclasp/clasp/logic_program_types.h:291 | setting flags grows the state to cover the variable, adds the flags to that variable and changes no other entry |
| LogicProgramTypes.ClearIn | third_party/clingcon/clasp-3.2.x/libclasp/clasp/logic_program_types.h:292 | clearing flags keeps the length, removes the flags from a variable inside the state and changes no other entry |
| LogicProgramTypes.SetThenIsSet | third_party/clingcon/clasp-3.2.x/libclasp/clasp/logic_program_types.h:283-291 | after setting, a flag test succeeds exactly when it succeeded before or asks for one of the set flags of that variable |
| LogicProgramTypes.ClearThenIsSet | third_party/clingcon/clasp-3.2.x/libclasp/clasp/logic_program_types.h:283-292 | after clearing, the cleared flags test false for that variable, no test newly succeeds, and other variables test as before |
| LogicProgramTypes.AtomState.constructor | third_party/clingcon/clasp-3.2.x/libclasp/clasp/logic_program_types.h:276 | a new atom state holds no entries |
| LogicProgramTypes.AtomState.Swap | third_party/clingcon/clasp-3.2.x/libclasp/clasp/logic_program_types.h:277 | the two states exchange their entries |
| LogicProgramTypes.AtomState.Set | third_party/clingcon/clasp-3.2.x/libclasp/clasp/logic_program_types.h:291 | the new state is the old one with the flags set as `SetIn` describes |
| LogicProgramTypes.AtomState.Clear | third_party/clingcon/clasp-3.2.x/libclasp/clasp/logic_program_types.h:292 | the new state is the old one with the flags cleared as `ClearIn` describes |
| LogicProgramTypes.AtomState.AddToHeadAtom | third_party/clingcon/clasp-3.2.x/libclasp/clasp/logic_program_types.h:286 | the atom gets the head flag |
| LogicProgramTypes.AtomState.AddToHead | third_party/clingcon/clasp-3.2.x/libclasp/clasp/logic_program_types.h:287 | the edge's node gets the head flag that the edge's kind selects |
| LogicProgramTypes.AtomState.AddToBody | third_party/clingcon/clasp-3.2.x/libclasp/clasp/logic_program_types.h:289 | the literal's variable gets the body flag of the literal's sign |
| LogicProgramTypes.AtomState.ClearRule | third_party/clingcon/clasp-3.2.x/libclasp/clasp/logic_program_types.h:293 | every rule flag of the variable is cleared and the sticky flags are kept |
| LogicProgramTypes.AtomState.ClearHead | third_party/clingcon/clasp-3.2.x/libclasp/clasp/logic_program_types.h:294 | the head flag that the edge selects is cleared for its node |
| LogicProgramTypes.AtomState.ClearBody | third_party/clingcon/clasp-3.2.x/libclasp/clasp/logic_program_types.h:295 | the body flag of the literal's sign is cleared for its variable |
| LogicProgramTypes.AtomState.Resize | third_party/clingcon/clasp-3.2.x/libclasp/clasp/logic_program_types.h:296 | the new state is the old one resized as `Resized` describes |
| LogicProgramTypes.AtomState.AllMarked | third_party/clingcon/clasp-3.2.x/libclasp/clasp/logic_program_types.h:298-304 | the result is true exactly when every given variable has one of the flags |
| LogicProgramTypes.AtomState.InBodyAll | third_party/clingcon/clasp-3.2.x/libclasp/clasp/logic_program_types.h:305-309 | the result is true exactly when every given literal is in the body of the active rule |
| LogicProgramTypes.LowerBound | third_party/clingcon/clasp-3.2.x/libclasp/clasp/logic_program_types.h:660 | on a strictly sorted sequence, the position found has only smaller elements before it and no smaller element from it on |
| LogicProgramTypes.InsertSorted | third_party/clingcon/clasp-3.2.x/libclasp/clasp/logic_program_types.h:659-662 | inserting a new element at its lower bound keeps the sequence strictly sorted |
| LogicProgramTypes.NonHcfSet.constructor | third_party/clingcon/clasp-3.2.x/libclasp/clasp/logic_program_types.h:658 | a new set of non-head-cycle-free components is empty and sorted |
| LogicProgramTypes.NonHcfSet.Add | third_party/clingcon/clasp-3.2.x/libclasp/clasp/logic_program_types.h:659-662 | adding keeps the set sorted without duplicates, adds exactly the given component, and grows only when it was absent |
| LogicProgramTypes.NonHcfSet.Find | third_party/clingcon/clasp-3.2.x/libclasp/clasp/logic_program_types.h:663-666 | a component is found exactly when it is not the no-component id and was added |
| ProgramBuilder.ScannedMembers | third_party/clingcon/clasp-3.2.x/libclasp/src/program_builder.cpp:138-145 | the literals the clause filter keeps are unflagged, hold each variable at most once and come from the clause; without a clash every literal of the clause is kept up to its flag |
| ProgramBuilder.ClashSticky | third_party/clingcon/clasp-3.2.x/libclasp/src/program_builder.cpp:143 | once the filter met a literal whose complement was seen, the rest of the clause changes neither verdict nor kept literals |
| ProgramBuilder.ScannedTautology | third_party/clingcon/clasp-3.2.x/libclasp/src/program_builder.cpp:135-151 | the filter reports the clause satisfied exactly when it holds a literal and its complement |
| ProgramBuilder.ScannedPrefix | third_party/clingcon/clasp-3.2.x/libclasp/src/program_builder.cpp:138-145 | the literals kept from a prefix of the clause are a prefix of those kept from the whole clause |
| ProgramBuilder.PolOfClause | third_party/clingcon/clasp-3.2.x/libclasp/src/program_builder.cpp:140-142 | without a clash, the polarity bits recorded for a variable are exactly the signs with which it occurs in the clause |
| ProgramBuilder.PolOnePerVar | third_party/clingcon/clasp-3.2.x/libclasp/src/program_builder.cpp:140-143 | a kept literal's variable never records both polarities |
| ProgramBuilder.ScanKeeps | third_party/clingcon/clasp-3.2.x/libclasp/src/program_builder.cpp:142 | a literal whose variable was not yet seen is kept, unflagged, and its variable had no polarity |
| ProgramBuilder.ScanClashes | third_party/clingcon/clasp-3.2.x/libclasp/src/program_builder.cpp:143 | a literal whose complement was seen ends the scan with a clash and keeps nothing more |
| ProgramBuilder.ScanSkips | third_party/clingcon/clasp-3.2.x/libclasp/src/program_builder.cpp:140-143 | a literal seen before with the same sign is dropped |
| ProgramBuilder.ScanFacts | third_party/clingcon/clasp-3.2.x/libclasp/src/program_builder.cpp:138-145 | the kept literals stay within the state vector and record no variable with both polarities |
| ProgramBuilder.SoftRecord | third_party/clingcon/clasp-3.2.x/libclasp/src/program_builder.cpp:127-131 | a soft clause is stored as its weight, then either a fresh relaxation variable and the clause, or the negated single literal, or the true literal, with only the last entry flagged as the end |
| ProgramBuilder.SatBuilder.constructor | third_party/clingcon/clasp-3.2.x/libclasp/src/program_builder.cpp:89 | a new builder has hard weight 0, no variables, no state and no clauses, with the given max-sat mode |
| ProgramBuilder.SatBuilder.PrepareProblem | third_party/clingcon/clasp-3.2.x/libclasp/src/program_builder.cpp:98-107 | the state holds one byte per variable and the sentinel, the variable count and hard weight are set, and the clauses are unchanged |
| ProgramBuilder.SatBuilder.Satisfied | third_party/clingcon/clasp-3.2.x/libclasp/src/program_builder.cpp:135-151 | the verdict and kept literals are those of the filter; without a clash each kept variable's state records its polarities in the upper bits, and the low bits are cleared again |
| ProgramBuilder.SatBuilder.ScanClause | third_party/clingcon/clasp-3.2.x/libclasp/src/program_builder.cpp:137-145 | the first loop keeps what the filter keeps and leaves the polarities of the kept literals in the low state bits |
| ProgramBuilder.SatBuilder.ClearBits | third_party/clingcon/clasp-3.2.x/libclasp/src/program_builder.cpp:146-149 | the second loop moves the low bits up unless the clause was satisfied and clears them |
| ProgramBuilder.SatBuilder.AddClause | third_party/clingcon/clasp-3.2.x/libclasp/src/program_builder.cpp:118-134 | with a failed solver nothing changes and the result is false; a tautology changes no clause; otherwise weight 0 becomes 1 in max-sat mode, a clause of the hard weight is posted as a hard clause, and any other is stored as a soft record with a fresh variable only when it has more than one literal |
| ProgramBuilder.WeakBounds | third_party/clingcon/clasp-3.2.x/libclasp/src/program_builder.cpp:242-247 | with no soft bound the bounds are unchanged; otherwise the first bound becomes the soft bound when it is missing or larger, and later bounds are kept |
| ProgramBuilder.WeakBoundsIdempotent | third_party/clingcon/clasp-3.2.x/libclasp/src/program_builder.cpp:242-247 | asking for the weak bounds twice gives what asking once gives |
| ProgramBuilder.PBBuilder.constructor | third_party/clingcon/clasp-3.2.x/libclasp/src/program_builder.cpp:196 | a new builder has handed out no variable and starts from variable 0 |
| ProgramBuilder.PBBuilder.DoStartProgram | third_party/clingcon/clasp-3.2.x/libclasp/src/program_builder.cpp:303-307 | the next variable is the solver's variable count and the soft bound is cleared |
| ProgramBuilder.PBBuilder.PrepareProblem | third_party/clingcon/clasp-3.2.x/libclasp/src/program_builder.cpp:197-205 | the next variable is the input count and the last usable variable leaves room for the products and soft constraints |
| ProgramBuilder.PBBuilder.GetNextVar | third_party/clingcon/clasp-3.2.x/libclasp/src/program_builder.cpp:206-209 | within bounds, the variable after the last one handed out is handed out and becomes the last one |
| ProgramBuilder.PBBuilder.SetSoftBound | third_party/clingcon/clasp-3.2.x/libclasp/src/program_builder.cpp:237-240 | a positive bound is stored less one, any other leaves the soft bound, and the call always succeeds |
| ProgramBuilder.PBBuilder.DoGetWeakBounds | third_party/clingcon/clasp-3.2.x/libclasp/src/program_builder.cpp:242-247 | the result is the weak bounds of the stored soft bound |
| ProgramBuilder.HandedDistinct | third_party/clingcon/clasp-3.2.x/libclasp/src/program_builder.cpp:206-209 | variables handed out in turn are distinct, increasing, above the starting count and at most the current one |
| ClaspBits.SetBitMeans | third_party/clingcon/clasp-3.2.x/libclasp/src/clingo.cpp:34-36 | after setting a bit of a word, a bit tests set exactly when it is that bit or was set before |
| ClaspBits.GrowKeepsMarks | third_party/clingcon/clasp-3.2.x/libclasp/src/clingo.cpp:33 | growing the bitset with cleared words changes no literal id's mark |
| ClaspBits.MarkOne | third_party/clingcon/clasp-3.2.x/libclasp/src/clingo.cpp:34-36 | setting the bit of one literal id marks that id and keeps every other mark |
| ClaspClingo.Watches.Add | third_party/clingcon/clasp-3.2.x/libclasp/src/clingo.cpp:30-39 | the result is the literal's signed encoding, and the literal is appended to the watch list exactly when no literal with its id was registered before |
| ClaspClingo.Value | third_party/clingcon/clasp-3.2.x/libclasp/src/clingo.cpp:72-81 | a literal without a solver variable is an invalid-variable error; otherwise it is free exactly when its variable is unassigned, and true exactly when the variable's value agrees with the literal's sign |
| ClaspClingo.ValueOfNegation | third_party/clingcon/clasp-3.2.x/libclasp/src/clingo.cpp:74-81 | a literal and its negation have the same variable and complementary values |
| ClaspClingo.Level | third_party/clingcon/clasp-3.2.x/libclasp/src/clingo.cpp:82-84 | a literal without a variable is an error; otherwise the level is the no-level value exactly when the literal is free or its variable has no level, and an assigned literal has its variable's level |
| ClaspClingo.ValueOfLiteral | third_party/clingcon/clasp-3.2.x/libclasp/src/clingo.cpp:72-81 | the value read for an encoded solver literal is true exactly when the solver holds the literal true |
| ClaspClingo.InitTrailFrom | third_party/clingcon/clasp-3.2.x/libclasp/src/clingo.cpp:118-126 | what initialisation puts on the trail are encodings of watched literals that need no watch and are true |
| ClaspClingo.InitWatchesExactly | third_party/clingcon/clasp-3.2.x/libclasp/src/clingo.cpp:118-126 | initialisation registers a watch, with its index, for exactly the literals that are unassigned or assigned above the root level |
| ClaspClingo.PostPropagator.constructor | third_party/clingcon/clasp-3.2.x/libclasp/src/clingo.cpp:52-54 | a new propagator has an empty trail, no initialised watches, a zero delta and one undo entry for level 0 |
| ClaspClingo.PostPropagator.Init | third_party/clingcon/clasp-3.2.x/libclasp/src/clingo.cpp:115-128 | more initialised watches than exist is an invalid-watch-list error changing nothing; otherwise every new watch is processed, the true settled ones are appended to the trail and the others registered |
| ClaspClingo.PostPropagator.Propagate | third_party/clingcon/clasp-3.2.x/libclasp/src/clingo.cpp:130-133 | the propagated literal's encoding is appended to the trail, and the watch is kept |
| ClaspClingo.PostPropagator.Reason | third_party/clingcon/clasp-3.2.x/libclasp/src/clingo.cpp:134-138 | the reason gets the negation of every clause literal except the first when that is the implied literal, after what it already held |
| ClaspClingo.PostPropagator.Reset | third_party/clingcon/clasp-3.2.x/libclasp/src/clingo.cpp:139-141 | the trail is cut back to the part already handed to the propagator |
| ClaspClingo.PostPropagator.UndoLevel | third_party/clingcon/clasp-3.2.x/libclasp/src/clingo.cpp:183-191 | undoing a level other than the top undo entry's is an invalid-undo error changing nothing; otherwise the top entry is popped, its delta restored, the trail cut back to it, and the cut-off literals are the change reported |
| FrontEndOptions.FindFirstOf | third_party/gringo/app/gringo/main.cc:64 | the position found is the first delimiter at or after the start, or the end of the string when there is none |
| FrontEndOptions.SplitStep | third_party/gringo/app/gringo/main.cc:64-67 | when a delimiter follows, the split holds the piece before it (unless it is empty and empty pieces are dropped) and then the split of the rest after the delimiter |
| FrontEndOptions.SplitLast | third_party/gringo/app/gringo/main.cc:64-68 | with no delimiter left, the split holds the remaining text when there is any, and nothing otherwise |
| FrontEndOptions.Split | third_party/gringo/app/gringo/main.cc:60-70 | the loop's result is the split of the source at the delimiter characters, keeping empty pieces only when asked |
| FrontEndOptions.PiecesHaveNoDelimiter | third_party/gringo/app/gringo/main.cc:64-68 | no piece of a split contains a delimiter |
| FrontEndOptions.SplitPieces | third_party/gringo/app/gringo/main.cc:60-70 | no piece of a split contains a delimiter, and without keepEmpty no piece is empty |
| FrontEndOptions.SplitTrailing | third_party/gringo/app/gringo/main.cc:65-68 | on the example "a,,b,": the trailing comma yields no empty last piece, and the inner empty piece is kept only when asked |
| FrontEndOptions.SplitTrailingDelimiter | third_party/gringo/app/gringo/main.cc:63-68 | for every text and delimiter: a trailing delimiter adds no piece; with `keepEmpty` the result is every piece of the text before it, empty ones included, and without it the split of that text |
| FrontEndOptions.PiecesAround | third_party/gringo/app/gringo/main.cc:63-67 | a delimiter between two texts separates their pieces: the pieces of the whole are those of the first text, then those of the second |
| FrontEndOptions.NonEmptyMeans | third_party/gringo/libclingo/clingo/clingocontrol.hh:112 | dropping empty pieces keeps exactly the non-empty ones |
| FrontEndOptions.JoinPieces | third_party/gringo/libclingo/clingo/clingocontrol.hh:111-115 | joining the pieces of a split at one delimiter, keeping empty ones, gives back the text |
| FrontEndOptions.PiecesOfJoin | third_party/gringo/libclingo/clingo/clingocontrol.hh:111-115 | splitting the join of delimiter-free pieces gives back those pieces |
| FrontEndOptions.SplitJoin | third_party/gringo/libclingo/clingo/clingocontrol.hh:107-117 | split keeping empty pieces inverts joining delimiter-free pieces whose last one is not empty |
| FrontEndOptions.WarningNamed | third_party/gringo/libclingo/clingo/clingocontrol.hh:94-103 | a warning is found only for its own command-line name |
| FrontEndOptions.WarningSetting | third_party/gringo/libclingo/clingo/clingocontrol.hh:93-105 | a setting is recognised only when the text is the warning's name, optionally prefixed with no- for switching it off |
| FrontEndOptions.WarningRoundTrip | third_party/gringo/libclingo/clingo/clingocontrol.hh:93-105 | each warning's name, with or without the no- prefix, is read back as that warning switched off or on |
| FrontEndOptions.SignaturesMeans | third_party/gringo/app/gringo/main.cc:72-81 | the signature list is accepted exactly when every item is a name and an unsigned arity separated by a slash; on success one signature per item is added, on failure the signatures of the well-formed items before the first bad one |
| FrontEndOptions.SignaturesStep | third_party/gringo/libclingo/clingo/clingocontrol.hh:120-126 | an item is read as name and arity when it splits at slashes into exactly two pieces and the second is an unsigned number, and reading stops at the first item that is not |
| FrontEndOptions.DoubledSlash | third_party/gringo/libclingo/clingo/clingocontrol.hh:121 | on the example `p//1`: read as `p/1` |
| FrontEndOptions.DoubledDelimiter | third_party/gringo/libclingo/clingo/clingocontrol.hh:121 | for every text: without `keepEmpty` a doubled delimiter splits like a single one, since empty pieces are dropped |
| FrontEndOptions.OuterSlashes | third_party/gringo/libclingo/clingo/clingocontrol.hh:121 | on the example `/p/1/`: read as `p/1` |
| FrontEndOptions.OuterDelimiters | third_party/gringo/libclingo/clingo/clingocontrol.hh:121 | for every text: without `keepEmpty` a delimiter at both ends changes nothing |
| FrontEndOptions.GringoOptions.constructor | third_party/gringo/app/gringo/main.cc:44-58 | the defaults are no defines, no debug output, the intermediate format, every switch off and every warning on, and no signatures |
| FrontEndOptions.GringoOptions.ParseWarning | third_party/gringo/app/gringo/main.cc:221-233 | the call succeeds exactly for a recognised warning setting, which then switches that warning off or on and leaves every other warning unchanged |
| FrontEndOptions.GringoOptions.ParseText | third_party/gringo/app/gringo/main.cc:235-238 | the output format becomes text and the call always succeeds |
| FrontEndOptions.GringoOptions.ParseFoobar | third_party/gringo/app/gringo/main.cc:72-81 | the call succeeds exactly when the comma-separated list is well formed, and the signatures read before any bad item are appended |
| NongroundGrammarTest.NafTexts | third_party/gringo/libgringo/tests/input/nongroundgrammar.cc:949-955 | double default negation is written as two single ones, and a positive literal gets no prefix |
| NongroundGrammarTest.JoinSnoc | third_party/gringo/libgringo/tests/input/nongroundgrammar.cc:963-969 | printing one more element adds the separator and the element |
| NongroundGrammarTest.OneTuple | third_party/gringo/libgringo/tests/input/nongroundgrammar.cc:786-793 | a one-element theory tuple gets a trailing comma and so differs from the parenthesised element, while a pair gets none |
| NongroundGrammarTest.StatementsSplit | third_party/gringo/libgringo/tests/input/nongroundgrammar.cc:984-992 | the printed program splits back into its statements at line breaks, when no statement holds a line break and the last is not empty |
| NongroundGrammarTest.TestBuilder.Str | third_party/gringo/libgringo/tests/input/nongroundgrammar.cc:957-961 | the result is the buffered text and the buffer is emptied |
| NongroundGrammarTest.TestBuilder.Print | third_party/gringo/libgringo/tests/input/nongroundgrammar.cc:963-969 | the elements are appended to the buffer with the separator between neighbours |
| NongroundGrammarTest.TestBuilder.PrintNested | third_party/gringo/libgringo/tests/input/nongroundgrammar.cc:971-980 | the inner lists are appended joined with commas, the inner results separated by semicolons |
| NongroundGrammarTest.TestBuilder.PrintNaf | third_party/gringo/libgringo/tests/input/nongroundgrammar.cc:949-955 | the negation prefix of the literal is appended |
| NongroundGrammarTest.TestBuilder.PrintAggregate | third_party/gringo/libgringo/tests/input/nongroundgrammar.cc:939-947 | the first bound's left form, the function, the elements in braces and the other bounds' right forms are appended in that order |
| NongroundGrammarTest.TestBuilder.TheoryTermTuple | third_party/gringo/libgringo/tests/input/nongroundgrammar.cc:786-793 | the result is the buffered text and the tuple, with a trailing comma exactly for a single element, and the buffer is emptied |
| NongroundGrammarTest.TestBuilder.TermTuple | third_party/gringo/libgringo/tests/input/nongroundgrammar.cc:382-388 | the result is the buffered text and the tuple, with a trailing comma exactly when forced, and the buffer is emptied |
| NongroundGrammarTest.TestBuilder.ToString | third_party/gringo/libgringo/tests/input/nongroundgrammar.cc:984-992 | the result is the buffered text and the statements joined with line breaks, and both are emptied |

## Left out

- `check.py`, the FlatZinc check driver, is not modelled: it starts external processes and works with temporary files and signals. Its `flatzincUNSAT` (`third_party/clingcon/flatzinc_skeleton-1.3/check.py:32-35`) loops over the characters of the solver output, so it can never find the word `UNSATISFIABLE`.
- The converter's standard input, standard output and exit status are a string, a string and an int. Reading and writing themselves are not modelled.
- The SAT solver is not modelled. `createClause`, `setEqual`, `force`, `ClauseCreator` and `addWatch` append to a log. `createClause` is taken to succeed wherever its result is not a parameter (the members are named below). The solver's answers (`isTrue`, `isFalse`, value, level, `validVar`, and the result of `setEqual` in `setLELit`, `setGELit` and `setEqualLit`) are parameters.
- Headers that are not part of this model are replaced by the smallest behaviour the core needs: `domain.h`, `variable.h`, clasp's `literal.h`, `bk_lib::string_cast` and the `ProgramReader` matchers. `order::InvalidVar` is taken to be `0xFFFF_FFFF`, `Domain::min`/`Domain::max` are parameters, and `string_cast<unsigned>` is the parameter `castUnsigned`.
- Assertions (`assert`, `CLASP_ASSERT_CONTRACT`, `CLASP_FAIL_IF` where it guards a caller error) become `requires` clauses or error results. Undefined behaviour is excluded by `requires`, except for the integer overflows named below.
- `domain.cpp`: `intersect(const Domain&)` (97-133) and `operator+=(const Domain&)` (300-321) are not modelled. Intersection with a single range, removal, union with a range and a shift by a constant are. `storage.cpp`'s `intersectView` (22-41) is left out with them, because it is built from these two.
- `storage.cpp`: `domainChange(var, const Domain&)` for a variable that already has order literals (it re-threads the literals around new holes) is not modelled. `createOrderLiterals`, `restrictDomainsAccordingToLiterals` and `createEqualClauses` are not modelled either.
- Variables.VariableCreator.ConstrainDomain: requires that the variable has no order literal memory, because the hole-handling `domainChange` is not modelled.
- Variables.VariableCreator.RemoveFromView: requires that the variable has no order literal memory, for the same reason.
- Variables.VariableCreator.DomainChange: models only the variable without order literal memory.
- Variables.VariableCreator.ChangeBoundsOf: requires the vector-only store, so the map branch of `domainChange(var, lo, hi)` (`storage.cpp:346-364`) is not modelled, not even when every map key lies in [start, end) and nothing is erased. When some key lies outside that range, the loop erases the entry `h` points to and then compares and increments `h`, which is undefined behaviour; the map entries it keeps are also not renumbered to the shifted vector positions.
- Variables.ChangeBoundsSteps: `createClause` in the two unit-clause loops of `domainChange(var, lo, hi)` (`storage.cpp:366-376`) is taken to succeed. The source returns false at the first unit the solver rejects, and the later units, the store's move and the new domain never happen; the model posts every unit and goes on.
- Variables.DomainChangeBounds: `createClause` in the two unit-clause loops of `domainChange(var, lo, hi)` (`storage.cpp:366-376`) is taken to succeed. The source returns false at the first unit the solver rejects, and the later units, the store's move and the new domain never happen; the model posts every unit and goes on.
- Variables.VariableCreator.ChangeBoundsOf: `createClause` in the two unit-clause loops of `domainChange(var, lo, hi)` (`storage.cpp:366-376`) is taken to succeed. The source returns false at the first unit the solver rejects, and the later units, the store's move and the new domain never happen; the model posts every unit and goes on.
- Variables.VariableCreator.ConstrainView: reaches `domainChange(var, lo, hi)`, whose failing `createClause` is not modelled (see ChangeBoundsOf), so it does not return false for a rejected unit clause.
- Variables.VariableCreator.ConstrainUpperBound: goes through `ConstrainView`, with the same gap.
- Variables.VariableCreator.ConstrainLowerBound: goes through `ConstrainView`, with the same gap.
- Variables.VariableCreator.SetLELit: when the literal is decided (`value.Some?`) it reaches `domainChange(var, lo, hi)`. There it takes `createClause` to succeed, and it requires the vector-only store and `minLitsPerVar == -1`, because only that store's `domainChange` is modelled.
- Variables.VariableCreator.SetGELit: as SetLELit, for a decided literal it takes `createClause` to succeed and requires the vector-only store and `minLitsPerVar == -1`.
- Variables.VariableCreator.SetEqualLit: for a decided literal it requires the vector-only store and `minLitsPerVar == -1`, like SetLELit.
- Variables.VariableCreator.SetOrderLitAsEqual: for a decided literal it requires the vector-only store and `minLitsPerVar == -1`, like SetLELit.
- Domains.Domain.ConstrainDomain: computes `times * y + c` and its remainder by `div` on unbounded integers. In `domain.cpp:53-64` these are `int32` operations, and an overflow, or `INT_MIN % -1`, is undefined behaviour that the model does not exclude. On the values where the source is defined, the two agree.
- Variables.VariableCreator.ConstrainDomain: passes its arguments to `Domain.ConstrainDomain`, with the same unbounded arithmetic.
- Normalizing.RestrictToEqualities: calls `constrainDomain` with the edges' coefficients and constant, with the same unbounded arithmetic.
- Variables.VariableCreator.SetLELit: requires `k + 1 < size` when the literal is false and the view is not reversed (for SetGELit, when it is). Otherwise `*(it+1)` (`storage.cpp:78`) dereferences the end iterator.
- Domains.Domain.InplaceDivide: says nothing about the quotient `-minValue - 1`, the initial value of the loop's last-quotient variable (`domain.cpp:259`).
- Normalizing.RestrictToEqualities: the walk over `ep_.equalities()` is the parameter `edges` (each class top with one edge of its class, in visiting order); the model does not derive that list from an `Equalities.EqualityProcessor`.
- Normalizing.Normalizer.CalculateDomains: `deriveSimpleDomain` (`normalizer.cpp:124-191`) is given by the parameters `deriveDomain` and `deriveLinear`, which return only its pair of answers. The actions it takes before it answers are not applied to the variable creator or the solver, and its answers do not depend on earlier ones. `DeriveDomain` and `DeriveLinear` describe these actions: narrowing a view's domain through `intersectView`, `constrainUpperBound`, `constrainLowerBound`, `constrainView` or `removeFromView`, posting a unit clause, and `setEqual`. So the contract's unchanged clauses, and its unchanged domains on failure, hold of the model only. In the source the domains and clauses may already have changed when it fails. On success the simplified constraints narrow the domains as well as the equalities.
- Normalizing.Normalizer.CalculateDomains: `normalize()` of a linear constraint is the parameter `norm`, since `LinearConstraint::normalize` is not part of this model (see `AddImp` below).
- AspifReader.Store: a theory term or element id of 2^32 - 1, or a 2^32-th theory atom, makes the source grow a table to the wrapped size `id + 1 == 0`, which is undefined behaviour; the model fails with "vector: max capacity exceeded!" there.
- Normalizing.PairwiseUnequal: requires at least one view. For an empty list the source's loop starts at `views.end()-1` (`normalizer.cpp:392`), which is undefined behaviour.
- Normalizing.Normalizer.AddImp: expects a constraint that is already normalised. `LinearConstraint::normalize` (merging views and dividing by the gcd) is not part of this model.
- Propagation.ConstraintStorage.AddImp: expects a constraint that is already normalised, for the same reason.
- Propagation.LinearPropagator.Propagate: takes at most `fuel` single steps. The source's loop ends because bounds only shrink, and bounds are not part of this run.
- Propagation.LinearPropagator.PropagateSingleStep: `propagate_true` and `propagate_impl` are parameters indexed by the step number. The first returns whether it passed and the views whose upper bounds it tightened, in order; the solver's assignment `value` is fixed for the whole run, so a clause `propagate_impl` adds does not change it.
- Equalities.Edge.Times: models 32-bit signed overflow as two's complement wrap-around. In C++ such overflow is undefined.
- Equalities.Edge.TimesAssign: models the overflow the same way.
- TheoryParsing.GetNumber: evaluates with unbounded integers. Overflow of the C++ `int` is not modelled.
- `theoryparser.cpp`: `getView` (208-342), which turns arithmetic terms into views, is modelled only as its cache lookup. `readConstraint` (402-708), `postProcess` and `minimize` are not modelled: they translate whole constraints through the normaliser and the solver.
- TheoryStore.TheoryData: the raw arrays that `grow` reallocates and copies become a `Vec` of entries in use and a capacity. Pointer identity and memory reuse are not modelled.
- `aspif.cpp` and `backends.cc`: stream I/O is modelled as appending to a string and reading from a field sequence. Malformed numbers inside a field and the `smodels` writer are not modelled.
- Aspif.TheoryFacts: the ordering is proved for acyclic term tables (`Acyclic`); on a cyclic table `theory` still stops and writes each new term once, but a term line may come before the line of a term it refers to.
- Aspif.ElementSpec: a failure yields only `Fail(ConditionError)`; the element's term lines and the unfinished element line (`aspif.cpp:302-305`) that the source has already written by then are not part of the result, so the output after a failed write is not stated.
- Aspif.AspifOutput.WriteElement: as ElementSpec, on failure it promises only the error; what `out` holds then is not stated.
- Backends.IntermediateFormatBackend.PrintTheoryAtom: `getCond`, which maps an element condition to a literal list, is the parameter `conds`. The ordering property (`FreshBackendFacts`) is proved for acyclic term tables; on a cyclic table the printer still stops, but a term may be printed before a term it refers to.
- `logic_program_types.h`: `trueLit`, `literal()` via `Literal::fromId`, and the other node classes are not modelled.
- `program_builder.cpp`: `doEndProgram`, `addObjective`, `markAssigned`, `addProject`, `PBBuilder::addConstraint` and `addProduct` hand their work to the solver and are not modelled. `numVars` after `resizeVars` is taken to equal the requested count.
- `clingo.cpp`: `propagateFixpoint`, `isModel`, `addClause` and `propagate()` drive the solver and the user propagator, and are not modelled.
- `main.cc` / `clingocontrol.hh`: the other output formats and debug levels are set by options outside these helpers and are not modelled.
- `nongroundgrammar.cc`: the index tables that hold built pieces between callbacks, and the printing of `AggregateFunction`, are not modelled. The builder's methods take and return the pieces' text.

## Findings

| source | as written | input that shows it | evidently intended | confidence | as-written member | corrected member |
|---|---|---|---|---|---|---|
| third_party/clingcon/liborder/src/domain.cpp:381-395 | after widening a range up to the new upper bound, `if (r.u==it->u) ++it;` moves the iterator past that range, so the merge with the range below is skipped | adding [1,6] to [0,0],[5,5] leaves the touching ranges [0,0],[1,6] and returns the end position | the widened range merges with a touching range below, giving [0,6] | not executed | OrderDomain.AddAsWrittenLeavesTouching | Domains.Domain.Add and OrderDomain.AddFacts |
| third_party/clingcon/libclingcon/src/theoryparser.cpp:377-397 | the function branch of `check` tests the name and the arguments and then leaves the branch, reaching the final `return false` | `f(1)` is rejected, so no function term is ever a variable | a function whose name starts with a letter and whose arguments pass is accepted | not executed | TheoryParsing.CheckAsWrittenCounterexample | TheoryParsing.WellNamedFunctionsAreVariables |
