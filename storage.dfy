/** `order::orderStorage`: the order literals of one variable, indexed by the
    position of a value in its domain. A vector, a map or both hold them; vector
    slots without a literal hold a flagged sentinel. Every method of the class is
    proved against a function on `Store`, the value of its four fields. */
module LiteralStorage {

  /** A solver literal: a variable, a sign and the flag bit. */
  datatype Literal = Literal(v: nat, sign: bool, flagged: bool)

  /** `~l`. */
  function Negate(l: Literal): (r: Literal)
    ensures r.v == l.v && r.sign != l.sign && r.flagged == l.flagged
  {
    l.(sign := !l.sign)
  }

  /** `Literal(0, false)` with its flag set: an empty vector slot. */
  const Sentinel := Literal(0, false, true)

  const HASVECTOR: bv32 := 1
  const HASMAP: bv32 := 2

  /** The fields `store_`, `vector_`, `map_` and `maxSize_`. */
  datatype Store = Store(store: bv32, vec: seq<Literal>, m: map<nat, Literal>, maxSize: nat)

  predicate HasVector(s: Store) { s.store & HASVECTOR != 0 }

  predicate HasMap(s: Store) { s.store & HASMAP != 0 }

  /** `isPrepared()`. */
  predicate IsPrepared(s: Store) {
    (HasMap(s) || HasVector(s)) && s.maxSize > 0 && s.store > 0
  }

  /** What the methods keep: each container is empty unless it is used, the vector
      has one slot per position, and the map holds unflagged literals at positions. */
  predicate Ready(s: Store) {
    (HasVector(s) ==> |s.vec| == s.maxSize)
    && (!HasVector(s) ==> s.vec == [])
    && (!HasMap(s) ==> s.m == map[])
    && (forall k :: k in s.m ==> k < s.maxSize && !s.m[k].flagged)
  }

  /** `std::vector::resize(n, fill)`. */
  function Resize(v: seq<Literal>, n: nat, fill: Literal): (r: seq<Literal>)
    ensures |r| == n
    ensures forall i :: 0 <= i < n ==> r[i] == (if i < |v| then v[i] else fill)
  {
    seq(n, i requires 0 <= i < n => if i < |v| then v[i] else fill)
  }

  /** The vector after every map entry has been written at its position. */
  function Spread(v: seq<Literal>, m: map<nat, Literal>): (r: seq<Literal>)
    ensures |r| == |v|
    ensures forall i :: 0 <= i < |v| ==> r[i] == (if i in m then m[i] else v[i])
  {
    seq(|v|, i requires 0 <= i < |v| => if i in m then m[i] else v[i])
  }

  /** The number of vector slots that are not the sentinel (the `count_if`). */
  function CountReal(v: seq<Literal>): (n: nat)
    ensures n <= |v|
  {
    if v == [] then 0 else CountReal(v[..|v| - 1]) + (if v[|v| - 1] != Sentinel then 1 else 0)
  }

  /** `numLits()`. */
  function NumLits(s: Store): nat {
    if HasMap(s) then |s.m| else if HasVector(s) then CountReal(s.vec) else 0
  }

  /** `setSize(s)`. */
  function SetSize(s: Store, n: nat): Store {
    if HasVector(s) then s.(maxSize := n, vec := Resize(s.vec, n, Sentinel)) else s.(maxSize := n)
  }

  /** `hasNoLiteral(index)`. */
  predicate HasNoLiteral(s: Store, index: nat)
    requires HasVector(s) ==> index < |s.vec|
  {
    if HasVector(s) then s.vec[index].flagged else index !in s.m
  }

  /** `getLiteral(index)`. */
  function GetLiteral(s: Store, index: nat): Literal
    requires HasVector(s) ==> index < |s.vec|
    requires !HasVector(s) ==> index in s.m
  {
    if HasVector(s) then s.vec[index] else s.m[index]
  }

  /** The literal at a position, if there is one, whichever container holds it. */
  function Entry(s: Store, index: nat): Option<Literal>
    requires HasVector(s) ==> index < |s.vec|
  {
    if HasNoLiteral(s, index) then None else Some(GetLiteral(s, index))
  }

  datatype Option<T> = None | Some(value: T)

  /** The first step of `setLiteral`: the vector slot is written when a vector is used. */
  function WriteVector(s: Store, index: nat, l: Literal): Store
    requires HasVector(s) ==> index < |s.vec|
  {
    if HasVector(s) then s.(vec := s.vec[index := l]) else s
  }

  /** The "drop map" test as written: `store_ == (hasvector & hasmap)`. */
  predicate DropTest(s: Store) {
    s.store == (HASVECTOR & HASMAP) && |s.m| * 3 >= s.maxSize
  }

  function DropMap(s: Store): Store {
    if DropTest(s) then s.(m := map[], store := HASVECTOR) else s
  }

  /** `map_.emplace(index, l)`, which keeps an entry already present. */
  function EmplaceMap(s: Store, index: nat, l: Literal): Store {
    if HasMap(s) && index !in s.m then s.(m := s.m[index := l]) else s
  }

  /** The test of the conversion to a vector. */
  predicate ConvertTest(s: Store) {
    s.store == HASMAP && |s.m| * 3 >= s.maxSize
  }

  /** The conversion: every map entry moves into a fresh vector of sentinels. */
  function Convert(s: Store): Store {
    if ConvertTest(s)
    then Store(HASMAP | HASVECTOR, Spread(Resize(s.vec, s.maxSize, Sentinel), s.m), map[], s.maxSize)
    else s
  }

  /** `setLiteral(index, l)`: the four steps in order. */
  function SetLiteral(s: Store, index: nat, l: Literal): Store
    requires HasVector(s) ==> index < |s.vec|
  {
    Convert(EmplaceMap(DropMap(WriteVector(s, index, l)), index, l))
  }

  /** `hasvector & hasmap` is 0, so the drop test holds only for a store that uses
      neither container, which no prepared store is. */
  lemma DropTestNeverOnPrepared(s: Store)
    requires IsPrepared(s)
    ensures !DropTest(s)
  {
    assert HASVECTOR & HASMAP == 0;
  }

  /** Consequently, with both containers in use the map keeps every literal ever
      set, however large it grows. */
  lemma BothKeepMap(s: Store, index: nat, l: Literal)
    requires s.store == HASVECTOR | HASMAP && index < |s.vec|
    ensures SetLiteral(s, index, l).store == s.store
    ensures SetLiteral(s, index, l).m == if index in s.m then s.m else s.m[index := l]
    ensures SetLiteral(s, index, l).vec == s.vec[index := l]
  {
    assert HASVECTOR & HASMAP == 0;
    assert (HASVECTOR | HASMAP) & HASVECTOR != 0;
    assert (HASVECTOR | HASMAP) & HASMAP != 0;
    assert HASVECTOR | HASMAP != HASMAP;
  }

  /** A map-only store whose map reaches a third of `maxSize` becomes a store with
      both containers, an empty map and every entry in the vector at its index. */
  lemma ConvertMovesEntries(s: Store, index: nat, l: Literal)
    requires s.store == HASMAP && s.vec == []
    requires |EmplaceMap(s, index, l).m| * 3 >= s.maxSize
    ensures SetLiteral(s, index, l) == Store(HASMAP | HASVECTOR,
      Spread(Resize([], s.maxSize, Sentinel), EmplaceMap(s, index, l).m), map[], s.maxSize)
  {
    assert HASMAP & HASVECTOR == 0;
    assert HASMAP & HASMAP != 0;
    assert !DropTest(s);
  }

  /** The flag bits stay within the two container bits. */
  predicate Bits(s: Store) {
    s.store == 0 || s.store == HASVECTOR || s.store == HASMAP || s.store == HASVECTOR | HASMAP
  }

  lemma BitFacts()
    ensures HASVECTOR & HASVECTOR != 0 && HASVECTOR & HASMAP == 0
    ensures HASMAP & HASVECTOR == 0 && HASMAP & HASMAP != 0
    ensures (HASVECTOR | HASMAP) & HASVECTOR != 0 && (HASVECTOR | HASMAP) & HASMAP != 0
    ensures (0 as bv32) & HASVECTOR == 0 && (0 as bv32) & HASMAP == 0
    ensures HASVECTOR | HASMAP != HASMAP && HASVECTOR | HASMAP != HASVECTOR
    ensures HASVECTOR != HASMAP
    ensures (0 as bv32) | HASVECTOR == HASVECTOR && (0 as bv32) | HASMAP == HASMAP
    ensures HASVECTOR | HASVECTOR == HASVECTOR && HASMAP | HASMAP == HASMAP
    ensures HASMAP | HASVECTOR == HASVECTOR | HASMAP
  {
  }

  /** Each step of `setLiteral` keeps `Ready` and `Bits`. */
  lemma WriteVectorReady(s: Store, index: nat, l: Literal)
    requires Ready(s) && Bits(s) && index < s.maxSize && !l.flagged
    ensures Ready(WriteVector(s, index, l)) && Bits(WriteVector(s, index, l))
    ensures WriteVector(s, index, l).maxSize == s.maxSize
  {
  }

  lemma DropMapReady(s: Store)
    requires Ready(s) && Bits(s)
    ensures Ready(DropMap(s)) && Bits(DropMap(s)) && DropMap(s).maxSize == s.maxSize
  {
    BitFacts();
  }

  lemma EmplaceMapReady(s: Store, index: nat, l: Literal)
    requires Ready(s) && Bits(s) && index < s.maxSize && !l.flagged
    ensures Ready(EmplaceMap(s, index, l)) && Bits(EmplaceMap(s, index, l))
    ensures EmplaceMap(s, index, l).maxSize == s.maxSize
  {
  }

  lemma ConvertReady(s: Store)
    requires Ready(s) && Bits(s)
    ensures Ready(Convert(s)) && Bits(Convert(s)) && Convert(s).maxSize == s.maxSize
    ensures HasVector(s) ==> Convert(s) == s
  {
    BitFacts();
  }

  /** `setLiteral` keeps `Ready`. */
  lemma SetLiteralReady(s: Store, index: nat, l: Literal)
    requires Ready(s) && Bits(s) && index < s.maxSize && !l.flagged
    ensures Ready(SetLiteral(s, index, l)) && Bits(SetLiteral(s, index, l))
    ensures SetLiteral(s, index, l).maxSize == s.maxSize
  {
    WriteVectorReady(s, index, l);
    DropMapReady(WriteVector(s, index, l));
    EmplaceMapReady(DropMap(WriteVector(s, index, l)), index, l);
    ConvertReady(EmplaceMap(DropMap(WriteVector(s, index, l)), index, l));
  }

  /** After `setLiteral(index, l)` the position holds a literal, and it is `l` unless
      the map already held one there (`emplace` keeps the old entry). */
  lemma SetThenGet(s: Store, index: nat, l: Literal)
    requires Ready(s) && Bits(s) && IsPrepared(s) && index < s.maxSize && !l.flagged
    ensures HasVector(SetLiteral(s, index, l)) ==> index < |SetLiteral(s, index, l).vec|
    ensures !HasNoLiteral(SetLiteral(s, index, l), index)
    ensures HasVector(s) || index !in s.m ==> GetLiteral(SetLiteral(s, index, l), index) == l
    ensures !HasVector(s) && index in s.m ==> GetLiteral(SetLiteral(s, index, l), index) == s.m[index]
  {
    BitFacts();
    SetLiteralReady(s, index, l);
  }

  /** `setLiteral(index, l)` changes no other position, including when the map
      is converted to a vector. */
  lemma SetLiteralElsewhere(s: Store, index: nat, l: Literal, j: nat)
    requires Ready(s) && Bits(s) && index < s.maxSize && !l.flagged && j < s.maxSize && j != index
    ensures Ready(SetLiteral(s, index, l))
    ensures HasVector(s) ==> HasVector(SetLiteral(s, index, l))
    ensures Entry(SetLiteral(s, index, l), j) == Entry(s, j)
  {
    BitFacts();
    SetLiteralReady(s, index, l);
  }

  /** `setSize(n)` keeps the first `n` slots and pads with sentinels. */
  lemma SetSizePads(s: Store, n: nat, i: nat)
    requires HasVector(s) && i < n
    ensures |SetSize(s, n).vec| == n
    ensures SetSize(s, n).vec[i] == if i < |s.vec| then s.vec[i] else Sentinel
    ensures i >= |s.vec| ==> HasNoLiteral(SetSize(s, n), i)
  {
  }

  /** Growing the vector with sentinels adds no literal to `numLits`. */
  lemma {:induction false} CountPadding(v: seq<Literal>, n: nat)
    requires n >= |v|
    ensures CountReal(Resize(v, n, Sentinel)) == CountReal(v)
    decreases n
  {
    if n > |v| {
      var r := Resize(v, n, Sentinel);
      assert r[..n - 1] == Resize(v, n - 1, Sentinel);
      CountPadding(v, n - 1);
    } else {
      assert Resize(v, n, Sentinel) == v;
    }
  }

  /** Writing a literal into a sentinel slot adds one to `numLits`. */
  lemma {:induction false} CountWrite(v: seq<Literal>, i: nat, l: Literal)
    requires i < |v| && v[i] == Sentinel && l != Sentinel
    ensures CountReal(v[i := l]) == CountReal(v) + 1
    decreases |v|
  {
    var w := v[i := l];
    if i < |v| - 1 {
      assert w[..|w| - 1] == v[..|v| - 1][i := l];
      CountWrite(v[..|v| - 1], i, l);
    } else {
      assert w[..|w| - 1] == v[..|v| - 1];
    }
  }

  /** With the vector alone, a literal set at an empty position adds one to
      `numLits`. */
  lemma NumLitsGrows(s: Store, index: nat, l: Literal)
    requires s.store == HASVECTOR && Ready(s) && index < s.maxSize
    requires s.vec[index] == Sentinel && !l.flagged
    ensures NumLits(SetLiteral(s, index, l)) == NumLits(s) + 1
  {
    BitFacts();
    CountWrite(s.vec, index, l);
  }

  /** The store of one variable, edited in place. */
  class OrderStorage {
    var store: bv32
    var vec: seq<Literal>
    var m: map<nat, Literal>
    var maxSize: nat

    function Model(): Store
      reads this
    {
      Store(store, vec, m, maxSize)
    }

    constructor ()
      ensures Model() == Store(0, [], map[], 0)
    {
      store, vec, m, maxSize := 0, [], map[], 0;
    }

    /** `useVector()`. */
    method UseVector()
      modifies this
      ensures Model() == old(Model()).(store := old(store) | HASVECTOR)
    {
      store := store | HASVECTOR;
    }

    /** `useMap()`. */
    method UseMap()
      modifies this
      ensures Model() == old(Model()).(store := old(store) | HASMAP)
    {
      store := store | HASMAP;
    }

    /** `numLits()`, counting the vector slots one by one. */
    method NumLitsCount() returns (n: nat)
      ensures n == NumLits(Model())
    {
      if store & HASMAP != 0 {
        return |m|;
      }
      n := 0;
      if store & HASVECTOR != 0 {
        var i := 0;
        while i < |vec|
          invariant 0 <= i <= |vec|
          invariant n == CountReal(vec[..i])
        {
          assert vec[..i + 1][..i] == vec[..i];
          if vec[i] != Sentinel {
            n := n + 1;
          }
          i := i + 1;
        }
        assert vec[..|vec|] == vec;
      }
    }

    /** `setSize(s)`. */
    method SetSizeTo(n: nat)
      modifies this
      ensures Model() == SetSize(old(Model()), n)
    {
      maxSize := n;
      if store & HASVECTOR != 0 {
        vec := Resize(vec, maxSize, Sentinel);
      }
    }

    /** `setLiteral(index, l)`. */
    method SetLiteralAt(index: nat, l: Literal)
      requires store & HASVECTOR != 0 ==> index < |vec|
      requires index < maxSize && forall k :: k in m ==> k < maxSize
      modifies this
      ensures Model() == SetLiteral(old(Model()), index, l)
    {
      ghost var s0 := Model();
      if store & HASVECTOR != 0 {
        vec := vec[index := l];
      }
      assert Model() == WriteVector(s0, index, l);
      if store == (HASVECTOR & HASMAP) && |m| * 3 >= maxSize {
        m := map[];
        store := HASVECTOR;
      }
      assert Model() == DropMap(WriteVector(s0, index, l));
      if store & HASMAP != 0 && index !in m {
        m := m[index := l];
      }
      assert Model() == EmplaceMap(DropMap(WriteVector(s0, index, l)), index, l);
      if store == HASMAP && |m| * 3 >= maxSize {
        ConvertMap();
      }
    }

    /** The conversion to a vector: the map entries move one at a time. */
    method ConvertMap()
      requires ConvertTest(Model()) && forall k :: k in m ==> k < maxSize
      modifies this
      ensures Model() == Convert(old(Model()))
    {
      ghost var all := m;
      store := store | HASVECTOR;
      vec := Resize(vec, maxSize, Sentinel);
      ghost var base := vec;
      while m != map[]
        invariant |vec| == |base| == maxSize && store == HASMAP | HASVECTOR
        invariant maxSize == old(maxSize) && base == Resize(old(vec), maxSize, Sentinel)
        invariant forall k :: k in m ==> k in all && m[k] == all[k] && k < |vec|
        invariant Moved(vec, base, all, m)
        decreases m.Keys
      {
        var k :| k in m;
        MoveStep(vec, base, all, m, k);
        vec := vec[k := m[k]];
        m := m - {k};
      }
      assert vec == Spread(base, all);
    }
  }

  /** The slots of the entries already moved out of `m` hold their literals,
      the others their old contents. */
  ghost predicate Moved(vec: seq<Literal>, base: seq<Literal>, all: map<nat, Literal>, m: map<nat, Literal>) {
    |vec| == |base| && forall i :: 0 <= i < |vec| ==> vec[i] == if i in all && i !in m then all[i] else base[i]
  }

  /** Moving one more entry keeps `Moved`. */
  lemma MoveStep(vec: seq<Literal>, base: seq<Literal>, all: map<nat, Literal>, m: map<nat, Literal>, k: nat)
    requires Moved(vec, base, all, m) && k in m && k in all && m[k] == all[k] && k < |vec|
    ensures Moved(vec[k := m[k]], base, all, m - {k})
  {
  }

  /** The store `prepareOrderLitMemory` sets up before it writes the true literal:
      a map when literals are lazy (`minLitsPerVar >= 0`), a vector unless the
      domain is large and literals are lazy, and `size` positions. */
  function Fresh(s: Store, size: nat, minLitsPerVar: int): Store {
    var s1 := if minLitsPerVar >= 0 then s.(store := s.store | HASMAP) else s;
    var s2 := if size < 1000000 || minLitsPerVar == -1 then s1.(store := s1.store | HASVECTOR) else s1;
    SetSize(s2, size)
  }

  /** `VariableCreator::prepareOrderLitMemory(var, size)` on the store of `var`. */
  function Prepare(s: Store, size: nat, minLitsPerVar: int, trueLit: Literal): (r: Store)
    requires size > 0 && minLitsPerVar >= -1 && Ready(s) && Bits(s)
  {
    if IsPrepared(s) then s else SetLiteral(Fresh(s, size, minLitsPerVar), size - 1, trueLit)
  }

  /** An unprepared store that keeps `Ready` holds no literal, and the fresh store
      made from it is prepared, with no literal yet. */
  lemma FreshFacts(s: Store, size: nat, minLitsPerVar: int)
    requires size > 0 && minLitsPerVar >= -1 && Ready(s) && Bits(s) && !IsPrepared(s)
    ensures var f := Fresh(s, size, minLitsPerVar);
      Ready(f) && Bits(f) && IsPrepared(f) && f.maxSize == size
      && HasMap(f) == (HasMap(s) || minLitsPerVar >= 0)
      && HasVector(f) == (HasVector(s) || size < 1000000 || minLitsPerVar == -1)
      && (!HasVector(f) ==> size >= 1000000)
      && f.m == map[] && (HasVector(f) ==> forall j :: 0 <= j < size ==> f.vec[j] == Sentinel)
  {
    BitFacts();
  }

  /** Preparing is a no-op on a prepared store; otherwise the store becomes prepared
      with `size` positions, the containers the configuration asks for, and the true
      literal as its only literal, at the last position. */
  lemma PrepareFacts(s: Store, size: nat, minLitsPerVar: int, trueLit: Literal)
    requires size > 0 && minLitsPerVar >= -1 && Ready(s) && Bits(s) && !trueLit.flagged
    ensures IsPrepared(s) ==> Prepare(s, size, minLitsPerVar, trueLit) == s
    ensures !IsPrepared(s) ==>
      var r := Prepare(s, size, minLitsPerVar, trueLit);
      IsPrepared(r) && Ready(r) && Bits(r) && r.maxSize == size
      && HasMap(r) == (HasMap(s) || minLitsPerVar >= 0)
      && HasVector(r) == (HasVector(s) || size < 1000000 || minLitsPerVar == -1)
      && Entry(r, size - 1) == Some(trueLit)
  {
    if !IsPrepared(s) {
      FreshFacts(s, size, minLitsPerVar);
      PrepareOnFresh(Fresh(s, size, minLitsPerVar), size, trueLit);
    }
  }

  /** The part of `PrepareFacts` callers need to index the prepared store. */
  lemma PreparedShape(s: Store, size: nat, minLitsPerVar: int, trueLit: Literal)
    requires size > 0 && minLitsPerVar >= -1 && Ready(s) && Bits(s) && !trueLit.flagged
    requires IsPrepared(s) ==> s.maxSize == size
    ensures var p := Prepare(s, size, minLitsPerVar, trueLit);
      Ready(p) && Bits(p) && IsPrepared(p) && p.maxSize == size
  {
    PrepareFacts(s, size, minLitsPerVar, trueLit);
  }

  /** Preparing an unprepared store leaves every position but the last empty. */
  lemma PrepareLeavesEmpty(s: Store, size: nat, minLitsPerVar: int, trueLit: Literal, j: nat)
    requires size > 0 && minLitsPerVar >= -1 && Ready(s) && Bits(s) && !trueLit.flagged
    requires !IsPrepared(s) && j < size - 1
    ensures var p := Prepare(s, size, minLitsPerVar, trueLit);
      (HasVector(p) ==> j < |p.vec|) && HasNoLiteral(p, j)
  {
    FreshFacts(s, size, minLitsPerVar);
    var f := Fresh(s, size, minLitsPerVar);
    SetLiteralElsewhere(f, size - 1, trueLit, j);
    PrepareFacts(s, size, minLitsPerVar, trueLit);
  }

  lemma PrepareOnFresh(f: Store, size: nat, trueLit: Literal)
    requires Ready(f) && Bits(f) && IsPrepared(f) && f.maxSize == size && f.m == map[]
    requires size > 0 && !trueLit.flagged
    requires !HasVector(f) ==> size > 3
    ensures var r := SetLiteral(f, size - 1, trueLit);
      IsPrepared(r) && Ready(r) && Bits(r) && r.maxSize == size
      && HasMap(r) == HasMap(f) && HasVector(r) == HasVector(f)
      && Entry(r, size - 1) == Some(trueLit)
  {
    BitFacts();
    SetThenGet(f, size - 1, trueLit);
    SetLiteralReady(f, size - 1, trueLit);
  }

  /** `getLELiteral(it)` for position `k` of a non-reversed view, on the store of
      its variable, which has the domain size `size` once prepared. `newLit` is
      the literal the solver hands out when one has to be created. The result is
      the new store and the literal. */
  function LELiteral(s: Store, size: nat, k: nat, minLitsPerVar: int,
                     trueLit: Literal, newLit: Literal): (Store, Literal)
    requires size > 0 && k <= size && minLitsPerVar >= -1 && Ready(s) && Bits(s)
    requires !trueLit.flagged && !newLit.flagged && (IsPrepared(s) ==> s.maxSize == size)
  {
    if k == size then (s, trueLit)
    else
      PreparedShape(s, size, minLitsPerVar, trueLit);
      var p := Prepare(s, size, minLitsPerVar, trueLit);
      if HasNoLiteral(p, k) then
        SetLiteralReady(p, k, newLit);
        var q := SetLiteral(p, k, newLit);
        (q, GetLiteral(q, k))
      else (p, GetLiteral(p, k))
  }

  /** `getGELiteral(it)`: false at the end, true at the first position, and
      otherwise the negated order literal of the position before. */
  function GELiteral(s: Store, size: nat, k: nat, minLitsPerVar: int,
                     trueLit: Literal, falseLit: Literal, newLit: Literal): (Store, Literal)
    requires size > 0 && k <= size && minLitsPerVar >= -1 && Ready(s) && Bits(s)
    requires !trueLit.flagged && !newLit.flagged && (IsPrepared(s) ==> s.maxSize == size)
  {
    if k == size then (s, falseLit)
    else if k == 0 then (s, trueLit)
    else
      var j := k - 1;
      PreparedShape(s, size, minLitsPerVar, trueLit);
      var p := Prepare(s, size, minLitsPerVar, trueLit);
      if HasNoLiteral(p, j) then
        SetLiteralReady(p, j, newLit);
        var q := SetLiteral(p, j, newLit);
        (q, Negate(GetLiteral(q, j)))
      else (p, Negate(GetLiteral(p, j)))
  }

  /** At the end position the order literal is true and nothing is prepared; at
      the last value it is the true literal `prepareOrderLitMemory` stored. */
  lemma LEAtEnds(s: Store, size: nat, minLitsPerVar: int, trueLit: Literal, newLit: Literal)
    requires size > 0 && minLitsPerVar >= -1 && Ready(s) && Bits(s) && !trueLit.flagged && !newLit.flagged
    requires IsPrepared(s) ==> s.maxSize == size && Entry(s, size - 1) == Some(trueLit)
    ensures LELiteral(s, size, size, minLitsPerVar, trueLit, newLit) == (s, trueLit)
    ensures LELiteral(s, size, size - 1, minLitsPerVar, trueLit, newLit).1 == trueLit
  {
    PrepareFacts(s, size, minLitsPerVar, trueLit);
  }

  /** An order literal that exists is returned and the store is left alone; a
      missing one is created from `newLit`, which is what it is afterwards. */
  lemma LEExistingOrNew(s: Store, size: nat, k: nat, minLitsPerVar: int,
                        trueLit: Literal, newLit: Literal)
    requires size > 0 && k < size && minLitsPerVar >= -1 && Ready(s) && Bits(s)
    requires !trueLit.flagged && !newLit.flagged && (IsPrepared(s) ==> s.maxSize == size)
    ensures IsPrepared(Prepare(s, size, minLitsPerVar, trueLit))
    ensures Ready(Prepare(s, size, minLitsPerVar, trueLit))
    ensures Prepare(s, size, minLitsPerVar, trueLit).maxSize == size
    ensures Ready(LELiteral(s, size, k, minLitsPerVar, trueLit, newLit).0)
    ensures LELiteral(s, size, k, minLitsPerVar, trueLit, newLit).0.maxSize == size
    ensures Entry(LELiteral(s, size, k, minLitsPerVar, trueLit, newLit).0, k)
      == Some(LELiteral(s, size, k, minLitsPerVar, trueLit, newLit).1)
    ensures Entry(Prepare(s, size, minLitsPerVar, trueLit), k) != None ==>
      LELiteral(s, size, k, minLitsPerVar, trueLit, newLit)
      == (Prepare(s, size, minLitsPerVar, trueLit), Entry(Prepare(s, size, minLitsPerVar, trueLit), k).value)
    ensures Entry(Prepare(s, size, minLitsPerVar, trueLit), k) == None ==>
      LELiteral(s, size, k, minLitsPerVar, trueLit, newLit).1 == newLit
  {
    PreparedShape(s, size, minLitsPerVar, trueLit);
    var p := Prepare(s, size, minLitsPerVar, trueLit);
    if HasNoLiteral(p, k) {
      SetThenGet(p, k, newLit);
      SetLiteralReady(p, k, newLit);
    }
  }

  /** Inside the domain, `x >= v[k]` is the negation of `x <= v[k-1]`, with the
      same effect on the store. */
  lemma GEIsNotLE(s: Store, size: nat, k: nat, minLitsPerVar: int,
                  trueLit: Literal, falseLit: Literal, newLit: Literal)
    requires size > 0 && 0 < k < size && minLitsPerVar >= -1 && Ready(s) && Bits(s)
    requires !trueLit.flagged && !newLit.flagged && (IsPrepared(s) ==> s.maxSize == size)
    ensures GELiteral(s, size, k, minLitsPerVar, trueLit, falseLit, newLit)
      == (LELiteral(s, size, k - 1, minLitsPerVar, trueLit, newLit).0,
          Negate(LELiteral(s, size, k - 1, minLitsPerVar, trueLit, newLit).1))
  {
  }

  /** The ends of `getGELiteral`: false at the end position, true at the first. */
  lemma GEAtEnds(s: Store, size: nat, minLitsPerVar: int,
                 trueLit: Literal, falseLit: Literal, newLit: Literal)
    requires size > 0 && minLitsPerVar >= -1 && Ready(s) && Bits(s)
    requires !trueLit.flagged && !newLit.flagged && (IsPrepared(s) ==> s.maxSize == size)
    ensures GELiteral(s, size, size, minLitsPerVar, trueLit, falseLit, newLit) == (s, falseLit)
    ensures GELiteral(s, size, 0, minLitsPerVar, trueLit, falseLit, newLit) == (s, trueLit)
  {
  }
}
