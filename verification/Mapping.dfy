/** What mapping one page does, as a relation between two states of the tables.

    The relation is stated with the hardware walk; the lemmas here carry it from a table to its
    parent, which is the induction behind paging_insert_or_alloc. */
module Mapping {
  import opened Wrappers
  import opened Descriptors
  import opened Walk
  import opened Trees

  /** A request to map the page of `va`. */
  datatype Request = Request(va: nat, pa: nat, unprivileged: bool, readOnly: bool)

  function NewEntry(q: Request): nat { PageEntry(q.pa, q.unprivileged, q.readOnly) }

  /** The translation that the request asks for at `v`, an address in its page. */
  function Wanted(q: Request, v: nat): Translation {
    Translation(OutputBase(3, q.pa) + v % 0x1000, q.unprivileged, q.readOnly)
  }

  /** `v` and `u` take the same entries from a table of `level` down. */
  predicate SameFrom(level: nat, v: nat, u: nat)
    requires 1 <= level <= 3
    decreases 3 - level
  {
    Index(level, v) == Index(level, u) && (level == 3 || SameFrom(level + 1, v, u))
  }

  lemma SameFromTop(v: nat, u: nat)
    ensures SameFrom(1, v, u) <==> Page(v) == Page(u)
  {
    assert SameFrom(1, v, u) <==> Index(1, v) == Index(1, u) && SameFrom(2, v, u);
    assert SameFrom(2, v, u) <==> Index(2, v) == Index(2, u) && SameFrom(3, v, u);
    SamePage(v, u);
  }

  /** The request meets a block, or a different page already mapped there. */
  predicate Conflict(mem: Memory, level: nat, t: nat, q: Request)
    requires 1 <= level <= 3
    decreases 3 - level
  {
    var w := Entry(mem, t, Index(level, q.va));
    && ValidBit(w)
    && if level == 3 then w != NewEntry(q)
       else TableBit(w) ==> Conflict(mem, level + 1, NextTable(w), q)
  }

  /** How many tables are missing on the way to the page of `va`. */
  function Missing(mem: Memory, level: nat, t: nat, va: nat): nat
    requires 1 <= level <= 3
    decreases 3 - level
  {
    var w := Entry(mem, t, Index(level, va));
    if level == 3 then 0
    else if !ValidBit(w) then 3 - level
    else if TableBit(w) then Missing(mem, level + 1, NextTable(w), va)
    else 0
  }

  /** Tables lead all the way down to level 3. */
  predicate Reached(mem: Memory, level: nat, t: nat, va: nat)
    requires 1 <= level <= 3
    decreases 3 - level
  {
    level == 3 ||
    var w := Entry(mem, t, Index(level, va));
    ValidBit(w) && TableBit(w) && Reached(mem, level + 1, NextTable(w), va)
  }

  /** Once a page is reached, its 2 MB region needs no more tables, and its gigabyte at most one. */
  lemma ReachedNeighbours(mem: Memory, t: nat, va: nat, v: nat)
    requires Reached(mem, 1, t, va) && Index(1, v) == Index(1, va)
    ensures Missing(mem, 1, t, v) <= 1
    ensures Index(2, v) == Index(2, va) ==> Missing(mem, 1, t, v) == 0
  {
    var c := NextTable(Entry(mem, t, Index(1, va)));
    assert Reached(mem, 2, c, va);
    assert Missing(mem, 1, t, v) == Missing(mem, 2, c, v);
  }

  /** The request is already fulfilled by the very same page descriptor. */
  predicate Present(mem: Memory, level: nat, t: nat, q: Request)
    requires 1 <= level <= 3
    decreases 3 - level
  {
    var w := Entry(mem, t, Index(level, q.va));
    if level == 3 then w == NewEntry(q)
    else ValidBit(w) && TableBit(w) && Present(mem, level + 1, NextTable(w), q)
  }

  /** From table `t` down, exactly the page of the request has changed its translation. */
  ghost predicate Mapped(m0: Memory, o0: Owner, m1: Memory, t: nat, q: Request)
    requires t in o0 && 1 <= o0[t].level <= 3
  {
    var level := o0[t].level;
    && OnlyBranch(m0, m1, o0, t, Index(level, q.va))
    && (forall v: nat :: v < VA_LIMIT ==>
          Translate(m1, level, t, v) ==
          if SameFrom(level, v, q.va) then Some(Wanted(q, v)) else Translate(m0, level, t, v))
    && Reached(m1, level, t, q.va)
  }

  /** Level 3: the page descriptor is written. */
  lemma LeafMapped(m0: Memory, o: Owner, t: nat, q: Request)
    requires Forest(m0, o) && t in o && o[t].level == 3 && q.va < VA_LIMIT
    ensures var m1 := m0[t + 8 * Index(3, q.va) := NewEntry(q)];
            Forest(m1, o) && Mapped(m0, o, m1, t, q)
  {
    var i := Index(3, q.va);
    var m1 := m0[t + 8 * i := NewEntry(q)];
    IndexInTable(3, q.va);
    PageEntryCorrect(q.pa, q.unprivileged, q.readOnly);
    assert PlaceOk(o, t);
    EntryWritten(m0, t, i, NewEntry(q), t, i);
    WriteEntry(m0, o, t, i, NewEntry(q));
    forall v: nat | v < VA_LIMIT
      ensures Translate(m1, 3, t, v) ==
              if SameFrom(3, v, q.va) then Some(Wanted(q, v)) else Translate(m0, 3, t, v)
    {
      IndexInTable(3, v);
      if SameFrom(3, v, q.va) {
        WantedLeaf(m1, t, q, v);
      }
    }
  }

  /** An entry that was already the wanted descriptor. */
  lemma LeafPresent(m0: Memory, o: Owner, t: nat, q: Request)
    requires Forest(m0, o) && t in o && o[t].level == 3 && q.va < VA_LIMIT
    requires Entry(m0, t, Index(3, q.va)) == NewEntry(q)
    ensures Mapped(m0, o, m0, t, q)
  {
    forall v: nat | v < VA_LIMIT && SameFrom(3, v, q.va)
      ensures Translate(m0, 3, t, v) == Some(Wanted(q, v))
    {
      WantedLeaf(m0, t, q, v);
    }
  }

  /** A level 3 table with the wanted descriptor translates the page as wanted. */
  lemma WantedLeaf(mem: Memory, t: nat, q: Request, v: nat)
    requires SameFrom(3, v, q.va) && Entry(mem, t, Index(3, q.va)) == NewEntry(q)
    ensures Translate(mem, 3, t, v) == Some(Wanted(q, v))
  {
    PageEntryCorrect(q.pa, q.unprivileged, q.readOnly);
  }

  /** The entry was a table: what holds of the child holds of `t`. */
  lemma ThroughTable(m0: Memory, o0: Owner, m1: Memory, t: nat, c: nat, q: Request)
    requires Forest(m0, o0) && t in o0 && c in o0 && o0[t].level < 3 && q.va < VA_LIMIT
    requires 1 <= o0[t].level && 1 <= o0[c].level <= 3
    requires var w := Entry(m0, t, Index(o0[t].level, q.va)); ValidBit(w) && TableBit(w) && NextTable(w) == c
    requires o0[c] == ChildPlace(o0, t, Index(o0[t].level, q.va))
    requires Mapped(m0, o0, m1, c, q)
    ensures Mapped(m0, o0, m1, t, q)
  {
    var level := o0[t].level;
    var i := Index(level, q.va);
    IndexInTable(level, q.va);
    assert PlaceOk(o0, t) && PlaceOk(o0, c);
    ChildBranch(m0, m1, o0, t, i, c, Index(level + 1, q.va));
    NotThroughChild(o0, t, c, Index(level + 1, q.va));
    assert Entry(m1, t, i) == Entry(m0, t, i);
    forall v: nat | v < VA_LIMIT
      ensures Translate(m1, level, t, v) ==
              if SameFrom(level, v, q.va) then Some(Wanted(q, v)) else Translate(m0, level, t, v)
    {
      if Index(level, v) != i {
        OtherEntry(m0, m1, o0, t, i, v);
      }
    }
  }

  lemma NotThroughChild(o: Owner, t: nat, c: nat, j: nat)
    requires forall a :: a in o ==> PlaceOk(o, a)
    requires t in o && c in o && o[c].level == o[t].level + 1
    ensures t != c && !Through(o, t, c, j)
  {
    assert PlaceOk(o, t);
    if o[t].level > 1 {
      assert PlaceOk(o, o[t].parent);
    }
  }

  lemma ChildBranch(m0: Memory, m1: Memory, o: Owner, t: nat, i: nat, c: nat, j: nat)
    requires forall a :: a in o ==> PlaceOk(o, a)
    requires t in o && c in o && o[c].level > 1 && o[c].parent == t && o[c].index == i
    requires OnlyBranch(m0, m1, o, c, j)
    ensures OnlyBranch(m0, m1, o, t, i)
  {
    forall a, k: nat | a in o && k < 512 && !(a == t && k == i) && !Through(o, a, t, i)
      ensures Entry(m1, a, k) == Entry(m0, a, k)
    {
      assert PlaceOk(o, a) && PlaceOk(o, c);
      if o[a].level > 1 {
        assert PlaceOk(o, o[a].parent);
      }
      assert !Through(o, a, c, j);
    }
  }

  /** The entry was invalid: a zeroed table `c` was put there before going on. `m1` is the memory with
      the new table in place, `m2` the memory after the rest of the work. */
  lemma ThroughFresh(m0: Memory, o0: Owner, m1: Memory, o1: Owner, m2: Memory, t: nat, c: nat, q: Request)
    requires Forest(m0, o0) && Forest(m1, o1) && t in o0 && 1 <= o0[t].level < 3 && q.va < VA_LIMIT
    requires c !in o0 && o1 == o0[c := ChildPlace(o0, t, Index(o0[t].level, q.va))]
    requires !ValidBit(Entry(m0, t, Index(o0[t].level, q.va)))
    requires forall a, k: nat :: a in o0 && k < 512 && !(a == t && k == Index(o0[t].level, q.va)) ==>
               Entry(m1, a, k) == Entry(m0, a, k)
    requires forall k: nat :: k < 512 ==> Entry(m1, c, k) == 0
    requires var w := Entry(m1, t, Index(o0[t].level, q.va)); ValidBit(w) && TableBit(w) && NextTable(w) == c
    requires Mapped(m1, o1, m2, c, q)
    ensures Mapped(m0, o0, m2, t, q)
  {
    var level := o0[t].level;
    var i := Index(level, q.va);
    IndexInTable(level, q.va);
    ThroughTable(m1, o1, m2, t, c, q);
    forall a, k: nat | a in o0 && k < 512 && !(a == t && k == i) && !Through(o0, a, t, i)
      ensures Entry(m2, a, k) == Entry(m0, a, k)
    {
      assert PlaceOk(o0, a);
      assert !Through(o1, a, t, i);
    }
    forall v: nat | v < VA_LIMIT
      ensures Translate(m2, level, t, v) ==
              if SameFrom(level, v, q.va) then Some(Wanted(q, v)) else Translate(m0, level, t, v)
    {
      if Index(level, v) != i {
        OtherEntry(m0, m2, o0, t, i, v);
      } else {
        EmptyTable(m1, level + 1, c, v);
      }
    }
  }

  // ---------------------------------------------------------------- the whole outcome of a request

  ghost predicate SameRoots(o0: Owner, o1: Owner) {
    forall r :: r in o1 && o1[r].level == 1 <==> r in o0 && o0[r].level == 1
  }

  /** What a request at table `t` may do. `u0` and `u1` count the unused tables before and after.
      A refused request and a repeated one change nothing. */
  ghost predicate Outcome(m0: Memory, o0: Owner, u0: int, m1: Memory, o1: Owner, u1: int, t: nat, q: Request, res: int)
    requires t in o0 && 1 <= o0[t].level <= 3
  {
    var level := o0[t].level;
    && (res != 0 <==> Conflict(m0, level, t, q))
    && (res != 0 || Present(m0, level, t, q) ==> m1 == m0 && o1 == o0 && u1 == u0)
    && (res == 0 ==>
          && Mapped(m0, o0, m1, t, q)
          && Grows(o0, o1) && SameRoots(o0, o1)
          && u1 == u0 - Missing(m0, level, t, q.va))
  }

  lemma OutcomeThroughTable(m0: Memory, o0: Owner, u0: int, m1: Memory, o1: Owner, u1: int,
                            t: nat, c: nat, q: Request, res: int)
    requires Forest(m0, o0) && t in o0 && c in o0 && 1 <= o0[t].level < 3 && q.va < VA_LIMIT
    requires var w := Entry(m0, t, Index(o0[t].level, q.va)); ValidBit(w) && TableBit(w) && NextTable(w) == c
    requires o0[c] == ChildPlace(o0, t, Index(o0[t].level, q.va))
    requires Outcome(m0, o0, u0, m1, o1, u1, c, q, res)
    ensures Outcome(m0, o0, u0, m1, o1, u1, t, q, res)
  {
    if res == 0 {
      ThroughTable(m0, o0, m1, t, c, q);
    }
  }

  /** `m1` holds a zeroed table `c`, placed and linked at the request's entry of `t`; nothing else changed. */
  ghost predicate Installed(m0: Memory, o0: Owner, m1: Memory, o1: Owner, t: nat, i: nat, c: nat)
    requires t in o0
  {
    && c !in o0 && o1 == o0[c := ChildPlace(o0, t, i)]
    && (forall a, k: nat :: a in o0 && k < 512 && !(a == t && k == i) ==> Entry(m1, a, k) == Entry(m0, a, k))
    && (forall k: nat :: k < 512 ==> Entry(m1, c, k) == 0)
    && var w := Entry(m1, t, i);
       ValidBit(w) && TableBit(w) && NextTable(w) == c
  }

  /** Linking an allocated table at entry `i` of `t` with a table descriptor `w`. */
  lemma LinkTable(m0: Memory, o0: Owner, m1: Memory, o1: Owner, t: nat, i: nat, c: nat, w: nat)
    requires t in o0 && o0[t].level < 3 && i < 512
    requires c !in o0 && o1 == o0[c := ChildPlace(o0, t, i)] && Forest(m1, o1)
    requires forall k: nat :: k < 512 ==> Entry(m1, c, k) == 0
    requires forall a, k: nat :: a in o0 && k < 512 ==> Entry(m1, a, k) == Entry(m0, a, k)
    requires ValidBit(w) && TableBit(w) && NextTable(w) == c
    ensures Forest(m1[t + 8 * i := w], o1) && Installed(m0, o0, m1[t + 8 * i := w], o1, t, i, c)
  {
    assert PlaceOk(o1, t);
    EntryWritten(m1, t, i, w, t, i);
    WriteEntry(m1, o1, t, i, w);
    var m2 := m1[t + 8 * i := w];
    assert forall k: nat :: k < 512 ==> Entry(m2, c, k) == Entry(m1, c, k);
    assert forall a, k: nat :: a in o0 && k < 512 && !(a == t && k == i) ==> Entry(m2, a, k) == Entry(m1, a, k);
  }

  /** The three cases of level 3. */
  lemma LeafOutcome(m0: Memory, o: Owner, u: int, m1: Memory, t: nat, q: Request, res: int)
    requires Forest(m0, o) && t in o && o[t].level == 3 && q.va < VA_LIMIT
    requires var w := Entry(m0, t, Index(3, q.va));
             if w == NewEntry(q) then m1 == m0 && res == 0
             else if ValidBit(w) then m1 == m0 && res == -1
             else m1 == m0[t + 8 * Index(3, q.va) := NewEntry(q)] && res == 0
    ensures Forest(m1, o) && Outcome(m0, o, u, m1, o, u, t, q, res)
  {
    PageEntryCorrect(q.pa, q.unprivileged, q.readOnly);
    var w := Entry(m0, t, Index(3, q.va));
    if w == NewEntry(q) {
      LeafPresent(m0, o, t, q);
    } else if !ValidBit(w) {
      LeafMapped(m0, o, t, q);
    }
  }

  lemma OutcomeThroughFresh(m0: Memory, o0: Owner, u0: int, m1: Memory, o1: Owner, m2: Memory, o2: Owner, u2: int,
                            t: nat, c: nat, q: Request, res: int)
    requires Forest(m0, o0) && Forest(m1, o1) && t in o0 && 1 <= o0[t].level < 3 && q.va < VA_LIMIT
    requires !ValidBit(Entry(m0, t, Index(o0[t].level, q.va)))
    requires Installed(m0, o0, m1, o1, t, Index(o0[t].level, q.va), c)
    requires Outcome(m1, o1, u0 - 1, m2, o2, u2, c, q, res)
    ensures Outcome(m0, o0, u0, m2, o2, u2, t, q, res)
  {
    FreshIsEmpty(m1, o0[t].level + 1, c, q);
    ThroughFresh(m0, o0, m1, o1, m2, t, c, q);
  }

  lemma FreshIsEmpty(mem: Memory, level: nat, t: nat, q: Request)
    requires 1 <= level <= 3 && q.va < VA_LIMIT
    requires forall i: nat :: i < 512 ==> Entry(mem, t, i) == 0
    ensures !Conflict(mem, level, t, q) && !Present(mem, level, t, q) && Missing(mem, level, t, q.va) == 3 - level
  {
    IndexInTable(level, q.va);
    PageEntryCorrect(q.pa, q.unprivileged, q.readOnly);
  }

  // ---------------------------------------------------------------- translations of all managers

  /** A fulfilled request at a level-1 table is an update of one page in the map of translations. */
  lemma MappedIsUpdate(m0: Memory, o0: Owner, m1: Memory, root: nat, q: Request, r: nat, v: nat)
    requires Forest(m0, o0) && root in o0 && o0[root].level == 1 && q.va < VA_LIMIT && v < VA_LIMIT
    requires r in o0 && o0[r].level == 1
    requires Mapped(m0, o0, m1, root, q)
    ensures Translate(m1, 1, r, v) ==
            if r == root && Page(v) == Page(q.va) then Some(Wanted(q, v)) else Translate(m0, 1, r, v)
  {
    assert PlaceOk(o0, root);
    if r == root {
      SameFromTop(v, q.va);
    } else {
      OtherTree(m0, m1, o0, root, Index(1, q.va), r, v);
    }
  }

  /** A refused request is one whose page is translated already, other than by the same descriptor. */
  lemma {:induction false} ConflictIsTranslated(mem: Memory, o: Owner, t: nat, q: Request)
    requires Forest(mem, o) && t in o && 1 <= o[t].level <= 3 && q.va < VA_LIMIT
    ensures Conflict(mem, o[t].level, t, q) <==>
            Translate(mem, o[t].level, t, q.va).Some? && !Present(mem, o[t].level, t, q)
    ensures Present(mem, o[t].level, t, q) ==>
            Translate(mem, o[t].level, t, q.va) == Some(Wanted(q, q.va))
    decreases 3 - o[t].level
  {
    var level := o[t].level;
    var i := Index(level, q.va);
    IndexInTable(level, q.va);
    assert EntryOk(mem, o, t, i);
    PageEntryCorrect(q.pa, q.unprivileged, q.readOnly);
    var w := Entry(mem, t, i);
    if level < 3 && ValidBit(w) && TableBit(w) {
      ConflictIsTranslated(mem, o, NextTable(w), q);
    }
  }

  /** The translation that a one-gigabyte block gives at `v`. */
  function WantedBlock(q: Request, v: nat): Translation {
    Translation(OutputBase(1, q.pa) + v % 0x4000_0000, q.unprivileged, q.readOnly)
  }

  /** Writing a block descriptor into a level-1 table remaps that gigabyte and nothing else. */
  lemma BlockMapped(m0: Memory, o: Owner, root: nat, q: Request, r: nat, v: nat)
    requires Forest(m0, o) && root in o && o[root].level == 1 && q.va < VA_LIMIT && v < VA_LIMIT
    requires r in o && o[r].level == 1
    ensures var m1 := m0[root + 8 * Index(1, q.va) := BlockEntry(q.pa, 1, q.unprivileged, q.readOnly)];
            && Forest(m1, o)
            && Translate(m1, 1, r, v) ==
               if r == root && Index(1, v) == Index(1, q.va) then Some(WantedBlock(q, v)) else Translate(m0, 1, r, v)
  {
    var i := Index(1, q.va);
    var w := BlockEntry(q.pa, 1, q.unprivileged, q.readOnly);
    IndexInTable(1, q.va);
    BlockEntryCorrect(q.pa, 1, q.unprivileged, q.readOnly);
    assert PlaceOk(o, root);
    EntryWritten(m0, root, i, w, root, i);
    WriteEntry(m0, o, root, i, w);
    var m1 := m0[root + 8 * i := w];
    if r != root {
      OtherTree(m0, m1, o, root, i, r, v);
    } else if Index(1, v) != i {
      OtherEntry(m0, m1, o, root, i, v);
    }
  }

  /** A new empty level-1 table changes nobody's translations and has none of its own. */
  lemma FreshRoot(m0: Memory, o0: Owner, m1: Memory, root: nat, r: nat, v: nat)
    requires Forest(m0, o0) && root !in o0 && v < VA_LIMIT
    requires forall i: nat :: i < 512 ==> Entry(m1, root, i) == 0
    requires forall a, i: nat :: a in o0 && i < 512 ==> Entry(m1, a, i) == Entry(m0, a, i)
    requires r == root || (r in o0 && o0[r].level == 1)
    ensures Translate(m1, 1, r, v) == if r == root then None else Translate(m0, 1, r, v)
  {
    if r == root {
      EmptyTable(m1, 1, root, v);
    } else {
      SameWalk(m0, m1, o0, o0.Keys, r, v);
    }
  }

  // ---------------------------------------------------------------- whole runs

  /** A successful call on one of the managers. */
  datatype Event = Init(root: nat) | MapPage(root: nat, q: Request) | MapGigabyte(root: nat, q: Request)

  /** What a run of calls says about the address `v` of manager `r`, read off the calls alone. */
  function Expected(log: seq<Event>, r: nat, v: nat): Option<Translation> {
    if log == [] then None else
    var rest := log[..|log| - 1];
    match log[|log| - 1]
    case Init(root) => if r == root then None else Expected(rest, r, v)
    case MapPage(root, q) =>
      if r == root && Page(v) == Page(q.va) then Some(Wanted(q, v)) else Expected(rest, r, v)
    case MapGigabyte(root, q) =>
      if r == root && Index(1, v) == Index(1, q.va) then Some(WantedBlock(q, v)) else Expected(rest, r, v)
  }

  /** The tables translate every address of every manager as the run of calls says. */
  ghost predicate Replays(mem: Memory, o: Owner, log: seq<Event>) {
    forall r, v: nat :: r in o && o[r].level == 1 && v < VA_LIMIT ==>
      Translate(mem, 1, r, v) == Expected(log, r, v)
  }

  lemma ExpectedOfOneMore(log: seq<Event>, e: Event, r: nat, v: nat)
    ensures Expected(log + [e], r, v) ==
            match e
            case Init(root) => if r == root then None else Expected(log, r, v)
            case MapPage(root, q) =>
              if r == root && Page(v) == Page(q.va) then Some(Wanted(q, v)) else Expected(log, r, v)
            case MapGigabyte(root, q) =>
              if r == root && Index(1, v) == Index(1, q.va) then Some(WantedBlock(q, v)) else Expected(log, r, v)
  {
    assert (log + [e])[..|log|] == log;
  }

  /** The run goes on with a new manager. */
  lemma ReplaysInit(m0: Memory, o0: Owner, m1: Memory, root: nat, log: seq<Event>)
    requires Forest(m0, o0) && Replays(m0, o0, log) && root !in o0
    requires forall i: nat :: i < 512 ==> Entry(m1, root, i) == 0
    requires forall a, i: nat :: a in o0 && i < 512 ==> Entry(m1, a, i) == Entry(m0, a, i)
    ensures Replays(m1, o0[root := RootPlace(root)], log + [Init(root)])
  {
    var o1 := o0[root := RootPlace(root)];
    forall r, v: nat | r in o1 && o1[r].level == 1 && v < VA_LIMIT
      ensures Translate(m1, 1, r, v) == Expected(log + [Init(root)], r, v)
    {
      FreshRoot(m0, o0, m1, root, r, v);
      ExpectedOfOneMore(log, Init(root), r, v);
    }
  }

  /** The run goes on with a page mapped. */
  lemma ReplaysPage(m0: Memory, o0: Owner, m1: Memory, o1: Owner, root: nat, q: Request, log: seq<Event>)
    requires Forest(m0, o0) && Replays(m0, o0, log) && SameRoots(o0, o1)
    requires root in o0 && o0[root].level == 1 && q.va < VA_LIMIT && Mapped(m0, o0, m1, root, q)
    ensures Replays(m1, o1, log + [MapPage(root, q)])
  {
    forall r, v: nat | r in o1 && o1[r].level == 1 && v < VA_LIMIT
      ensures Translate(m1, 1, r, v) == Expected(log + [MapPage(root, q)], r, v)
    {
      MappedIsUpdate(m0, o0, m1, root, q, r, v);
      ExpectedOfOneMore(log, MapPage(root, q), r, v);
    }
  }

  /** The run goes on with a gigabyte mapped. */
  lemma ReplaysGigabyte(m0: Memory, o: Owner, m1: Memory, root: nat, q: Request, log: seq<Event>)
    requires Forest(m0, o) && Replays(m0, o, log) && root in o && o[root].level == 1 && q.va < VA_LIMIT
    requires m1 == m0[root + 8 * Index(1, q.va) := BlockEntry(q.pa, 1, q.unprivileged, q.readOnly)]
    ensures Forest(m1, o) && Replays(m1, o, log + [MapGigabyte(root, q)])
    ensures forall i: nat :: i < 512 && i != Index(1, q.va) ==> Entry(m1, root, i) == Entry(m0, root, i)
  {
    BlockMapped(m0, o, root, q, root, 0);
    forall r, v: nat | r in o && o[r].level == 1 && v < VA_LIMIT
      ensures Translate(m1, 1, r, v) == Expected(log + [MapGigabyte(root, q)], r, v)
    {
      BlockMapped(m0, o, root, q, r, v);
      ExpectedOfOneMore(log, MapGigabyte(root, q), r, v);
    }
    assert PlaceOk(o, root);
    IndexInTable(1, q.va);
    forall i: nat | i < 512 && i != Index(1, q.va)
      ensures Entry(m1, root, i) == Entry(m0, root, i)
    {
      EntryWritten(m0, root, Index(1, q.va), BlockEntry(q.pa, 1, q.unprivileged, q.readOnly), root, i);
    }
  }
}
