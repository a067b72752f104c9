/** Translation tables as disjoint trees.

    Every table in use has one place: the root it serves, its level, and the one parent entry that
    may point to it. The places are kept in a map from table address, so two entries can never point
    to the same table. */
module Trees {
  import opened Wrappers
  import opened Descriptors
  import opened Walk

  datatype Place = Place(root: nat, level: nat, parent: nat, index: nat)

  type Owner = map<nat, Place>

  function RootPlace(a: nat): Place { Place(a, 1, 0, 0) }

  function ChildPlace(o: Owner, t: nat, i: nat): Place
    requires t in o
  {
    Place(o[t].root, o[t].level + 1, t, i)
  }

  /** The table at `a` is aligned, and its parent is a table one level up in the same tree. */
  predicate PlaceOk(o: Owner, a: nat)
    requires a in o
  {
    && a % 0x1000 == 0 && a < PA_LIMIT
    && 1 <= o[a].level <= 3
    && (o[a].level == 1 ==> o[a] == RootPlace(a))
    && (o[a].level > 1 ==>
          && o[a].parent in o && o[a].index < 512
          && o[a] == ChildPlace(o, o[a].parent, o[a].index))
  }

  /** A valid entry is a leaf with its access flag set, or a table whose place is this entry. */
  predicate EntryOk(mem: Memory, o: Owner, a: nat, i: nat)
    requires a in o
  {
    var w := Entry(mem, a, i);
    ValidBit(w) ==>
      if o[a].level == 3 then TableBit(w) && Accessed(w)
      else if TableBit(w) then NextTable(w) in o && o[NextTable(w)] == ChildPlace(o, a, i)
      else Accessed(w)
  }

  ghost predicate Forest(mem: Memory, o: Owner) {
    && (forall a :: a in o ==> PlaceOk(o, a))
    && (forall a, i: nat :: a in o && i < 512 ==> EntryOk(mem, o, a, i))
  }

  /** Each table has at most one parent entry, and no entry points to a root. */
  lemma OneParent(mem: Memory, o: Owner, a: nat, i: nat, b: nat, j: nat)
    requires Forest(mem, o) && a in o && b in o && i < 512 && j < 512
    requires o[a].level < 3 && ValidBit(Entry(mem, a, i)) && TableBit(Entry(mem, a, i))
    requires o[b].level < 3 && ValidBit(Entry(mem, b, j)) && TableBit(Entry(mem, b, j))
    requires NextTable(Entry(mem, a, i)) == NextTable(Entry(mem, b, j))
    ensures a == b && i == j
    ensures NextTable(Entry(mem, a, i)) in o && o[NextTable(Entry(mem, a, i))].level > 1
  {
    assert EntryOk(mem, o, a, i);
    assert EntryOk(mem, o, b, j);
  }

  // ---------------------------------------------------------------- writing one entry

  /** Words of different tables, or of different entries, are different words. */
  lemma EntryWritten(mem: Memory, t: nat, i: nat, w: nat, a: nat, j: nat)
    requires t % 0x1000 == 0 && a % 0x1000 == 0 && i < 512 && j < 512
    ensures Entry(mem[t + 8 * i := w], a, j) == if a == t && j == i then w else Entry(mem, a, j)
  {
    assert t + 8 * i == a + 8 * j ==> a == t;
  }

  /** The table at `a` lies below entry `i` of `t`. */
  predicate Through(o: Owner, a: nat, t: nat, i: nat)
    requires a in o
  {
    || (o[a].level >= 2 && o[a].parent == t && o[a].index == i)
    || (o[a].level == 3 && o[a].parent in o && o[o[a].parent].level == 2
        && o[o[a].parent].parent == t && o[o[a].parent].index == i)
  }

  /** Nothing changed outside entry `i` of `t` and the tables below it. */
  ghost predicate OnlyBranch(m0: Memory, m1: Memory, o: Owner, t: nat, i: nat) {
    forall a, j: nat ::
      a in o && j < 512 && !(a == t && j == i) && !Through(o, a, t, i) ==>
      Entry(m1, a, j) == Entry(m0, a, j)
  }

  /** Places are never taken back. */
  ghost predicate Grows(o0: Owner, o1: Owner) {
    forall a :: a in o0 ==> a in o1 && o1[a] == o0[a]
  }

  /** A set of tables closed under children, none of whose entries changed. */
  ghost predicate Untouched(m0: Memory, m1: Memory, o: Owner, s: set<nat>) {
    && (forall a :: a in s ==> a in o)
    && (forall a, j: nat :: a in s && j < 512 ==> Entry(m1, a, j) == Entry(m0, a, j))
    && (forall c :: c in o && o[c].level > 1 && o[c].parent in s ==> c in s)
  }

  lemma {:induction false} SameWalk(m0: Memory, m1: Memory, o: Owner, s: set<nat>, a: nat, v: nat)
    requires Forest(m0, o) && a in o && 1 <= o[a].level <= 3 && v < VA_LIMIT
    requires Untouched(m0, m1, o, s) && a in s
    ensures Translate(m1, o[a].level, a, v) == Translate(m0, o[a].level, a, v)
    decreases 3 - o[a].level
  {
    var j := Index(o[a].level, v);
    IndexInTable(o[a].level, v);
    assert EntryOk(m0, o, a, j);
    var w := Entry(m0, a, j);
    if o[a].level < 3 && ValidBit(w) && TableBit(w) {
      SameWalk(m0, m1, o, s, NextTable(w), v);
    }
  }

  /** A virtual address that leaves `t` by another entry is translated as before. */
  lemma OtherEntry(m0: Memory, m1: Memory, o: Owner, t: nat, i: nat, v: nat)
    requires Forest(m0, o) && t in o && 1 <= o[t].level <= 3 && v < VA_LIMIT
    requires OnlyBranch(m0, m1, o, t, i) && Index(o[t].level, v) != i
    ensures Translate(m1, o[t].level, t, v) == Translate(m0, o[t].level, t, v)
  {
    var j := Index(o[t].level, v);
    IndexInTable(o[t].level, v);
    assert PlaceOk(o, t);
    NotThroughItself(o, t, i);
    assert EntryOk(m0, o, t, j);
    var w := Entry(m0, t, j);
    if o[t].level < 3 && ValidBit(w) && TableBit(w) {
      var c := NextTable(w);
      OtherSubtree(m0, m1, o, t, i, c);
      SameWalk(m0, m1, o, Subtree(o, c), c, v);
    }
  }

  lemma NotThroughItself(o: Owner, t: nat, i: nat)
    requires t in o && forall a :: a in o ==> PlaceOk(o, a)
    ensures !Through(o, t, t, i)
  {
    assert PlaceOk(o, t);
  }

  /** A table of level 2 or 3 with its children. */
  ghost function Subtree(o: Owner, c: nat): set<nat> {
    set a | a in o && (a == c || (o[a].level == 3 && o[a].parent == c))
  }

  lemma OtherSubtree(m0: Memory, m1: Memory, o: Owner, t: nat, i: nat, c: nat)
    requires forall a :: a in o ==> PlaceOk(o, a)
    requires t in o && OnlyBranch(m0, m1, o, t, i)
    requires c in o && o[c].level > 1 && o[c].parent == t && o[c].index != i
    ensures Untouched(m0, m1, o, Subtree(o, c))
  {
    assert PlaceOk(o, t) && PlaceOk(o, c);
    forall a | a in Subtree(o, c)
      ensures a != t && !Through(o, a, t, i)
    {
      assert PlaceOk(o, a);
    }
    forall a | a in o && o[a].level > 1 && o[a].parent in Subtree(o, c)
      ensures a in Subtree(o, c)
    {
      assert PlaceOk(o, a) && PlaceOk(o, o[a].parent);
    }
  }

  ghost function TreeOf(o: Owner, r: nat): set<nat> {
    set a | a in o && o[a].root == r
  }

  /** A change below a table of one tree leaves every other tree's translations alone. */
  lemma OtherTree(m0: Memory, m1: Memory, o: Owner, t: nat, i: nat, r: nat, v: nat)
    requires Forest(m0, o) && t in o && r in o && o[r].level == 1 && o[t].root != r && v < VA_LIMIT
    requires OnlyBranch(m0, m1, o, t, i)
    ensures Translate(m1, 1, r, v) == Translate(m0, 1, r, v)
  {
    assert PlaceOk(o, t) && PlaceOk(o, r);
    forall a | a in TreeOf(o, r)
      ensures a != t && !Through(o, a, t, i)
    {
      assert PlaceOk(o, a);
      if o[a].level > 1 {
        assert PlaceOk(o, o[a].parent);
      }
    }
    forall c | c in o && o[c].level > 1 && o[c].parent in TreeOf(o, r)
      ensures c in TreeOf(o, r)
    {
      assert PlaceOk(o, c);
    }
    SameWalk(m0, m1, o, TreeOf(o, r), r, v);
  }

  /** Writing an entry that respects the places keeps the forest. */
  lemma WriteEntry(mem: Memory, o: Owner, t: nat, i: nat, w: nat)
    requires Forest(mem, o) && t in o && i < 512
    requires EntryOk(mem[t + 8 * i := w], o, t, i)
    ensures Forest(mem[t + 8 * i := w], o)
    ensures Entry(mem[t + 8 * i := w], t, i) == w
    ensures forall a, j: nat :: a in o && j < 512 && !(a == t && j == i) ==>
              Entry(mem[t + 8 * i := w], a, j) == Entry(mem, a, j)
  {
    var m1 := mem[t + 8 * i := w];
    assert PlaceOk(o, t);
    forall a, j: nat | a in o && j < 512
      ensures EntryOk(m1, o, a, j)
      ensures Entry(m1, a, j) == if a == t && j == i then w else Entry(mem, a, j)
    {
      assert PlaceOk(o, a);
      EntryWritten(mem, t, i, w, a, j);
      assert EntryOk(mem, o, a, j);
    }
  }

  /** Giving a zeroed table a place keeps the forest. */
  lemma AddTable(m0: Memory, m1: Memory, o: Owner, a: nat, place: Place)
    requires Forest(m0, o) && a !in o
    requires PlaceOk(o[a := place], a)
    requires forall i: nat :: i < 512 ==> Entry(m1, a, i) == 0
    requires forall b, j: nat :: b in o && j < 512 ==> Entry(m1, b, j) == Entry(m0, b, j)
    ensures Forest(m1, o[a := place]) && Grows(o, o[a := place])
  {
    var o1 := o[a := place];
    forall b | b in o1
      ensures PlaceOk(o1, b)
    {
      assert b != a ==> PlaceOk(o, b);
    }
    forall b, j: nat | b in o1 && j < 512
      ensures EntryOk(m1, o1, b, j)
    {
      assert b != a ==> EntryOk(m0, o, b, j);
    }
  }

  /** A zeroed table translates nothing. */
  lemma EmptyTable(mem: Memory, level: nat, t: nat, v: nat)
    requires 1 <= level <= 3 && v < VA_LIMIT
    requires forall i: nat :: i < 512 ==> Entry(mem, t, i) == 0
    ensures Translate(mem, level, t, v) == None
  {
    IndexInTable(level, v);
  }
}
