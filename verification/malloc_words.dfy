/** Memory as bytes with 32-bit words in it, and the list operations that the block allocator
    performs on free blocks in place. */
module MallocWords {
  import opened Arithmetic
  import opened InodeIo
  import opened DiskFormat

  type Memory = int -> Byte

  /** The word at address `a`. */
  function Get(m: Memory, a: int): (v: nat)
    ensures v < WORD
  {
    FromWord([m(a), m(a + 1), m(a + 2), m(a + 3)])
  }

  function Put(m: Memory, a: int, v: nat): (r: Memory) {
    x => if a <= x < a + 4 then Word(v)[x - a] else m(x)
  }

  /** memset. */
  function Filled(m: Memory, a: int, n: int, v: Byte): (r: Memory) {
    x => if a <= x < a + n then v else m(x)
  }

  /** memcpy of `n` bytes. */
  function Copied(m: Memory, from: int, to: int, n: int): (r: Memory) {
    x => if to <= x < to + n then m(x - to + from) else m(x)
  }

  /** A stored word reads back, and no word or byte apart from it changes. */
  lemma PutGets(m: Memory, a: int, v: nat)
    requires v < WORD
    ensures Get(Put(m, a, v), a) == v
    ensures forall b | Apart(a, 4, b, 4) :: Get(Put(m, a, v), b) == Get(m, b)
    ensures forall x | !(a <= x < a + 4) :: Put(m, a, v)(x) == m(x)
  {
    WordRoundTrip(v);
    var r := Put(m, a, v);
    assert [r(a), r(a + 1), r(a + 2), r(a + 3)] == Word(v);
  }

  /** The `n` bytes from `a` on are the same. */
  ghost predicate Same(m: Memory, m': Memory, a: int, n: int) {
    forall x | a <= x < a + n :: m'(x) == m(x)
  }

  lemma SameGet(m: Memory, m': Memory, a: int)
    requires Same(m, m', a, 4)
    ensures Get(m', a) == Get(m, a)
  {
  }

  // ---------------------------------------------------------------- list elements in memory

  const ELEM := 8               // sizeof (struct list_elem)

  function Prev(m: Memory, e: int): (p: nat) {
    Get(m, e)
  }

  function Next(m: Memory, e: int): (n: nat) {
    Get(m, e + 4)
  }

  function SetPrev(m: Memory, e: int, p: nat): (r: Memory) {
    Put(m, e, p)
  }

  function SetNext(m: Memory, e: int, n: nat): (r: Memory) {
    Put(m, e + 4, n)
  }

  predicate IsTail(m: Memory, e: int) {
    e != 0 && Prev(m, e) != 0 && Next(m, e) == 0
  }

  predicate IsInterior(m: Memory, e: int) {
    e != 0 && Prev(m, e) != 0 && Next(m, e) != 0
  }

  function ListInsert(m: Memory, before: nat, elem: nat): (r: Memory) {
    var m1 := SetPrev(m, elem, Prev(m, before));
    var m2 := SetNext(m1, elem, before);
    var m3 := SetNext(m2, Prev(m2, before), elem);
    SetPrev(m3, before, elem)
  }

  function ListRemove(m: Memory, elem: nat): (r: Memory) {
    var m1 := SetNext(m, Prev(m, elem), Next(m, elem));
    SetPrev(m1, Next(m1, elem), Prev(m1, elem))
  }

  /** Elements that lie apart, with addresses that fit a word. */
  ghost predicate Spaced(c: seq<int>) {
    && (forall i | 0 <= i < |c| :: 0 < c[i] < WORD)
    && forall i, j | 0 <= i < j < |c| :: Apart(c[i], ELEM, c[j], ELEM)
  }

  /** The element at position `i`; NULL past the ends. */
  function At(c: seq<int>, i: int): (e: int) {
    if 0 <= i < |c| then c[i] else 0
  }

  ghost predicate LinkedAt(m: Memory, c: seq<int>, i: nat)
    requires i < |c|
  {
    Prev(m, c[i]) == At(c, i - 1) && Next(m, c[i]) == At(c, i + 1)
  }

  /** Both directions of links spell out `c`, and nothing hangs off its ends. */
  ghost predicate Chain(m: Memory, c: seq<int>) {
    |c| >= 2 && forall i | 0 <= i < |c| :: LinkedAt(m, c, i)
  }

  /** Links read back, and setting one changes neither the other of its element nor those of
      elements apart from it. */
  lemma LinkSet(m: Memory, e: int, v: nat)
    requires v < WORD
    ensures Next(SetNext(m, e, v), e) == v && Prev(SetNext(m, e, v), e) == Prev(m, e)
    ensures Prev(SetPrev(m, e, v), e) == v && Next(SetPrev(m, e, v), e) == Next(m, e)
    ensures forall f | Apart(e, ELEM, f, ELEM) ::
              && Next(SetNext(m, e, v), f) == Next(m, f) && Prev(SetNext(m, e, v), f) == Prev(m, f)
              && Next(SetPrev(m, e, v), f) == Next(m, f) && Prev(SetPrev(m, e, v), f) == Prev(m, f)
    ensures forall x | !(e <= x < e + ELEM) :: SetNext(m, e, v)(x) == m(x) && SetPrev(m, e, v)(x) == m(x)
  {
    PutGets(m, e, v);
    PutGets(m, e + 4, v);
    hide Get;
    hide Put;
  }

  /** What list_insert does to the links of three elements that lie apart. */
  ghost predicate Inserted(m: Memory, r: Memory, prev: int, before: int, elem: int) {
    && Prev(r, elem) == prev && Next(r, elem) == before && Next(r, prev) == elem && Prev(r, before) == elem
    && Prev(r, prev) == Prev(m, prev) && Next(r, before) == Next(m, before)
    && (forall f | Apart(prev, ELEM, f, ELEM) && Apart(before, ELEM, f, ELEM) && Apart(elem, ELEM, f, ELEM) ::
          Prev(r, f) == Prev(m, f) && Next(r, f) == Next(m, f))
    && forall x | !(prev <= x < prev + ELEM) && !(before <= x < before + ELEM) && !(elem <= x < elem + ELEM) :: r(x) == m(x)
  }

  lemma InsertLinks(m: Memory, prev: nat, before: nat, elem: nat)
    requires prev < WORD && before < WORD && elem < WORD && Prev(m, before) == prev
    requires Apart(prev, ELEM, before, ELEM) && Apart(prev, ELEM, elem, ELEM) && Apart(before, ELEM, elem, ELEM)
    ensures Inserted(m, ListInsert(m, before, elem), prev, before, elem)
  {
    hide SetPrev;
    hide SetNext;
    hide Prev;
    hide Next;
    var m1 := SetPrev(m, elem, prev);
    LinkSet(m, elem, prev);
    var m2 := SetNext(m1, elem, before);
    LinkSet(m1, elem, before);
    var m3 := SetNext(m2, prev, elem);
    LinkSet(m2, prev, elem);
    LinkSet(m3, before, elem);
    assert Prev(m2, before) == prev;
  }

  /** And list_remove. */
  ghost predicate Unlinked(m: Memory, r: Memory, prev: int, next: int) {
    && Next(r, prev) == next && Prev(r, next) == prev && Prev(r, prev) == Prev(m, prev) && Next(r, next) == Next(m, next)
    && (forall f | Apart(prev, ELEM, f, ELEM) && Apart(next, ELEM, f, ELEM) :: Prev(r, f) == Prev(m, f) && Next(r, f) == Next(m, f))
    && forall x | !(prev <= x < prev + ELEM) && !(next <= x < next + ELEM) :: r(x) == m(x)
  }

  lemma RemoveLinks(m: Memory, prev: nat, elem: nat, next: nat)
    requires prev < WORD && next < WORD && Prev(m, elem) == prev && Next(m, elem) == next
    requires Apart(prev, ELEM, next, ELEM) && Apart(prev, ELEM, elem, ELEM) && Apart(next, ELEM, elem, ELEM)
    ensures Unlinked(m, ListRemove(m, elem), prev, next)
  {
    hide SetPrev;
    hide SetNext;
    hide Prev;
    hide Next;
    LinkSet(m, prev, next);
    LinkSet(SetNext(m, prev, next), next, prev);
  }

  /** Only bytes of the elements of `c` differ. */
  ghost predicate OnlyElems(m: Memory, m': Memory, c: seq<int>) {
    forall x :: m'(x) == m(x) || exists i :: 0 <= i < |c| && c[i] <= x < c[i] + ELEM
  }

  lemma SpacedPair(c: seq<int>, i: nat, j: nat)
    requires Spaced(c) && i < |c| && j < |c|
    ensures 0 < c[i] < WORD && (i != j ==> Apart(c[i], ELEM, c[j], ELEM))
  {
    if j < i {
      assert Apart(c[j], ELEM, c[i], ELEM);
    }
  }

  /** list_insert in front of element `k` of a chain. */
  lemma InsertChain(m: Memory, c: seq<int>, k: nat, elem: nat)
    requires Chain(m, c) && Spaced(c) && 0 < k < |c| && 0 < elem < WORD
    requires forall i | 0 <= i < |c| :: Apart(c[i], ELEM, elem, ELEM)
    ensures var r, c' := ListInsert(m, c[k], elem), c[..k] + [elem] + c[k..];
            Chain(r, c') && Spaced(c') && OnlyElems(m, r, c')
  {
    var r, c' := ListInsert(m, c[k], elem), c[..k] + [elem] + c[k..];
    assert LinkedAt(m, c, k - 1) && LinkedAt(m, c, k);
    SpacedPair(c, k - 1, k);
    InsertLinks(m, c[k - 1], c[k], elem);
    hide Inserted;
    hide LinkedAt;
    hide Spaced;
    hide ListInsert;
    forall i | 0 <= i < |c'| ensures LinkedAt(r, c', i) {
      InsertedAt(m, r, c, k, elem, i);
    }
    InsertSpaced(c, k, elem);
    InsertedElems(m, r, c, k, elem);
  }

  lemma InsertedAt(m: Memory, r: Memory, c: seq<int>, k: nat, elem: nat, i: nat)
    requires Chain(m, c) && Spaced(c) && 0 < k < |c| && i <= |c|
    requires Inserted(m, r, c[k - 1], c[k], elem) && forall i | 0 <= i < |c| :: Apart(c[i], ELEM, elem, ELEM)
    ensures LinkedAt(r, c[..k] + [elem] + c[k..], i)
  {
    hide Prev;
    hide Next;
    if i != k {
      var j := if i < k then i else i - 1;
      assert LinkedAt(m, c, j) && Apart(c[j], ELEM, elem, ELEM);
      SpacedPair(c, j, k - 1);
      SpacedPair(c, j, k);
    }
  }

  lemma InsertedElems(m: Memory, r: Memory, c: seq<int>, k: nat, elem: nat)
    requires 0 < k < |c| && Inserted(m, r, c[k - 1], c[k], elem)
    ensures OnlyElems(m, r, c[..k] + [elem] + c[k..])
  {
    hide Prev;
    hide Next;
    var c' := c[..k] + [elem] + c[k..];
    assert c'[k - 1] == c[k - 1] && c'[k] == elem && c'[k + 1] == c[k];
  }

  lemma InsertSpaced(c: seq<int>, k: nat, elem: nat)
    requires Spaced(c) && k <= |c| && 0 < elem < WORD && forall i | 0 <= i < |c| :: Apart(c[i], ELEM, elem, ELEM)
    ensures Spaced(c[..k] + [elem] + c[k..])
  {
    var c' := c[..k] + [elem] + c[k..];
    forall i, j | 0 <= i < j < |c'| ensures Apart(c'[i], ELEM, c'[j], ELEM) {
      if i != k && j != k {
        SpacedPair(c, if i < k then i else i - 1, if j < k then j else j - 1);
      }
    }
  }

  /** list_remove of element `k`. */
  lemma RemoveChain(m: Memory, c: seq<int>, k: nat)
    requires Chain(m, c) && Spaced(c) && 0 < k < |c| - 1
    ensures var r, c' := ListRemove(m, c[k]), c[..k] + c[k + 1..];
            Chain(r, c') && Spaced(c') && OnlyElems(m, r, c)
  {
    var r, c' := ListRemove(m, c[k]), c[..k] + c[k + 1..];
    assert LinkedAt(m, c, k);
    SpacedPair(c, k - 1, k);
    SpacedPair(c, k - 1, k + 1);
    SpacedPair(c, k, k + 1);
    SpacedPair(c, k + 1, k);
    RemoveLinks(m, c[k - 1], c[k], c[k + 1]);
    hide LinkedAt;
    hide Spaced;
    hide ListRemove;
    hide Prev;
    hide Next;
    assert OnlyElems(m, r, c);
    hide Unlinked;
    hide OnlyElems;
    forall i | 0 <= i < |c'| ensures LinkedAt(r, c', i) {
      UnlinkedAt(m, r, c, k, i);
    }
    RemoveSpaced(c, k);
  }

  lemma UnlinkedAt(m: Memory, r: Memory, c: seq<int>, k: nat, i: nat)
    requires Chain(m, c) && Spaced(c) && 0 < k < |c| - 1 && i < |c| - 1 && Unlinked(m, r, c[k - 1], c[k + 1])
    ensures LinkedAt(r, c[..k] + c[k + 1..], i)
  {
    hide Prev;
    hide Next;
    var j := if i < k then i else i + 1;
    assert LinkedAt(m, c, j);
    SpacedPair(c, j, k - 1);
    SpacedPair(c, j, k + 1);
  }

  lemma RemoveSpaced(c: seq<int>, k: nat)
    requires Spaced(c) && k < |c|
    ensures Spaced(c[..k] + c[k + 1..])
  {
    var c' := c[..k] + c[k + 1..];
    forall i, j | 0 <= i < j < |c'| ensures Apart(c'[i], ELEM, c'[j], ELEM) {
      SpacedPair(c, if i < k then i else i + 1, if j < k then j else j + 1);
    }
  }

  /** A chain whose elements' bytes are the same is the same chain. */
  lemma SameChain(m: Memory, m': Memory, c: seq<int>)
    requires Chain(m, c) && forall i | 0 <= i < |c| :: Same(m, m', c[i], ELEM)
    ensures Chain(m', c)
  {
    forall i | 0 <= i < |c| ensures LinkedAt(m', c, i) {
      assert LinkedAt(m, c, i) && Same(m, m', c[i], ELEM);
    }
  }
}
