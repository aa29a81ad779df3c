/** A bitmap stored in 32-bit words, with the scans the allocators use. */
module Bitmap {
  import opened Arithmetic
  import FileSystem

  const ELEM_BITS := 32

  /** Bit `j` of a word. */
  predicate Bit(w: nat, j: nat) {
    w / Pow2(j) % 2 == 1
  }

  // ---------------------------------------------------------------- words

  lemma DivAddMultiple(w: nat, p: nat, m: nat)
    requires p > 0
    ensures (w + p * m) / p == w / p + m
  {
    QuotientBound(w, p);
    assert (w / p + m) * p == w / p * p + p * m;
    assert (w / p + m + 1) * p == (w / p + 1) * p + p * m;
    QuotientUnique(w + p * m, p, w / p + m);
  }

  lemma EvenPower(k: nat)
    requires k > 0
    ensures Pow2(k) % 2 == 0
  {
  }

  /** Adding 2^j to a word whose bit j is clear sets that bit and no other. */
  lemma AddedBit(w: nat, j: nat, k: nat)
    requires !Bit(w, j)
    ensures Bit(w + Pow2(j), k) <==> k == j || Bit(w, k)
  {
    hide Pow2;
    hide Bit;
    if k < j {
      AddedBelow(w, j, k);
    } else if k > j {
      AddedAbove(w, j, k);
    } else {
      AddedAt(w, j);
    }
  }

  lemma AddedAt(w: nat, j: nat)
    requires !Bit(w, j)
    ensures Bit(w + Pow2(j), j)
  {
    hide Pow2;
    var q := w / Pow2(j);
    DivAddMultiple(w, Pow2(j), 1);
    assert (w + Pow2(j)) / Pow2(j) == q + 1;
    assert q % 2 == 0;
  }

  lemma AddedBelow(w: nat, j: nat, k: nat)
    requires k < j
    ensures Bit(w + Pow2(j), k) <==> Bit(w, k)
  {
    hide Pow2;
    PowAdd(k, j - k);
    EvenPower(j - k);
    EvenMultiple(w, Pow2(k), Pow2(j - k));
  }

  lemma EvenMultiple(w: nat, p: nat, m: nat)
    requires p > 0 && m % 2 == 0
    ensures (w + p * m) / p % 2 == w / p % 2
  {
    DivAddMultiple(w, p, m);
    ParityAdd(w / p, m);
  }

  lemma AddedAbove(w: nat, j: nat, k: nat)
    requires j < k && !Bit(w, j)
    ensures Bit(w + Pow2(j), k) <==> Bit(w, k)
  {
    hide Pow2;
    PowAdd(j, k - j);
    DivDiv(w, Pow2(j), Pow2(k - j));
    DivDiv(w + Pow2(j), Pow2(j), Pow2(k - j));
    DivAddMultiple(w, Pow2(j), 1);
    HalvesAgree(w / Pow2(j), k - j);
  }

  lemma ParityAdd(a: nat, b: nat)
    ensures (a + b) % 2 == (a % 2 + b % 2) % 2
  {
  }

  /** An even number and its successor agree above the lowest bit. */
  lemma HalvesAgree(a: nat, k: nat)
    requires a % 2 == 0 && k > 0
    ensures (a + 1) / Pow2(k) == a / Pow2(k)
  {
    DivDiv(a, 2, Pow2(k - 1));
    DivDiv(a + 1, 2, Pow2(k - 1));
    assert (a + 1) / 2 == a / 2;
  }

  lemma RemovedBit(w: nat, j: nat, k: nat)
    requires Bit(w, j)
    ensures w >= Pow2(j) && (Bit(w - Pow2(j), k) <==> k != j && Bit(w, k))
  {
    assert w >= Pow2(j) by {
      if w < Pow2(j) {
        QuotientUnique(w, Pow2(j), 0);
      }
    }
    var v := w - Pow2(j);
    DivAddMultiple(v, Pow2(j), 1);
    ParityAdd(v / Pow2(j), 1);
    assert !Bit(v, j);
    AddedBit(v, j, k);
  }

  /** The word with bit `j` set to `v`. */
  function WithBit(w: nat, j: nat, v: bool): (r: nat)
    ensures forall k: nat {:trigger Bit(r, k)} :: Bit(r, k) <==> if k == j then v else Bit(w, k)
  {
    if Bit(w, j) == v then w
    else if v then
      assert forall k: nat {:trigger Bit(w + Pow2(j), k)} :: Bit(w + Pow2(j), k) <==> k == j || Bit(w, k) by {
        forall k: nat ensures Bit(w + Pow2(j), k) <==> k == j || Bit(w, k) {
          AddedBit(w, j, k);
        }
      }
      w + Pow2(j)
    else
      RemovedBit(w, j, j);
      assert forall k: nat {:trigger Bit(w - Pow2(j), k)} :: Bit(w - Pow2(j), k) <==> k != j && Bit(w, k) by {
        forall k: nat ensures Bit(w - Pow2(j), k) <==> k != j && Bit(w, k) {
          RemovedBit(w, j, k);
        }
      }
      w - Pow2(j)
  }

  // ---------------------------------------------------------------- runs

  /** Whether `count` bits from `first` on all equal `v`. */
  predicate RunOf(bits: seq<bool>, first: nat, count: nat, v: bool)
    requires first + count <= |bits|
  {
    forall k | first <= k < first + count :: bits[k] == v
  }

  /** The first place at or after `from` with such a run; past the end if there is none. */
  function FirstRun(bits: seq<bool>, from: nat, count: nat, v: bool): (first: nat)
    decreases |bits| - from
  {
    if from + count > |bits| then |bits| + 1
    else if RunOf(bits, from, count, v) then from
    else FirstRun(bits, from + 1, count, v)
  }

  /** What the free map looks for is a run of clear bits. */
  lemma {:induction false} FirstRunIsFirstFit(bits: seq<bool>, from: nat, count: nat)
    ensures FirstRun(bits, from, count, false) == FileSystem.FirstFit(bits, from, count)
    decreases |bits| - from
  {
    if from + count <= |bits| && !RunOf(bits, from, count, false) {
      FirstRunIsFirstFit(bits, from + 1, count);
    }
  }

  function ElemCount(n: nat): (m: nat)
    ensures forall i: nat | i < n :: i / ELEM_BITS < m
  {
    (n + ELEM_BITS - 1) / ELEM_BITS
  }

  class Bitmap {
    const size: nat
    const elems: array<nat>

    ghost predicate Valid()
      reads this
    {
      elems.Length == ElemCount(size)
    }

    /** The bits the words stand for. */
    ghost function Bits(): (bits: seq<bool>)
      requires Valid()
      reads this, elems
      ensures |bits| == size
    {
      seq(size, i requires 0 <= i < size && Valid() reads this, elems => Bit(elems[i / ELEM_BITS], i % ELEM_BITS))
    }

    constructor (n: nat)
      ensures Valid() && fresh(elems) && size == n && Bits() == seq(n, _ => false)
    {
      size := n;
      elems := new nat[ElemCount(n)](_ => 0);
      new;
      forall i | 0 <= i < n ensures !Bits()[i] {
        assert elems[i / ELEM_BITS] == 0;
        QuotientUnique(0, Pow2(i % ELEM_BITS), 0);
      }
    }

    method Test(i: nat) returns (v: bool)
      requires Valid() && i < size
      ensures v == Bits()[i]
    {
      v := Bit(elems[i / ELEM_BITS], i % ELEM_BITS);
    }

    /** bitmap_mark and bitmap_reset: one word changes, in one bit. */
    method Set(i: nat, v: bool)
      requires Valid() && i < size
      modifies elems
      ensures Valid() && Bits() == old(Bits())[i := v]
    {
      var e := i / ELEM_BITS;
      ghost var before := Bits();
      elems[e] := WithBit(elems[e], i % ELEM_BITS, v);
      forall k | 0 <= k < size ensures Bits()[k] == before[i := v][k] {
        if k / ELEM_BITS == e {
          assert k == e * ELEM_BITS + k % ELEM_BITS && i == e * ELEM_BITS + i % ELEM_BITS;
        }
      }
    }

    method SetMultiple(first: nat, count: nat, v: bool)
      requires Valid() && first + count <= size
      modifies elems
      ensures Valid() && Bits() == FileSystem.SetRun(old(Bits()), first, count, v)
    {
      assert Bits() == FileSystem.SetRun(old(Bits()), first, 0, v);
      for i := 0 to count
        invariant Valid() && Bits() == FileSystem.SetRun(old(Bits()), first, i, v)
      {
        Set(first + i, v);
        assert Bits() == FileSystem.SetRun(old(Bits()), first, i + 1, v);
      }
    }

    method Contains(first: nat, count: nat, v: bool) returns (found: bool)
      requires Valid() && first + count <= size
      ensures found <==> !RunOf(Bits(), first, count, !v)
    {
      for i := 0 to count
        invariant RunOf(Bits(), first, i, !v)
      {
        var t := Test(first + i);
        if t == v {
          return true;
        }
      }
      return false;
    }

    /** bitmap_scan; no result stands for BITMAP_ERROR. */
    method Scan(start: nat, count: nat, v: bool) returns (found: bool, first: nat)
      requires Valid() && start <= size
      ensures first == FirstRun(Bits(), start, count, v) && (found <==> first + count <= size)
    {
      if count <= size {
        var i := start;
        while i <= size - count
          invariant start <= i <= size + 1
          invariant FirstRun(Bits(), start, count, v) == FirstRun(Bits(), i, count, v)
        {
          var other := Contains(i, count, !v);
          if !other {
            return true, i;
          }
          i := i + 1;
        }
      }
      return false, size + 1;
    }

    method ScanAndFlip(start: nat, count: nat, v: bool) returns (found: bool, first: nat)
      requires Valid() && start <= size
      modifies elems
      ensures Valid() && first == FirstRun(old(Bits()), start, count, v) && (found <==> first + count <= size)
      ensures found ==> RunOf(old(Bits()), first, count, v)
      ensures Bits() == if found then FileSystem.SetRun(old(Bits()), first, count, !v) else old(Bits())
    {
      found, first := Scan(start, count, v);
      FirstRunFound(Bits(), start, count, v);
      if found {
        SetMultiple(first, count, !v);
      }
    }
  }

  /** The scan finds a run of the wanted value, and the lowest one. */
  lemma {:induction false} FirstRunFound(bits: seq<bool>, from: nat, count: nat, v: bool)
    ensures var first := FirstRun(bits, from, count, v);
            && (first + count <= |bits| ==> from <= first && RunOf(bits, first, count, v))
            && forall k | from <= k < first && k + count <= |bits| :: !RunOf(bits, k, count, v)
    decreases |bits| - from
  {
    if from + count <= |bits| && !RunOf(bits, from, count, v) {
      FirstRunFound(bits, from + 1, count, v);
    }
  }
}
