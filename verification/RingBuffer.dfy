/**
 * The ring buffer behind the dynamic table: a power-of-two array addressed through
 * a mask, filled downwards from a position that wraps around like the `size_t` it is.
 */
module RingBuffer {
  import opened Common

  /** `x & (size - 1)` for a power of two, of a sum that may have wrapped. */
  function Slot(first: nat, i: nat, size: nat): (r: nat)
    requires size > 0
    ensures r < size
  {
    (first + i) % SIZE_MODULUS % size
  }

  /** `first - 1` on a `size_t`. */
  function Before(first: nat): (r: nat)
    requires first < SIZE_MODULUS
    ensures r < SIZE_MODULUS
  {
    if first == 0 then SIZE_MODULUS - 1 else first - 1
  }

  /** A size the mask works for. */
  ghost predicate IsSize(size: nat) {
    exists k: nat :: k <= 31 && size == Pow2(k)
  }

  lemma SizeDivides(size: nat) returns (p: nat)
    requires IsSize(size)
    ensures size > 0 && SIZE_MODULUS == size * p
  {
    var k: nat :| k <= 31 && size == Pow2(k);
    p := Pow2(32 - k);
    Pow2Sum(k, 32 - k);
    Pow2At32();
  }

  lemma SizeIsPositive(size: nat)
    requires IsSize(size)
    ensures size > 0
  {
  }

  lemma LargeMultiple(size: nat, d: nat)
    requires d > 0
    ensures size * d >= size
  {
  }

  lemma DivModUnique(x: nat, q: nat, r: nat, size: nat)
    requires r < size && x == size * q + r
    ensures x % size == r
  {
    var p, s := x / size, x % size;
    assert x == size * p + s;
    if p > q {
      assert size * p == size * q + size * (p - q);
      LargeMultiple(size, p - q);
    } else if q > p {
      assert size * q == size * p + size * (q - p);
      LargeMultiple(size, q - p);
    }
  }

  lemma ModOfMultiple(x: nat, size: nat, q: nat)
    requires size > 0
    ensures (x + size * q) % size == x % size
  {
    var p, r := x / size, x % size;
    assert x + size * q == size * (p + q) + r;
    DivModUnique(x + size * q, p + q, r, size);
  }

  /** Wrapping at 32 bits does not show through the mask. */
  lemma WrapIsInvisible(x: nat, size: nat)
    requires IsSize(size)
    ensures size > 0 && x % SIZE_MODULUS % size == x % size
  {
    var p := SizeDivides(size);
    var q := x / SIZE_MODULUS;
    assert (size * p) * q == size * (p * q);
    ModOfMultiple(x % SIZE_MODULUS, size, p * q);
  }

  lemma SlotIsMod(first: nat, i: nat, size: nat)
    requires IsSize(size)
    ensures size > 0 && Slot(first, i, size) == (first + i) % size
  {
    WrapIsInvisible(first + i, size);
  }

  /** Different places less than a buffer apart are different slots. */
  lemma SlotsDiffer(first: nat, i: nat, j: nat, size: nat)
    requires IsSize(size) && i < j < i + size
    ensures size > 0 && Slot(first, i, size) != Slot(first, j, size)
  {
    SlotIsMod(first, i, size);
    SlotIsMod(first, j, size);
    ModsDiffer(first + i, j - i, size);
  }

  lemma ModsDiffer(x: nat, d: nat, size: nat)
    requires 0 < d < size
    ensures (x + d) % size != x % size
  {
    var q, r := x / size, x % size;
    if r + d < size {
      DivModUnique(x + d, q, r + d, size);
    } else {
      assert x + d == size * (q + 1) + (r + d - size);
      DivModUnique(x + d, q + 1, r + d - size, size);
    }
  }

  /** Counting down from `first`, wrapped or not, is counting up from one place earlier. */
  lemma SlotShift(first: nat, i: nat, size: nat)
    requires IsSize(size) && first < SIZE_MODULUS
    ensures size > 0 && Slot(Before(first), i + 1, size) == Slot(first, i, size)
  {
    if first == 0 {
      assert Before(first) + (i + 1) == i + SIZE_MODULUS;
      ModOfMultiple(i, SIZE_MODULUS, 1);
    }
  }

  lemma SlotFromZero(i: nat, size: nat)
    requires IsSize(size) && i < size
    ensures Slot(0, i, size) == i
  {
    SlotIsMod(0, i, size);
    DivModUnique(i, 0, i, size);
  }

  /** The cells hold the items, from `first` on and around the end. */
  ghost predicate Ring<T>(cells: seq<T>, first: nat, items: seq<T>) {
    && IsSize(|cells|) && first < SIZE_MODULUS && |items| <= |cells|
    && forall i | 0 <= i < |items| :: cells[SlotOf(cells, first, i)] == items[i]
  }

  ghost function SlotOf<T>(cells: seq<T>, first: nat, i: nat): (r: nat)
    requires IsSize(|cells|)
    ensures r < |cells|
  {
    SizeIsPositive(|cells|);
    Slot(first, i, |cells|)
  }

  lemma RingFromZero<T>(cells: seq<T>, items: seq<T>)
    requires IsSize(|cells|) && items <= cells
    ensures Ring(cells, 0, items)
  {
    hide Slot, IsSize;
    forall i | 0 <= i < |items| ensures cells[SlotOf(cells, 0, i)] == items[i] {
      SlotFromZero(i, |cells|);
      assert cells[i] == items[i];
    }
  }

  /** An item written just before the first, where there is room for one more, comes to index 0. */
  lemma RingPush<T>(cells: seq<T>, first: nat, items: seq<T>, x: T)
    requires Ring(cells, first, items) && |items| < |cells|
    ensures Ring(cells[SlotOf(cells, Before(first), 0) := x], Before(first), [x] + items)
  {
    hide Slot, Before, IsSize;
    var at := SlotOf(cells, Before(first), 0);
    var cells' := cells[at := x];
    var items' := [x] + items;
    forall i | 0 <= i < |items'| ensures cells'[SlotOf(cells', Before(first), i)] == items'[i] {
      if i > 0 {
        SlotShift(first, i - 1, |cells|);
        SlotsDiffer(Before(first), 0, i, |cells|);
        assert SlotOf(cells', Before(first), i) == SlotOf(cells, first, i - 1) != at;
      }
    }
  }

  class RingBuf<T(0)> {
    var buffer: array<T>
    var mask: nat
    var first: nat
    var len: nat
    /** What the buffer stands for, the entry pushed last at index 0. */
    ghost var items: seq<T>

    ghost predicate Valid()
      reads this, buffer
    {
      buffer.Length == mask + 1 && len == |items| && Ring(buffer[..], first, items)
    }

    /** `hd_ringbuf_init`. */
    constructor (bufsize: nat, fill: T)
      requires bufsize <= 0x8000_0000
      ensures Valid() && items == [] && fresh(buffer)
    {
      var size := RoundUp(bufsize);
      buffer := new T[size](_ => fill);
      mask, first, len, items := size - 1, 0, 0, [];
    }

    /** `hd_ringbuf_get`. */
    method Get(i: nat) returns (r: T)
      requires Valid() && i < len
      ensures r == items[i]
    {
      assert buffer[..][SlotOf(buffer[..], first, i)] == items[i];
      r := buffer[Slot(first, i, mask + 1)];
    }

    lemma Fits()
      requires Valid()
      ensures IsSize(mask + 1) && len == |items| <= mask + 1
    {
    }

    /** The entries, oldest place forgotten, to the beginning of other memory. */
    method CopyTo(larger: array<T>)
      requires Valid() && larger != buffer && len <= larger.Length
      modifies larger
      ensures items <= larger[..]
    {
      hide Ring, IsSize;
      var i := 0;
      while i < len
        invariant i <= len && Valid()
        invariant forall j | 0 <= j < i :: larger[j] == items[j]
      {
        larger[i] := Get(i);
        i := i + 1;
      }
    }

    /** `hd_ringbuf_reserve`. */
    method Reserve(bufsize: nat, fill: T)
      requires Valid() && bufsize <= 0x8000_0000
      modifies this
      ensures Valid() && items == old(items) && mask + 1 >= bufsize
      ensures buffer == old(buffer) || fresh(buffer)
    {
      hide Ring, IsSize;
      if mask + 1 >= bufsize {
        return;
      }
      Fits();
      var size := RoundUp(bufsize);
      var larger := new T[size](_ => fill);
      CopyTo(larger);
      RingFromZero(larger[..], items);
      buffer, mask, first := larger, size - 1, 0;
    }

    /** `hd_ringbuf_push_front`. */
    method PushFront(x: T)
      requires Valid() && len < 0x8000_0000
      modifies this, buffer
      ensures Valid() && items == [x] + old(items)
      ensures buffer == old(buffer) || fresh(buffer)
    {
      Reserve(len + 1, x);
      RingPush(buffer[..], first, items, x);
      first := Before(first);
      var at := Slot(first, 0, mask + 1);
      assert at == SlotOf(buffer[..], first, 0);
      buffer[at] := x;
      items := [x] + items;
      len := len + 1;
    }

    /** `hd_ringbuf_pop_back`. */
    method PopBack()
      requires Valid() && len > 0
      modifies this`len, this`items
      ensures Valid() && items == old(items)[..|old(items)| - 1]
    {
      len := len - 1;
      items := items[..len];
    }
  }

  /** The loop that doubles a size until it is enough. */
  method RoundUp(bufsize: nat) returns (size: nat)
    requires bufsize <= 0x8000_0000
    ensures IsSize(size) && size >= bufsize
    ensures size > 1 ==> size < 2 * bufsize
  {
    size := 1;
    ghost var k := 0;
    Pow2Mono(0, 31);
    assert Pow2(31) == 0x8000_0000 by { Pow2At32(); }
    while size < bufsize
      invariant k <= 31 && size == Pow2(k) && (size > 1 ==> size < 2 * bufsize)
      decreases bufsize - size
    {
      if k == 31 {
        assert false;
      }
      size := size * 2;
      k := k + 1;
    }
  }
}
