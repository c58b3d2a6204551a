/** Octets, machine-word bounds and the few sequence facts the other modules share. */
module Common {
  type byte = x: int | 0 <= x < 0x100
  type uint32 = x: int | 0 <= x < 0x1_0000_0000
  type Bytes = seq<byte>

  const UINT32_MAX := 0xFFFF_FFFF

  /** One more than a `size_t` of the hub's 32-bit processor can hold. */
  const SIZE_MODULUS := 0x1_0000_0000

  datatype Option<+T> = None | Some(value: T)

  /** The error codes of the original that the model distinguishes; success is `OK`. */
  datatype Status = OK | HeaderComp | BufferError | InvalidArgument | InvalidState | FrameSizeError | NoMem

  function Min(a: int, b: int): int {
    if a <= b then a else b
  }

  /** `1 << k`. */
  function Pow2(k: nat): (r: nat)
    ensures r >= 1
  {
    if k == 0 then 1 else 2 * Pow2(k - 1)
  }

  lemma {:induction false} Pow2Sum(a: nat, b: nat)
    ensures Pow2(a + b) == Pow2(a) * Pow2(b)
  {
    if b > 0 {
      Pow2Sum(a, b - 1);
      assert Pow2(a + b) == 2 * Pow2(a + (b - 1));
    }
  }

  lemma {:induction false} Pow2Mono(a: nat, b: nat)
    requires a <= b
    ensures Pow2(a) <= Pow2(b)
  {
    if a < b {
      Pow2Mono(a, b - 1);
    }
  }

  lemma Pow2At32()
    ensures Pow2(32) == 0x1_0000_0000
  {
    assert Pow2(8) == 0x100;
    Pow2Sum(8, 8);
    Pow2Sum(16, 16);
    assert 0x1_0000 * 0x1_0000 == 0x1_0000_0000;
  }

  /** Concatenation of a sequence of sequences. */
  function Flatten<T>(ss: seq<seq<T>>): seq<T> {
    if ss == [] then [] else ss[0] + Flatten(ss[1..])
  }

  lemma Associative<T>(a: seq<T>, b: seq<T>, c: seq<T>)
    ensures (a + b) + c == a + (b + c)
  {
  }

  /** `whole` is `front` followed by `back`. */
  predicate Joined<T(==)>(whole: seq<T>, front: seq<T>, back: seq<T>) {
    whole == front + back
  }

  lemma JoinedMore<T>(whole: seq<T>, front: seq<T>, back: seq<T>, more: seq<T>)
    requires Joined(whole, front, back)
    ensures Joined(whole + more, front, back + more)
  {
  }

  lemma JoinedTrans<T>(a: seq<T>, b: seq<T>, c: seq<T>, x: seq<T>, y: seq<T>)
    requires Joined(b, a, x) && Joined(c, b, y)
    ensures Joined(c, a, x + y)
  {
  }

  lemma JoinedStart<T>(whole: seq<T>)
    ensures Joined(whole, whole, [])
  {
  }
}
