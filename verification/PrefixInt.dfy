/**
 * Prefixed integers of section 5.1 of RFC 7541, as `encode_length`,
 * `count_encoded_length` and `decode_length` compute them.
 */
module PrefixInt {
  import opened Common

  /** The prefix sizes HPACK uses. */
  predicate IsPrefix(prefix: nat) {
    4 <= prefix <= 7
  }

  /** `(1 << prefix) - 1`. */
  function Mask(prefix: nat): (k: nat)
    requires IsPrefix(prefix)
    ensures 15 <= k <= 127
  {
    if prefix == 4 then 15 else if prefix == 5 then 31 else if prefix == 6 then 63 else 127
  }

  /** `b & k` for a mask k of low bits. */
  function LowBits(b: byte, prefix: nat): (r: nat)
    requires IsPrefix(prefix)
    ensures r <= Mask(prefix)
  {
    if prefix == 4 then b % 16 else if prefix == 5 then b % 32 else if prefix == 6 then b % 64 else b % 128
  }

  /** `b & ~k`. */
  function HighBits(b: byte, prefix: nat): (r: byte)
    requires IsPrefix(prefix)
  {
    if prefix == 4 then b / 16 * 16 else if prefix == 5 then b / 32 * 32
    else if prefix == 6 then b / 64 * 64 else b / 128 * 128
  }

  lemma QuotientAndRest(q: nat, n: nat, m: nat)
    requires n < m
    ensures (q * m + n) / m == q && (q * m + n) % m == n
  {
    var x := q * m + n;
    var d := x / m - q;
    assert x == m * (x / m) + x % m;
    assert d * m == n - x % m;
    if d > 0 {
      ProductAtLeast(d, m);
    } else {
      ProductAtLeast(-d, m);
    }
  }

  /** A number within the mask goes under the high bits of b without disturbing them. */
  lemma UnderMask(b: byte, n: nat, prefix: nat)
    requires IsPrefix(prefix) && n <= Mask(prefix)
    ensures HighBits(b, prefix) + n < 0x100
    ensures LowBits(HighBits(b, prefix) + n, prefix) == n
    ensures HighBits(HighBits(b, prefix) + n, prefix) == HighBits(b, prefix)
  {
    if prefix == 4 {
      QuotientAndRest(b / 16, n, 16);
    } else if prefix == 5 {
      QuotientAndRest(b / 32, n, 32);
    } else if prefix == 6 {
      QuotientAndRest(b / 64, n, 64);
    } else {
      QuotientAndRest(b / 128, n, 128);
    }
  }

  lemma CleanFirst(b: byte, n: nat, prefix: nat)
    requires IsPrefix(prefix) && n <= Mask(prefix)
    ensures HighBits(HighBits(b, prefix), prefix) == HighBits(b, prefix)
    ensures HighBits(b, prefix) + n < 0x100
  {
    UnderMask(b, 0, prefix);
    UnderMask(b, n, prefix);
  }

  /** Little-endian groups of seven bits, all but the last with the top bit set. */
  function Groups(n: nat): (r: Bytes)
    ensures |r| >= 1
  {
    if n < 128 then [n] else [128 + n % 128] + Groups(n / 128)
  }

  /** The encoding of n in an octet whose bits above the prefix are those of `first`. */
  function Encode(first: byte, n: nat, prefix: nat): (r: Bytes)
    requires IsPrefix(prefix)
    ensures |r| >= 1
    ensures HighBits(r[0], prefix) == HighBits(first, prefix)
  {
    var k := Mask(prefix);
    UnderMask(first, Min(n, k), prefix);
    if n < k then [HighBits(first, prefix) + n] else [HighBits(first, prefix) + k] + Groups(n - k)
  }

  /** Where decoding stands after some octets; `More` is what is kept for the next call. */
  datatype Progress =
    | Done(value: uint32, shift: nat)
    | More(acc: uint32, shift: nat)
    | Overflow

  /** One continuation octet added to the accumulator at the current shift. */
  function DecodeGroup(acc: uint32, shift: nat, b: byte): Progress {
    var add := b % 128 * Pow2(shift);
    if shift >= 32 || add > UINT32_MAX || acc + add > UINT32_MAX then Overflow
    else if b < 128 then Done(acc + add, shift)
    else More(acc + add, shift + 7)
  }

  /** One octet: the first of an integer when nothing is accumulated yet. */
  function DecodeOctet(acc: uint32, shift: nat, b: byte, prefix: nat): Progress
    requires IsPrefix(prefix)
  {
    if acc != 0 then DecodeGroup(acc, shift, b)
    else if LowBits(b, prefix) != Mask(prefix) then Done(LowBits(b, prefix), 0)
    else More(Mask(prefix), shift)
  }

  /** Octet by octet until the integer ends, the input ends, or it overflows. */
  function Decode(acc: uint32, shift: nat, s: Bytes, prefix: nat): Progress
    requires IsPrefix(prefix)
    decreases |s|
  {
    if s == [] then More(acc, shift)
    else match DecodeOctet(acc, shift, s[0], prefix)
      case More(a, h) => Decode(a, h, s[1..], prefix)
      case p => p
  }

  /** The number of octets of s that decoding looks at. */
  function Consumed(acc: uint32, shift: nat, s: Bytes, prefix: nat): (r: nat)
    requires IsPrefix(prefix)
    ensures r <= |s| && (s != [] ==> r >= 1)
    decreases |s|
  {
    if s == [] then 0
    else match DecodeOctet(acc, shift, s[0], prefix)
      case More(a, h) => 1 + Consumed(a, h, s[1..], prefix)
      case _ => 1
  }

  /** A first octet never leaves the accumulator at zero, so a resumed call is told apart from a fresh one. */
  lemma ResumedIsNotFresh(acc: uint32, shift: nat, b: byte, prefix: nat)
    requires IsPrefix(prefix)
    requires DecodeOctet(acc, shift, b, prefix).More?
    ensures DecodeOctet(acc, shift, b, prefix).acc >= (if acc == 0 then 15 else acc)
  {
    if acc != 0 {
      assert b % 128 * Pow2(shift) >= 0;
    }
  }

  /** Splitting the input anywhere and resuming from what was kept changes nothing. */
  lemma {:induction false} DecodeSplit(acc: uint32, shift: nat, s: Bytes, t: Bytes, prefix: nat)
    requires IsPrefix(prefix)
    ensures match Decode(acc, shift, s, prefix)
      case More(a, h) =>
        && Decode(acc, shift, s + t, prefix) == Decode(a, h, t, prefix)
        && Consumed(acc, shift, s + t, prefix) == |s| + Consumed(a, h, t, prefix)
      case p =>
        && Decode(acc, shift, s + t, prefix) == p
        && Consumed(acc, shift, s + t, prefix) == Consumed(acc, shift, s, prefix)
    decreases |s|
  {
    if s == [] {
      assert s + t == t;
    } else {
      assert (s + t)[1..] == s[1..] + t;
      match DecodeOctet(acc, shift, s[0], prefix)
      case More(a, h) => DecodeSplit(a, h, s[1..], t, prefix);
      case _ =>
    }
  }

  /** The accumulator only grows, so a value over a limit stays over it. */
  lemma {:induction false} DecodeGrows(acc: uint32, shift: nat, s: Bytes, prefix: nat)
    requires IsPrefix(prefix) && acc != 0
    ensures match Decode(acc, shift, s, prefix)
      case Done(v, _) => v >= acc
      case More(a, _) => a >= acc
      case Overflow => true
    decreases |s|
  {
    if s != [] {
      match DecodeOctet(acc, shift, s[0], prefix)
      case More(a, h) =>
        ResumedIsNotFresh(acc, shift, s[0], prefix);
        DecodeGrows(a, h, s[1..], prefix);
      case Done(_, _) => assert s[0] % 128 * Pow2(shift) >= 0;
      case Overflow =>
    }
  }

  lemma Pow2Bound(k: nat)
    requires Pow2(k) <= UINT32_MAX
    ensures k < 32
  {
    Pow2At32();
    if k >= 32 {
      Pow2Mono(32, k);
    }
  }

  lemma ProductAtLeast(a: nat, b: nat)
    ensures a * b >= 0
    ensures a >= 1 ==> a * b >= b
  {
    if a >= 1 {
      assert a * b == (a - 1) * b + b;
    }
  }

  lemma Pow2Add7(k: nat)
    ensures Pow2(k + 7) == 128 * Pow2(k)
  {
    Pow2Sum(k, 7);
  }

  lemma SplitProduct(n: nat, p: nat)
    ensures n * p == n % 128 * p + n / 128 * (128 * p)
  {
    var low, high := n % 128, n / 128;
    assert n == low + 128 * high;
    assert (low + 128 * high) * p == low * p + 128 * high * p;
    assert high * (128 * p) == 128 * high * p;
  }

  /** Splitting off the low group: n at `shift` is its low seven bits there plus the rest seven places up. */
  lemma GroupShift(n: nat, shift: nat)
    requires n * Pow2(shift) <= UINT32_MAX
    ensures n * Pow2(shift) == n % 128 * Pow2(shift) + n / 128 * Pow2(shift + 7)
    ensures n >= 128 ==> shift + 7 < 32
  {
    Pow2Add7(shift);
    SplitProduct(n, Pow2(shift));
    if n >= 128 {
      ProductAtLeast(n / 128, Pow2(shift + 7));
      ProductAtLeast(n % 128, Pow2(shift));
      Pow2Bound(shift + 7);
    }
  }

  lemma {:induction false} DecodeGroups(acc: uint32, shift: nat, n: nat, rest: Bytes, prefix: nat)
    requires IsPrefix(prefix) && acc > 0
    requires shift < 32 && acc + n * Pow2(shift) <= UINT32_MAX
    ensures Decode(acc, shift, Groups(n) + rest, prefix).Done?
    ensures Decode(acc, shift, Groups(n) + rest, prefix).value == acc + n * Pow2(shift)
    ensures Consumed(acc, shift, Groups(n) + rest, prefix) == |Groups(n)|
    decreases n
  {
    hide LowBits, Pow2;
    var s := Groups(n) + rest;
    if n >= 128 {
      GroupShift(n, shift);
      var add := n % 128 * Pow2(shift);
      ProductAtLeast(n / 128, Pow2(shift + 7));
      assert s[0] % 128 == n % 128;
      assert DecodeOctet(acc, shift, s[0], prefix) == More(acc + add, shift + 7);
      assert s[1..] == Groups(n / 128) + rest;
      DecodeGroups(acc + add, shift + 7, n / 128, rest, prefix);
    } else {
      assert s[0] == n;
    }
  }

  /** Round trip: the encoding of any 32-bit n decodes to n and to nothing beyond itself. */
  lemma RoundTrip(first: byte, n: uint32, prefix: nat, rest: Bytes)
    requires IsPrefix(prefix)
    ensures Decode(0, 0, Encode(first, n, prefix) + rest, prefix).Done?
    ensures Decode(0, 0, Encode(first, n, prefix) + rest, prefix).value == n
    ensures Consumed(0, 0, Encode(first, n, prefix) + rest, prefix) == |Encode(first, n, prefix)|
  {
    hide HighBits, LowBits;
    var k := Mask(prefix);
    var s := Encode(first, n, prefix) + rest;
    UnderMask(first, Min(n, k), prefix);
    if n >= k {
      assert s[1..] == Groups(n - k) + rest;
      assert Pow2(0) == 1;
      DecodeGroups(k, 0, n - k, rest, prefix);
    }
  }

  /** How long the groups of n can be, for n below 2^(7 m). */
  lemma {:induction false} GroupsLength(n: nat, m: nat)
    requires m >= 1 && n < Pow2(7 * m)
    ensures |Groups(n)| <= m
    decreases m
  {
    if n >= 128 {
      assert Pow2(7) == 128;
      if m == 1 {
        assert false;
      }
      Pow2Sum(7, 7 * (m - 1));
      assert Pow2(7 * m) == 128 * Pow2(7 * (m - 1));
      GroupsLength(n / 128, m - 1);
    }
  }

  // ---------------------------------------------------------------- section 5.1 of RFC 7541

  /** The number groups of seven bits stand for, the least significant first, whatever their top bits. */
  function Sum(groups: Bytes): nat {
    if groups == [] then 0 else groups[0] % 128 + 128 * Sum(groups[1..])
  }

  /** Every octet but the last says that more follow. */
  predicate Chained(groups: Bytes) {
    groups != [] && groups[|groups| - 1] < 128 && forall i | 0 <= i < |groups| - 1 :: groups[i] >= 128
  }

  lemma {:induction false} GroupsAre(n: nat)
    ensures Chained(Groups(n)) && Sum(Groups(n)) == n
    ensures |Groups(n)| > 1 ==> Groups(n)[|Groups(n)| - 1] != 0
  {
    if n >= 128 {
      GroupsAre(n / 128);
      hide Chained, Sum;
      assert Groups(n) == [128 + n % 128] + Groups(n / 128);
      OneMoreGroup(n % 128, Groups(n / 128));
    } else {
      assert Sum([n]) == n % 128 + 128 * Sum([n][1..]);
    }
  }

  lemma OneMoreGroup(low: nat, rest: Bytes)
    requires low < 128 && Chained(rest)
    ensures var s: Bytes := [128 + low] + rest;
      Chained(s) && Sum(s) == low + 128 * Sum(rest) && s[|s| - 1] == rest[|rest| - 1]
  {
    var s: Bytes := [128 + low] + rest;
    assert s[1..] == rest && forall i | 0 < i < |s| :: s[i] == rest[i - 1];
  }

  /**
   * The encoding is that of the standard: the bits above the prefix are kept; a number below 2^prefix - 1 is under
   * them, any other is 2^prefix - 1 there and the difference in the shortest chain of groups.
   */
  lemma EncodeIs(first: byte, n: nat, prefix: nat)
    requires IsPrefix(prefix)
    ensures var s, k := Encode(first, n, prefix), Pow2(prefix) - 1;
      && s[0] / (k + 1) == first / (k + 1) && s[0] % (k + 1) == Min(n, k)
      && (n < k ==> |s| == 1)
      && (n >= k ==> Chained(s[1..]) && Sum(s[1..]) == n - k && (|s| > 2 ==> s[|s| - 1] != 0))
  {
    MaskIs(first, prefix);
    UnderMask(first, Min(n, Mask(prefix)), prefix);
    MaskIs(Encode(first, n, prefix)[0], prefix);
    if n >= Mask(prefix) {
      GroupsAre(n - Mask(prefix));
      assert Encode(first, n, prefix)[1..] == Groups(n - Mask(prefix));
    }
  }

  lemma MaskIs(b: byte, prefix: nat)
    requires IsPrefix(prefix)
    ensures Mask(prefix) == Pow2(prefix) - 1 && LowBits(b, prefix) == b % Pow2(prefix)
    ensures HighBits(b, prefix) == b / Pow2(prefix) * Pow2(prefix)
  {
    assert Pow2(4) == 16 && Pow2(5) == 32 && Pow2(6) == 64 && Pow2(7) == 128;
  }

  /** Where a chain of groups ends: the first octet below 128, or the end of the input. */
  function End(s: Bytes): (e: nat)
    ensures e <= |s| && (e < |s| ==> s[e] < 128) && forall i | 0 <= i < e :: s[i] >= 128
  {
    if s == [] || s[0] < 128 then 0 else 1 + End(s[1..])
  }

  /**
   * Groups read from any octets on top of a value: final at the end of the chain, refused exactly when the number
   * has more than 32 bits or the chain goes on into a group that lies beyond them.
   */
  lemma {:induction false} GroupsRead(acc: uint32, shift: nat, s: Bytes, prefix: nat)
    requires IsPrefix(prefix) && acc > 0 && shift < 39
    ensures var e := End(s);
      var total := acc + Sum(s[..Min(e + 1, |s|)]) * Pow2(shift);
      var r := Decode(acc, shift, s, prefix);
      if total > UINT32_MAX || (s != [] && shift + 7 * Min(e, |s| - 1) >= 32) then r == Overflow
      else if e < |s| then r == Done(total, shift + 7 * e) && Consumed(acc, shift, s, prefix) == e + 1
      else r == More(total, shift + 7 * |s|)
    decreases |s|
  {
    if s == [] {
      assert Sum(s) == 0;
    } else {
      hide LowBits, Pow2, Sum;
      var add := s[0] % 128 * Pow2(shift);
      FirstGroup(s, shift);
      if s[0] >= 128 && shift < 32 && acc + add <= UINT32_MAX {
        GroupsRead(acc + add, shift + 7, s[1..], prefix);
      }
    }
  }

  /** What the first group contributes, and what the chain after it. */
  lemma FirstGroup(s: Bytes, shift: nat)
    requires s != []
    ensures var cut, low := s[..Min(End(s) + 1, |s|)], s[0] % 128;
      && low * Pow2(shift) >= 0 && Sum(cut) * Pow2(shift) >= low * Pow2(shift)
      && if s[0] < 128 then Sum(cut) == low
         else Sum(cut) * Pow2(shift)
                == low * Pow2(shift) + Sum(s[1..][..Min(End(s[1..]) + 1, |s| - 1)]) * Pow2(shift + 7)
  {
    var e := End(s);
    var cut := s[..Min(e + 1, |s|)];
    assert cut[0] == s[0] && cut[1..] == s[1..][..Min(e, |s| - 1)];
    var rest := Sum(cut[1..]);
    assert Sum(cut) == s[0] % 128 + 128 * rest;
    Pow2Add7(shift);
    hide Pow2, Sum, End;
    Distribute(s[0] % 128, rest, Pow2(shift));
    ProductAtLeast(rest, Pow2(shift + 7));
    ProductAtLeast(s[0] % 128, Pow2(shift));
  }

  lemma Distribute(low: nat, rest: nat, p: nat)
    ensures (low + 128 * rest) * p == low * p + rest * (128 * p)
  {
  }

  /** Decoding any octets from the start, in the terms of the standard. */
  lemma DecodeIs(s: Bytes, prefix: nat)
    requires IsPrefix(prefix) && s != []
    ensures var k := Pow2(prefix) - 1;
      var e := End(s[1..]);
      var total := k + Sum(s[1..][..Min(e + 1, |s| - 1)]);
      var r := Decode(0, 0, s, prefix);
      if s[0] % (k + 1) < k then r == Done(s[0] % (k + 1), 0) && Consumed(0, 0, s, prefix) == 1
      else if total > UINT32_MAX || (|s| > 1 && Min(e, |s| - 2) >= 5) then r == Overflow
      else if e < |s| - 1 then r == Done(total, 7 * e) && Consumed(0, 0, s, prefix) == e + 2
      else r == More(total, 7 * (|s| - 1))
  {
    MaskIs(s[0], prefix);
    hide LowBits, End, Sum;
    assert Pow2(0) == 1;
    if LowBits(s[0], prefix) == Mask(prefix) {
      GroupsRead(Mask(prefix), 0, s[1..], prefix);
    }
  }

  /** `count_encoded_length`. */
  method CountEncodedLength(n0: nat, prefix: nat) returns (len: nat)
    requires IsPrefix(prefix)
    ensures forall first: byte :: len == |Encode(first, n0, prefix)|
  {
    var k := Mask(prefix);
    if n0 < k {
      return 1;
    }
    var n: nat := n0 - k;
    len := 1;
    while n >= 128
      invariant len + |Groups(n)| == 1 + |Groups(n0 - k)|
    {
      n := n / 128;
      len := len + 1;
    }
    len := len + 1;
  }

  /** `encode_length` into a buffer whose first octet already holds the bits above the prefix. */
  method EncodeLength(buf: array<byte>, n0: nat, prefix: nat) returns (len: nat)
    requires IsPrefix(prefix) && buf.Length >= 1
    requires buf.Length >= |Encode(buf[0], n0, prefix)|
    modifies buf
    ensures len == |Encode(old(buf[0]), n0, prefix)| && buf[..len] == Encode(old(buf[0]), n0, prefix)
    ensures buf[len..] == old(buf[len..])
  {
    hide HighBits, LowBits;
    var k := Mask(prefix);
    ghost var code := Encode(buf[0], n0, prefix);
    CleanFirst(buf[0], Min(n0, k), prefix);
    buf[0] := HighBits(buf[0], prefix);
    if n0 < k {
      buf[0] := buf[0] + n0;
      return 1;
    }
    buf[0] := buf[0] + k;
    assert code == [buf[0]] + Groups(n0 - k);
    len := WriteGroups(buf, n0 - k);
    assert buf[..len] == [buf[0]] + buf[1..len];
  }

  /** The loop of `encode_length`: the groups of n from the second octet on. */
  method WriteGroups(buf: array<byte>, n0: nat) returns (len: nat)
    requires buf.Length >= 1 + |Groups(n0)|
    modifies buf
    ensures len == 1 + |Groups(n0)| && buf[1..len] == Groups(n0)
    ensures buf[0] == old(buf[0]) && buf[len..] == old(buf[len..])
  {
    ghost var code := Groups(n0);
    var n: nat, i: nat := n0, 1;
    while n >= 128
      invariant 1 <= i <= |code|
      invariant code[i - 1..] == Groups(n)
      invariant buf[1..i] == code[..i - 1]
      invariant buf[0] == old(buf[0]) && buf[i..] == old(buf[i..])
      decreases n
    {
      Unfold(buf, code, n, i);
      buf[i] := 128 + n % 128;
      i := i + 1;
      n := n / 128;
    }
    Unfold(buf, code, n, i);
    buf[i] := n;
    len := i + 1;
  }

  lemma Unfold(buf: array<byte>, code: Bytes, n: nat, i: nat)
    requires 1 <= i <= |code| < buf.Length && code[i - 1..] == Groups(n)
    ensures n >= 128 ==> code[i - 1] == 128 + n % 128 && code[i..] == Groups(n / 128)
    ensures n < 128 ==> code[i - 1] == n && i == |code|
    ensures code[..i] == code[..i - 1] + [code[i - 1]]
    ensures buf[i + 1..] == buf[i..][1..]
  {
    assert code[i - 1] == code[i - 1..][0];
    assert code[i..] == code[i - 1..][1..];
  }

  /** What `decode_length` reports: octets read (`None` for -1), the value so far, and whether it is final. */
  datatype Decoded = Decoded(read: Option<nat>, value: uint32, shift: nat, fin: bool)

  /** Decoding from position i on, by one octet. */
  lemma DecodeFrom(acc: uint32, shift: nat, s: Bytes, i: nat, prefix: nat)
    requires IsPrefix(prefix) && i <= |s|
    ensures i == |s| ==> Decode(acc, shift, s[i..], prefix) == More(acc, shift)
    ensures i == |s| ==> Consumed(acc, shift, s[i..], prefix) == 0
    ensures i < |s| ==> match DecodeOctet(acc, shift, s[i], prefix)
      case More(a, h) =>
        && Decode(acc, shift, s[i..], prefix) == Decode(a, h, s[i + 1..], prefix)
        && Consumed(acc, shift, s[i..], prefix) == 1 + Consumed(a, h, s[i + 1..], prefix)
      case p => Decode(acc, shift, s[i..], prefix) == p && Consumed(acc, shift, s[i..], prefix) == 1
  {
    if i < |s| {
      assert s[i..][1..] == s[i + 1..];
    }
  }

  /** `decode_length` on the octets `s[start..]`. */
  method DecodeLength(initial: uint32, shift0: nat, s: Bytes, start: nat, prefix: nat) returns (r: Decoded)
    requires IsPrefix(prefix) && start < |s|
    requires initial == 0 ==> shift0 == 0
    ensures match Decode(initial, shift0, s[start..], prefix)
      case Done(v, h) => r == Decoded(Some(Consumed(initial, shift0, s[start..], prefix)), v, h, true)
      case More(a, h) => r == Decoded(Some(|s| - start), a, h, false)
      case Overflow => r.read == None
  {
    hide LowBits, Pow2, Decode, Consumed;
    var k := Mask(prefix);
    var n: uint32, shift: nat, i: nat := initial, shift0, start;
    DecodeFrom(n, shift, s, i, prefix);
    if n == 0 {
      if LowBits(s[i], prefix) != k {
        return Decoded(Some(1), LowBits(s[i], prefix), 0, true);
      }
      n := k;
      i := i + 1;
      if i == |s| {
        DecodeFrom(n, shift, s, i, prefix);
        return Decoded(Some(i - start), n, 0, false);
      }
    }
    while i < |s|
      invariant start <= i <= |s| && n != 0
      invariant Decode(n, shift, s[i..], prefix) == Decode(initial, shift0, s[start..], prefix)
      invariant i - start + Consumed(n, shift, s[i..], prefix) == Consumed(initial, shift0, s[start..], prefix)
    {
      DecodeFrom(n, shift, s, i, prefix);
      var add := s[i] % 128;
      if shift >= 32 {
        return Decoded(None, n, shift, false);
      }
      ShiftGuard(shift, add);
      if UINT32_MAX / Pow2(shift) < add {
        return Decoded(None, n, shift, false);
      }
      add := add * Pow2(shift);
      if UINT32_MAX - add < n {
        return Decoded(None, n, shift, false);
      }
      n := n + add;
      if s[i] < 128 {
        return Decoded(Some(i + 1 - start), n, shift, true);
      }
      i := i + 1;
      shift := shift + 7;
    }
    DecodeFrom(n, shift, s, i, prefix);
    return Decoded(Some(i - start), n, shift, false);
  }

  /** `(UINT32_MAX >> shift) < add` says exactly that `add << shift` does not fit. */
  lemma ShiftGuard(shift: nat, add: nat)
    ensures UINT32_MAX / Pow2(shift) < add <==> add * Pow2(shift) > UINT32_MAX
  {
    var p := Pow2(shift);
    var q := UINT32_MAX / p;
    assert q * p <= UINT32_MAX < (q + 1) * p;
    if q < add {
      assert add * p >= (q + 1) * p;
    } else {
      assert add * p <= q * p;
    }
  }
}
