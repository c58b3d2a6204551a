/**
 * The Huffman coder and decoder as the original runs them: a 64-bit accumulator
 * emptied four octets or one octet at a time into the output chunks, and a table
 * driven by half octets.
 */
module HuffmanCodec {
  import opened Common
  import opened HuffmanCode
  import opened BufChain

  // ---------------------------------------------------------------- machine words

  function Zeros(k: nat): (r: Bits)
    ensures |r| == k && forall i | 0 <= i < k :: !r[i]
  {
    seq(k, _ => false)
  }

  /** `w << k` on a word of fixed width, the most significant bit first. */
  function ShiftLeft(w: Bits, k: nat): (r: Bits)
    requires k <= |w|
    ensures |r| == |w|
  {
    w[k..] + Zeros(k)
  }

  /** `v | w`. */
  function Or(v: Bits, w: Bits): (r: Bits)
    requires |v| == |w|
    ensures |r| == |v| && forall i | 0 <= i < |r| :: r[i] == (v[i] || w[i])
  {
    seq(|v|, i requires 0 <= i < |v| => v[i] || w[i])
  }

  /** The `code` field of `huff_sym_table`: the word in the high bits of 32. */
  function SymbolCode(c: Code, sym: byte): (r: Bits)
    requires ValidCode(c)
    ensures |r| == 32
  {
    c[sym] + Zeros(32 - |c[sym]|)
  }

  /** A 64-bit word holding the bits b above zeros. */
  predicate Holds(w: Bits, b: Bits) {
    |w| == 64 && |b| <= 64 && w == b + Zeros(64 - |b|)
  }

  /** `code |= (uint64_t)sym->code << (32 - nbits)` puts the symbol's word right behind the bits held. */
  lemma OrAppends(c: Code, w: Bits, b: Bits, sym: byte)
    requires ValidCode(c) && Holds(w, b) && |b| < 32
    ensures Holds(Or(w, ShiftLeft(Zeros(32) + SymbolCode(c, sym), 32 - |b|)), b + c[sym])
  {
    var n := |b|;
    var s := ShiftLeft(Zeros(32) + SymbolCode(c, sym), 32 - n);
    assert s == Zeros(n) + c[sym] + Zeros(64 - n - |c[sym]|);
    var r := Or(w, s);
    assert r == b + c[sym] + Zeros(64 - n - |c[sym]|);
  }

  lemma ShiftDrops(w: Bits, b: Bits, k: nat)
    requires Holds(w, b) && k <= |b|
    ensures Holds(ShiftLeft(w, k), b[k..]) && w[..k] == b[..k]
  {
    assert ShiftLeft(w, k) == b[k..] + Zeros(64 - |b[k..]|);
  }

  // ---------------------------------------------------------------- encoding

  /** `nghttp2_hd_huff_encode_count`. */
  method EncodeCount(c: Code, src: Bytes) returns (n: nat)
    requires ValidCode(c)
    ensures n == |Encode(c, src)|
  {
    var nbits := 0;
    var i := 0;
    assert src[..0] == [];
    while i < |src|
      invariant i <= |src| && nbits == |EncodeBits(c, src[..i])|
    {
      assert src[..i + 1] == src[..i] + [src[i]];
      EncodeBitsAppend(c, src[..i], [src[i]]);
      OneSymbol(c, src[i]);
      nbits := nbits + |c[src[i]]|;
      i := i + 1;
    }
    assert src[..i] == src;
    n := (nbits + 7) / 8;
  }

  lemma OneSymbol(c: Code, sym: byte)
    requires |c| == 257
    ensures EncodeBits(c, [sym]) == c[sym]
  {
    assert [sym][1..] == [];
  }

  lemma {:induction false} PackAppend(a: Bits, b: Bits)
    requires |a| % 8 == 0 && |b| % 8 == 0
    ensures Pack(a + b) == Pack(a) + Pack(b)
  {
    if a == [] {
      assert a + b == b;
    } else {
      assert (a + b)[..8] == a[..8] && (a + b)[8..] == a[8..] + b;
      PackAppend(a[8..], b);
    }
  }

  lemma {:induction false} PackUnpack(s: Bytes)
    ensures Pack(Unpack(s)) == s
  {
    if s != [] {
      var b := Unpack(s);
      assert b[..8] == ToBits(s[0], 8) && b[8..] == Unpack(s[1..]);
      assert Pow2(8) == 0x100;
      FromToBits(s[0], 8);
      PackUnpack(s[1..]);
    }
  }

  /** The octets sent, the bits held back and the symbols still to come make up the code of src. */
  predicate Progress(c: Code, src: Bytes, sent: Bytes, b: Bits, i: nat)
    requires |c| == 257
  {
    i <= |src| && Unpack(sent) + b + EncodeBits(c, src[i..]) == EncodeBits(c, src)
  }

  /** The bits not sent yet, with the padding. */
  function Rest(c: Code, src: Bytes, b: Bits, i: nat): Bits
    requires |c| == 257 && i <= |src|
  {
    b + EncodeBits(c, src[i..]) + Ones(PadLength(|EncodeBits(c, src)|))
  }

  lemma Regroup(x: Bits, b: Bits, e: Bits, pad: Bits)
    ensures x + b + e + pad == x + (b + e + pad)
  {
  }

  lemma WholeOctetsLeft(all: nat, sent: nat, rest: nat)
    requires all % 8 == 0 && all == 8 * sent + rest
    ensures rest % 8 == 0
  {
  }

  /** What has been sent is the beginning of the encoded string. */
  lemma SentIsPrefix(c: Code, src: Bytes, sent: Bytes, b: Bits, i: nat)
    requires |c| == 257 && Progress(c, src, sent, b, i)
    ensures |Rest(c, src, b, i)| % 8 == 0
    ensures Encode(c, src) == sent + Pack(Rest(c, src, b, i))
  {
    hide Pack, Unpack, EncodeBits, PadLength;
    var all := EncodeBits(c, src);
    var pad := Ones(PadLength(|all|));
    var rest := Rest(c, src, b, i);
    Regroup(Unpack(sent), b, EncodeBits(c, src[i..]), pad);
    assert all + pad == Unpack(sent) + rest;
    WholeOctetsLeft(|all + pad|, |sent|, |rest|);
    PackAppend(Unpack(sent), rest);
    PackUnpack(sent);
  }

  /** With no symbol to come, the bits held are all that is left, padded with ones. */
  lemma LastOctet(c: Code, src: Bytes, sent: Bytes, b: Bits)
    requires |c| == 257 && Progress(c, src, sent, b, |src|) && |b| < 8
    ensures b == [] ==> Encode(c, src) == sent
    ensures b != [] ==> Encode(c, src) == sent + [ToOctet(b + Ones(8 - |b|))]
  {
    hide ToOctet, Unpack;
    SentIsPrefix(c, src, sent, b, |src|);
    assert src[|src|..] == [] && EncodeBits(c, []) == [];
    assert PadLength(|EncodeBits(c, src)|) == PadLength(|b|) == if b == [] then 0 else 8 - |b|;
    var rest := Rest(c, src, b, |src|);
    if b == [] {
      assert rest == [];
    } else {
      assert rest == b + Ones(8 - |b|);
      assert rest[..8] == rest && rest[8..] == [];
    }
  }

  /** The symbol at i moves from those to come to the bits held. */
  lemma TakeSymbol(c: Code, src: Bytes, sent: Bytes, b: Bits, i: nat)
    requires |c| == 257 && Progress(c, src, sent, b, i) && i < |src|
    ensures Progress(c, src, sent, b + c[src[i]], i + 1)
  {
    assert src[i..][1..] == src[i + 1..] && src[i..][0] == src[i];
    var rest := EncodeBits(c, src[i + 1..]);
    assert Unpack(sent) + b + (c[src[i]] + rest) == Unpack(sent) + (b + c[src[i]]) + rest;
  }

  lemma Resplit(x: Bits, b: Bits, k: nat, e: Bits)
    requires k <= |b|
    ensures x + b[..k] + b[k..] + e == x + b + e
  {
    assert b == b[..k] + b[k..];
    Associative(x, b[..k], b[k..]);
  }

  /** Whole octets move from the bits held to those sent. */
  lemma SendOctets(c: Code, src: Bytes, sent: Bytes, b: Bits, i: nat, octets: Bytes)
    requires |c| == 257 && Progress(c, src, sent, b, i) && 8 * |octets| <= |b|
    requires Unpack(octets) == b[..8 * |octets|]
    ensures Progress(c, src, sent + octets, b[8 * |octets|..], i)
  {
    hide Unpack, EncodeBits;
    var k := 8 * |octets|;
    UnpackAppend(sent, octets);
    Resplit(Unpack(sent), b, k, EncodeBits(c, src[i..]));
  }

  lemma OneOctet(b: Bits)
    requires |b| == 8
    ensures Unpack([ToOctet(b)]) == b
  {
    ToFromBits(b);
    assert [ToOctet(b)][1..] == [];
  }

  /** The four octets at the top of the word, in network order. */
  function TopWord(w: Bits): Bytes
    requires |w| == 64
  {
    [ToOctet(w[..8]), ToOctet(w[8..16]), ToOctet(w[16..24]), ToOctet(w[24..32])]
  }

  lemma FourOctets(w: Bits)
    requires |w| == 64
    ensures Unpack(TopWord(w)) == w[..32]
  {
    hide Unpack, ToOctet;
    var s := TopWord(w);
    OneOctet(w[..8]);
    OneOctet(w[8..16]);
    OneOctet(w[16..24]);
    OneOctet(w[24..32]);
    UnpackAppend([s[0]], [s[1]]);
    UnpackAppend([s[2]], [s[3]]);
    UnpackAppend([s[0]] + [s[1]], [s[2]] + [s[3]]);
    assert s == ([s[0]] + [s[1]]) + ([s[2]] + [s[3]]);
  }

  /** The loop that sends the bits held, one octet at a time, until fewer than eight are left. */
  method Drain(c: Code, bufs: Bufs, w0: Bits, n0: nat, ghost src: Bytes, ghost i: nat,
               ghost base: Bytes, ghost sent0: Bytes)
    returns (rv: Status, w: Bits, n: nat, ghost sent: Bytes)
    requires |c| == 257 && bufs.Valid() && bufs.Roomy() && n0 <= 64 && |w0| == 64 && Holds(w0, w0[..n0])
    requires Progress(c, src, sent0, w0[..n0], i) && Joined(bufs.Contents(), base, sent0)
    modifies bufs.Repr
    ensures bufs.Valid() && bufs.Roomy() && fresh(bufs.Repr - old(bufs.Repr))
    ensures n <= 64 && |w| == 64 && Holds(w, w[..n]) && Progress(c, src, sent, w[..n], i)
    ensures Joined(bufs.Contents(), base, sent) && bufs.Room() + |sent| == old(bufs.Room()) + |sent0|
    ensures rv == OK ==> n < 8
    ensures rv != OK ==> rv == BufferError && bufs.Room() == 0 && n >= 8
    ensures bufs.head == old(bufs.head) && SamePlaces(old(bufs.parts), bufs.parts, bufs.offset)
  {
    hide *;
    w, n, sent := w0, n0, sent0;
    SamePlacesRefl(bufs.parts, bufs.offset);
    while n >= 8
      invariant bufs.Valid() && bufs.Roomy() && fresh(bufs.Repr - old(bufs.Repr))
      invariant n <= 64 && |w| == 64 && Holds(w, w[..n]) && Progress(c, src, sent, w[..n], i)
      invariant Joined(bufs.Contents(), base, sent) && bufs.Room() + |sent| == old(bufs.Room()) + |sent0|
      invariant bufs.head == old(bufs.head) && SamePlaces(old(bufs.parts), bufs.parts, bufs.offset)
    {
      bufs.RoomIsNat();
      var octet := ToOctet(w[..8]);
      ghost var before := bufs.parts;
      JoinedMore(bufs.Contents(), base, sent, [octet]);
      bufs.RoomyIsEnough();
      rv := bufs.Addb(octet);
      SamePlacesTrans(old(bufs.parts), before, bufs.parts, bufs.offset);
      if rv != OK {
        return;
      }
      DrainStep(c, src, sent, w, n, i);
      sent := sent + [octet];
      w := ShiftLeft(w, 8);
      n := n - 8;
    }
    rv := OK;
  }

  lemma DrainStep(c: Code, src: Bytes, sent: Bytes, w: Bits, n: nat, i: nat)
    requires |c| == 257 && 8 <= n <= 64 && |w| == 64 && Holds(w, w[..n]) && Progress(c, src, sent, w[..n], i)
    ensures var w' := ShiftLeft(w, 8);
      |w'| == 64 && Holds(w', w'[..n - 8]) && Progress(c, src, sent + [ToOctet(w[..8])], w'[..n - 8], i)
  {
    hide ToOctet, Progress;
    var b := w[..n];
    assert b[..8] == w[..8];
    OneOctet(b[..8]);
    SendOctets(c, src, sent, b, i, [ToOctet(b[..8])]);
    ShiftDrops(w, b, 8);
    assert ShiftLeft(w, 8)[..n - 8] == b[8..];
  }

  /** `code |= (uint64_t)sym->code << (32 - nbits)`, then `nbits += sym->nbits`. */
  lemma SymbolStep(c: Code, src: Bytes, sent: Bytes, w: Bits, n: nat, i: nat)
    requires ValidCode(c) && n < 32 && i < |src| && |w| == 64 && Holds(w, w[..n]) && Progress(c, src, sent, w[..n], i)
    ensures var w' := Or(w, ShiftLeft(Zeros(32) + SymbolCode(c, src[i]), 32 - n));
      var n' := n + |c[src[i]]|;
      n' < 62 && Holds(w', w'[..n']) && Progress(c, src, sent, w'[..n'], i + 1)
  {
    hide Progress, Or, ShiftLeft, SymbolCode, PrefixFree;
    OrAppends(c, w, w[..n], src[i]);
    TakeSymbol(c, src, sent, w[..n], i);
    var w' := Or(w, ShiftLeft(Zeros(32) + SymbolCode(c, src[i]), 32 - n));
    assert w'[..n + |c[src[i]]|] == w[..n] + c[src[i]];
  }

  /** Four octets are written at once and the word moved up by 32. */
  lemma WordStep(c: Code, src: Bytes, sent: Bytes, w: Bits, n: nat, i: nat)
    requires |c| == 257 && 32 <= n <= 64 && |w| == 64 && Holds(w, w[..n]) && Progress(c, src, sent, w[..n], i)
    ensures var w' := ShiftLeft(w, 32);
      |w'| == 64 && Holds(w', w'[..n - 32]) && Progress(c, src, sent + TopWord(w), w'[..n - 32], i)
  {
    hide TopWord, Progress;
    var b := w[..n];
    assert b[..32] == w[..32];
    FourOctets(w);
    assert |TopWord(w)| == 4 by { TopWordLength(w); }
    SendOctets(c, src, sent, b, i, TopWord(w));
    ShiftDrops(w, b, 32);
    assert ShiftLeft(w, 32)[..n - 32] == b[32..];
  }

  lemma WholeWord(s: Bytes)
    requires |s| == 4
    ensures s[0..4] == s
  {
  }

  lemma TopWordLength(w: Bits)
    requires |w| == 64
    ensures |TopWord(w)| == 4
  {
  }

  lemma Begin(c: Code, src: Bytes)
    requires |c| == 257
    ensures Holds(Zeros(64), Zeros(64)[..0]) && Progress(c, src, [], Zeros(64)[..0], 0)
  {
    assert src[0..] == src && Zeros(64)[..0] == [] && [] + Zeros(64) == Zeros(64);
    assert Unpack([]) == [] && [] + EncodeBits(c, src) == EncodeBits(c, src);
  }

  /** When the buffers are full, what was sent is as much of the code as there was room for. */
  lemma Truncated(c: Code, src: Bytes, sent: Bytes, b: Bits, i: nat, room: nat)
    requires |c| == 257 && Progress(c, src, sent, b, i) && b != [] && |sent| == room
    ensures |Encode(c, src)| > room && sent == Encode(c, src)[..Min(|Encode(c, src)|, room)]
  {
    hide Pack, Encode, Unpack, EncodeBits;
    SentIsPrefix(c, src, sent, b, i);
    assert |Rest(c, src, b, i)| > 0;
  }

  lemma Complete(c: Code, src: Bytes, sent: Bytes, room: nat)
    requires |c| == 257 && sent == Encode(c, src) && |sent| <= room
    ensures sent == Encode(c, src)[..Min(|Encode(c, src)|, room)] && Min(|Encode(c, src)|, room) == |sent|
  {
    hide Encode;
  }

  /** 32 bits or more are held: four octets at once where the chunk has room for them, else one by one. */
  method SendWord(c: Code, bufs: Bufs, w0: Bits, n0: nat, avail0: int, ghost src: Bytes, ghost i: nat,
                  ghost base: Bytes, ghost sent0: Bytes)
    returns (rv: Status, w: Bits, n: nat, avail: int, ghost sent: Bytes)
    requires |c| == 257 && bufs.Valid() && bufs.Roomy() && 32 <= n0 < 64 && |w0| == 64 && Holds(w0, w0[..n0])
    requires Progress(c, src, sent0, w0[..n0], i) && Joined(bufs.Contents(), base, sent0) && avail0 == bufs.CurAvail()
    modifies bufs.Repr
    ensures bufs.Valid() && bufs.Roomy() && fresh(bufs.Repr - old(bufs.Repr))
    ensures n <= 64 && |w| == 64 && Holds(w, w[..n]) && Progress(c, src, sent, w[..n], i)
    ensures Joined(bufs.Contents(), base, sent) && bufs.Room() + |sent| == old(bufs.Room()) + |sent0|
    ensures rv == OK ==> n < 32 && avail == bufs.CurAvail()
    ensures rv != OK ==> rv == BufferError && bufs.Room() == 0 && n >= 8
    ensures bufs.head == old(bufs.head) && SamePlaces(old(bufs.parts), bufs.parts, bufs.offset)
  {
    hide *;
    if avail0 >= 4 {
      WordStep(c, src, sent0, w0, n0, i);
      TopWordLength(w0);
      JoinedMore(bufs.Contents(), base, sent0, TopWord(w0));
      WholeWord(TopWord(w0));
      bufs.CurOwned();
      bufs.Append(TopWord(w0), 0, 4);
      rv, w, n, avail, sent := OK, ShiftLeft(w0, 32), n0 - 32, avail0 - 4, sent0 + TopWord(w0);
    } else {
      rv, w, n, sent := Drain(c, bufs, w0, n0, src, i, base, sent0);
      avail := bufs.CurAvail();
    }
  }

  /** The main loop of `nghttp2_hd_huff_encode`: symbols into the word, the word out at 32 bits or more. */
  method EncodeWords(c: Code, bufs: Bufs, src: Bytes)
    returns (rv: Status, w: Bits, n: nat, ghost sent: Bytes, ghost i: nat)
    requires ValidCode(c) && bufs.Valid() && bufs.Roomy()
    modifies bufs.Repr
    ensures bufs.Valid() && bufs.Roomy() && fresh(bufs.Repr - old(bufs.Repr))
    ensures n <= 64 && |w| == 64 && Holds(w, w[..n]) && Progress(c, src, sent, w[..n], i)
    ensures Joined(bufs.Contents(), old(bufs.Contents()), sent) && bufs.Room() + |sent| == old(bufs.Room())
    ensures rv == OK ==> i == |src|
    ensures rv != OK ==> rv == BufferError && bufs.Room() == 0 && n >= 8
    ensures bufs.head == old(bufs.head) && SamePlaces(old(bufs.parts), bufs.parts, bufs.offset)
  {
    ghost var base := bufs.Contents();
    assert |c| == 257;
    hide *;
    JoinedStart(base);
    Begin(c, src);
    SamePlacesRefl(bufs.parts, bufs.offset);
    var avail := bufs.CurAvail();
    w, n, sent, i := Zeros(64), 0, [], 0;
    var next := 0;
    while next != |src|
      invariant next == i <= |src| && avail == bufs.CurAvail()
      invariant bufs.Valid() && bufs.Roomy() && fresh(bufs.Repr - old(bufs.Repr))
      invariant n < 32 && |w| == 64 && Holds(w, w[..n]) && Progress(c, src, sent, w[..n], i)
      invariant Joined(bufs.Contents(), base, sent) && bufs.Room() + |sent| == old(bufs.Room())
      invariant bufs.head == old(bufs.head) && SamePlaces(old(bufs.parts), bufs.parts, bufs.offset)
      decreases |src| - next
    {
      SymbolStep(c, src, sent, w, n, next);
      var sym := src[next];
      next, i := next + 1, i + 1;
      w := Or(w, ShiftLeft(Zeros(32) + SymbolCode(c, sym), 32 - n));
      n := n + |c[sym]|;
      if n >= 32 {
        ghost var before := bufs.parts;
        rv, w, n, avail, sent := SendWord(c, bufs, w, n, avail, src, i, base, sent);
        SamePlacesTrans(old(bufs.parts), before, bufs.parts, bufs.offset);
        if rv != OK {
          return;
        }
      }
    }
    rv := OK;
  }

  /** The end of `nghttp2_hd_huff_encode`: whole octets first, then the last one filled up with ones. */
  method EncodeRest(c: Code, bufs: Bufs, w0: Bits, n0: nat, src: Bytes, ghost base: Bytes, ghost sent0: Bytes)
    returns (rv: Status, ghost sent: Bytes, ghost b: Bits, ghost i: nat)
    requires |c| == 257 && bufs.Valid() && bufs.Roomy() && n0 <= 64 && |w0| == 64 && Holds(w0, w0[..n0])
    requires Progress(c, src, sent0, w0[..n0], |src|) && Joined(bufs.Contents(), base, sent0)
    modifies bufs.Repr
    ensures bufs.Valid() && bufs.Roomy() && fresh(bufs.Repr - old(bufs.Repr))
    ensures Joined(bufs.Contents(), base, sent) && bufs.Room() + |sent| == old(bufs.Room()) + |sent0|
    ensures rv == OK ==> sent == Encode(c, src)
    ensures rv != OK ==> rv == BufferError && bufs.Room() == 0 && Progress(c, src, sent, b, i) && b != []
    ensures bufs.head == old(bufs.head) && SamePlaces(old(bufs.parts), bufs.parts, bufs.offset)
  {
    hide *;
    var w: Bits, n: nat;
    rv, w, n, sent := Drain(c, bufs, w0, n0, src, |src|, base, sent0);
    b, i := w[..n], |src|;
    if rv != OK {
      return;
    }
    LastOctet(c, src, sent, b);
    if n > 0 {
      bufs.RoomIsNat();
      var octet := ToOctet(w[..n] + Ones(8 - n));
      assert Encode(c, src) == sent + [octet];
      ghost var before := bufs.parts;
      LastSent(bufs.Contents(), base, sent, octet, Encode(c, src));
      bufs.RoomyIsEnough();
      rv := bufs.Addb(octet);
      SamePlacesTrans(old(bufs.parts), before, bufs.parts, bufs.offset);
      if rv != OK {
        return;
      }
      sent := Encode(c, src);
    }
    rv := OK;
  }

  lemma LastSent(whole: Bytes, base: Bytes, sent: Bytes, octet: byte, all: Bytes)
    requires all == sent + [octet] && Joined(whole, base, sent)
    ensures Joined(whole + [octet], base, all) && |all| == |sent| + 1
  {
  }

  /** `nghttp2_hd_huff_encode`: the code of src goes to the end of the buffers, whichever way its octets are sent. */
  method EncodeTo(c: Code, bufs: Bufs, src: Bytes) returns (rv: Status)
    requires ValidCode(c) && bufs.Valid() && bufs.Roomy()
    modifies bufs.Repr
    ensures bufs.Valid() && bufs.Roomy() && fresh(bufs.Repr - old(bufs.Repr))
    ensures rv == if |Encode(c, src)| <= old(bufs.Room()) then OK else BufferError
    ensures 0 <= old(bufs.Room())
    ensures bufs.Contents() == old(bufs.Contents()) + Encode(c, src)[..Min(|Encode(c, src)|, old(bufs.Room()))]
    ensures bufs.Room() == old(bufs.Room()) - Min(|Encode(c, src)|, old(bufs.Room()))
    ensures bufs.head == old(bufs.head) && SamePlaces(old(bufs.parts), bufs.parts, bufs.offset)
  {
    assert |c| == 257;
    hide ValidCode, Encode, Progress, Holds, SamePlaces;
    hide Bufs.Valid, Bufs.Roomy, Bufs.Room, Bufs.Contents;
    bufs.RoomIsNat();
    ghost var room := bufs.Room();
    ghost var base := bufs.Contents();
    var w: Bits, n: nat;
    ghost var sent: Bytes, i: nat;
    rv, w, n, sent, i := EncodeWords(c, bufs, src);
    bufs.RoomIsNat();
    if rv != OK {
      Truncated(c, src, sent, w[..n], i, room);
      return;
    }
    ghost var before := bufs.parts;
    ghost var b: Bits;
    rv, sent, b, i := EncodeRest(c, bufs, w, n, src, base, sent);
    bufs.RoomIsNat();
    SamePlacesTrans(old(bufs.parts), before, bufs.parts, bufs.offset);
    if rv != OK {
      Truncated(c, src, sent, b, i, room);
    } else {
      Complete(c, src, sent, room);
    }
  }

  // ---------------------------------------------------------------- decoding

  /** `nghttp2_huff_decode`: the node to go to with the two flags, and the symbol met on the way. */
  datatype Cell = Cell(fstate: nat, sym: byte)

  function NodeId(fstate: nat): nat {
    fstate % 0x200
  }

  predicate HasSym(fstate: nat) {
    fstate / 0x8000 % 2 == 1
  }

  predicate HasAccepted(fstate: nat) {
    fstate / 0x4000 % 2 == 1
  }

  const FAILURE := 0x100

  /** The decode table, and which node of the code tree each of its rows stands for. */
  datatype Table = Table(cells: seq<seq<Cell>>, ghost nodes: seq<Node>)

  /** The state word says where the walk stands. */
  ghost predicate Stands(t: Table, fstate: nat, n: Node) {
    && NodeId(fstate) < |t.nodes| && t.nodes[NodeId(fstate)] == n
    && (HasAccepted(fstate) <==> Accepting(n))
    && (fstate == FAILURE <==> n == Dead)
  }

  ghost predicate CellFollows(c: Code, t: Table, row: nat, half: nat)
    requires |c| == 257 && row < |t.cells| == |t.nodes| && half < |t.cells[row]|
  {
    var w := Walk(c, t.nodes[row], ToBits(half, 4));
    var cell := t.cells[row][half];
    && Stands(t, cell.fstate, w.node)
    && w.out == if HasSym(cell.fstate) then [cell.sym] else []
  }

  /** Every cell does what walking its four bits does. */
  ghost predicate Follows(c: Code, t: Table) {
    && |c| == 257 && |t.cells| == |t.nodes| == 257 && t.nodes[0] == At([])
    && (forall row | 0 <= row < 257 :: |t.cells[row]| == 16)
    && forall row: nat, half: nat | row < 257 && half < 16 :: CellFollows(c, t, row, half)
  }

  /** The memory a string is collected in; `text` is what has been written so far. */
  class Store {
    const mem: array<byte>
    var last: nat
    ghost var text: Bytes

    ghost predicate Valid()
      reads this, mem
    {
      last == |text| && text <= mem[..]
    }

    constructor (size: nat)
      ensures Valid() && fresh(mem) && mem.Length == size && text == []
    {
      mem := new byte[size](_ => 0);
      last, text := 0, [];
    }

    /** `*buf->last++ = b`. */
    method Put(b: byte)
      requires Valid() && last < mem.Length
      modifies this, mem
      ensures Valid() && text == old(text) + [b]
    {
      mem[last] := b;
      last, text := last + 1, text + [b];
    }

    /** `nghttp2_cpymem(buf->last, in, n)`. */
    method PutAll(s: Bytes, from: nat, n: nat)
      requires Valid() && from + n <= |s| && last + n <= mem.Length
      modifies this, mem
      ensures Valid() && text == old(text) + s[from..from + n]
    {
      forall i | 0 <= i < n {
        mem[last + i] := s[from + i];
      }
      last, text := last + n, text + s[from..from + n];
    }

    /** `*buf->last = '\0'`. */
    method Terminate()
      requires Valid() && last < mem.Length
      modifies mem
      ensures Valid()
    {
      mem[last] := 0;
    }
  }

  /** `nghttp2_hd_huff_decode_context`. */
  class Context {
    var fstate: nat

    /** `nghttp2_hd_huff_decode_context_init`. */
    constructor ()
      ensures fstate == 0x4000
    {
      fstate := 0x4000;
    }

    method Init()
      modifies this
      ensures fstate == 0x4000
    {
      fstate := 0x4000;
    }
  }

  lemma InitialStands(c: Code, t: Table)
    requires Follows(c, t)
    ensures Stands(t, 0x4000, At([]))
  {
  }

  /** One half octet through the table. */
  lemma HalfStep(c: Code, t: Table, fstate: nat, n: Node, half: nat)
    requires Follows(c, t) && Stands(t, fstate, n) && half < 16
    ensures NodeId(fstate) < |t.cells| && |t.cells[NodeId(fstate)]| == 16
    ensures var w := Walk(c, n, ToBits(half, 4)); var cell := t.cells[NodeId(fstate)][half];
      Stands(t, cell.fstate, w.node) && w.out == if HasSym(cell.fstate) then [cell.sym] else []
  {
    assert CellFollows(c, t, NodeId(fstate), half);
  }

  /** w is the walk from n over the first i octets. */
  ghost predicate Reached(c: Code, n: Node, s: Bytes, i: nat, w: Walked)
    requires |c| == 257 && i <= |s|
  {
    w == Walk(c, n, Unpack(s[..i]))
  }

  lemma ReachedStart(c: Code, n: Node, s: Bytes)
    requires |c| == 257
    ensures Reached(c, n, s, 0, Walked(n, []))
  {
    assert s[..0] == [];
  }

  lemma ReachedMore(c: Code, n: Node, s: Bytes, i: nat, w: Walked)
    requires |c| == 257 && i < |s| && Reached(c, n, s, i, w)
    ensures var next := Walk(c, w.node, ToBits(s[i], 8));
      Reached(c, n, s, i + 1, Walked(next.node, w.out + next.out))
  {
    hide Walk, ToBits;
    assert s[..i + 1] == s[..i] + [s[i]];
    UnpackAppend(s[..i], [s[i]]);
    assert Unpack([s[i]]) == ToBits(s[i], 8) by { assert [s[i]][1..] == []; }
    WalkAppend(c, n, Unpack(s[..i]), ToBits(s[i], 8));
  }

  lemma ReachedEnd(c: Code, n: Node, s: Bytes, w: Walked)
    requires |c| == 257 && Reached(c, n, s, |s|, w)
    ensures w == Walk(c, n, Unpack(s))
  {
    hide Walk, Unpack;
    assert s[..|s|] == s;
  }

  /** Follow one half octet, writing the symbol if one is completed. */
  method Half(c: Code, t: Table, fstate: nat, half: nat, buf: Store, ghost n: Node)
    returns (next: nat)
    requires Follows(c, t) && Stands(t, fstate, n) && half < 16 && buf.Valid() && buf.last < buf.mem.Length
    modifies buf, buf.mem
    ensures var w := Walk(c, n, ToBits(half, 4));
      Stands(t, next, w.node) && buf.Valid() && buf.last <= old(buf.last) + 1 && Joined(buf.text, old(buf.text), w.out)
  {
    hide Walk, ToBits, Follows, Stands;
    HalfStep(c, t, fstate, n, half);
    var cell := t.cells[NodeId(fstate)][half];
    JoinedStart(buf.text);
    if HasSym(cell.fstate) {
      buf.Put(cell.sym);
    }
    next := cell.fstate;
  }

  /** Both halves of an octet. */
  method Octet(c: Code, t: Table, fstate: nat, octet: byte, buf: Store, ghost n: Node)
    returns (next: nat)
    requires Follows(c, t) && WordLengths(c) && Stands(t, fstate, n) && buf.Valid() && buf.last + 2 <= buf.mem.Length
    modifies buf, buf.mem
    ensures var w := Walk(c, n, ToBits(octet, 8));
      Stands(t, next, w.node) && buf.Valid() && buf.last <= old(buf.last) + 2 && Joined(buf.text, old(buf.text), w.out)
  {
    assert |c| == 257;
    hide *;
    WalkOctet(c, n, octet);
    ghost var text := buf.text;
    ghost var first := Walk(c, n, ToBits(octet / 16, 4));
    ghost var second := Walk(c, first.node, ToBits(octet % 16, 4));
    next := Half(c, t, fstate, octet / 16, buf, n);
    ghost var half := buf.text;
    next := Half(c, t, next, octet % 16, buf, first.node);
    JoinedTrans(text, half, buf.text, first.out, second.out);
  }

  /** `nghttp2_hd_huff_decode`: the walk over the bits of src, two table steps per octet. */
  method Decode(c: Code, t: Table, ctx: Context, buf: Store, src: Bytes, from: nat, n: nat, final: bool,
                ghost start: Node)
    returns (rv: Status)
    requires Follows(c, t) && WordLengths(c) && Stands(t, ctx.fstate, start)
    requires from + n <= |src| && buf.Valid() && buf.last + 2 * n <= buf.mem.Length
    modifies ctx, buf, buf.mem
    ensures buf.Valid() && buf.last <= old(buf.last) + 2 * n
    ensures var w := Walk(c, start, Unpack(src[from..from + n]));
      && Stands(t, ctx.fstate, w.node)
      && Joined(buf.text, old(buf.text), w.out)
      && rv == if final && !Accepting(w.node) then HeaderComp else OK
  {
    ghost var read := src[from..from + n];
    assert |c| == 257;
    hide *;
    ReachedStart(c, start, read);
    JoinedStart(buf.text);
    ghost var text := buf.text;
    var fstate := ctx.fstate;
    var i: nat := 0;
    ghost var w := Walked(start, []);
    while i != n
      invariant i <= n && buf.Valid() && buf.last <= old(buf.last) + 2 * i
      invariant Reached(c, start, read, i, w) && Stands(t, fstate, w.node)
      invariant Joined(buf.text, text, w.out)
    {
      ReachedMore(c, start, read, i, w);
      ghost var next := Walk(c, w.node, ToBits(src[from + i], 8));
      ghost var before := buf.text;
      fstate := Octet(c, t, fstate, src[from + i], buf, w.node);
      JoinedTrans(text, before, buf.text, w.out, next.out);
      w := Walked(next.node, w.out + next.out);
      i := i + 1;
    }
    ReachedEnd(c, start, read, w);
    StandsFlag(t, fstate, w.node);
    ctx.fstate := fstate;
    return if final && !HasAccepted(fstate) then HeaderComp else OK;
  }

  lemma StandsFlag(t: Table, fstate: nat, n: Node)
    requires Stands(t, fstate, n)
    ensures HasAccepted(fstate) <==> Accepting(n)
  {
  }
}
