/**
 * Header blocks as frames: the chunks a block was written into become one HEADERS or
 * PUSH_PROMISE frame and the CONTINUATION frames after it (sections 4.1, 4.3, 6.2,
 * 6.6 and 6.10 of RFC 7540).
 */
module Frames {
  import opened Common
  import opened BufChain
  import opened Deflaters
  import Hpack

  const FRAME_HDLEN := 9

  /** What the length field of a frame can express. */
  const MAX_PAYLOAD := 0xFF_FFFF

  const HEADERS: byte := 1
  const PUSH_PROMISE: byte := 5
  const CONTINUATION: byte := 9
  const END_HEADERS: byte := 4

  /** `nghttp2_put_uint32be`. */
  function PutUint32(n: uint32): (r: Bytes)
    ensures |r| == 4
  {
    [n / 0x100_0000, n / 0x1_0000 % 0x100, n / 0x100 % 0x100, n % 0x100]
  }

  /** `nghttp2_get_uint32`. */
  function GetUint32(s: Bytes): uint32
    requires |s| >= 4
  {
    var a: int, b: int, c: int := s[0], s[1], s[2];
    a * 0x100_0000 + b * 0x1_0000 + c * 0x100 + s[3]
  }

  lemma PutGetUint32(n: uint32, rest: Bytes)
    ensures GetUint32(PutUint32(n) + rest) == n
  {
    assert n / 0x1_0000 == n / 0x100 / 0x100 && n / 0x100_0000 == n / 0x100 / 0x100 / 0x100;
  }

  /** `nghttp2_frame_hd` without the reserved bit, which is ignored. */
  datatype FrameHd = FrameHd(length: nat, kind: byte, flags: byte, streamId: uint32)

  /** `nghttp2_frame_pack_frame_hd`: the fourth octet of the length is overwritten by the type. */
  function PackHd(hd: FrameHd): (r: Bytes)
    ensures |r| == FRAME_HDLEN
  {
    PutUint32(hd.length * 0x100 % 0x1_0000_0000)[3 := hd.kind] + [hd.flags] + PutUint32(hd.streamId)
  }

  const STREAM_ID_MODULUS := 0x8000_0000

  /** `nghttp2_frame_unpack_frame_hd`. */
  function UnpackHd(s: Bytes): FrameHd
    requires |s| >= FRAME_HDLEN
  {
    FrameHd(GetUint32(s) / 0x100, s[3], s[4], GetUint32(s[5..]) % STREAM_ID_MODULUS)
  }

  lemma LengthField(length: nat)
    ensures length * 0x100 % 0x1_0000_0000 == length % 0x100_0000 * 0x100
  {
  }

  /** The first three octets hold 24 bits of the length, whatever the fourth. */
  lemma ThreeOctets(low: nat, kind: byte)
    requires low < 0x100_0000
    ensures GetUint32(PutUint32(low * 0x100)[3 := kind]) == low * 0x100 + kind
  {
    assert low * 0x100 / 0x100_0000 == low / 0x1_0000;
    assert low * 0x100 / 0x1_0000 == low / 0x100;
    assert low * 0x100 / 0x100 == low;
    PutGetUint32(low, []);
  }

  lemma StreamField(n: uint32)
    ensures n % STREAM_ID_MODULUS == n <==> n < STREAM_ID_MODULUS
  {
  }

  lemma GetFrom(s: Bytes, t: Bytes)
    requires |s| == 4
    ensures GetUint32(s + t) == GetUint32(s)
  {
  }

  /** A header survives packing exactly when its length has 24 bits and its stream 31. */
  lemma HdRoundTrip(hd: FrameHd, rest: Bytes)
    ensures UnpackHd(PackHd(hd) + rest) == hd <==> hd.length < 0x100_0000 && hd.streamId < STREAM_ID_MODULUS
  {
    hide PutUint32, GetUint32;
    var s := PackHd(hd) + rest;
    var low := hd.length % 0x100_0000;
    LengthField(hd.length);
    ThreeOctets(low, hd.kind);
    var first := PutUint32(low * 0x100)[3 := hd.kind];
    assert s == first + ([hd.flags] + PutUint32(hd.streamId) + rest);
    GetFrom(first, [hd.flags] + PutUint32(hd.streamId) + rest);
    PutGetUint32(hd.streamId, []);
    GetFrom(PutUint32(hd.streamId), []);
    assert s[5..] == PutUint32(hd.streamId) + rest;
    GetFrom(PutUint32(hd.streamId), rest);
    StreamField(hd.streamId);
    assert (low * 0x100 + hd.kind) / 0x100 == low;
  }

  /** Four octets, the most significant first. */
  lemma PutIsBigEndian(n: uint32)
    ensures var s: seq<int> := PutUint32(n); s[0] * 0x100_0000 + s[1] * 0x1_0000 + s[2] * 0x100 + s[3] == n
  {
    assert n / 0x1_0000 == n / 0x100 / 0x100 && n / 0x100_0000 == n / 0x100 / 0x100 / 0x100;
  }

  /** Section 4.1 of RFC 7540: 24 bits of length, type, flags, stream, each number with its high octets first. */
  lemma HdLayout(hd: FrameHd)
    ensures var s: seq<int> := PackHd(hd);
      && s[0] * 0x1_0000 + s[1] * 0x100 + s[2] == hd.length % 0x100_0000 && s[3] == hd.kind && s[4] == hd.flags
      && s[5] * 0x100_0000 + s[6] * 0x1_0000 + s[7] * 0x100 + s[8] == hd.streamId
  {
    var low := hd.length % 0x100_0000;
    LengthField(hd.length);
    PutIsBigEndian(low * 0x100);
    PutIsBigEndian(hd.streamId);
    assert low * 0x100 % 0x100 == 0;
  }

  // ---------------------------------------------------------------- frames and the wire

  datatype Frame = Frame(hd: FrameHd, payload: Bytes)

  function Wire(f: Frame): Bytes {
    PackHd(f.hd) + f.payload
  }

  function Wires(fs: seq<Frame>): Bytes {
    if fs == [] then [] else Wire(fs[0]) + Wires(fs[1..])
  }

  function Payloads(fs: seq<Frame>): Bytes {
    if fs == [] then [] else fs[0].payload + Payloads(fs[1..])
  }

  /** A frame a parser can give back. */
  predicate Sendable(f: Frame) {
    f.hd.length == |f.payload| < 0x100_0000 && f.hd.streamId < STREAM_ID_MODULUS
  }

  /** The frames of a string of octets, if it is made up of whole frames. */
  function Parse(wire: Bytes): Option<seq<Frame>>
    decreases |wire|
  {
    if wire == [] then Some([])
    else if |wire| < FRAME_HDLEN then None
    else
      var hd := UnpackHd(wire);
      if |wire| < FRAME_HDLEN + hd.length then None
      else match Parse(wire[FRAME_HDLEN + hd.length..])
        case None => None
        case Some(fs) => Some([Frame(hd, wire[FRAME_HDLEN..FRAME_HDLEN + hd.length])] + fs)
  }

  lemma ParseOne(f: Frame, rest: Bytes, fs: seq<Frame>)
    requires Sendable(f) && Parse(rest) == Some(fs)
    ensures Parse(PackHd(f.hd) + (f.payload + rest)) == Some([f] + fs)
  {
    hide PackHd, UnpackHd;
    HdRoundTrip(f.hd, f.payload + rest);
    var wire := PackHd(f.hd) + (f.payload + rest);
    assert wire[FRAME_HDLEN..FRAME_HDLEN + f.hd.length] == f.payload;
    assert wire[FRAME_HDLEN + f.hd.length..] == rest;
  }

  lemma WiresCons(fs: seq<Frame>)
    requires fs != []
    ensures Wires(fs) == PackHd(fs[0].hd) + (fs[0].payload + Wires(fs[1..])) && fs == [fs[0]] + fs[1..]
  {
    hide PackHd;
    Associative(PackHd(fs[0].hd), fs[0].payload, Wires(fs[1..]));
  }

  predicate AllSendable(fs: seq<Frame>) {
    forall i | 0 <= i < |fs| :: Sendable(fs[i])
  }

  lemma {:induction false} ParseWires(fs: seq<Frame>)
    requires AllSendable(fs)
    ensures Parse(Wires(fs)) == Some(fs)
  {
    if fs != [] {
      assert Sendable(fs[0]) && AllSendable(fs[1..]);
      hide *;
      ParseWires(fs[1..]);
      WiresCons(fs);
      ParseOne(fs[0], Wires(fs[1..]), fs[1..]);
    }
  }

  // ---------------------------------------------------------------- a header block as frames

  predicate EndsHeaders(flags: byte) {
    flags / END_HEADERS % 2 == 1
  }

  /** `flags & ~NGHTTP2_FLAG_END_HEADERS`. */
  function ClearEndHeaders(flags: byte): (r: byte)
    ensures !EndsHeaders(r)
  {
    if EndsHeaders(flags) then flags - END_HEADERS else flags
  }

  /** The flags of frame i of n. */
  function FlagsAt(flags: byte, i: nat, n: nat): byte
    requires i < n
  {
    if i == 0 then if n > 1 then ClearEndHeaders(flags) else flags
    else if i == n - 1 then END_HEADERS else 0
  }

  function FrameAt(texts: seq<Bytes>, hd: FrameHd, i: nat): Frame
    requires i < |texts|
  {
    var kind := if i == 0 then hd.kind else CONTINUATION;
    Frame(FrameHd(|texts[i]|, kind, FlagsAt(hd.flags, i, |texts|), hd.streamId), texts[i])
  }

  /** The frames `frame_pack_headers_shared` makes of these chunks. */
  function FramesOf(texts: seq<Bytes>, hd: FrameHd): (r: seq<Frame>)
    ensures |r| == |texts| && forall i | 0 <= i < |r| :: r[i] == FrameAt(texts, hd, i)
  {
    seq(|texts|, i requires 0 <= i < |texts| => FrameAt(texts, hd, i))
  }

  /**
   * One frame of the kind given, then CONTINUATION frames of the same stream, END_HEADERS on the last and only
   * there.
   */
  predicate IsHeaderSequence(fs: seq<Frame>, kind: byte) {
    && fs != [] && fs[0].hd.kind == kind
    && (forall i | 0 < i < |fs| :: fs[i].hd.kind == CONTINUATION && fs[i].hd.streamId == fs[0].hd.streamId)
    && forall i | 0 <= i < |fs| :: EndsHeaders(fs[i].hd.flags) <==> i == |fs| - 1
  }

  /** The block is framed as it must be exactly when the caller asked for END_HEADERS or several chunks were needed. */
  lemma FramesAreASequence(texts: seq<Bytes>, hd: FrameHd)
    requires texts != []
    ensures IsHeaderSequence(FramesOf(texts, hd), hd.kind) <==> EndsHeaders(hd.flags) || |texts| > 1
  {
    var fs := FramesOf(texts, hd);
    var last := |fs| - 1;
    assert fs[last] == FrameAt(texts, hd, last);
    assert |texts| == 1 ==> fs[0].hd.flags == hd.flags;
  }

  /** Flags that agree in every bit apart from END_HEADERS. */
  predicate AgreeApartFromEnd(a: byte, b: byte) {
    a / 8 == b / 8 && a % 4 == b % 4
  }

  /**
   * What the frame headers say: the stream asked for in every one, the kind and the flags asked for in the first,
   * CONTINUATION without further flags in the others, the length of its own payload in each, and END_HEADERS
   * exactly on the last, on a single frame only if asked for.
   */
  predicate HeadedBy(fs: seq<Frame>, hd: FrameHd) {
    && fs != [] && fs[0].hd.kind == hd.kind && AgreeApartFromEnd(fs[0].hd.flags, hd.flags)
    && (forall i | 0 <= i < |fs| :: fs[i].hd.streamId == hd.streamId && fs[i].hd.length == |fs[i].payload|)
    && (forall i | 0 < i < |fs| :: fs[i].hd.kind == CONTINUATION && fs[i].hd.flags in {0, END_HEADERS})
    && forall i | 0 <= i < |fs| ::
         EndsHeaders(fs[i].hd.flags) <==> i == |fs| - 1 && (|fs| > 1 || EndsHeaders(hd.flags))
  }

  lemma OneBitCleared(flags: byte)
    ensures AgreeApartFromEnd(ClearEndHeaders(flags), flags)
  {
    if EndsHeaders(flags) {
      assert flags / 8 == flags / 4 / 2 && (flags - 4) / 8 == (flags - 4) / 4 / 2;
      assert (flags - 4) / 4 == flags / 4 - 1;
    }
  }

  /** Whatever is packed goes out under the headers asked for. */
  lemma FramesAreHeaded(texts: seq<Bytes>, hd: FrameHd)
    requires texts != []
    ensures HeadedBy(FramesOf(texts, hd), hd)
  {
    OneBitCleared(hd.flags);
    hide ClearEndHeaders;
    var fs := FramesOf(texts, hd);
    forall i | 0 <= i < |fs|
      ensures fs[i] == FrameAt(texts, hd, i)
    {
    }
  }

  /** A parser finds whole frames in these octets, headed as asked for. */
  predicate Announces(wire: Bytes, hd: FrameHd) {
    match Parse(wire) case None => false case Some(fs) => HeadedBy(fs, hd)
  }

  lemma {:induction false} PayloadsFrom(texts: seq<Bytes>, hd: FrameHd, i: nat)
    requires i <= |texts|
    ensures Payloads(FramesOf(texts, hd)[i..]) == Flatten(texts[i..])
    decreases |texts| - i
  {
    var fs := FramesOf(texts, hd);
    if i < |texts| {
      assert fs[i..][1..] == fs[i + 1..] && texts[i..][1..] == texts[i + 1..];
      PayloadsFrom(texts, hd, i + 1);
    }
  }

  /**
   * What is packed parses back to one frame and its continuations, headed as asked for, whose payloads put
   * together are what was in the chunks.
   */
  lemma PackedParsesBack(texts: seq<Bytes>, hd: FrameHd)
    requires texts != [] && hd.streamId < STREAM_ID_MODULUS && forall t | t in texts :: |t| < 0x100_0000
    ensures var fs := FramesOf(texts, hd);
      && Parse(Wires(fs)) == Some(fs) && Payloads(fs) == Flatten(texts) && Announces(Wires(fs), hd)
      && (IsHeaderSequence(fs, hd.kind) <==> EndsHeaders(hd.flags) || |texts| > 1)
  {
    var fs := FramesOf(texts, hd);
    forall i | 0 <= i < |fs| ensures Sendable(fs[i]) {
      assert fs[i] == FrameAt(texts, hd, i) && texts[i] in texts;
    }
    ParseWires(fs);
    PayloadsFrom(texts, hd, 0);
    assert fs[0..] == fs && texts[0..] == texts;
    FramesAreASequence(texts, hd);
    FramesAreHeaded(texts, hd);
  }

  // ---------------------------------------------------------------- packing in place

  function Texts(parts: seq<Part>): (r: seq<Bytes>)
    ensures |r| == |parts| && forall i | 0 <= i < |r| :: r[i] == parts[i].text
  {
    seq(|parts|, i requires 0 <= i < |parts| => parts[i].text)
  }

  /** The chunks up to `at` with the first j of them turned into frames. */
  function Framed(parts: seq<Part>, at: nat, hd: FrameHd, j: nat): (r: seq<Part>)
    requires j <= at + 1 <= |parts| && forall k | 0 <= k <= at :: parts[k].pos >= FRAME_HDLEN
    ensures |r| == |parts|
    ensures forall k | 0 <= k < j :: r[k] == FramedPart(parts, at, hd, k)
    ensures forall k | j <= k < |r| :: r[k] == parts[k]
  {
    seq(|parts|, k requires 0 <= k < |parts| => if k < j then FramedPart(parts, at, hd, k) else parts[k])
  }

  function FramedPart(parts: seq<Part>, at: nat, hd: FrameHd, k: nat): Part
    requires k <= at < |parts| && parts[k].pos >= FRAME_HDLEN
  {
    Part(parts[k].pos - FRAME_HDLEN, Wire(FrameAt(Texts(parts[..at + 1]), hd, k)), parts[k].free)
  }

  lemma FramedMore(parts: seq<Part>, at: nat, hd: FrameHd, j: nat)
    requires j <= at < |parts| && forall k | 0 <= k <= at :: parts[k].pos >= FRAME_HDLEN
    ensures Framed(parts, at, hd, j)[j := Part(parts[j].pos - FRAME_HDLEN,
              PackHd(FrameAt(Texts(parts[..at + 1]), hd, j).hd) + parts[j].text, parts[j].free)]
         == Framed(parts, at, hd, j + 1)
  {
    hide FrameAt, PackHd, Framed;
    assert FrameAt(Texts(parts[..at + 1]), hd, j).payload == parts[j].text by { TextOfPart(parts, at, hd, j); }
  }

  lemma TextOfPart(parts: seq<Part>, at: nat, hd: FrameHd, j: nat)
    requires j <= at < |parts|
    ensures FrameAt(Texts(parts[..at + 1]), hd, j).payload == parts[j].text
  {
  }

  lemma FramedStart(parts: seq<Part>, at: nat, hd: FrameHd)
    requires at < |parts| && forall k | 0 <= k <= at :: parts[k].pos >= FRAME_HDLEN
    ensures Framed(parts, at, hd, 0) == parts
  {
  }

  /** The wire of all frames is what the chunks then hold. */
  lemma {:induction false} FramedText(parts: seq<Part>, at: nat, hd: FrameHd, i: nat)
    requires i <= at + 1 <= |parts| && EmptyAfter(parts, at)
    requires forall k | 0 <= k <= at :: parts[k].pos >= FRAME_HDLEN
    ensures Text(Framed(parts, at, hd, at + 1)[i..]) == Wires(FramesOf(Texts(parts[..at + 1]), hd)[i..])
    decreases at + 1 - i
  {
    hide FrameAt, Wire;
    var fs := FramesOf(Texts(parts[..at + 1]), hd);
    var r := Framed(parts, at, hd, at + 1);
    if i <= at {
      assert r[i..][1..] == r[i + 1..] && fs[i..][1..] == fs[i + 1..];
      FramedText(parts, at, hd, i + 1);
    } else {
      assert fs[i..] == [];
      EmptyText(r[i..]);
    }
  }

  /** The header of a chunk's frame goes in front of its octets. */
  method PackOne(bufs: Bufs, c: Chunk, kind: byte, flags: byte, hd: FrameHd, ghost j: nat, ghost parts0: seq<Part>)
    requires bufs.Valid() && j <= bufs.at < |parts0| && c == bufs.chain[j]
    requires forall k | 0 <= k <= bufs.at :: parts0[k].pos >= FRAME_HDLEN
    requires bufs.parts == Framed(parts0, bufs.at, hd, j)
    requires kind == (if j == 0 then hd.kind else CONTINUATION) && flags == FlagsAt(hd.flags, j, bufs.at + 1)
    modifies bufs`parts, c`pos, c.mem
    ensures bufs.Valid() && bufs.parts == Framed(parts0, bufs.at, hd, j + 1)
    ensures bufs.head == old(bufs.head) && bufs.chain == old(bufs.chain) && bufs.at == old(bufs.at)
  {
    bufs.ChunkFacts(j);
    hide Bufs.Valid, PackHd, Framed;
    FramedMore(parts0, bufs.at, hd, j);
    var head := FrameHd(c.last - c.pos, kind, flags, hd.streamId);
    assert head == FrameAt(Texts(parts0[..bufs.at + 1]), hd, j).hd;
    bufs.PutFront(c, j, PackHd(head));
  }

  /** `frame_pack_headers_shared`. */
  method PackHeadersShared(bufs: Bufs, hd: FrameHd)
    requires bufs.Valid() && forall k | 0 <= k <= bufs.at :: bufs.parts[k].pos >= FRAME_HDLEN
    modifies bufs.Repr
    ensures bufs.Valid() && bufs.Repr == old(bufs.Repr) && bufs.at == old(bufs.at) && bufs.chain == old(bufs.chain)
    ensures bufs.parts == Framed(old(bufs.parts), bufs.at, hd, bufs.at + 1)
    ensures bufs.Contents() == Wires(FramesOf(Texts(old(bufs.parts)[..bufs.at + 1]), hd))
    ensures HeadedBy(FramesOf(Texts(old(bufs.parts)[..bufs.at + 1]), hd), hd)
  {
    ghost var parts0, at := bufs.parts, bufs.at;
    FramesAreHeaded(Texts(parts0[..at + 1]), hd);
    hide HeadedBy;
    FramedStart(parts0, at, hd);
    FramedText(parts0, at, hd, 0);
    PackAll(bufs, hd);
    WholeSeq(bufs.parts, FramesOf(Texts(parts0[..at + 1]), hd));
  }

  lemma WholeSeq(parts: seq<Part>, fs: seq<Frame>)
    ensures parts[0..] == parts && fs[0..] == fs
  {
  }

  /** Where the packing stands: the first j chunks are framed and nothing else is changed. */
  ghost predicate Packing(bufs: Bufs, parts0: seq<Part>, chain: seq<Chunk>, at: nat, hd: FrameHd, j: nat)
    reads bufs, bufs.Repr
  {
    && bufs.Valid() && bufs.at == at && bufs.chain == chain && j <= at + 1 <= |parts0|
    && (forall k | 0 <= k <= at :: parts0[k].pos >= FRAME_HDLEN)
    && bufs.parts == Framed(parts0, at, hd, j)
  }

  lemma PackingAt(bufs: Bufs, parts0: seq<Part>, chain: seq<Chunk>, at: nat, hd: FrameHd, j: nat)
    requires Packing(bufs, parts0, chain, at, hd, j) && j <= at
    ensures j < |chain| && chain[j] in bufs.Repr && chain[j].mem in bufs.Repr && bufs in bufs.Repr
    ensures chain[j] == bufs.cur <==> j == at
    ensures j < at ==> j + 1 < |chain| && chain[j].next == chain[j + 1]
    ensures |chain| > 0 && bufs.head == chain[0]
  {
    bufs.ChunkFacts(j);
  }

  method PackNext(bufs: Bufs, c: Chunk, kind: byte, flags: byte, hd: FrameHd,
                  ghost j: nat, ghost parts0: seq<Part>, ghost chain: seq<Chunk>, ghost at: nat)
    requires Packing(bufs, parts0, chain, at, hd, j) && j <= at && j < |chain| && c == chain[j]
    requires kind == (if j == 0 then hd.kind else CONTINUATION) && flags == FlagsAt(hd.flags, j, at + 1)
    modifies bufs`parts, c`pos, c.mem
    ensures Packing(bufs, parts0, chain, at, hd, j + 1)
  {
    hide Bufs.Valid, Framed;
    PackOne(bufs, c, kind, flags, hd, j, parts0);
  }

  /** The loop has come to chunk j of the chain. */
  ghost predicate AtChunk(bufs: Bufs, c: Chunk?, parts0: seq<Part>, chain: seq<Chunk>, at: nat, hd: FrameHd, j: nat)
    reads bufs, bufs.Repr
  {
    0 < j <= at && Packing(bufs, parts0, chain, at, hd, j) && at < |chain| && c == chain[j]
  }

  lemma AtFirst(bufs: Bufs, parts0: seq<Part>, chain: seq<Chunk>, at: nat, hd: FrameHd)
    requires at > 0 && Packing(bufs, parts0, chain, at, hd, 1)
    ensures AtChunk(bufs, bufs.head.next, parts0, chain, at, hd, 1)
  {
    bufs.ChunkFacts(0);
  }

  lemma AtLast(bufs: Bufs, parts0: seq<Part>, chain: seq<Chunk>, at: nat, hd: FrameHd, j: nat)
    requires AtChunk(bufs, bufs.cur, parts0, chain, at, hd, j)
    ensures j == at
  {
    bufs.ChunkFacts(j);
  }

  lemma AtFacts(bufs: Bufs, c: Chunk?, parts0: seq<Part>, chain: seq<Chunk>, at: nat, hd: FrameHd, j: nat)
    requires AtChunk(bufs, c, parts0, chain, at, hd, j)
    ensures c != null && c in bufs.Repr && c.mem in bufs.Repr && bufs in bufs.Repr && (c != bufs.cur ==> j < at)
  {
    bufs.ChunkFacts(j);
  }

  /** The frame of chunk j, and on to the next chunk. */
  method PackStep(bufs: Bufs, c: Chunk, flags: byte, hd: FrameHd,
                  ghost j: nat, ghost parts0: seq<Part>, ghost chain: seq<Chunk>, ghost at: nat) returns (next: Chunk?)
    requires AtChunk(bufs, c, parts0, chain, at, hd, j) && flags == (if j == at then END_HEADERS else 0)
    modifies bufs`parts, c`pos, c.mem
    ensures j == at ==> Packing(bufs, parts0, chain, at, hd, at + 1)
    ensures j < at ==> AtChunk(bufs, next, parts0, chain, at, hd, j + 1)
  {
    bufs.ChunkFacts(j);
    FlagsOf(hd.flags, j, at + 1);
    hide Packing;
    PackNext(bufs, c, CONTINUATION, flags, hd, j, parts0, chain, at);
    next := c.next;
  }

  /** The CONTINUATION frames: a loop over the chunks before the last, then the last. */
  method PackContinuations(bufs: Bufs, hd: FrameHd, ghost parts0: seq<Part>, ghost chain: seq<Chunk>, ghost at: nat)
    requires at > 0 && Packing(bufs, parts0, chain, at, hd, 1)
    modifies bufs.Repr
    ensures Packing(bufs, parts0, chain, at, hd, at + 1) && bufs.Repr == old(bufs.Repr)
  {
    AtFirst(bufs, parts0, chain, at, hd);
    hide *;
    ghost var j := 1;
    var ci := bufs.head.next;
    while ci != bufs.cur
      invariant AtChunk(bufs, ci, parts0, chain, at, hd, j) && bufs.Repr == old(bufs.Repr)
      decreases at - j
    {
      AtFacts(bufs, ci, parts0, chain, at, hd, j);
      ci := PackStep(bufs, ci, 0, hd, j, parts0, chain, at);
      j := j + 1;
    }
    AtLast(bufs, parts0, chain, at, hd, j);
    AtFacts(bufs, ci, parts0, chain, at, hd, j);
    ci := PackStep(bufs, ci, END_HEADERS, hd, j, parts0, chain, at);
  }

  lemma FlagsOf(flags: byte, i: nat, n: nat)
    requires 0 < i < n
    ensures FlagsAt(flags, i, n) == if i == n - 1 then END_HEADERS else 0
  {
  }

  method PackAll(bufs: Bufs, hd: FrameHd)
    requires bufs.Valid() && forall k | 0 <= k <= bufs.at :: bufs.parts[k].pos >= FRAME_HDLEN
    modifies bufs.Repr
    ensures Packing(bufs, old(bufs.parts), old(bufs.chain), old(bufs.at), hd, old(bufs.at) + 1)
    ensures bufs.Repr == old(bufs.Repr)
  {
    ghost var parts0, chain, at := bufs.parts, bufs.chain, bufs.at;
    FramedStart(parts0, at, hd);
    assert Packing(bufs, parts0, chain, at, hd, 0);
    PackingAt(bufs, parts0, chain, at, hd, 0);
    hide Packing, Bufs.Valid, Framed;
    var several := bufs.head != bufs.cur;
    PackNext(bufs, bufs.head, hd.kind, if several then ClearEndHeaders(hd.flags) else hd.flags, hd,
             0, parts0, chain, at);
    if several {
      PackContinuations(bufs, hd, parts0, chain, at);
    }
  }

  // ---------------------------------------------------------------- HEADERS and PUSH_PROMISE

  /** The buffers as `nghttp2_bufs_reset` leaves them, with room for a frame header in front of every chunk. */
  ghost predicate Fresh(bufs: Bufs)
    reads bufs, bufs.Repr
  {
    && bufs.Valid() && bufs.at == 0 && FRAME_HDLEN <= bufs.offset < bufs.chunkLength
    && forall k | 0 <= k < |bufs.parts| :: bufs.parts[k] == Part(bufs.offset, [], bufs.chunkLength - bufs.offset)
  }

  lemma FreshFacts(bufs: Bufs)
    requires Fresh(bufs)
    ensures bufs.Valid() && bufs.Roomy() && bufs.Contents() == [] && bufs.at == 0
    ensures bufs.parts[0].text == [] && bufs.parts[0].free == bufs.chunkLength - bufs.offset
  {
    EmptyText(bufs.parts);
  }

  /** The deflated block is in the buffers, behind a gap of n octets in the first chunk. */
  ghost predicate Filled(bufs: Bufs, n: nat, code: Bytes)
    reads bufs, bufs.Repr
  {
    && bufs.Valid() && bufs.Contents() == code && FRAME_HDLEN <= bufs.offset
    && bufs.parts[0].pos == bufs.offset + n && bufs.head.pos == bufs.offset + n
    && forall k | 0 < k < |bufs.parts| :: bufs.parts[k].pos == bufs.offset
  }

  lemma {:induction false} TextsFlatten(parts: seq<Part>)
    ensures Flatten(Texts(parts)) == Text(parts)
  {
    if parts != [] {
      assert Texts(parts)[1..] == Texts(parts[1..]);
      TextsFlatten(parts[1..]);
    }
  }

  /** The chunks in use hold all there is. */
  lemma UsedTexts(parts: seq<Part>, at: nat)
    requires at < |parts| && EmptyAfter(parts, at)
    ensures Flatten(Texts(parts[..at + 1])) == Text(parts)
  {
    hide Text, Flatten, Texts;
    TextsFlatten(parts[..at + 1]);
    EmptyText(parts[at + 1..]);
    TextAppend(parts[..at + 1], parts[at + 1..]);
    assert parts == parts[..at + 1] + parts[at + 1..];
  }

  lemma FrontText(parts: seq<Part>, q: Part, s: Bytes)
    requires parts != [] && q.text == s + parts[0].text
    ensures Text(parts[0 := q]) == s + Text(parts)
  {
    SplitText(parts, 0, q);
    SplitText(parts, 0, parts[0]);
    assert parts[0 := parts[0]] == parts && parts[..0] == [];
    Associative(s, parts[0].text, Text(parts[1..]));
  }

  /** Pieces of a payload, none longer than `most`, the fixed fields in front of the first. */
  predicate Divided(texts: seq<Bytes>, front: Bytes, code: Bytes, most: nat) {
    && texts != [] && front <= texts[0] && Flatten(texts) == front + code
    && forall t | t in texts :: |t| <= most
  }

  /** The payload of all frames is in the buffers, the fixed fields in the first chunk. */
  ghost predicate Loaded(bufs: Bufs, front: Bytes, code: Bytes)
    reads bufs, bufs.Repr
  {
    && bufs.Valid() && bufs.Contents() == front + code && front <= bufs.parts[0].text
    && forall k | 0 <= k < |bufs.parts| :: bufs.parts[k].pos >= FRAME_HDLEN
  }

  /** The fixed fields go into the gap before the block. */
  method PutFixed(bufs: Bufs, front: Bytes, ghost code: Bytes)
    requires Filled(bufs, |front|, code)
    modifies bufs.Repr
    ensures Loaded(bufs, front, code) && bufs.Repr == old(bufs.Repr)
  {
    bufs.ChunkFacts(0);
    FrontText(bufs.parts, Part(bufs.head.pos - |front|, front + bufs.parts[0].text, bufs.parts[0].free), front);
    hide Bufs.Valid, Text;
    bufs.PutFront(bufs.head, 0, front);
  }

  /** Every chunk a frame. */
  method PackLoaded(bufs: Bufs, hd: FrameHd, ghost front: Bytes, ghost code: Bytes) returns (ghost texts: seq<Bytes>)
    requires Loaded(bufs, front, code)
    modifies bufs.Repr
    ensures bufs.Valid() && bufs.Repr == old(bufs.Repr)
    ensures Divided(texts, front, code, bufs.chunkLength) && bufs.Contents() == Wires(FramesOf(texts, hd))
    ensures HeadedBy(FramesOf(texts, hd), hd)
  {
    texts := UsedChunks(bufs, front, code);
    hide Bufs.Valid, Text, Wires, FramesOf, Framed, Divided, HeadedBy;
    PackHeadersShared(bufs, hd);
  }

  lemma UsedChunks(bufs: Bufs, front: Bytes, code: Bytes) returns (texts: seq<Bytes>)
    requires Loaded(bufs, front, code)
    ensures bufs.at < |bufs.parts| && texts == Texts(bufs.parts[..bufs.at + 1])
    ensures Divided(texts, front, code, bufs.chunkLength)
    ensures forall k | 0 <= k <= bufs.at :: bufs.parts[k].pos >= FRAME_HDLEN
  {
    LoadedFacts(bufs, front, code);
    UsedTexts(bufs.parts, bufs.at);
    ShortTexts(bufs);
    hide Bufs.Valid, Loaded, Text, Flatten, EmptyAfter;
    texts := Texts(bufs.parts[..bufs.at + 1]);
  }

  lemma LoadedFacts(bufs: Bufs, front: Bytes, code: Bytes)
    requires Loaded(bufs, front, code)
    ensures bufs.Valid() && bufs.at < |bufs.parts| && EmptyAfter(bufs.parts, bufs.at)
    ensures Text(bufs.parts) == front + code
    ensures front <= bufs.parts[0].text && forall k | 0 <= k <= bufs.at :: bufs.parts[k].pos >= FRAME_HDLEN
  {
  }

  lemma ShortTexts(bufs: Bufs)
    requires bufs.Valid()
    ensures forall t | t in Texts(bufs.parts[..bufs.at + 1]) :: |t| <= bufs.chunkLength
  {
    forall i | 0 <= i <= bufs.at ensures |bufs.parts[i].text| <= bufs.chunkLength {
      bufs.ChunkFacts(i);
    }
  }

  /** What the deflater may be given together with these buffers. */
  ghost predicate Able(deflater: Deflater, bufs: Bufs, nvs: seq<Hpack.Field>)
    reads deflater, deflater.ctx, deflater.ctx.Repr, bufs`Repr
  {
    deflater.Valid() && deflater.Separate(bufs) && Hpack.AllAddressable(nvs) && deflater.leastMax <= UINT32_MAX
  }

  lemma AbleFacts(deflater: Deflater, bufs: Bufs, nvs: seq<Hpack.Field>)
    requires Able(deflater, bufs, nvs)
    ensures deflater.Valid() && deflater.Separate(bufs) && Hpack.AllAddressable(nvs) && deflater.leastMax <= UINT32_MAX
    ensures bufs in bufs.Repr && deflater !in bufs.Repr && deflater.ctx !in bufs.Repr && deflater.ctx.Repr !! bufs.Repr
    ensures Hpack.ValidTables(deflater.ctx.tables)
  {
    deflater.TablesValid();
  }

  /** The gap for the fixed fields is left in the empty first chunk. */
  method LeaveGap(bufs: Bufs, n: nat)
    requires Fresh(bufs) && n <= bufs.chunkLength - bufs.offset
    modifies bufs.Repr
    ensures bufs.Valid() && bufs.Roomy() && bufs.Repr == old(bufs.Repr) && bufs.head == old(bufs.head)
    ensures bufs.Contents() == [] && bufs.Room() == old(bufs.Room()) - n && Gapped(bufs, bufs.parts, n)
  {
    FreshFacts(bufs);
    bufs.CurOwned();
    hide Bufs.Valid, Bufs.Roomy, Bufs.Contents, Bufs.Room;
    bufs.SkipFront(n);
  }

  /** After a gap of n octets the buffers are as good as empty. */
  predicate Gapped(bufs: Bufs, parts: seq<Part>, n: nat)
  {
    && FRAME_HDLEN <= bufs.offset && parts != [] && parts[0].pos == bufs.offset + n
    && forall k | 0 < k < |parts| :: parts[k].pos == bufs.offset
  }

  lemma GapKept(bufs: Bufs, n: nat, head: Chunk, parts: seq<Part>)
    requires Grown(bufs, head, parts) && Gapped(bufs, parts, n)
    ensures Filled(bufs, n, bufs.Contents())
  {
    bufs.ChunkFacts(0);
  }

  lemma FilledFacts(bufs: Bufs, n: nat, code: Bytes)
    requires Filled(bufs, n, code)
    ensures bufs.Valid() && bufs.head.pos >= n && bufs.head in bufs.Repr && bufs in bufs.Repr
  {
    bufs.ChunkFacts(0);
  }

  /** What the deflater made of the block, in terms of the buffers behind the gap. */
  lemma BlockFills(deflater: Deflater, bufs: Bufs, nvs: seq<Hpack.Field>, d0: Hpack.Deflating, rv: Status,
                   room: int, head: Chunk, parts: seq<Part>, n: nat)
    requires deflater.Deflated(bufs, nvs, d0, rv, [], room, head, parts) && Gapped(bufs, parts, n)
    requires Hpack.AllAddressable(nvs) && deflater.leastMax <= UINT32_MAX
    ensures Able(deflater, bufs, nvs) && Hpack.ValidTables(deflater.ctx.tables)
    ensures var (d, code) := Hpack.DeflateBlock(deflater.ctx.tables, d0, nvs);
      && rv == (if |code| <= room then OK else BufferError)
      && (rv == OK ==> Filled(bufs, n, code) && deflater.State() == d)
      && Filled(bufs, n, bufs.Contents())
  {
    hide Hpack.DeflateBlock, Hpack.ValidTables, Grown, Gapped, Deflater.Valid, Filled;
    GapKept(bufs, n, head, parts);
    var code := Hpack.DeflateBlock(deflater.ctx.tables, d0, nvs).1;
    assert [] + code[..|code|] == code;
  }

  /** A deflater that had failed before does nothing. */
  lemma NothingFills(deflater: Deflater, bufs: Bufs, nvs: seq<Hpack.Field>, head: Chunk, parts: seq<Part>, n: nat)
    requires deflater.Valid() && deflater.Separate(bufs) && Grown(bufs, head, parts) && Gapped(bufs, parts, n)
    requires Hpack.AllAddressable(nvs) && deflater.leastMax <= UINT32_MAX
    ensures Able(deflater, bufs, nvs) && Filled(bufs, n, bufs.Contents()) && Hpack.ValidTables(deflater.ctx.tables)
  {
    deflater.TablesValid();
    hide Hpack.ValidTables, Grown, Gapped, Deflater.Valid, Filled;
    GapKept(bufs, n, head, parts);
  }

  /** What has become of the block behind the gap. */
  ghost predicate Behind(bufs: Bufs, n: nat, deflater: Deflater, nvs: seq<Hpack.Field>,
                         d0: Hpack.Deflating, bad: bool, room: int, rv: Status)
    reads bufs, bufs.Repr, deflater, deflater.ctx, deflater.ctx.Repr
  {
    && Able(deflater, bufs, nvs) && Hpack.ValidTables(deflater.ctx.tables) && Filled(bufs, n, bufs.Contents())
    && var (d, code) := Hpack.DeflateBlock(deflater.ctx.tables, d0, nvs);
    && rv == (if bad then HeaderComp else if |code| <= room - n then OK else BufferError)
    && (rv == OK ==> Filled(bufs, n, code) && deflater.State() == d)
    && deflater.ctx.bad == (rv != OK)
  }

  method DeflateGapped(bufs: Bufs, n: nat, deflater: Deflater, nvs: seq<Hpack.Field>) returns (rv: Status)
    requires bufs.Valid() && bufs.Roomy() && bufs.Contents() == [] && Gapped(bufs, bufs.parts, n)
    requires Able(deflater, bufs, nvs)
    modifies deflater`notify, deflater`leastMax, deflater.ctx.Repr, bufs.Repr
    ensures Behind(bufs, n, deflater, nvs, old(deflater.State()), old(deflater.ctx.bad), old(bufs.Room()) + n, rv)
    ensures fresh(bufs.Repr - old(bufs.Repr)) && fresh(deflater.ctx.Repr - old(deflater.ctx.Repr))
  {
    AbleFacts(deflater, bufs, nvs);
    hide Able, Filled, Gapped, Bufs.Valid, Bufs.Roomy, Bufs.Contents, Bufs.Room, Deflater.Valid, Deflater.State;
    hide Deflater.Deflated, Deflater.Separate, Grown, Hpack.DeflateBlock, Hpack.ValidTables, Hpack.AllAddressable;
    ghost var parts, head, d0, room, bad := bufs.parts, bufs.head, deflater.State(), bufs.Room(), deflater.ctx.bad;
    rv := deflater.DeflateHdBufs(bufs, nvs);
    if bad {
      NothingFills(deflater, bufs, nvs, head, parts, n);
    } else {
      BlockFills(deflater, bufs, nvs, d0, rv, room, head, parts, n);
    }
  }

  /** The block is deflated behind the gap. */
  method DeflateBehind(bufs: Bufs, n: nat, deflater: Deflater, nvs: seq<Hpack.Field>) returns (rv: Status)
    requires Fresh(bufs) && n <= bufs.chunkLength - bufs.offset && Able(deflater, bufs, nvs)
    modifies deflater`notify, deflater`leastMax, deflater.ctx.Repr, bufs.Repr
    ensures Behind(bufs, n, deflater, nvs, old(deflater.State()), old(deflater.ctx.bad), old(bufs.Room()), rv)
    ensures fresh(bufs.Repr - old(bufs.Repr)) && fresh(deflater.ctx.Repr - old(deflater.ctx.Repr))
  {
    AbleFacts(deflater, bufs, nvs);
    hide *;
    LeaveGap(bufs, n);
    rv := DeflateGapped(bufs, n, deflater, nvs);
  }

  /** The fixed fields into the gap, then the frames. */
  method FinishBlock(bufs: Bufs, hd: FrameHd, front: Bytes, ghost code: Bytes) returns (ghost texts: seq<Bytes>)
    requires Filled(bufs, |front|, code)
    modifies bufs.Repr
    ensures bufs.Valid() && bufs.Repr == old(bufs.Repr)
    ensures Divided(texts, front, code, bufs.chunkLength) && bufs.Contents() == Wires(FramesOf(texts, hd))
    ensures HeadedBy(FramesOf(texts, hd), hd)
  {
    hide *;
    PutFixed(bufs, front, code);
    texts := PackLoaded(bufs, hd, front, code);
  }

  /**
   * What packing reports: success exactly when the deflater was good and the octets fit, and then the frames of
   * the block, headed as asked for; that is what a parser finds when stream and lengths fit their fields.
   */
  ghost predicate Packed(bufs: Bufs, hd: FrameHd, front: Bytes, deflater: Deflater, nvs: seq<Hpack.Field>,
                         d0: Hpack.Deflating, bad: bool, room: int, rv: Status, texts: seq<Bytes>)
    reads bufs`parts, deflater, deflater.ctx
  {
    && Hpack.ValidTables(deflater.ctx.tables)
    && var (d, code) := Hpack.DeflateBlock(deflater.ctx.tables, d0, nvs);
    && rv == (if !bad && |code| <= room - |front| then OK else HeaderComp)
    && (rv == OK ==>
          && Divided(texts, front, code, bufs.chunkLength)
          && bufs.Contents() == Wires(FramesOf(texts, hd)) && deflater.State() == d
          && HeadedBy(FramesOf(texts, hd), hd)
          && (hd.streamId < STREAM_ID_MODULUS && bufs.chunkLength <= MAX_PAYLOAD ==> Announces(bufs.Contents(), hd)))
  }

  /**
   * The fixed fields and the deflated block, framed; on failure the head chunk is put back to where its payload
   * began.
   */
  method PackBlock(bufs: Bufs, hd: FrameHd, front: Bytes, deflater: Deflater, nvs: seq<Hpack.Field>)
    returns (rv: Status, ghost texts: seq<Bytes>)
    requires Fresh(bufs) && |front| <= bufs.chunkLength - bufs.offset && Able(deflater, bufs, nvs)
    modifies deflater`notify, deflater`leastMax, deflater.ctx.Repr, bufs.Repr
    ensures Able(deflater, bufs, nvs) && bufs.Valid() && deflater.ctx.bad == (rv != OK)
    ensures fresh(bufs.Repr - old(bufs.Repr)) && fresh(deflater.ctx.Repr - old(deflater.ctx.Repr))
    ensures Packed(bufs, hd, front, deflater, nvs,
                   old(deflater.State()), old(deflater.ctx.bad), old(bufs.Room()), rv, texts)
  {
    texts := [];
    ghost var d0, bad, room := deflater.State(), deflater.ctx.bad, bufs.Room();
    hide *;
    rv := DeflateBehind(bufs, |front|, deflater, nvs);
    if rv == OK {
      texts := FinishGood(bufs, hd, front, deflater, nvs, d0, bad, room);
    } else {
      GiveUp(bufs, hd, front, deflater, nvs, d0, bad, room, rv);
      rv := HeaderComp;
    }
  }

  /** The head chunk is put back to where its payload began. */
  method GiveUp(bufs: Bufs, hd: FrameHd, front: Bytes, deflater: Deflater, nvs: seq<Hpack.Field>,
                ghost d0: Hpack.Deflating, ghost bad: bool, ghost room: int, ghost rv: Status)
    requires Behind(bufs, |front|, deflater, nvs, d0, bad, room, rv) && rv != OK
    modifies bufs.Repr
    ensures Able(deflater, bufs, nvs) && bufs.Valid() && bufs.Repr == old(bufs.Repr) && deflater.ctx.bad
    ensures Packed(bufs, hd, front, deflater, nvs, d0, bad, room, HeaderComp, [])
  {
    BehindFacts(bufs, |front|, deflater, nvs, d0, bad, room, rv);
    BehindFails(bufs, hd, front, deflater, nvs, d0, bad, room, rv);
    hide Bufs.Valid, Hpack.DeflateBlock, Hpack.ValidTables, Divided, Deflater.Valid, Deflater.Separate;
    hide Hpack.AllAddressable;
    bufs.LowerFront(|front|);
  }

  method FinishGood(bufs: Bufs, hd: FrameHd, front: Bytes, deflater: Deflater, nvs: seq<Hpack.Field>,
                    ghost d0: Hpack.Deflating, ghost bad: bool, ghost room: int) returns (ghost texts: seq<Bytes>)
    requires Behind(bufs, |front|, deflater, nvs, d0, bad, room, OK)
    modifies bufs.Repr
    ensures Able(deflater, bufs, nvs) && bufs.Valid() && bufs.Repr == old(bufs.Repr) && !deflater.ctx.bad
    ensures Packed(bufs, hd, front, deflater, nvs, d0, bad, room, OK, texts)
  {
    ghost var code := Hpack.DeflateBlock(deflater.ctx.tables, d0, nvs).1;
    BehindFacts(bufs, |front|, deflater, nvs, d0, bad, room, OK);
    hide Filled, Bufs.Valid, Bufs.Contents, Bufs.Room, Deflater.Valid, Deflater.State, Able;
    hide Hpack.DeflateBlock, Hpack.ValidTables, Wires, FramesOf, Divided, HeadedBy, Announces;
    texts := FinishBlock(bufs, hd, front, code);
    WhatIsParsed(texts, hd, front, code, bufs.chunkLength);
  }

  lemma WhatIsParsed(texts: seq<Bytes>, hd: FrameHd, front: Bytes, code: Bytes, most: nat)
    requires Divided(texts, front, code, most)
    ensures hd.streamId < STREAM_ID_MODULUS && most <= MAX_PAYLOAD ==> Announces(Wires(FramesOf(texts, hd)), hd)
  {
    hide Flatten, Wires, FramesOf, Parse, Announces;
    if hd.streamId < STREAM_ID_MODULUS && most <= MAX_PAYLOAD {
      PackedParsesBack(texts, hd);
    }
  }

  lemma BehindFails(bufs: Bufs, hd: FrameHd, front: Bytes, deflater: Deflater, nvs: seq<Hpack.Field>,
                    d0: Hpack.Deflating, bad: bool, room: int, rv: Status)
    requires Behind(bufs, |front|, deflater, nvs, d0, bad, room, rv) && rv != OK
    ensures Packed(bufs, hd, front, deflater, nvs, d0, bad, room, HeaderComp, []) && deflater.ctx.bad
  {
    hide Hpack.DeflateBlock, Hpack.ValidTables, Able, Filled;
  }

  lemma BehindFacts(bufs: Bufs, n: nat, deflater: Deflater, nvs: seq<Hpack.Field>,
                    d0: Hpack.Deflating, bad: bool, room: int, rv: Status)
    requires Behind(bufs, n, deflater, nvs, d0, bad, room, rv)
    ensures bufs.Valid() && bufs.head.pos >= n && bufs.head in bufs.Repr && bufs in bufs.Repr
    ensures deflater !in bufs.Repr && deflater.ctx !in bufs.Repr && deflater.ctx.Repr !! bufs.Repr
    ensures Able(deflater, bufs, nvs) && Hpack.ValidTables(deflater.ctx.tables) && deflater.ctx.bad == (rv != OK)
  {
    hide Hpack.DeflateBlock;
    FilledFacts(bufs, n, bufs.Contents());
  }

  // ---------------------------------------------------------------- fixed fields

  const PRIORITY: byte := 0x20

  /** `nghttp2_priority_spec`. */
  datatype PrioritySpec = PrioritySpec(streamId: uint32, weight: int, exclusive: bool)

  /** `nghttp2_frame_pack_priority_spec`. */
  function PackPriority(ps: PrioritySpec): (r: Bytes)
    ensures |r| == 5
  {
    var s := PutUint32(ps.streamId);
    s[0 := if ps.exclusive && s[0] < 0x80 then s[0] + 0x80 else s[0]] + [(ps.weight - 1) % 0x100]
  }

  /** `nghttp2_frame_unpack_priority_spec`. */
  function UnpackPriority(s: Bytes): PrioritySpec
    requires |s| >= 5
  {
    var weight: int := s[4];
    PrioritySpec(GetUint32(s) % STREAM_ID_MODULUS, weight + 1, s[0] >= 0x80)
  }

  lemma TopBit(n: uint32)
    ensures PutUint32(n)[0] >= 0x80 <==> n >= STREAM_ID_MODULUS
    ensures n < STREAM_ID_MODULUS ==> GetUint32(PutUint32(n)[0 := PutUint32(n)[0] + 0x80]) == n + STREAM_ID_MODULUS
  {
    PutGetUint32(n, []);
  }

  /** A dependency survives packing exactly when its stream has 31 bits and its weight is one of 1 to 256. */
  lemma PriorityRoundTrip(ps: PrioritySpec, rest: Bytes)
    ensures UnpackPriority(PackPriority(ps) + rest) == ps <==> ps.streamId < STREAM_ID_MODULUS && 1 <= ps.weight <= 256
  {
    hide PutUint32, GetUint32;
    var s := PutUint32(ps.streamId);
    TopBit(ps.streamId);
    var first := s[0 := if ps.exclusive && s[0] < 0x80 then s[0] + 0x80 else s[0]];
    GetFrom(first, [(ps.weight - 1) % 0x100] + rest);
    PutGetUint32(ps.streamId, []);
    GetFrom(s, []);
    assert s[0 := s[0]] == s;
    assert PackPriority(ps) + rest == first + ([(ps.weight - 1) % 0x100] + rest);
  }

  /** Section 6.3 of RFC 7540: the exclusive bit above 31 bits of stream, then the weight less one. */
  lemma PriorityLayout(ps: PrioritySpec)
    requires ps.streamId < STREAM_ID_MODULUS
    ensures var s: seq<int> := PackPriority(ps);
      && s[0] * 0x100_0000 + s[1] * 0x1_0000 + s[2] * 0x100 + s[3]
           == ps.streamId + (if ps.exclusive then 0x8000_0000 else 0)
      && s[4] == (ps.weight - 1) % 0x100
  {
    PutIsBigEndian(ps.streamId);
    TopBit(ps.streamId);
  }

  /** The fixed fields of a HEADERS frame. */
  function HeadersFront(flags: byte, ps: PrioritySpec): Bytes {
    if flags / PRIORITY % 2 == 1 then PackPriority(ps) else []
  }

  /** `nghttp2_frame_pack_headers`. */
  method PackHeaders(bufs: Bufs, flags: byte, streamId: uint32, ps: PrioritySpec, deflater: Deflater,
                     nvs: seq<Hpack.Field>)
    returns (rv: Status, ghost texts: seq<Bytes>)
    requires Fresh(bufs) && bufs.chunkLength - bufs.offset >= 5 && Able(deflater, bufs, nvs)
    modifies deflater`notify, deflater`leastMax, deflater.ctx.Repr, bufs.Repr
    ensures Able(deflater, bufs, nvs) && bufs.Valid() && deflater.ctx.bad == (rv != OK)
    ensures fresh(bufs.Repr - old(bufs.Repr)) && fresh(deflater.ctx.Repr - old(deflater.ctx.Repr))
    ensures Packed(bufs, FrameHd(0, HEADERS, flags, streamId), HeadersFront(flags, ps), deflater, nvs,
                   old(deflater.State()), old(deflater.ctx.bad), old(bufs.Room()), rv, texts)
  {
    hide Fresh, Able, Packed, Deflater.Valid, Bufs.Valid, PackPriority;
    rv, texts := PackBlock(bufs, FrameHd(0, HEADERS, flags, streamId), HeadersFront(flags, ps), deflater, nvs);
  }

  /** `nghttp2_frame_pack_push_promise`. */
  method PackPushPromise(bufs: Bufs, flags: byte, streamId: uint32, promised: uint32, deflater: Deflater,
                         nvs: seq<Hpack.Field>)
    returns (rv: Status, ghost texts: seq<Bytes>)
    requires Fresh(bufs) && bufs.chunkLength - bufs.offset >= 4 && Able(deflater, bufs, nvs)
    modifies deflater`notify, deflater`leastMax, deflater.ctx.Repr, bufs.Repr
    ensures Able(deflater, bufs, nvs) && bufs.Valid() && deflater.ctx.bad == (rv != OK)
    ensures fresh(bufs.Repr - old(bufs.Repr)) && fresh(deflater.ctx.Repr - old(deflater.ctx.Repr))
    ensures Packed(bufs, FrameHd(0, PUSH_PROMISE, flags, streamId), PutUint32(promised), deflater, nvs,
                   old(deflater.State()), old(deflater.ctx.bad), old(bufs.Room()), rv, texts)
  {
    hide Fresh, Able, Packed, Deflater.Valid, Bufs.Valid, PutUint32;
    rv, texts := PackBlock(bufs, FrameHd(0, PUSH_PROMISE, flags, streamId), PutUint32(promised), deflater, nvs);
  }
}
