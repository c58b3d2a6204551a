/**
 * A header list from one end of a connection to the other: deflated into chunks,
 * framed, parsed, put together again and inflated.
 */
module Transfer {
  import opened Common
  import opened Hpack
  import opened BufChain
  import opened Deflaters
  import opened InflateMachine
  import opened InflateRounds
  import opened Inflaters
  import opened Lossless
  import opened Frames

  lemma SplitPayload(front: Bytes, code: Bytes)
    ensures (front + code)[..|front|] == front && (front + code)[|front|..] == code
  {
  }

  /**
   * However the deflater's octets were spread over chunks, the frames made of them parse back, are one
   * frame and its continuations, and carry a block that inflates to the fields sent; both ends stay in step.
   */
  lemma FramedBlockIsLossless(p: Tables, d: Deflating, s: Inflating, nvs: seq<Field>,
                              texts: seq<Bytes>, hd: FrameHd, front: Bytes)
    requires ValidTables(p) && InSync(d, s) && AllFit(p, nvs)
    requires Divided(texts, front, DeflateBlock(p, d, nvs).1, MAX_PAYLOAD)
    requires EndsHeaders(hd.flags) && hd.streamId < STREAM_ID_MODULUS
    ensures var fs := FramesOf(texts, hd);
      && Parse(Wires(fs)) == Some(fs) && IsHeaderSequence(fs, hd.kind)
      && Payloads(fs) == front + DeflateBlock(p, d, nvs).1
      && var r := InflateBlock(p, s, Payloads(fs)[|front|..]);
      && r.Some? && r.value.1 == DeliveredAll(p, nvs) && InSync(DeflateBlock(p, d, nvs).0, r.value.0)
  {
    hide InflateBlock, DeflateBlock, InSync, DeliveredAll, FramesOf, Wires, Parse, Payloads, IsHeaderSequence, Flatten;
    PackedParsesBack(texts, hd);
    SplitPayload(front, DeflateBlock(p, d, nvs).1);
    BlockRoundTrip(p, d, s, nvs);
  }

  /** The fixed fields of a HEADERS payload take five octets when its flags announce a dependency. */
  function FrontLength(flags: byte): nat {
    if flags / PRIORITY % 2 == 1 then 5 else 0
  }

  /** The payloads as they are handed to the inflater: of the first the fixed fields are left out. */
  function Fragments(fs: seq<Frame>, n: nat): (r: seq<Bytes>)
    requires fs != [] && n <= |fs[0].payload|
    ensures r != [] && Flatten(r) == Payloads(fs)[n..]
  {
    FragmentsJoin(fs, n);
    [fs[0].payload[n..]] + AllPayloads(fs[1..])
  }

  function AllPayloads(fs: seq<Frame>): (r: seq<Bytes>)
    ensures |r| == |fs| && Flatten(r) == Payloads(fs)
  {
    if fs == [] then [] else [fs[0].payload] + AllPayloads(fs[1..])
  }

  lemma FragmentsJoin(fs: seq<Frame>, n: nat)
    requires fs != [] && n <= |fs[0].payload|
    ensures Flatten([fs[0].payload[n..]] + AllPayloads(fs[1..])) == Payloads(fs)[n..]
  {
    var r := [fs[0].payload[n..]] + AllPayloads(fs[1..]);
    assert r[0] == fs[0].payload[n..] && r[1..] == AllPayloads(fs[1..]);
    hide AllPayloads;
    assert (fs[0].payload + Payloads(fs[1..]))[n..] == fs[0].payload[n..] + Payloads(fs[1..]);
  }

  /**
   * The fragments of a header block in octets that are whole frames, a HEADERS frame and its
   * continuations; `None` if they are not.
   */
  function Received(wire: Bytes): Option<seq<Bytes>> {
    match Parse(wire)
    case None => None
    case Some(fs) =>
      if !IsHeaderSequence(fs, HEADERS) || |fs[0].payload| < FrontLength(fs[0].hd.flags) then None
      else Some(Fragments(fs, FrontLength(fs[0].hd.flags)))
  }

  /** The octets carry this block. */
  predicate Carries(wire: Bytes, code: Bytes) {
    Received(wire).Some? && Received(wire).value != [] && Flatten(Received(wire).value) == code
  }

  /** Taking END_HEADERS off the first frame leaves the flag for the dependency alone. */
  lemma PriorityStays(flags: byte, n: nat)
    requires n > 0
    ensures FlagsAt(flags, 0, n) / PRIORITY % 2 == flags / PRIORITY % 2
  {
    if EndsHeaders(flags) {
      assert flags / 4 % 2 == 1;
      assert (flags - 4) / 4 == flags / 4 - 1;
      assert flags / 32 == flags / 4 / 8 && (flags - 4) / 32 == (flags - 4) / 4 / 8;
    }
  }

  /** What is packed is what is received, exactly when END_HEADERS was asked for or several frames were needed. */
  lemma PackedIsReceived(texts: seq<Bytes>, flags: byte, streamId: uint32, ps: PrioritySpec, code: Bytes)
    requires Divided(texts, HeadersFront(flags, ps), code, MAX_PAYLOAD) && streamId < STREAM_ID_MODULUS
    ensures var wire := Wires(FramesOf(texts, FrameHd(0, HEADERS, flags, streamId)));
      if EndsHeaders(flags) || |texts| > 1 then Carries(wire, code) else Received(wire) == None
  {
    var hd := FrameHd(0, HEADERS, flags, streamId);
    var fs := FramesOf(texts, hd);
    PackedParsesBack(texts, hd);
    PriorityStays(flags, |texts|);
    assert fs[0] == FrameAt(texts, hd, 0);
    assert |HeadersFront(flags, ps)| == (if |texts| > 1 then FrontLength(fs[0].hd.flags) else FrontLength(flags));
    hide Wires, Parse, Payloads, Flatten, PackPriority, FramesOf, IsHeaderSequence, HeadedBy, Announces;
    SplitPayload(HeadersFront(flags, ps), code);
  }

  // ---------------------------------------------------------------- the objects

  /** The two ends share no state. */
  ghost predicate TwoEnds(bufs: Bufs, deflater: Deflater, inflater: Inflater)
    reads bufs`Repr, deflater, deflater.ctx`Repr, inflater, inflater.ctx`Repr
  {
    && inflater.Footprint() !! bufs.Repr && inflater.Footprint() !! deflater.ctx.Repr
    && deflater !in inflater.Footprint() && deflater.ctx in deflater.ctx.Repr && inflater.ctx in inflater.ctx.Repr
  }

  /** Buffers a header block can be packed into. */
  predicate Usable(bufs: Bufs) {
    FRAME_HDLEN <= bufs.offset && 5 <= bufs.chunkLength - bufs.offset && bufs.chunkLength <= MAX_PAYLOAD
  }

  /** The octets in the buffers, copied out. */
  method CopyOut(bufs: Bufs) returns (wire: Bytes)
    requires bufs.Valid()
    ensures wire == bufs.Contents()
  {
    hide Bufs.Valid, Bufs.Contents;
    var len := bufs.Len();
    var out := new byte[len](_ => 0);
    len := Copy(bufs, out);
    wire := out[..len];
  }

  method Copy(bufs: Bufs, out: array<byte>) returns (len: nat)
    requires bufs.Valid() && out.Length >= |bufs.Contents()| && out !in bufs.Repr
    modifies out
    ensures len == |bufs.Contents()| && out[..len] == bufs.Contents()
  {
    hide Bufs.Valid, Bufs.Contents;
    len := bufs.RemoveCopy(out);
  }

  /** What sending reports: the octets that left carry the block, or it did not fit and nothing left. */
  ghost predicate Sent(deflater: Deflater, nvs: seq<Field>, d0: Deflating, bad: bool, room: int, flags: byte,
                       rv: Status, wire: Bytes)
    reads deflater, deflater.ctx
  {
    && ValidTables(deflater.ctx.tables)
    && var (d, code) := DeflateBlock(deflater.ctx.tables, d0, nvs);
    && rv == (if !bad && |code| <= room - FrontLength(flags) then OK else HeaderComp)
    && (rv != OK ==> wire == [])
    && (rv == OK ==> deflater.State() == d && (Carries(wire, code) || (!EndsHeaders(flags) && Received(wire) == None)))
  }

  /** The sender: a header list into the octets of its frames. */
  method Send(bufs: Bufs, flags: byte, streamId: uint32, ps: PrioritySpec, deflater: Deflater, nvs: seq<Field>)
    returns (rv: Status, wire: Bytes)
    requires Fresh(bufs) && Usable(bufs) && Able(deflater, bufs, nvs) && streamId < STREAM_ID_MODULUS
    modifies deflater`notify, deflater`leastMax, deflater.ctx.Repr, bufs.Repr
    ensures Able(deflater, bufs, nvs) && bufs.Valid() && deflater.ctx.bad == (rv != OK)
    ensures fresh(bufs.Repr - old(bufs.Repr)) && fresh(deflater.ctx.Repr - old(deflater.ctx.Repr))
    ensures Sent(deflater, nvs, old(deflater.State()), old(deflater.ctx.bad), old(bufs.Room()), flags, rv, wire)
    ensures rv == OK ==> Announces(wire, FrameHd(0, HEADERS, flags, streamId))
  {
    ghost var d0, bad, room := deflater.State(), deflater.ctx.bad, bufs.Room();
    ghost var texts: seq<Bytes>;
    assert bufs.chunkLength - bufs.offset >= 5 && bufs.chunkLength <= MAX_PAYLOAD;
    hide *;
    rv, texts := PackHeaders(bufs, flags, streamId, ps, deflater, nvs);
    PackedSends(bufs, flags, streamId, ps, deflater, nvs, d0, bad, room, rv, texts);
    wire := [];
    if rv == OK {
      wire := CopyOut(bufs);
    }
  }

  lemma PackedSends(bufs: Bufs, flags: byte, streamId: uint32, ps: PrioritySpec, deflater: Deflater, nvs: seq<Field>,
                    d0: Deflating, bad: bool, room: int, rv: Status, texts: seq<Bytes>)
    requires bufs.chunkLength <= MAX_PAYLOAD && streamId < STREAM_ID_MODULUS
    requires Packed(bufs, FrameHd(0, HEADERS, flags, streamId), HeadersFront(flags, ps), deflater, nvs,
                    d0, bad, room, rv, texts)
    ensures Sent(deflater, nvs, d0, bad, room, flags, rv, if rv == OK then bufs.Contents() else [])
    ensures rv == OK ==> Announces(bufs.Contents(), FrameHd(0, HEADERS, flags, streamId))
  {
    hide DeflateBlock, ValidTables, Carries, Received, PackPriority, Deflater.State, Bufs.Contents, Wires, FramesOf;
    hide Announces, HeadedBy;
    if rv == OK {
      var code := DeflateBlock(deflater.ctx.tables, d0, nvs).1;
      DividedShorter(texts, HeadersFront(flags, ps), code, bufs.chunkLength);
      hide Divided;
      PackedIsReceived(texts, flags, streamId, ps, code);
    }
  }

  lemma DividedShorter(texts: seq<Bytes>, front: Bytes, code: Bytes, most: nat)
    requires Divided(texts, front, code, most) && most <= MAX_PAYLOAD
    ensures Divided(texts, front, code, MAX_PAYLOAD)
  {
    hide Flatten;
  }

  /** What receiving reports: the block in the frames is inflated, or the octets are no block and nothing is done. */
  ghost predicate Taken(inflater: Inflater, s0: Inflating, wire: Bytes, ok: bool, fields: seq<Field>)
    reads inflater, inflater.ctx, inflater.namebuf`text, inflater.valuebuf`text
  {
    && ValidTables(inflater.ctx.tables) && InflateMachine.Valid(s0)
    && match Received(wire)
       case None => !ok && fields == [] && inflater.Abs() == s0 && !inflater.ctx.bad
       case Some(chunks) =>
         && inflater.ctx.bad == !ok
         && var block := InflateBlock(inflater.ctx.tables, s0, Flatten(chunks));
            block == if ok then Some((inflater.Abs(), fields)) else None
  }

  /** The receiver: the payload of every frame is fed to the inflater in turn. */
  method Receive(inflater: Inflater, wire: Bytes) returns (ok: bool, fields: seq<Field>)
    requires inflater.Valid() && !inflater.ctx.bad
    modifies inflater.Footprint()
    ensures inflater.Valid() && fresh(inflater.Footprint() - old(inflater.Footprint()))
    ensures Taken(inflater, old(inflater.Abs()), wire, ok, fields)
  {
    ghost var s0 := inflater.Abs();
    inflater.TablesValid();
    assert InflateMachine.Valid(s0) && inflater.ctx in inflater.ctx.Repr;
    hide Inflater.Valid, Inflater.Abs, Driven, InflateBlock, InflateMachine.Valid, ValidTables, Fragments;
    hide IsHeaderSequence, Parse;
    match Received(wire) {
      case None => return false, [];
      case Some(chunks) =>
        ok, fields := inflater.InflateChunks(chunks);
        DrivenIsBlock(inflater.ctx.tables, s0, Flatten(chunks), ok, fields, inflater.Abs());
    }
  }

  /** All the objects of a connection. */
  ghost function Everything(bufs: Bufs, deflater: Deflater, inflater: Inflater): set<object>
    reads bufs`Repr, deflater, deflater.ctx`Repr, inflater, inflater.ctx`Repr
  {
    bufs.Repr + deflater.ctx.Repr + inflater.Footprint()
  }

  lemma EverythingIs(bufs: Bufs, deflater: Deflater, inflater: Inflater)
    ensures Everything(bufs, deflater, inflater) == bufs.Repr + deflater.ctx.Repr + inflater.Footprint()
  {
  }

  /** The receiver is in order and in this state. */
  ghost predicate Quiet(inflater: Inflater, s: Inflating)
    reads inflater, inflater.ctx, inflater.ctx.Repr, inflater.huff
    reads inflater.namebuf, inflater.namebuf.mem, inflater.valuebuf, inflater.valuebuf.mem
  {
    inflater.Valid() && !inflater.ctx.bad && inflater.Abs() == s
  }

  /** A header list is sent, or not; the receiver is as it was. */
  ghost predicate Halfway(bufs: Bufs, deflater: Deflater, inflater: Inflater, nvs: seq<Field>, d0: Deflating,
                          s0: Inflating, room: int, flags: byte, rv: Status, wire: Bytes)
    reads bufs, bufs.Repr, deflater, deflater.ctx, deflater.ctx.Repr
    reads inflater, inflater.ctx, inflater.ctx.Repr, inflater.huff
    reads inflater.namebuf, inflater.namebuf.mem, inflater.valuebuf, inflater.valuebuf.mem
  {
    && Able(deflater, bufs, nvs) && bufs.Valid() && deflater.ctx.bad == (rv != OK)
    && Sent(deflater, nvs, d0, false, room, flags, rv, wire)
    && TwoEnds(bufs, deflater, inflater) && Quiet(inflater, s0)
  }

  /** Sending does not touch the receiver. */
  method SendQuietly(bufs: Bufs, flags: byte, streamId: uint32, ps: PrioritySpec, deflater: Deflater,
                     inflater: Inflater, nvs: seq<Field>, ghost s0: Inflating, ghost foot: set<object>)
    returns (rv: Status, wire: Bytes)
    requires Fresh(bufs) && Usable(bufs) && Able(deflater, bufs, nvs) && streamId < STREAM_ID_MODULUS
    requires TwoEnds(bufs, deflater, inflater) && Quiet(inflater, s0) && foot == inflater.Footprint()
    modifies deflater`notify, deflater`leastMax, deflater.ctx.Repr, bufs.Repr
    ensures Able(deflater, bufs, nvs) && bufs.Valid() && deflater.ctx.bad == (rv != OK)
    ensures fresh(bufs.Repr - old(bufs.Repr)) && fresh(deflater.ctx.Repr - old(deflater.ctx.Repr))
    ensures Sent(deflater, nvs, old(deflater.State()), old(deflater.ctx.bad), old(bufs.Room()), flags, rv, wire)
    ensures Quiet(inflater, s0) && foot == inflater.Footprint()
  {
    hide Fresh, Usable, Able, Sent, Quiet, Deflater.State, Bufs.Valid, Bufs.Room;
    rv, wire := Send(bufs, flags, streamId, ps, deflater, nvs);
  }

  method SendBeside(bufs: Bufs, flags: byte, streamId: uint32, ps: PrioritySpec, deflater: Deflater, inflater: Inflater,
                    nvs: seq<Field>, ghost d0: Deflating, ghost s0: Inflating, ghost room: int,
                    ghost before: set<object>)
    returns (rv: Status, wire: Bytes)
    requires Fresh(bufs) && Usable(bufs) && Able(deflater, bufs, nvs) && streamId < STREAM_ID_MODULUS
    requires TwoEnds(bufs, deflater, inflater) && Quiet(inflater, s0) && !deflater.ctx.bad
    requires d0 == deflater.State() && room == bufs.Room() && before == Everything(bufs, deflater, inflater)
    modifies deflater`notify, deflater`leastMax, deflater.ctx.Repr, bufs.Repr
    ensures fresh(Everything(bufs, deflater, inflater) - before)
    ensures Halfway(bufs, deflater, inflater, nvs, d0, s0, room, flags, rv, wire)
  {
    ghost var foot := inflater.Footprint();
    hide Fresh, Usable, Able, Sent, Quiet, Deflater.State, Bufs.Valid, Bufs.Room, Inflater.Footprint;
    rv, wire := SendQuietly(bufs, flags, streamId, ps, deflater, inflater, nvs, s0, foot);
    AbleFacts(deflater, bufs, nvs);
  }

  /** Receiving does not touch the sender. */
  method ReceiveBeside(bufs: Bufs, deflater: Deflater, inflater: Inflater, wire: Bytes, ghost nvs: seq<Field>,
                       ghost d: Deflating, ghost s0: Inflating, ghost before: set<object>)
    returns (ok: bool, fields: seq<Field>)
    requires TwoEnds(bufs, deflater, inflater) && inflater.Valid() && !inflater.ctx.bad
    requires Able(deflater, bufs, nvs) && bufs.Valid() && !deflater.ctx.bad
    requires d == deflater.State() && s0 == inflater.Abs() && before == Everything(bufs, deflater, inflater)
    modifies inflater.Footprint()
    ensures fresh(Everything(bufs, deflater, inflater) - before)
    ensures TwoEnds(bufs, deflater, inflater) && inflater.Valid() && Taken(inflater, s0, wire, ok, fields)
    ensures Able(deflater, bufs, nvs) && bufs.Valid() && deflater.State() == d && !deflater.ctx.bad
  {
    AbleFacts(deflater, bufs, nvs);
    hide Able, Taken, Inflater.Valid, Inflater.Abs, Deflater.State, Bufs.Valid;
    ok, fields := Receive(inflater, wire);
  }

  /** Both ends are in order and in step, whatever is in the buffers. */
  ghost predicate Linked(bufs: Bufs, deflater: Deflater, inflater: Inflater)
    reads bufs, bufs.Repr, deflater, deflater.ctx, deflater.ctx.Repr
    reads inflater, inflater.ctx, inflater.ctx.Repr, inflater.huff
    reads inflater.namebuf, inflater.namebuf.mem, inflater.valuebuf, inflater.valuebuf.mem
  {
    && bufs.Valid() && Usable(bufs) && Able(deflater, bufs, []) && !deflater.ctx.bad
    && inflater.Valid() && !inflater.ctx.bad && TwoEnds(bufs, deflater, inflater)
    && deflater.ctx.tables == inflater.ctx.tables && InSync(deflater.State(), inflater.Abs())
  }

  /** What is asked of a header list and the frames it is to go out in. */
  predicate Deliverable(p: Tables, flags: byte, streamId: uint32, nvs: seq<Field>)
    requires ValidTables(p)
  {
    EndsHeaders(flags) && streamId < STREAM_ID_MODULUS && AllFit(p, nvs) && AllAddressable(nvs)
  }

  /** What has come of it: it could be packed, and then it arrived and the ends are in step for the next. */
  ghost predicate Arrived(bufs: Bufs, deflater: Deflater, inflater: Inflater, d0: Deflating, room: int, flags: byte,
                          nvs: seq<Field>, rv: Status, ok: bool, fields: seq<Field>)
    reads bufs, bufs.Repr, deflater, deflater.ctx, deflater.ctx.Repr
    reads inflater, inflater.ctx, inflater.ctx.Repr, inflater.huff
    reads inflater.namebuf, inflater.namebuf.mem, inflater.valuebuf, inflater.valuebuf.mem
  {
    && ValidTables(deflater.ctx.tables)
    && var (d, code) := DeflateBlock(deflater.ctx.tables, d0, nvs);
    && (rv == OK <==> |code| <= room - FrontLength(flags))
    && (rv == OK ==>
          && ok && fields == DeliveredAll(deflater.ctx.tables, nvs) && Linked(bufs, deflater, inflater)
          && deflater.State() == d && inflater.Abs().table == d.table && inflater.Abs().max == d.max)
  }

  lemma LinkedFacts(bufs: Bufs, deflater: Deflater, inflater: Inflater, flags: byte, streamId: uint32, nvs: seq<Field>)
    requires Linked(bufs, deflater, inflater) && ValidTables(deflater.ctx.tables)
    requires Deliverable(deflater.ctx.tables, flags, streamId, nvs)
    ensures Usable(bufs) && Able(deflater, bufs, nvs) && !deflater.ctx.bad && bufs.Valid()
    ensures streamId < STREAM_ID_MODULUS
    ensures TwoEnds(bufs, deflater, inflater) && inflater.Valid() && !inflater.ctx.bad
    ensures InSync(deflater.State(), inflater.Abs()) && deflater.ctx.tables == inflater.ctx.tables
  {
  }

  lemma HalfwayFacts(bufs: Bufs, deflater: Deflater, inflater: Inflater, nvs: seq<Field>, d0: Deflating, s0: Inflating,
                     room: int, flags: byte, wire: Bytes)
    requires Halfway(bufs, deflater, inflater, nvs, d0, s0, room, flags, OK, wire)
    ensures Able(deflater, bufs, nvs) && bufs.Valid() && !deflater.ctx.bad && TwoEnds(bufs, deflater, inflater)
    ensures inflater.Valid() && !inflater.ctx.bad && inflater.Abs() == s0
    ensures SentAs(deflater.ctx.tables, nvs, d0, deflater.State(), room, flags, wire)
  {
    hide DeflateBlock, ValidTables, Carries;
  }

  lemma StillSent(deflater: Deflater, nvs: seq<Field>, d0: Deflating, d: Deflating, room: int, flags: byte, wire: Bytes)
    requires SentAs(deflater.ctx.tables, nvs, d0, d, room, flags, wire) && deflater.State() == d
    ensures Sent(deflater, nvs, d0, false, room, flags, OK, wire)
  {
    hide DeflateBlock, ValidTables, Carries;
  }

  lemma NotPacked(bufs: Bufs, deflater: Deflater, inflater: Inflater, nvs: seq<Field>, d0: Deflating, s0: Inflating,
                  room: int, flags: byte, rv: Status, wire: Bytes)
    requires Halfway(bufs, deflater, inflater, nvs, d0, s0, room, flags, rv, wire) && rv != OK
    ensures Arrived(bufs, deflater, inflater, d0, room, flags, nvs, rv, false, [])
  {
    hide DeflateBlock, ValidTables, Linked, Able;
  }

  /** From what the two halves report to what has come of it. */
  lemma ItArrives(bufs: Bufs, deflater: Deflater, inflater: Inflater, d0: Deflating, s0: Inflating, room: int,
                  flags: byte, streamId: uint32, nvs: seq<Field>, wire: Bytes, ok: bool, fields: seq<Field>)
    requires ValidTables(deflater.ctx.tables) && InSync(d0, s0)
    requires Deliverable(deflater.ctx.tables, flags, streamId, nvs)
    requires Sent(deflater, nvs, d0, false, room, flags, OK, wire) && Taken(inflater, s0, wire, ok, fields)
    requires Usable(bufs) && bufs.Valid() && Able(deflater, bufs, nvs) && !deflater.ctx.bad && inflater.Valid()
    requires TwoEnds(bufs, deflater, inflater) && deflater.ctx.tables == inflater.ctx.tables
    ensures Arrived(bufs, deflater, inflater, d0, room, flags, nvs, OK, ok, fields)
  {
    SyncIsValid(d0, s0);
    hide InSync, AllFit, InflateBlock, DeflateBlock, DeliveredAll, InflateMachine.Valid, Received, Flatten, Usable;
    hide ValidTables, Bufs.Valid, Deflater.Valid, Deflater.Separate, Inflater.Valid, TwoEnds, Inflater.Abs;
    hide Deflater.State;
    BlockRoundTrip(deflater.ctx.tables, d0, s0, nvs);
  }

  /** The second half: what was sent is received. */
  method Finish(bufs: Bufs, flags: byte, streamId: uint32, deflater: Deflater, inflater: Inflater, nvs: seq<Field>,
                wire: Bytes, ghost d0: Deflating, ghost s0: Inflating, ghost room: int, ghost before: set<object>)
    returns (ok: bool, fields: seq<Field>)
    requires Halfway(bufs, deflater, inflater, nvs, d0, s0, room, flags, OK, wire) && Usable(bufs) && InSync(d0, s0)
    requires ValidTables(deflater.ctx.tables) && Deliverable(deflater.ctx.tables, flags, streamId, nvs)
    requires deflater.ctx.tables == inflater.ctx.tables && before == Everything(bufs, deflater, inflater)
    modifies inflater.Footprint()
    ensures fresh(Everything(bufs, deflater, inflater) - before)
    ensures Arrived(bufs, deflater, inflater, d0, room, flags, nvs, OK, ok, fields)
  {
    ghost var d := deflater.State();
    HalfwayFacts(bufs, deflater, inflater, nvs, d0, s0, room, flags, wire);
    hide *;
    ok, fields := ReceiveBeside(bufs, deflater, inflater, wire, nvs, d, s0, before);
    StillSent(deflater, nvs, d0, d, room, flags, wire);
    ItArrives(bufs, deflater, inflater, d0, s0, room, flags, streamId, nvs, wire, ok, fields);
  }

  /** What sending reports, whatever the sender's state is afterwards. */
  ghost predicate SentAs(p: Tables, nvs: seq<Field>, d0: Deflating, d: Deflating, room: int, flags: byte, wire: Bytes) {
    && ValidTables(p)
    && var (after, code) := DeflateBlock(p, d0, nvs);
    && |code| <= room - FrontLength(flags) && d == after
    && (Carries(wire, code) || (!EndsHeaders(flags) && Received(wire) == None))
  }

  /** Both halves. */
  method Convey(bufs: Bufs, flags: byte, streamId: uint32, ps: PrioritySpec, deflater: Deflater, inflater: Inflater,
                nvs: seq<Field>, ghost d0: Deflating, ghost s0: Inflating, ghost room: int, ghost before: set<object>)
    returns (rv: Status, ok: bool, fields: seq<Field>)
    requires Fresh(bufs) && Usable(bufs) && Able(deflater, bufs, nvs) && streamId < STREAM_ID_MODULUS
    requires TwoEnds(bufs, deflater, inflater) && Quiet(inflater, s0) && !deflater.ctx.bad
    requires d0 == deflater.State() && room == bufs.Room() && before == Everything(bufs, deflater, inflater)
    requires ValidTables(deflater.ctx.tables) && Deliverable(deflater.ctx.tables, flags, streamId, nvs)
    requires deflater.ctx.tables == inflater.ctx.tables && InSync(d0, s0)
    modifies deflater`notify, deflater`leastMax, deflater.ctx.Repr, bufs.Repr, inflater.Footprint()
    ensures fresh(Everything(bufs, deflater, inflater) - before)
    ensures Arrived(bufs, deflater, inflater, d0, room, flags, nvs, rv, ok, fields)
  {
    EverythingIs(bufs, deflater, inflater);
    hide *;
    var wire: Bytes;
    rv, wire := SendBeside(bufs, flags, streamId, ps, deflater, inflater, nvs, d0, s0, room, before);
    if rv != OK {
      NotPacked(bufs, deflater, inflater, nvs, d0, s0, room, flags, rv, wire);
      return rv, false, [];
    }
    ghost var after := Everything(bufs, deflater, inflater);
    EverythingIs(bufs, deflater, inflater);
    label Sent:
    ok, fields := Finish(bufs, flags, streamId, deflater, inflater, nvs, wire, d0, s0, room, after);
    ghost var all := Everything(bufs, deflater, inflater);
    ghost var news, added := all - after, all - before;
    assert forall o :: o in news ==> !old@Sent(allocated(o));
    assert forall o :: o in added ==> o in news || o in after - before;
    assert forall o :: o in added ==> !old(allocated(o));
    assert fresh(added);
    assert forall o :: o in all && o !in before ==> o in added;
  }

  /**
   * A header list sent and received: it can be packed exactly when its octets fit the buffers, and then it
   * arrives as it was sent and the two ends are in step for the next.
   */
  method SendAndReceive(bufs: Bufs, flags: byte, streamId: uint32, ps: PrioritySpec, deflater: Deflater,
                        inflater: Inflater, nvs: seq<Field>, ghost before: set<object>)
    returns (rv: Status, ok: bool, fields: seq<Field>)
    requires Fresh(bufs) && Linked(bufs, deflater, inflater)
    requires before == Everything(bufs, deflater, inflater)
    requires ValidTables(deflater.ctx.tables) && Deliverable(deflater.ctx.tables, flags, streamId, nvs)
    modifies deflater`notify, deflater`leastMax, deflater.ctx.Repr, bufs.Repr, inflater.Footprint()
    ensures fresh(Everything(bufs, deflater, inflater) - before)
    ensures Arrived(bufs, deflater, inflater, old(deflater.State()), old(bufs.Room()), flags, nvs, rv, ok, fields)
  {
    ghost var d0, s0, room := deflater.State(), inflater.Abs(), bufs.Room();
    LinkedFacts(bufs, deflater, inflater, flags, streamId, nvs);
    assert Quiet(inflater, s0);
    hide *;
    rv, ok, fields := Convey(bufs, flags, streamId, ps, deflater, inflater, nvs, d0, s0, room, before);
  }
}
