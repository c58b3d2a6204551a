/**
 * The two objects over a whole connection: settings and header blocks in any order, every block
 * through buffers, frames and the inflater, as long as it fits the buffers.
 */
module Conversation {
  import opened Common
  import opened Hpack
  import opened BufChain
  import opened Deflaters
  import opened InflateMachine
  import opened Inflaters
  import opened Lossless
  import opened Frames
  import opened Transfer
  import HuffmanCodec

  /** What the buffers hold when they are empty. */
  function Capacity(bufs: Bufs): int {
    bufs.maxChunk * (bufs.chunkLength - bufs.offset)
  }

  // ---------------------------------------------------------------- what is to come of it

  /** The deflater after an event. */
  function NextDeflating(p: Tables, d: Deflating, e: Event): Deflating
    requires ValidTables(p)
  {
    match e case Setting(size) => ChangeDeflateSize(d, size) case Block(fields) => DeflateBlock(p, d, fields).0
  }

  predicate FitsRoom(p: Tables, d: Deflating, e: Event, room: int)
    requires ValidTables(p)
  {
    e.Block? ==> |DeflateBlock(p, d, e.fields).1| <= room
  }

  /** Every block of the events fits the room there is for one. */
  predicate AllFitRoom(p: Tables, d: Deflating, events: seq<Event>, room: int)
    requires ValidTables(p)
    decreases |events|
  {
    events == []
    || (FitsRoom(p, d, events[0], room) && AllFitRoom(p, NextDeflating(p, d, events[0]), events[1..], room))
  }

  /** What is asked of an event and the frames it is to go out in. */
  predicate Acceptable(p: Tables, flags: byte, streamId: uint32, e: Event)
    requires ValidTables(p)
  {
    match e
    case Setting(_) => true
    case Block(fields) => Deliverable(p, flags, streamId, fields)
  }

  // ---------------------------------------------------------------- the objects made

  /** Buffers, deflater and inflater as they are created are linked. */
  method Connect(tables: Tables, decode: HuffmanCodec.Table, cap: nat,
                 chunkLength: nat, maxChunk: nat, chunkKeep: nat, offset: nat)
    returns (bufs: Bufs, deflater: Deflater, inflater: Inflater)
    requires ValidTables(tables) && HuffmanCodec.Follows(tables.code, decode) && cap <= UINT32_MAX
    requires 1 <= chunkKeep <= maxChunk && FRAME_HDLEN <= offset && 5 <= chunkLength - offset
    requires chunkLength <= MAX_PAYLOAD
    ensures Linked(bufs, deflater, inflater) && deflater.State() == InitialDeflating(cap)
    ensures inflater.Abs() == InitialInflating() && deflater.ctx.tables == tables
    ensures bufs.chunkLength == chunkLength && bufs.maxChunk == maxChunk && bufs.offset == offset
  {
    hide Bufs.Valid, HuffmanCodec.Follows, ValidTables;
    bufs := new Bufs(chunkLength, maxChunk, chunkKeep, offset);
    deflater := MakeDeflater(bufs, tables, cap);
    inflater := MakeInflater(bufs, deflater, tables, decode, cap);
  }

  method MakeDeflater(bufs: Bufs, tables: Tables, cap: nat) returns (deflater: Deflater)
    requires bufs.Valid() && ValidTables(tables) && cap <= UINT32_MAX
    ensures bufs.Valid() && Able(deflater, bufs, []) && !deflater.ctx.bad
    ensures deflater.State() == InitialDeflating(cap) && deflater.ctx.tables == tables
  {
    assert bufs in bufs.Repr;
    deflater := new Deflater(tables, cap);
    deflater.ContextOwned();
    assert deflater.State().leastMax == UINT32_MAX;
    hide Bufs.Valid, Deflater.Valid, ValidTables, Deflater.State;
  }

  method MakeInflater(bufs: Bufs, deflater: Deflater, tables: Tables, decode: HuffmanCodec.Table, cap: nat)
    returns (inflater: Inflater)
    requires bufs.Valid() && Able(deflater, bufs, []) && !deflater.ctx.bad && Usable(bufs)
    requires deflater.State() == InitialDeflating(cap) && deflater.ctx.tables == tables
    requires ValidTables(tables) && HuffmanCodec.Follows(tables.code, decode)
    ensures Linked(bufs, deflater, inflater) && deflater.State() == InitialDeflating(cap)
    ensures inflater.Abs() == InitialInflating()
  {
    AbleFacts(deflater, bufs, []);
    InitiallyInSync(cap);
    hide Bufs.Valid, Able, Deflater.State, InSync, Usable, HuffmanCodec.Follows, ValidTables;
    inflater := new Inflater(tables, decode);
    NewIsQuiet(inflater);
    hide Quiet, Inflater.Valid;
    IsLinked(bufs, deflater, inflater, InitialInflating());
  }

  lemma NewIsQuiet(inflater: Inflater)
    requires inflater.Fit() && !inflater.ctx.bad && inflater.Abs() == InitialInflating()
    ensures Quiet(inflater, InitialInflating()) && inflater.ctx in inflater.ctx.Repr
  {
    InitialIsValid();
    hide InflateMachine.Valid;
  }

  lemma InitialIsValid()
    ensures InflateMachine.Valid(InitialInflating())
  {
  }

  // ---------------------------------------------------------------- a setting

  lemma LinkedParts(bufs: Bufs, deflater: Deflater, inflater: Inflater)
    requires Linked(bufs, deflater, inflater)
    ensures bufs.Valid() && Usable(bufs) && Able(deflater, bufs, []) && !deflater.ctx.bad
    ensures Quiet(inflater, inflater.Abs()) && TwoEnds(bufs, deflater, inflater)
    ensures deflater.ctx.tables == inflater.ctx.tables && InSync(deflater.State(), inflater.Abs())
    ensures ValidTables(deflater.ctx.tables)
  {
    AbleFacts(deflater, bufs, []);
  }

  /** A setting at the sender leaves everything else alone. */
  method ResizeSender(bufs: Bufs, deflater: Deflater, inflater: Inflater, size: nat,
                      ghost d0: Deflating, ghost s0: Inflating, ghost before: set<object>)
    requires bufs.Valid() && Able(deflater, bufs, []) && !deflater.ctx.bad && d0 == deflater.State()
    requires Quiet(inflater, s0) && TwoEnds(bufs, deflater, inflater) && before == Everything(bufs, deflater, inflater)
    modifies deflater`notify, deflater`leastMax, deflater.ctx.Repr
    ensures bufs.Valid() && Able(deflater, bufs, []) && !deflater.ctx.bad
    ensures deflater.State() == ChangeDeflateSize(d0, size)
    ensures Quiet(inflater, s0) && TwoEnds(bufs, deflater, inflater) && before == Everything(bufs, deflater, inflater)
  {
    AbleFacts(deflater, bufs, []);
    hide Bufs.Valid, Quiet, Inflater.Footprint, ValidTables, Deflater.Valid;
    deflater.ChangeTableSize(size);
    assert deflater.leastMax <= UINT32_MAX;
  }

  /** A setting at the receiver, which accepts it. */
  method ResizeReceiver(bufs: Bufs, deflater: Deflater, inflater: Inflater, size: uint32,
                        ghost d: Deflating, ghost s0: Inflating, ghost before: set<object>)
    requires bufs.Valid() && Able(deflater, bufs, []) && !deflater.ctx.bad && d == deflater.State()
    requires Quiet(inflater, s0) && TwoEnds(bufs, deflater, inflater) && before == Everything(bufs, deflater, inflater)
    requires ChangeInflateSize(s0, size).Some?
    modifies inflater.Footprint()
    ensures bufs.Valid() && Able(deflater, bufs, []) && !deflater.ctx.bad && d == deflater.State()
    ensures Quiet(inflater, ChangeInflateSize(s0, size).value)
    ensures TwoEnds(bufs, deflater, inflater) && before == Everything(bufs, deflater, inflater)
  {
    AbleFacts(deflater, bufs, []);
    hide Bufs.Valid, Able, Inflater.Valid, Inflater.Abs, Deflater.State, ChangeInflateSize;
    var rv := inflater.ChangeTableSize(size);
  }

  method Resize(bufs: Bufs, deflater: Deflater, inflater: Inflater, size: uint32, ghost d0: Deflating,
                ghost before: set<object>)
    requires Linked(bufs, deflater, inflater) && d0 == deflater.State()
    requires before == Everything(bufs, deflater, inflater)
    modifies deflater`notify, deflater`leastMax, deflater.ctx.Repr, inflater.Footprint()
    ensures Linked(bufs, deflater, inflater) && deflater.State() == ChangeDeflateSize(d0, size)
    ensures before == Everything(bufs, deflater, inflater)
  {
    ghost var s0 := inflater.Abs();
    LinkedParts(bufs, deflater, inflater);
    ResizeKeepsSync(d0, s0, size);
    hide *;
    ResizeSender(bufs, deflater, inflater, size, d0, s0, before);
    ResizeReceiver(bufs, deflater, inflater, size, ChangeDeflateSize(d0, size), s0, before);
    IsLinked(bufs, deflater, inflater, ChangeInflateSize(s0, size).value);
  }

  lemma IsLinked(bufs: Bufs, deflater: Deflater, inflater: Inflater, s: Inflating)
    requires bufs.Valid() && Usable(bufs) && Able(deflater, bufs, []) && !deflater.ctx.bad
    requires Quiet(inflater, s) && TwoEnds(bufs, deflater, inflater)
    requires deflater.ctx.tables == inflater.ctx.tables && InSync(deflater.State(), s)
    ensures Linked(bufs, deflater, inflater)
  {
  }

  // ---------------------------------------------------------------- a block

  /** The buffers are emptied for the next block. */
  method Clean(bufs: Bufs, deflater: Deflater, inflater: Inflater, ghost d0: Deflating, ghost before: set<object>)
    requires Linked(bufs, deflater, inflater) && d0 == deflater.State()
    requires before == Everything(bufs, deflater, inflater)
    modifies bufs.Repr
    ensures Fresh(bufs) && bufs.Room() == Capacity(bufs)
    ensures Linked(bufs, deflater, inflater) && deflater.State() == d0 && before == Everything(bufs, deflater, inflater)
  {
    ghost var s0 := inflater.Abs();
    LinkedParts(bufs, deflater, inflater);
    AbleFacts(deflater, bufs, []);
    assert bufs.offset < bufs.chunkLength && FRAME_HDLEN <= bufs.offset;
    hide Linked, Quiet, Able, InSync, Inflater.Abs, Deflater.State, Bufs.Valid, Bufs.Room, ValidTables, Usable;
    bufs.Reset();
    IsLinked(bufs, deflater, inflater, s0);
  }

  /** One event; `got` is the block that arrived, if it was one. */
  method OneEvent(bufs: Bufs, flags: byte, streamId: uint32, ps: PrioritySpec, deflater: Deflater, inflater: Inflater,
                  e: Event, ghost p: Tables, ghost d0: Deflating, ghost before: set<object>)
    returns (ok: bool, got: seq<seq<Field>>)
    requires Linked(bufs, deflater, inflater) && d0 == deflater.State()
    requires before == Everything(bufs, deflater, inflater)
    requires p == deflater.ctx.tables && ValidTables(p) && Acceptable(p, flags, streamId, e)
    modifies deflater`notify, deflater`leastMax, deflater.ctx.Repr, bufs.Repr, inflater.Footprint()
    ensures fresh(Everything(bufs, deflater, inflater) - before)
    ensures Happened(bufs, deflater, inflater, p, d0, e, Capacity(bufs) - FrontLength(flags), ok, got)
  {
    match e {
      case Setting(size) =>
        hide *;
        Resize(bufs, deflater, inflater, size, d0, before);
        SettingHappened(bufs, deflater, inflater, p, d0, size, Capacity(bufs) - FrontLength(flags));
        return true, [];
      case Block(fields) =>
        assert Deliverable(p, flags, streamId, fields);
        EverythingIs(bufs, deflater, inflater);
        hide *;
        ok, got := OneBlock(bufs, flags, streamId, ps, deflater, inflater, fields, p, d0, before);
    }
  }

  method OneBlock(bufs: Bufs, flags: byte, streamId: uint32, ps: PrioritySpec, deflater: Deflater, inflater: Inflater,
                  fields: seq<Field>, ghost p: Tables, ghost d0: Deflating, ghost before: set<object>)
    returns (ok: bool, got: seq<seq<Field>>)
    requires Linked(bufs, deflater, inflater) && d0 == deflater.State()
    requires before == Everything(bufs, deflater, inflater)
    requires p == deflater.ctx.tables && ValidTables(p) && Deliverable(p, flags, streamId, fields)
    modifies deflater`notify, deflater`leastMax, deflater.ctx.Repr, bufs.Repr, inflater.Footprint()
    ensures fresh(Everything(bufs, deflater, inflater) - before)
    ensures Happened(bufs, deflater, inflater, p, d0, Block(fields), Capacity(bufs) - FrontLength(flags), ok, got)
  {
    EverythingIs(bufs, deflater, inflater);
    hide *;
    Clean(bufs, deflater, inflater, d0, before);
    EverythingIs(bufs, deflater, inflater);
    label Cleaned:
    ok, got := CleanBlock(bufs, flags, streamId, ps, deflater, inflater, fields, p, d0, before);
    ghost var all := Everything(bufs, deflater, inflater);
    ghost var added := all - before;
    assert forall o :: o in added ==> !old@Cleaned(allocated(o));
    assert forall o :: o in added ==> !old(allocated(o));
    assert fresh(added);
    assert forall o :: o in all && o !in before ==> o in added;
  }

  method CleanBlock(bufs: Bufs, flags: byte, streamId: uint32, ps: PrioritySpec, deflater: Deflater, inflater: Inflater,
                    fields: seq<Field>, ghost p: Tables, ghost d0: Deflating, ghost before: set<object>)
    returns (ok: bool, got: seq<seq<Field>>)
    requires Fresh(bufs) && bufs.Room() == Capacity(bufs)
    requires Linked(bufs, deflater, inflater) && d0 == deflater.State()
    requires before == Everything(bufs, deflater, inflater)
    requires p == deflater.ctx.tables && ValidTables(p) && Deliverable(p, flags, streamId, fields)
    modifies deflater`notify, deflater`leastMax, deflater.ctx.Repr, bufs.Repr, inflater.Footprint()
    ensures fresh(Everything(bufs, deflater, inflater) - before)
    ensures Happened(bufs, deflater, inflater, p, d0, Block(fields), Capacity(bufs) - FrontLength(flags), ok, got)
  {
    hide *;
    var rv, arrived, nvs := SendAndReceive(bufs, flags, streamId, ps, deflater, inflater, fields, before);
    BlockHappened(bufs, deflater, inflater, p, d0, fields, Capacity(bufs), flags, rv, arrived, nvs);
    ok, got := rv == OK, [nvs];
  }

  /** How an event leaves the objects. */
  ghost predicate Happened(bufs: Bufs, deflater: Deflater, inflater: Inflater, p: Tables, d0: Deflating, e: Event,
                           room: int, ok: bool, got: seq<seq<Field>>)
    reads bufs, bufs.Repr, deflater, deflater.ctx, deflater.ctx.Repr
    reads inflater, inflater.ctx, inflater.ctx.Repr, inflater.huff
    reads inflater.namebuf, inflater.namebuf.mem, inflater.valuebuf, inflater.valuebuf.mem
  {
    && ValidTables(p) && ok == FitsRoom(p, d0, e, room)
    && (ok ==>
          && Linked(bufs, deflater, inflater) && deflater.State() == NextDeflating(p, d0, e) && got == Arriving(p, e)
          && (e.Block? ==> TablesAgree(deflater.State(), inflater.Abs())))
  }

  predicate TablesAgree(d: Deflating, s: Inflating) {
    d.table == s.table && d.max == s.max
  }

  lemma SettingHappened(bufs: Bufs, deflater: Deflater, inflater: Inflater, p: Tables, d0: Deflating, size: uint32,
                        room: int)
    requires ValidTables(p) && Linked(bufs, deflater, inflater) && deflater.State() == ChangeDeflateSize(d0, size)
    ensures Happened(bufs, deflater, inflater, p, d0, Setting(size), room, true, [])
  {
    hide Linked, ValidTables, ChangeDeflateSize;
  }

  lemma BlockHappened(bufs: Bufs, deflater: Deflater, inflater: Inflater, p: Tables, d0: Deflating, fields: seq<Field>,
                      room: int, flags: byte, rv: Status, ok: bool, nvs: seq<Field>)
    requires p == deflater.ctx.tables && Arrived(bufs, deflater, inflater, d0, room, flags, fields, rv, ok, nvs)
    ensures Happened(bufs, deflater, inflater, p, d0, Block(fields), room - FrontLength(flags), rv == OK, [nvs])
  {
    hide Linked, ValidTables, DeflateBlock;
  }

  // ---------------------------------------------------------------- a whole connection

  /** With the events before i handled, these blocks received, the rest is still to come. */
  ghost predicate Underway(bufs: Bufs, deflater: Deflater, inflater: Inflater, p: Tables, d0: Deflating,
                           events: seq<Event>, i: nat, room: int, got: seq<seq<Field>>)
    reads bufs, bufs.Repr, deflater, deflater.ctx, deflater.ctx.Repr
    reads inflater, inflater.ctx, inflater.ctx.Repr, inflater.huff
    reads inflater.namebuf, inflater.namebuf.mem, inflater.valuebuf, inflater.valuebuf.mem
  {
    && i <= |events| && p == deflater.ctx.tables && ValidTables(p) && Linked(bufs, deflater, inflater)
    && got + Expected(p, events[i..]) == Expected(p, events)
    && (AllFitRoom(p, d0, events, room) <==> AllFitRoom(p, deflater.State(), events[i..], room))
    && (i > 0 && events[i - 1].Block? ==> TablesAgree(deflater.State(), inflater.Abs()))
  }

  lemma UnderwayStart(bufs: Bufs, deflater: Deflater, inflater: Inflater, events: seq<Event>, room: int)
    requires Linked(bufs, deflater, inflater)
    ensures Underway(bufs, deflater, inflater, deflater.ctx.tables, deflater.State(), events, 0, room, [])
  {
    LinkedParts(bufs, deflater, inflater);
    hide Linked, Expected, AllFitRoom, Deflater.State, Inflater.Abs;
    assert events[0..] == events;
  }

  /** An event less. */
  lemma OneLess(p: Tables, d: Deflating, events: seq<Event>, i: nat, room: int)
    requires ValidTables(p) && i < |events|
    ensures Expected(p, events[i..]) == Arriving(p, events[i]) + Expected(p, events[i + 1..])
    ensures AllFitRoom(p, d, events[i..], room)
      <==> FitsRoom(p, d, events[i], room) && AllFitRoom(p, NextDeflating(p, d, events[i]), events[i + 1..], room)
  {
    hide Arriving, FitsRoom, NextDeflating;
    assert events[i..][0] == events[i] && events[i..][1..] == events[i + 1..];
  }

  lemma UnderwayStep(bufs: Bufs, deflater: Deflater, inflater: Inflater, p: Tables, d0: Deflating, d: Deflating,
                     events: seq<Event>, i: nat, room: int, got: seq<seq<Field>>, ok: bool, more: seq<seq<Field>>)
    requires i < |events| && ValidTables(p) && p == deflater.ctx.tables
    requires got + Expected(p, events[i..]) == Expected(p, events)
    requires AllFitRoom(p, d0, events, room) <==> AllFitRoom(p, d, events[i..], room)
    requires Happened(bufs, deflater, inflater, p, d, events[i], room, ok, more)
    ensures ok ==> Underway(bufs, deflater, inflater, p, d0, events, i + 1, room, got + more)
    ensures !ok ==> !AllFitRoom(p, d0, events, room)
  {
    OneLess(p, d, events, i, room);
    hide Linked, Expected, AllFitRoom, Arriving, FitsRoom, NextDeflating, Deflater.State, Inflater.Abs, TablesAgree;
    Associative(got, Arriving(p, events[i]), Expected(p, events[i + 1..]));
  }

  lemma UnderwayEnd(bufs: Bufs, deflater: Deflater, inflater: Inflater, p: Tables, d0: Deflating, events: seq<Event>,
                    room: int, got: seq<seq<Field>>)
    requires Underway(bufs, deflater, inflater, p, d0, events, |events|, room, got)
    ensures AllFitRoom(p, d0, events, room) && got == Expected(p, events) && Linked(bufs, deflater, inflater)
    ensures events != [] && events[|events| - 1].Block? ==> TablesAgree(deflater.State(), inflater.Abs())
  {
    hide Linked, TablesAgree, Deflater.State, Inflater.Abs;
    assert events[|events|..] == [] && got + [] == got;
  }

  /**
   * Any run of settings and blocks on two linked objects: it goes through exactly when every block fits the
   * buffers, and then every block arrives as sent, the ends are still in step, and after a block their
   * tables are equal.
   */
  method Converse(bufs: Bufs, flags: byte, streams: seq<uint32>, ps: PrioritySpec, deflater: Deflater,
                  inflater: Inflater, events: seq<Event>) returns (ok: bool, got: seq<seq<Field>>)
    requires Linked(bufs, deflater, inflater) && ValidTables(deflater.ctx.tables) && |streams| == |events|
    requires forall i | 0 <= i < |events| :: Acceptable(deflater.ctx.tables, flags, streams[i], events[i])
    modifies deflater`notify, deflater`leastMax, deflater.ctx.Repr, bufs.Repr, inflater.Footprint()
    ensures var p, room := deflater.ctx.tables, Capacity(bufs) - FrontLength(flags);
      && ok == AllFitRoom(p, old(deflater.State()), events, room)
      && (ok ==> got == Expected(p, events) && Linked(bufs, deflater, inflater)
                 && (events != [] && events[|events| - 1].Block? ==> TablesAgree(deflater.State(), inflater.Abs())))
  {
    ghost var p, d0, room := deflater.ctx.tables, deflater.State(), Capacity(bufs) - FrontLength(flags);
    UnderwayStart(bufs, deflater, inflater, events, room);
    hide *;
    ok, got := Continue(bufs, flags, streams, ps, deflater, inflater, events, 0, [], p, d0, room);
  }

  /** From the event at i on, with `before` received so far. */
  method Continue(bufs: Bufs, flags: byte, streams: seq<uint32>, ps: PrioritySpec, deflater: Deflater,
                  inflater: Inflater,
                  events: seq<Event>, i: nat, before: seq<seq<Field>>, ghost p: Tables, ghost d0: Deflating,
                  ghost room: int)
    returns (ok: bool, got: seq<seq<Field>>)
    requires Underway(bufs, deflater, inflater, p, d0, events, i, room, before) && i <= |events| == |streams|
    requires ValidTables(p) && room == Capacity(bufs) - FrontLength(flags)
    requires forall j | 0 <= j < |events| :: Acceptable(p, flags, streams[j], events[j])
    modifies deflater`notify, deflater`leastMax, deflater.ctx.Repr, bufs.Repr, inflater.Footprint()
    ensures ok == AllFitRoom(p, d0, events, room)
    ensures ok ==> got == Expected(p, events) && Linked(bufs, deflater, inflater)
    ensures ok && events != [] && events[|events| - 1].Block? ==> TablesAgree(deflater.State(), inflater.Abs())
    decreases |events| - i
  {
    if i == |events| {
      UnderwayEnd(bufs, deflater, inflater, p, d0, events, room, before);
      return true, before;
    }
    EverythingIs(bufs, deflater, inflater);
    hide *;
    ok, got := Advance(bufs, flags, streams[i], ps, deflater, inflater, events, i, before, p, d0, room,
                       Everything(bufs, deflater, inflater));
    if ok {
      EverythingIs(bufs, deflater, inflater);
      ok, got := Continue(bufs, flags, streams, ps, deflater, inflater, events, i + 1, got, p, d0, room);
    }
  }

  lemma UnderwayFacts(bufs: Bufs, deflater: Deflater, inflater: Inflater, p: Tables, d0: Deflating, events: seq<Event>,
                      i: nat, room: int, got: seq<seq<Field>>)
    requires Underway(bufs, deflater, inflater, p, d0, events, i, room, got)
    ensures i <= |events| && p == deflater.ctx.tables && ValidTables(p) && Linked(bufs, deflater, inflater)
    ensures got + Expected(p, events[i..]) == Expected(p, events)
    ensures AllFitRoom(p, d0, events, room) <==> AllFitRoom(p, deflater.State(), events[i..], room)
  {
    hide Linked, Expected, AllFitRoom, Deflater.State, Inflater.Abs, TablesAgree;
  }

  /** The event at i. */
  method Advance(bufs: Bufs, flags: byte, streamId: uint32, ps: PrioritySpec, deflater: Deflater, inflater: Inflater,
                 events: seq<Event>, i: nat, got: seq<seq<Field>>, ghost p: Tables, ghost d0: Deflating,
                 ghost room: int, ghost before: set<object>)
    returns (ok: bool, all: seq<seq<Field>>)
    requires Underway(bufs, deflater, inflater, p, d0, events, i, room, got) && i < |events|
    requires ValidTables(p) && Acceptable(p, flags, streamId, events[i]) && room == Capacity(bufs) - FrontLength(flags)
    requires before == Everything(bufs, deflater, inflater)
    modifies deflater`notify, deflater`leastMax, deflater.ctx.Repr, bufs.Repr, inflater.Footprint()
    ensures fresh(Everything(bufs, deflater, inflater) - before)
    ensures ok ==> Underway(bufs, deflater, inflater, p, d0, events, i + 1, room, all)
    ensures !ok ==> !AllFitRoom(p, d0, events, room)
  {
    UnderwayFacts(bufs, deflater, inflater, p, d0, events, i, room, got);
    ghost var d := deflater.State();
    EverythingIs(bufs, deflater, inflater);
    hide *;
    var more;
    ok, more := OneEvent(bufs, flags, streamId, ps, deflater, inflater, events[i], p, d, before);
    UnderwayStep(bufs, deflater, inflater, p, d0, d, events, i, room, got, ok, more);
    all := got + more;
  }
}
