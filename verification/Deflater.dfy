/**
 * The deflater as the original runs it: fields looked up in the index, stored in the
 * ring buffer, and written into the chained output buffers.
 */
module Deflaters {
  import opened Common
  import opened DynamicTable
  import opened Hpack
  import opened BufChain
  import opened HdContext
  import HashIndex
  import HuffmanCodec
  import PrefixInt

  // ---------------------------------------------------------------- what a write does

  /** As much of the code as there was room for now follows what was there before. */
  predicate Sent(rv: Status, before: Bytes, room: int, code: Bytes, after: Bytes, roomAfter: int) {
    && rv == (if |code| <= room then OK else BufferError) && 0 <= room
    && after == before + code[..Min(|code|, room)] && roomAfter == room - Min(|code|, room)
  }

  lemma SentNothing(before: Bytes, room: nat)
    ensures Sent(OK, before, room, [], before, room)
  {
  }

  /** One write after another. */
  lemma SentThen(rv: Status, a: Bytes, r: int, x: Bytes, b: Bytes, s: int, y: Bytes, c: Bytes, t: int)
    requires Sent(OK, a, r, x, b, s) && Sent(rv, b, s, y, c, t)
    ensures Sent(rv, a, r, x + y, c, t)
  {
    var n := Min(|x + y|, r);
    assert x[..Min(|x|, r)] == x;
    assert (x + y)[..n] == x + y[..n - |x|];
    Associative(a, x, y[..n - |x|]);
  }

  /** After a write that failed nothing more is written. */
  lemma SentShort(rv: Status, a: Bytes, r: int, x: Bytes, b: Bytes, s: int, y: Bytes)
    requires Sent(rv, a, r, x, b, s) && rv != OK
    ensures Sent(rv, a, r, x + y, b, s)
  {
    assert (x + y)[..r] == x[..r];
  }

  /** The buffers are in order and still begin where they did. */
  ghost predicate Grown(bufs: Bufs, head: Chunk, parts: seq<Part>)
    reads bufs, bufs.Repr
  {
    bufs.Valid() && bufs.Roomy() && bufs.head == head && SamePlaces(parts, bufs.parts, bufs.offset)
  }

  lemma GrownStart(bufs: Bufs)
    requires bufs.Valid() && bufs.Roomy()
    ensures Grown(bufs, bufs.head, bufs.parts)
  {
    SamePlacesRefl(bufs.parts, bufs.offset);
  }

  lemma GrownFacts(bufs: Bufs, head: Chunk, parts: seq<Part>)
    requires Grown(bufs, head, parts)
    ensures bufs.Valid() && bufs.Roomy() && bufs.head == head && SamePlaces(parts, bufs.parts, bufs.offset)
  {
  }

  lemma GrownThen(bufs: Bufs, head: Chunk, parts: seq<Part>, mid: seq<Part>)
    requires SamePlaces(parts, mid, bufs.offset) && Grown(bufs, head, mid)
    ensures Grown(bufs, head, parts)
  {
    SamePlacesTrans(parts, mid, bufs.parts, bufs.offset);
  }

  // ---------------------------------------------------------------- representations into the buffers

  /** An octet with room for a prefixed integer, as every emitter begins. */
  method EmitInteger(bufs: Bufs, first: byte, n: nat, prefix: nat) returns (rv: Status)
    requires bufs.Valid() && bufs.Roomy() && PrefixInt.IsPrefix(prefix) && n <= UINT32_MAX + 1
    modifies bufs.Repr
    ensures Grown(bufs, old(bufs.head), old(bufs.parts)) && fresh(bufs.Repr - old(bufs.Repr))
    ensures Sent(rv, old(bufs.Contents()), old(bufs.Room()), PrefixInt.Encode(first, n, prefix),
                 bufs.Contents(), bufs.Room())
  {
    hide PrefixInt.Encode, Bufs.Valid, SamePlaces, Bufs.Contents, Bufs.Room;
    var blocklen := PrefixInt.CountEncodedLength(n, prefix);
    ShortInteger(first, n, prefix);
    var sb := new byte[16](_ => 0);
    if sb.Length < blocklen {
      assert false;
    }
    sb[0] := first;
    var len := PrefixInt.EncodeLength(sb, n, prefix);
    rv := bufs.Add(sb[..blocklen]);
  }

  lemma ShortInteger(first: byte, n: nat, prefix: nat)
    requires PrefixInt.IsPrefix(prefix) && n <= UINT32_MAX + 1
    ensures |PrefixInt.Encode(first, n, prefix)| <= 6
  {
    Pow2At32();
    Pow2Sum(32, 3);
    assert Pow2(3) == 8;
    if n >= PrefixInt.Mask(prefix) {
      PrefixInt.GroupsLength(n - PrefixInt.Mask(prefix), 5);
    }
  }

  /** The octets of a string after its length. */
  function StringBody(p: Tables, str: Bytes, huffman: bool): Bytes
    requires ValidTables(p)
  {
    if huffman then Huffman.Encode(p.code, str) else str
  }

  function CodedString(p: Tables, str: Bytes, huffman: bool, enclen: nat): Bytes
    requires ValidTables(p)
  {
    PrefixInt.Encode(if huffman then 0x80 else 0, enclen, 7) + StringBody(p, str, huffman)
  }

  lemma StringInTwo(p: Tables, str: Bytes, huffman: bool, enclen: nat)
    requires ValidTables(p) && huffman == (|Huffman.Encode(p.code, str)| < |str|)
    requires enclen == if huffman then |Huffman.Encode(p.code, str)| else |str|
    ensures EncodeString(p, str) == CodedString(p, str, huffman, enclen)
  {
    hide PrefixInt.Encode, Huffman.Encode;
  }

  method EmitOctets(p: Tables, bufs: Bufs, str: Bytes, huffman: bool) returns (rv: Status)
    requires bufs.Valid() && bufs.Roomy() && ValidTables(p)
    modifies bufs.Repr
    ensures Grown(bufs, old(bufs.head), old(bufs.parts)) && fresh(bufs.Repr - old(bufs.Repr))
    ensures Sent(rv, old(bufs.Contents()), old(bufs.Room()), StringBody(p, str, huffman),
                 bufs.Contents(), bufs.Room())
  {
    hide Huffman.Encode, Huffman.ValidCode, Bufs.Valid, Bufs.Roomy, SamePlaces, Bufs.Contents, Bufs.Room;
    if huffman {
      rv := HuffmanCodec.EncodeTo(p.code, bufs, str);
    } else {
      rv := bufs.Add(str);
    }
  }

  /** A string once it is known how it is to be coded: its length, then its octets. */
  method EmitCoded(p: Tables, bufs: Bufs, str: Bytes, huffman: bool, enclen: nat) returns (rv: Status)
    requires bufs.Valid() && bufs.Roomy() && ValidTables(p) && enclen <= UINT32_MAX
    modifies bufs.Repr
    ensures Grown(bufs, old(bufs.head), old(bufs.parts)) && fresh(bufs.Repr - old(bufs.Repr))
    ensures Sent(rv, old(bufs.Contents()), old(bufs.Room()), CodedString(p, str, huffman, enclen),
                 bufs.Contents(), bufs.Room())
  {
    hide ValidTables, StringBody, Bufs.Valid, Bufs.Roomy, SamePlaces, Bufs.Contents, Bufs.Room, Sent, PrefixInt.Encode;
    ghost var before, room, parts := bufs.Contents(), bufs.Room(), bufs.parts;
    var first: byte := if huffman then 0x80 else 0;
    ghost var length, body := PrefixInt.Encode(first, enclen, 7), StringBody(p, str, huffman);
    rv := EmitInteger(bufs, first, enclen, 7);
    if rv != OK {
      SentShort(rv, before, room, length, bufs.Contents(), bufs.Room(), body);
      return;
    }
    ghost var mid, left, places := bufs.Contents(), bufs.Room(), bufs.parts;
    rv := EmitOctets(p, bufs, str, huffman);
    GrownThen(bufs, bufs.head, parts, places);
    SentThen(rv, before, room, length, mid, left, body, bufs.Contents(), bufs.Room());
  }

  /** `emit_string`. */
  method EmitString(p: Tables, bufs: Bufs, str: Bytes) returns (rv: Status)
    requires bufs.Valid() && bufs.Roomy() && ValidTables(p) && |str| <= UINT32_MAX
    modifies bufs.Repr
    ensures Grown(bufs, old(bufs.head), old(bufs.parts)) && fresh(bufs.Repr - old(bufs.Repr))
    ensures Sent(rv, old(bufs.Contents()), old(bufs.Room()), EncodeString(p, str), bufs.Contents(), bufs.Room())
  {
    CodeIsWhole(p);
    hide *;
    var enclen := HuffmanCodec.EncodeCount(p.code, str);
    var huffman := enclen < |str|;
    if !huffman {
      enclen := |str|;
    }
    StringInTwo(p, str, huffman, enclen);
    rv := EmitCoded(p, bufs, str, huffman, enclen);
  }

  lemma CodeIsWhole(p: Tables)
    requires ValidTables(p)
    ensures |p.code| == 257 && Huffman.ValidCode(p.code) && PrefixInt.IsPrefix(7)
  {
  }

  /** `emit_indname_block`. */
  method EmitIndname(p: Tables, bufs: Bufs, i: nat, value: Bytes, mode: Indexing) returns (rv: Status)
    requires bufs.Valid() && bufs.Roomy() && ValidTables(p) && |value| <= UINT32_MAX && i <= UINT32_MAX
    modifies bufs.Repr
    ensures Grown(bufs, old(bufs.head), old(bufs.parts)) && fresh(bufs.Repr - old(bufs.Repr))
    ensures Sent(rv, old(bufs.Contents()), old(bufs.Room()), EncodeRepr(p, IndexedName(i, value, mode)),
                 bufs.Contents(), bufs.Room())
  {
    hide ValidTables, EncodeString, Bufs.Valid, Bufs.Roomy, SamePlaces, Bufs.Contents, Bufs.Room, Sent;
    hide PrefixInt.Encode;
    ghost var before, room, parts := bufs.Contents(), bufs.Room(), bufs.parts;
    var prefixlen := if mode == WithIndexing then 6 else 4;
    ghost var index := PrefixInt.Encode(FirstOctet(mode), i + 1, prefixlen);
    rv := EmitInteger(bufs, FirstOctet(mode), i + 1, prefixlen);
    if rv != OK {
      SentShort(rv, before, room, index, bufs.Contents(), bufs.Room(), EncodeString(p, value));
      return;
    }
    ghost var mid, left, places := bufs.Contents(), bufs.Room(), bufs.parts;
    rv := EmitString(p, bufs, value);
    GrownThen(bufs, bufs.head, parts, places);
    SentThen(rv, before, room, index, mid, left, EncodeString(p, value), bufs.Contents(), bufs.Room());
  }

  method EmitOctet(bufs: Bufs, b: byte) returns (rv: Status)
    requires bufs.Valid() && bufs.Roomy()
    modifies bufs.Repr
    ensures Grown(bufs, old(bufs.head), old(bufs.parts)) && fresh(bufs.Repr - old(bufs.Repr))
    ensures Sent(rv, old(bufs.Contents()), old(bufs.Room()), [b], bufs.Contents(), bufs.Room())
  {
    hide Bufs.Valid, Bufs.Roomy, SamePlaces, Bufs.Contents, Bufs.Room;
    bufs.RoomIsNat();
    bufs.RoomyIsEnough();
    rv := bufs.Addb(b);
  }

  method EmitStrings(p: Tables, bufs: Bufs, name: Bytes, value: Bytes) returns (rv: Status)
    requires bufs.Valid() && bufs.Roomy() && ValidTables(p) && |name| <= UINT32_MAX && |value| <= UINT32_MAX
    modifies bufs.Repr
    ensures Grown(bufs, old(bufs.head), old(bufs.parts)) && fresh(bufs.Repr - old(bufs.Repr))
    ensures Sent(rv, old(bufs.Contents()), old(bufs.Room()), EncodeString(p, name) + EncodeString(p, value),
                 bufs.Contents(), bufs.Room())
  {
    hide ValidTables, EncodeString, Bufs.Valid, Bufs.Roomy, SamePlaces, Bufs.Contents, Bufs.Room, Sent;
    ghost var before, room, parts := bufs.Contents(), bufs.Room(), bufs.parts;
    rv := EmitString(p, bufs, name);
    if rv != OK {
      SentShort(rv, before, room, EncodeString(p, name), bufs.Contents(), bufs.Room(), EncodeString(p, value));
      return;
    }
    ghost var mid, left, places := bufs.Contents(), bufs.Room(), bufs.parts;
    rv := EmitString(p, bufs, value);
    GrownThen(bufs, bufs.head, parts, places);
    SentThen(rv, before, room, EncodeString(p, name), mid, left, EncodeString(p, value), bufs.Contents(), bufs.Room());
  }

  /** `emit_newname_block`. */
  method EmitNewname(p: Tables, bufs: Bufs, name: Bytes, value: Bytes, mode: Indexing) returns (rv: Status)
    requires bufs.Valid() && bufs.Roomy() && ValidTables(p) && |name| <= UINT32_MAX && |value| <= UINT32_MAX
    modifies bufs.Repr
    ensures Grown(bufs, old(bufs.head), old(bufs.parts)) && fresh(bufs.Repr - old(bufs.Repr))
    ensures Sent(rv, old(bufs.Contents()), old(bufs.Room()), EncodeRepr(p, NewName(name, value, mode)),
                 bufs.Contents(), bufs.Room())
  {
    hide ValidTables, EncodeString, Bufs.Valid, Bufs.Roomy, SamePlaces, Bufs.Contents, Bufs.Room, Sent;
    ghost var before, room, parts := bufs.Contents(), bufs.Room(), bufs.parts;
    ghost var rest := EncodeString(p, name) + EncodeString(p, value);
    Associative([FirstOctet(mode)], EncodeString(p, name), EncodeString(p, value));
    rv := EmitOctet(bufs, FirstOctet(mode));
    if rv != OK {
      SentShort(rv, before, room, [FirstOctet(mode)], bufs.Contents(), bufs.Room(), rest);
      return;
    }
    ghost var mid, left, places := bufs.Contents(), bufs.Room(), bufs.parts;
    rv := EmitStrings(p, bufs, name, value);
    GrownThen(bufs, bufs.head, parts, places);
    SentThen(rv, before, room, [FirstOctet(mode)], mid, left, rest, bufs.Contents(), bufs.Room());
  }

  /** The table size updates a block begins with. */
  method EmitUpdates(bufs: Bufs, least: nat, max: nat) returns (rv: Status)
    requires bufs.Valid() && bufs.Roomy() && least <= UINT32_MAX && max <= UINT32_MAX
    modifies bufs.Repr
    ensures Grown(bufs, old(bufs.head), old(bufs.parts)) && fresh(bufs.Repr - old(bufs.Repr))
    ensures Sent(rv, old(bufs.Contents()), old(bufs.Room()), EncodeUpdates(if max > least then [least, max] else [max]),
                 bufs.Contents(), bufs.Room())
  {
    TwoUpdates(least, max);
    hide Bufs.Valid, Bufs.Roomy, Bufs.Contents, Bufs.Room, Sent, EncodeUpdates, SamePlaces, PrefixInt.Encode;
    ghost var before, room, parts := bufs.Contents(), bufs.Room(), bufs.parts;
    if max > least {
      rv := EmitInteger(bufs, 0x20, least, 5);
      if rv != OK {
        SentShort(rv, before, room, EncodeTableSize(least), bufs.Contents(), bufs.Room(), EncodeTableSize(max));
        return;
      }
      ghost var mid, left, places := bufs.Contents(), bufs.Room(), bufs.parts;
      rv := EmitInteger(bufs, 0x20, max, 5);
      GrownThen(bufs, bufs.head, parts, places);
      SentThen(rv, before, room, EncodeTableSize(least), mid, left, EncodeTableSize(max), bufs.Contents(), bufs.Room());
    } else {
      rv := EmitInteger(bufs, 0x20, max, 5);
    }
  }

  lemma TwoUpdates(least: nat, max: nat)
    ensures EncodeUpdates([max]) == EncodeTableSize(max)
    ensures EncodeUpdates([least, max]) == EncodeTableSize(least) + EncodeTableSize(max)
  {
    hide EncodeTableSize;
    assert [max][1..] == [] && [least, max][1..] == [max];
  }

  lemma NoUpdates()
    ensures EncodeUpdates([]) == []
  {
  }

  /** What the search and the mode come to is the model's choice, and the model's new table. */
  lemma PickedIsChoice(p: Tables, d: Deflating, nv: Field, mode: Indexing, res: Found)
    requires ValidTables(p) && mode == Mode(nv, Token(p, nv.name), d.max)
    requires res == Search(p, d.table, Entry(nv.name, nv.value), mode == NeverIndexing)
    ensures Picked(nv, mode, res) == Choose(p, d, nv)
    ensures AfterField(p, d, nv)
         == if !res.exact && mode == WithIndexing then d.(table := Add(d.table, Entry(nv.name, nv.value), d.max)) else d
  {
    hide Mode, Search, Token, ValidTables, Add;
  }

  lemma SearchFits(p: Tables, t: seq<Entry>, e: Entry, nameOnly: bool)
    requires ValidTables(p)
    ensures var res := Search(p, t, e, nameOnly);
      && -1 <= res.index < STATIC_LENGTH + |t|
      && (res.index >= 0 ==> Resolve(p, t, res.index).name == e.name)
  {
  }

  /** With `done` written and the deflater at d, fields from i on remain of the block. */
  ghost predicate FieldsLeft(p: Tables, d0: Deflating, nvs: seq<Field>, i: nat, done: Bytes, d: Deflating)
    requires ValidTables(p)
  {
    && i <= |nvs| && DeflateFields(p, d0, nvs).0 == DeflateFields(p, d, nvs[i..]).0
    && DeflateFields(p, d0, nvs).1 == done + DeflateFields(p, d, nvs[i..]).1
  }

  lemma FieldsStart(p: Tables, d: Deflating, nvs: seq<Field>)
    requires ValidTables(p)
    ensures FieldsLeft(p, d, nvs, 0, [], d)
  {
    hide DeflateFields;
    assert nvs[0..] == nvs;
  }

  lemma FieldsStep(p: Tables, d0: Deflating, nvs: seq<Field>, i: nat, done: Bytes, d: Deflating)
    requires ValidTables(p) && i < |nvs| && FieldsLeft(p, d0, nvs, i, done, d)
    ensures FieldsLeft(p, d0, nvs, i + 1, done + EncodeRepr(p, Choose(p, d, nvs[i])), AfterField(p, d, nvs[i]))
  {
    hide EncodeRepr, Choose, AfterField;
    assert nvs[i..][0] == nvs[i] && nvs[i..][1..] == nvs[i + 1..];
    var rest := DeflateFields(p, AfterField(p, d, nvs[i]), nvs[i + 1..]);
    Associative(done, EncodeRepr(p, Choose(p, d, nvs[i])), rest.1);
  }

  lemma FieldsRest(p: Tables, d0: Deflating, nvs: seq<Field>, i: nat, done: Bytes, d: Deflating) returns (rest: Bytes)
    requires ValidTables(p) && FieldsLeft(p, d0, nvs, i, done, d)
    ensures DeflateFields(p, d0, nvs).1 == done + rest
  {
    rest := DeflateFields(p, d, nvs[i..]).1;
  }

  lemma FieldsEnd(p: Tables, d0: Deflating, nvs: seq<Field>, done: Bytes, d: Deflating)
    requires ValidTables(p) && FieldsLeft(p, d0, nvs, |nvs|, done, d)
    ensures DeflateFields(p, d0, nvs).0 == d && DeflateFields(p, d0, nvs).1 == done
  {
    assert nvs[|nvs|..] == [];
    assert DeflateFields(p, d, []) == (d, []);
    hide DeflateFields;
  }

  // ---------------------------------------------------------------- the deflater

  /** `nghttp2_hd_deflater`. */
  class Deflater {
    const ctx: Context
    const cap: nat
    var leastMax: nat
    var notify: bool

    ghost predicate Valid()
      reads this, ctx, ctx.Repr
    {
      ctx.Valid() && ctx.index != null && this !in ctx.Repr && cap <= UINT32_MAX
    }

    /** The deflater as the functional model sees it. */
    ghost function State(): Deflating
      reads this, ctx
    {
      Deflating(ctx.Table(), ctx.bufsizeMax, cap, leastMax, notify)
    }

    /** `nghttp2_hd_deflate_init2`. */
    constructor (tables: Tables, cap: nat)
      requires ValidTables(tables) && cap <= UINT32_MAX
      ensures Valid() && fresh(ctx) && fresh(ctx.Repr) && ctx.tables == tables
      ensures State() == InitialDeflating(cap) && !ctx.bad
    {
      var c := new Context(tables, true);
      ctx := c;
      this.cap := cap;
      leastMax := UINT32_MAX;
      notify := cap < DEFAULT_MAX;
      new;
      if cap < DEFAULT_MAX {
        ctx.SetMax(cap);
        ctx.NothingTaken();
      }
    }

    /** `nghttp2_hd_deflate_change_table_size`. */
    method ChangeTableSize(size: nat)
      requires Valid()
      modifies this`notify, this`leastMax, ctx.Repr
      ensures Valid() && ctx.Repr == old(ctx.Repr) && ctx.bad == old(ctx.bad)
      ensures State() == ChangeDeflateSize(old(State()), size)
    {
      hide Context.Owned, Context.Ringed, Context.Indexed, Context.CountedAs, Context.Table;
      var next := Min(size, cap);
      ctx.SetMax(next);
      leastMax := Min(leastMax, next);
      notify := true;
      ctx.ShrinkTableSize();
    }

    /** `hd_deflate_decide_indexing` and what `deflate_nv` looks at before. */
    method DecideIndexing(nv: Field, token: int) returns (mode: Indexing)
      ensures mode == Mode(nv, token, ctx.bufsizeMax)
    {
      if token == AUTHORIZATION || (token == COOKIE && |nv.value| < 20) || nv.noIndex {
        return NeverIndexing;
      }
      if
        || token == PATH || token == AGE || token == CONTENT_LENGTH || token == ETAG
        || token == IF_MODIFIED_SINCE || token == IF_NONE_MATCH || token == LOCATION || token == SET_COOKIE
        || Room(Entry(nv.name, nv.value)) > ctx.bufsizeMax * 3 % SIZE_MODULUS / 4
      {
        return WithoutIndexing;
      }
      return WithIndexing;
    }

    /** The first half of `deflate_nv`: how the field is to be indexed, and what is found for it. */
    method Look(nv: Field) returns (token: int, hash: uint32, mode: Indexing, res: Found)
      requires Valid()
      ensures token == Token(ctx.tables, nv.name) && hash == HashIndex.HashFor(token, nv.name)
      ensures mode == Mode(nv, token, ctx.bufsizeMax)
      ensures res == Search(ctx.tables, ctx.Table(), Entry(nv.name, nv.value), mode == NeverIndexing)
      ensures -1 <= res.index < 0x1000_0000 && (res.exact ==> res.index >= 0)
    {
      TablesValid();
      hide Token, HashIndex.HashFor, Search, Mode, Context.Stored, Context.Counted, ValidTables, Context.Table;
      token := Token(ctx.tables, nv.name);
      hash := HashIndex.HashFor(token, nv.name);
      mode := DecideIndexing(nv, token);
      var e := Entry(nv.name, nv.value);
      res := ctx.SearchTable(e, token, mode == NeverIndexing, hash);
      IndexIsSmall();
    }

    /** The new entry, under the name already in the table if there is one. */
    method StoreNew(nv: Field, token: int, hash: uint32, index: int)
      requires Valid() && token == Token(ctx.tables, nv.name) && hash == HashIndex.HashFor(token, nv.name)
      requires -1 <= index < STATIC_LENGTH + |ctx.Table()|
      requires index >= 0 ==> Resolve(ctx.tables, ctx.Table(), index).name == nv.name
      modifies ctx.Repr
      ensures ctx.Valid() && fresh(ctx.Repr - old(ctx.Repr)) && ctx.bad == old(ctx.bad)
      ensures ctx in ctx.Repr && this !in ctx.Repr
      ensures State() == old(State()).(table := Add(old(ctx.Table()), Entry(nv.name, nv.value), ctx.bufsizeMax))
    {
      hide Token, HashIndex.HashFor, Resolve, Add, ValidTables, Context.Table;
      hide Context.Owned, Context.Ringed, Context.Indexed, Context.Counted;
      var name := nv.name;
      if index != -1 {
        var found := ctx.TableGet(index);
        name := found.name;
      }
      ctx.AddIncremental(name, nv.value, token, hash);
    }

    /** Search and store. */
    method Pick(nv: Field) returns (mode: Indexing, res: Found)
      requires Valid()
      modifies ctx.Repr
      ensures Valid() && ctx in ctx.Repr && fresh(ctx.Repr - old(ctx.Repr)) && ctx.bad == old(ctx.bad)
      ensures State() == AfterField(ctx.tables, old(State()), nv)
      ensures -1 <= res.index < 0x1000_0000 && (res.exact ==> res.index >= 0)
      ensures Picked(nv, mode, res) == Choose(ctx.tables, old(State()), nv)
    {
      TablesValid();
      assert ctx in ctx.Repr;
      var token, hash;
      token, hash, mode, res := Look(nv);
      PickedIsChoice(ctx.tables, State(), nv, mode, res);
      SearchFits(ctx.tables, ctx.Table(), Entry(nv.name, nv.value), mode == NeverIndexing);
      hide Token, HashIndex.HashFor, Search, Mode, Resolve, Add, ValidTables, Context.Valid, Context.Table;
      hide Choose, AfterField, Picked;
      if !res.exact && mode == WithIndexing {
        StoreNew(nv, token, hash, res.index);
      }
    }

    lemma TablesValid()
      requires Valid()
      ensures ValidTables(ctx.tables)
    {
    }

    lemma ContextOwned()
      requires Valid()
      ensures ctx in ctx.Repr && this !in ctx.Repr
    {
    }

    lemma IndexIsSmall()
      requires Valid()
      ensures |ctx.Table()| < 0x0800_0000
    {
      ctx.FewEntries();
    }

    /** The second half of `deflate_nv`. */
    method Emit(bufs: Bufs, nv: Field, mode: Indexing, res: Found) returns (rv: Status)
      requires bufs.Valid() && bufs.Roomy() && ValidTables(ctx.tables)
      requires |nv.name| <= UINT32_MAX && |nv.value| <= UINT32_MAX
      requires -1 <= res.index < 0x1000_0000 && (res.exact ==> res.index >= 0)
      modifies bufs.Repr
      ensures Grown(bufs, old(bufs.head), old(bufs.parts)) && fresh(bufs.Repr - old(bufs.Repr))
      ensures Sent(rv, old(bufs.Contents()), old(bufs.Room()), EncodeRepr(ctx.tables, Picked(nv, mode, res)),
                   bufs.Contents(), bufs.Room())
    {
      hide ValidTables, PrefixInt.Encode, EncodeString, Bufs.Valid, Bufs.Roomy, Bufs.Contents, Bufs.Room, Grown, Sent;
      if res.exact {
        rv := EmitInteger(bufs, 0x80, res.index + 1, 7);
      } else if res.index == -1 {
        rv := EmitNewname(ctx.tables, bufs, nv.name, nv.value, mode);
      } else {
        rv := EmitIndname(ctx.tables, bufs, res.index, nv.value, mode);
      }
    }

    /** Deflater and buffers are ready for a field, from deflater state d and buffers as they are. */
    ghost predicate Poised(bufs: Bufs, nv: Field, d: Deflating, bad: bool,
                           before: Bytes, room: int, head: Chunk, parts: seq<Part>)
      reads this, ctx, ctx.Repr, bufs, bufs.Repr
    {
      && Valid() && Separate(bufs) && Untouched(bufs, before, room, head, parts) && Addressable(nv)
      && State() == d && ctx.bad == bad
    }

    /** The field is looked up and stored; the buffers are as they were. */
    ghost predicate Chosen(bufs: Bufs, nv: Field, d: Deflating, bad: bool, mode: Indexing, res: Found,
                           before: Bytes, room: int, head: Chunk, parts: seq<Part>)
      reads this, ctx, ctx.Repr, bufs, bufs.Repr
    {
      && ValidTables(ctx.tables) && Poised(bufs, nv, AfterField(ctx.tables, d, nv), bad, before, room, head, parts)
      && -1 <= res.index < 0x1000_0000 && (res.exact ==> res.index >= 0)
      && Picked(nv, mode, res) == Choose(ctx.tables, d, nv)
    }

    /** Searching and storing do not touch the buffers. */
    method PickBeside(bufs: Bufs, nv: Field, ghost d: Deflating, ghost bad: bool,
                      ghost before: Bytes, ghost room: int, ghost head: Chunk, ghost parts: seq<Part>)
      returns (mode: Indexing, res: Found)
      requires Poised(bufs, nv, d, bad, before, room, head, parts)
      modifies ctx.Repr
      ensures Chosen(bufs, nv, d, bad, mode, res, before, room, head, parts) && fresh(ctx.Repr - old(ctx.Repr))
    {
      hide *;
      PoisedFacts(bufs, nv, d, bad, before, room, head, parts);
      mode, res := Pick(nv);
      ChosenNow(bufs, nv, d, bad, mode, res, before, room, head, parts);
    }

    lemma ChosenNow(bufs: Bufs, nv: Field, d: Deflating, bad: bool, mode: Indexing, res: Found,
                    before: Bytes, room: int, head: Chunk, parts: seq<Part>)
      requires Valid() && ctx in ctx.Repr && this !in bufs.Repr && bufs in bufs.Repr && bufs.Repr !! ctx.Repr
      requires Untouched(bufs, before, room, head, parts) && Addressable(nv) && ValidTables(ctx.tables)
      requires State() == AfterField(ctx.tables, d, nv) && bad == ctx.bad
      requires -1 <= res.index < 0x1000_0000 && (res.exact ==> res.index >= 0)
      requires Picked(nv, mode, res) == Choose(ctx.tables, d, nv)
      ensures Chosen(bufs, nv, d, bad, mode, res, before, room, head, parts)
    {
      ContextOwned();
      hide Untouched, Deflater.Valid, Deflater.State, AfterField, Choose, Picked, ValidTables, Addressable;
    }

    lemma UntouchedFrame(bufs: Bufs, before: Bytes, room: int, head: Chunk, parts: seq<Part>)
      requires Valid() && Untouched(bufs, before, room, head, parts)
      ensures bufs in bufs.Repr && ctx in ctx.Repr && this !in ctx.Repr
    {
    }

    /** Writing out does not touch the deflater. */
    method EmitBeside(bufs: Bufs, nv: Field, mode: Indexing, res: Found, ghost d: Deflating, ghost bad: bool,
                      ghost before: Bytes, ghost room: int, ghost head: Chunk,
                      ghost parts: seq<Part>) returns (rv: Status)
      requires Valid() && Separate(bufs) && Untouched(bufs, before, room, head, parts)
      requires d == State() && bad == ctx.bad && Addressable(nv)
      requires -1 <= res.index < 0x1000_0000 && (res.exact ==> res.index >= 0)
      modifies bufs.Repr
      ensures Valid() && Separate(bufs) && State() == d && ctx.bad == bad
      ensures Grown(bufs, head, parts) && fresh(bufs.Repr - old(bufs.Repr))
      ensures Sent(rv, before, room, EncodeRepr(ctx.tables, Picked(nv, mode, res)), bufs.Contents(), bufs.Room())
    {
      TablesValid();
      UntouchedFrame(bufs, before, room, head, parts);
      hide ValidTables, EncodeRepr, Picked, Deflater.Valid, Deflater.State, Bufs.Valid, Bufs.Roomy, Bufs.Contents;
      hide Bufs.Room;
      hide Grown, Sent;
      rv := Emit(bufs, nv, mode, res);
    }

    /** What is picked is written out. */
    method EmitPicked(bufs: Bufs, nv: Field, mode: Indexing, res: Found, ghost d: Deflating, ghost bad: bool,
                      ghost before: Bytes, ghost room: int, ghost head: Chunk, ghost parts: seq<Part>,
                      ghost theirs: set<object>) returns (rv: Status)
      requires Chosen(bufs, nv, d, bad, mode, res, before, room, head, parts) && theirs == bufs.Repr
      modifies bufs.Repr
      ensures Encoded(bufs, nv, d, rv, before, room, head, parts) && ctx.bad == bad && fresh(bufs.Repr - theirs)
    {
      ChosenFacts(bufs, nv, d, bad, mode, res, before, room, head, parts);
      hide *;
      rv := EmitBeside(bufs, nv, mode, res, State(), bad, before, room, head, parts);
      EncodedNow(bufs, nv, d, mode, res, rv, before, room, head, parts);
    }

    lemma ChosenFacts(bufs: Bufs, nv: Field, d: Deflating, bad: bool, mode: Indexing, res: Found,
                      before: Bytes, room: int, head: Chunk, parts: seq<Part>)
      requires Chosen(bufs, nv, d, bad, mode, res, before, room, head, parts)
      ensures Valid() && Separate(bufs) && Untouched(bufs, before, room, head, parts) && ValidTables(ctx.tables)
      ensures State() == AfterField(ctx.tables, d, nv) && bad == ctx.bad && Addressable(nv)
      ensures -1 <= res.index < 0x1000_0000 && (res.exact ==> res.index >= 0)
      ensures Picked(nv, mode, res) == Choose(ctx.tables, d, nv)
    {
      hide Untouched, Deflater.Valid, Deflater.State, AfterField, Choose, Picked, ValidTables, Addressable;
    }

    lemma EncodedNow(bufs: Bufs, nv: Field, d: Deflating, mode: Indexing, res: Found, rv: Status,
                     before: Bytes, room: int, head: Chunk, parts: seq<Part>)
      requires Valid() && Separate(bufs) && Grown(bufs, head, parts) && ValidTables(ctx.tables)
      requires State() == AfterField(ctx.tables, d, nv)
      requires -1 <= res.index && (res.exact ==> res.index >= 0) && Picked(nv, mode, res) == Choose(ctx.tables, d, nv)
      requires Sent(rv, before, room, EncodeRepr(ctx.tables, Picked(nv, mode, res)), bufs.Contents(), bufs.Room())
      ensures Encoded(bufs, nv, d, rv, before, room, head, parts)
    {
    }

    lemma SeparateFacts(bufs: Bufs)
      requires Separate(bufs)
      ensures bufs in bufs.Repr && ctx in ctx.Repr && bufs.Repr !! ctx.Repr && this !in bufs.Repr && this !in ctx.Repr
    {
    }

    /** What `deflate_nv` leaves, from deflater state d and buffers as they were then. */
    ghost predicate Encoded(bufs: Bufs, nv: Field, d: Deflating, rv: Status,
                            before: Bytes, room: int, head: Chunk, parts: seq<Part>)
      reads this, ctx, ctx.Repr, bufs, bufs.Repr
    {
      && Valid() && Separate(bufs) && Grown(bufs, head, parts) && ValidTables(ctx.tables)
      && State() == AfterField(ctx.tables, d, nv)
      && Sent(rv, before, room, EncodeRepr(ctx.tables, Choose(ctx.tables, d, nv)), bufs.Contents(), bufs.Room())
    }

    /** `deflate_nv`. */
    method DeflateNv(bufs: Bufs, nv: Field, ghost d: Deflating, ghost bad: bool,
                     ghost before: Bytes, ghost room: int, ghost head: Chunk,
                     ghost parts: seq<Part>) returns (rv: Status)
      requires Poised(bufs, nv, d, bad, before, room, head, parts)
      modifies ctx.Repr, bufs.Repr
      ensures Encoded(bufs, nv, d, rv, before, room, head, parts) && ctx.bad == bad
      ensures fresh(ctx.Repr - old(ctx.Repr)) && fresh(bufs.Repr - old(bufs.Repr))
    {
      hide *;
      PoisedFacts(bufs, nv, d, bad, before, room, head, parts);
      var mode, res := PickBeside(bufs, nv, d, bad, before, room, head, parts);
      rv := EmitPicked(bufs, nv, mode, res, d, bad, before, room, head, parts, bufs.Repr);
    }

    lemma PoisedFacts(bufs: Bufs, nv: Field, d: Deflating, bad: bool, before: Bytes, room: int, head: Chunk,
                      parts: seq<Part>)
      requires Poised(bufs, nv, d, bad, before, room, head, parts)
      ensures bufs in bufs.Repr && ctx in ctx.Repr && bufs.Repr !! ctx.Repr && this !in bufs.Repr && this !in ctx.Repr
      ensures Valid() && Untouched(bufs, before, room, head, parts) && Addressable(nv) && ValidTables(ctx.tables)
      ensures State() == d && ctx.bad == bad
    {
      TablesValid();
      hide Untouched, Deflater.Valid, Deflater.State, ValidTables, Addressable;
    }

    /** `nghttp2_hd_deflate_hd_bufs`, the size updates. */
    method Announce(bufs: Bufs) returns (rv: Status)
      requires Valid() && bufs.Valid() && bufs.Roomy() && Separate(bufs) && leastMax <= UINT32_MAX
      modifies this`notify, this`leastMax, bufs.Repr
      ensures Valid() && Separate(bufs)
      ensures Grown(bufs, old(bufs.head), old(bufs.parts)) && fresh(bufs.Repr - old(bufs.Repr))
      ensures State() == Announced(old(State())) && leastMax <= UINT32_MAX && ctx.bad == old(ctx.bad)
      ensures Sent(rv, old(bufs.Contents()), old(bufs.Room()), EncodeUpdates(SizeUpdates(old(State()))),
                   bufs.Contents(), bufs.Room())
    {
      bufs.RoomIsNat();
      GrownStart(bufs);
      MaxIsSize();
      hide Context.Valid, Bufs.Valid, Bufs.Roomy, Bufs.Contents, Bufs.Room, Grown, Sent, EncodeUpdates, Context.Table;
      if notify {
        var least := leastMax;
        notify := false;
        leastMax := UINT32_MAX;
        rv := EmitUpdates(bufs, least, ctx.bufsizeMax);
      } else {
        SentNothing(bufs.Contents(), bufs.Room());
        NoUpdates();
        rv := OK;
      }
    }

    lemma MaxIsSize()
      requires Valid()
      ensures ctx.bufsizeMax <= UINT32_MAX
    {
    }

    /** Fields before i are written, from deflater state d0 and buffers as they were then. */
    ghost predicate Midway(bufs: Bufs, nvs: seq<Field>, d0: Deflating, i: nat, done: Bytes,
                           before: Bytes, room: int, head: Chunk, parts: seq<Part>)
      reads this, ctx, ctx.Repr, bufs, bufs.Repr
    {
      && Valid() && Separate(bufs) && Grown(bufs, head, parts) && ValidTables(ctx.tables)
      && Sent(OK, before, room, done, bufs.Contents(), bufs.Room())
      && FieldsLeft(ctx.tables, d0, nvs, i, done, State())
    }

    lemma MidwayStart(bufs: Bufs, nvs: seq<Field>)
      requires Valid() && bufs.Valid() && bufs.Roomy() && Separate(bufs)
      ensures Midway(bufs, nvs, State(), 0, [], bufs.Contents(), bufs.Room(), bufs.head, bufs.parts)
    {
      TablesValid();
      bufs.RoomIsNat();
      hide Bufs.Valid, Bufs.Roomy, Bufs.Contents, Bufs.Room, Grown, Sent, FieldsLeft, Valid;
      GrownStart(bufs);
      SentNothing(bufs.Contents(), bufs.Room());
      FieldsStart(ctx.tables, State(), nvs);
    }

    /** What is known when the loop is left, by its end or by a failure. */
    ghost predicate Finished(bufs: Bufs, nvs: seq<Field>, d0: Deflating, rv: Status,
                             before: Bytes, room: int, head: Chunk, parts: seq<Part>)
      reads this, ctx, ctx.Repr, bufs, bufs.Repr
    {
      && Valid() && Separate(bufs) && Grown(bufs, head, parts) && ValidTables(ctx.tables)
      && (rv == OK ==> State() == DeflateFields(ctx.tables, d0, nvs).0)
      && Sent(rv, before, room, DeflateFields(ctx.tables, d0, nvs).1, bufs.Contents(), bufs.Room())
    }

    lemma MidwayEnd(bufs: Bufs, nvs: seq<Field>, d0: Deflating, done: Bytes,
                    before: Bytes, room: int, head: Chunk, parts: seq<Part>)
      requires Midway(bufs, nvs, d0, |nvs|, done, before, room, head, parts)
      ensures Finished(bufs, nvs, d0, OK, before, room, head, parts)
    {
      hide Bufs.Valid, Bufs.Roomy, Bufs.Contents, Bufs.Room, Grown, Sent, FieldsLeft, Valid, State, Separate;
      FieldsEnd(ctx.tables, d0, nvs, done, State());
    }

    /** One round of the loop. */
    method DeflateOne(bufs: Bufs, nvs: seq<Field>, i: nat, ghost d0: Deflating, ghost done0: Bytes,
                      ghost before: Bytes, ghost room: int, ghost head: Chunk, ghost parts: seq<Part>)
      returns (rv: Status, ghost done: Bytes)
      requires i < |nvs| && AllAddressable(nvs) && Midway(bufs, nvs, d0, i, done0, before, room, head, parts)
      modifies ctx.Repr, bufs.Repr
      ensures rv == OK ==> Midway(bufs, nvs, d0, i + 1, done, before, room, head, parts)
      ensures rv != OK ==> Finished(bufs, nvs, d0, rv, before, room, head, parts)
      ensures fresh(ctx.Repr - old(ctx.Repr)) && fresh(bufs.Repr - old(bufs.Repr)) && ctx.bad == old(ctx.bad)
    {
      ghost var p, d, mid, left, places := ctx.tables, State(), bufs.Contents(), bufs.Room(), bufs.parts;
      ghost var code := EncodeRepr(p, Choose(p, d, nvs[i]));
      ghost var tail := bufs.head;
      GrownFacts(bufs, head, parts);
      FieldsStep(p, d0, nvs, i, done0, d);
      assert Poised(bufs, nvs[i], d, ctx.bad, mid, left, tail, places);
      hide AfterField, Choose, EncodeRepr, Bufs.Valid, Bufs.Roomy, Bufs.Contents, Bufs.Room, Grown, Sent, FieldsLeft;
      hide Deflater.Valid, State, Separate, ValidTables, Poised, AllAddressable;
      rv := DeflateNv(bufs, nvs[i], d, ctx.bad, mid, left, tail, places);
      GrownThen(bufs, head, parts, places);
      SentThen(rv, before, room, done0, mid, left, code, bufs.Contents(), bufs.Room());
      done := done0 + code;
      if rv != OK {
        ghost var rest := FieldsRest(p, d0, nvs, i + 1, done, State());
        SentShort(rv, before, room, done, bufs.Contents(), bufs.Room(), rest);
      }
    }

    /** The loop of `nghttp2_hd_deflate_hd_bufs`. */
    method DeflateAll(bufs: Bufs, nvs: seq<Field>) returns (rv: Status)
      requires Valid() && bufs.Valid() && bufs.Roomy() && Separate(bufs) && AllAddressable(nvs)
      modifies ctx.Repr, bufs.Repr
      ensures Finished(bufs, nvs, old(State()), rv, old(bufs.Contents()), old(bufs.Room()),
                       old(bufs.head), old(bufs.parts))
      ensures fresh(ctx.Repr - old(ctx.Repr)) && fresh(bufs.Repr - old(bufs.Repr)) && ctx.bad == old(ctx.bad)
    {
      hide *;
      ghost var before, room, parts, head, d0 := bufs.Contents(), bufs.Room(), bufs.parts, bufs.head, State();
      MidwayStart(bufs, nvs);
      ghost var done: Bytes := [];
      for i := 0 to |nvs|
        invariant Midway(bufs, nvs, d0, i, done, before, room, head, parts)
        invariant fresh(ctx.Repr - old(ctx.Repr)) && fresh(bufs.Repr - old(bufs.Repr)) && ctx.bad == old(ctx.bad)
      {
        rv, done := DeflateOne(bufs, nvs, i, d0, done, before, room, head, parts);
        if rv != OK {
          return;
        }
      }
      MidwayEnd(bufs, nvs, d0, done, before, room, head, parts);
      rv := OK;
    }

    /** How `nghttp2_hd_deflate_hd_bufs` leaves a deflater that was good before. */
    ghost predicate Deflated(bufs: Bufs, nvs: seq<Field>, d0: Deflating, rv: Status,
                             before: Bytes, room: int, head: Chunk, parts: seq<Part>)
      reads this, ctx, ctx.Repr, bufs, bufs.Repr
    {
      && Valid() && Separate(bufs) && Grown(bufs, head, parts) && ValidTables(ctx.tables)
      && (rv == OK ==> State() == DeflateBlock(ctx.tables, d0, nvs).0)
      && Sent(rv, before, room, DeflateBlock(ctx.tables, d0, nvs).1, bufs.Contents(), bufs.Room())
    }

    /** The deflater is marked as failed. */
    method Spoil(bufs: Bufs, nvs: seq<Field>, ghost d0: Deflating, rv: Status,
                 ghost before: Bytes, ghost room: int, ghost head: Chunk, ghost parts: seq<Part>)
      requires Deflated(bufs, nvs, d0, rv, before, room, head, parts)
      modifies ctx`bad
      ensures Deflated(bufs, nvs, d0, rv, before, room, head, parts) && ctx.bad && ctx.Repr == old(ctx.Repr)
    {
      assert ctx !in bufs.Repr;
      hide Context.Valid, Context.Table, DeflateBlock, Grown, Bufs.Contents, Bufs.Room, Sent, ValidTables;
      assert Grown(bufs, head, parts);
      ctx.Spoil();
      assert Grown(bufs, head, parts);
      assert Separate(bufs);
    }

    /** The size updates did not fit. */
    lemma AnnounceFailed(bufs: Bufs, nvs: seq<Field>, d0: Deflating, rv: Status,
                         before: Bytes, room: int, head: Chunk, parts: seq<Part>)
      requires Valid() && Separate(bufs) && Grown(bufs, head, parts) && rv != OK
      requires Sent(rv, before, room, EncodeUpdates(SizeUpdates(d0)), bufs.Contents(), bufs.Room())
      ensures Deflated(bufs, nvs, d0, rv, before, room, head, parts)
    {
      TablesValid();
      hide Deflater.Valid, State, Sent, DeflateFields, EncodeUpdates, Bufs.Contents, Bufs.Room, Bufs.Valid;
      hide Bufs.Roomy, ValidTables;
      var rest := DeflateFields(ctx.tables, Announced(d0), nvs).1;
      SentShort(rv, before, room, EncodeUpdates(SizeUpdates(d0)), bufs.Contents(), bufs.Room(), rest);
    }

    /** The fields followed the size updates. */
    lemma RestDone(bufs: Bufs, nvs: seq<Field>, d0: Deflating, rv: Status,
                   before: Bytes, room: int, head: Chunk, parts: seq<Part>, mid: Bytes, left: int, places: seq<Part>)
      requires Sent(OK, before, room, EncodeUpdates(SizeUpdates(d0)), mid, left)
      requires Finished(bufs, nvs, Announced(d0), rv, mid, left, head, places) && SamePlaces(parts, places, bufs.offset)
      ensures Deflated(bufs, nvs, d0, rv, before, room, head, parts)
    {
      hide Deflater.Valid, State, ValidTables, Sent, DeflateFields, EncodeUpdates, Bufs.Contents, Bufs.Room, Separate;
      hide Grown;
      var p := ctx.tables;
      GrownThen(bufs, head, parts, places);
      SentThen(rv, before, room, EncodeUpdates(SizeUpdates(d0)), mid, left, DeflateFields(p, Announced(d0), nvs).1,
               bufs.Contents(), bufs.Room());
    }

    /** The size updates, then the fields. */
    method DeflateGood(bufs: Bufs, nvs: seq<Field>, ghost d0: Deflating,
                       ghost before: Bytes, ghost room: int, ghost head: Chunk, ghost parts: seq<Part>,
                       ghost own: set<object>, ghost theirs: set<object>) returns (rv: Status)
      requires Valid() && Separate(bufs) && Untouched(bufs, before, room, head, parts)
      requires d0 == State() && !ctx.bad && AllAddressable(nvs) && leastMax <= UINT32_MAX
      requires own == ctx.Repr && theirs == bufs.Repr
      modifies this`notify, this`leastMax, ctx.Repr, bufs.Repr
      ensures fresh(ctx.Repr - own) && fresh(bufs.Repr - theirs) && leastMax <= UINT32_MAX
      ensures Deflated(bufs, nvs, d0, rv, before, room, head, parts) && !ctx.bad
    {
      hide *;
      UntouchedIs(bufs, before, room, head, parts);
      SeparateFacts(bufs);
      rv := Announce(bufs);
      if rv == OK {
        rv := DeflateRest(bufs, nvs, d0, before, room, head, parts,
                          bufs.Contents(), bufs.Room(), bufs.parts, own, bufs.Repr);
      } else {
        AnnounceFailed(bufs, nvs, d0, rv, before, room, head, parts);
      }
    }

    /** The fields, behind the size updates. */
    method DeflateRest(bufs: Bufs, nvs: seq<Field>, ghost d0: Deflating,
                       ghost before: Bytes, ghost room: int, ghost head: Chunk, ghost parts: seq<Part>,
                       ghost mid: Bytes, ghost left: int, ghost places: seq<Part>,
                       ghost own: set<object>, ghost theirs: set<object>) returns (rv: Status)
      requires Valid() && Separate(bufs) && Grown(bufs, head, parts) && AllAddressable(nvs) && leastMax <= UINT32_MAX
      requires Announced(d0) == State() && !ctx.bad && mid == bufs.Contents() && left == bufs.Room()
      requires places == bufs.parts
      requires Sent(OK, before, room, EncodeUpdates(SizeUpdates(d0)), mid, left)
      requires own == ctx.Repr && theirs == bufs.Repr
      modifies ctx.Repr, bufs.Repr
      ensures fresh(ctx.Repr - own) && fresh(bufs.Repr - theirs) && leastMax <= UINT32_MAX
      ensures Deflated(bufs, nvs, d0, rv, before, room, head, parts) && !ctx.bad
    {
      hide *;
      GrownFacts(bufs, head, parts);
      SeparateFacts(bufs);
      rv := DeflateAll(bufs, nvs);
      RestDone(bufs, nvs, d0, rv, before, room, head, parts, mid, left, places);
    }

    lemma UntouchedIs(bufs: Bufs, before: Bytes, room: int, head: Chunk, parts: seq<Part>)
      requires Untouched(bufs, before, room, head, parts)
      ensures bufs.Valid() && bufs.Roomy() && bufs.Contents() == before && bufs.Room() == room
      ensures bufs.head == head && bufs.parts == parts
    {
    }

    lemma UntouchedNow(bufs: Bufs)
      requires bufs.Valid() && bufs.Roomy()
      ensures Untouched(bufs, bufs.Contents(), bufs.Room(), bufs.head, bufs.parts)
    {
    }

    /** A deflater that could not write it all is spoilt. */
    method DeflateOrSpoil(bufs: Bufs, nvs: seq<Field>, ghost d0: Deflating,
                          ghost before: Bytes, ghost room: int, ghost head: Chunk, ghost parts: seq<Part>,
                          ghost own: set<object>, ghost theirs: set<object>) returns (rv: Status)
      requires Valid() && Separate(bufs) && Untouched(bufs, before, room, head, parts)
      requires d0 == State() && !ctx.bad && AllAddressable(nvs) && leastMax <= UINT32_MAX
      requires own == ctx.Repr && theirs == bufs.Repr
      modifies this`notify, this`leastMax, ctx.Repr, bufs.Repr
      ensures fresh(ctx.Repr - own) && fresh(bufs.Repr - theirs) && leastMax <= UINT32_MAX
      ensures Deflated(bufs, nvs, d0, rv, before, room, head, parts) && ctx.bad == (rv != OK)
    {
      hide *;
      rv := DeflateGood(bufs, nvs, d0, before, room, head, parts, own, theirs);
      if rv != OK {
        ContextIsOwned(bufs, nvs, d0, rv, before, room, head, parts);
        Spoil(bufs, nvs, d0, rv, before, room, head, parts);
      }
    }

    /**
     * `nghttp2_hd_deflate_hd_bufs`: all of the block, or as much of it as there was room for,
     * after which the deflater is of no further use.
     */
    method DeflateHdBufs(bufs: Bufs, nvs: seq<Field>) returns (rv: Status)
      requires Valid() && bufs.Valid() && bufs.Roomy() && Separate(bufs) && AllAddressable(nvs)
      requires leastMax <= UINT32_MAX
      modifies this`notify, this`leastMax, ctx.Repr, bufs.Repr
      ensures fresh(ctx.Repr - old(ctx.Repr)) && fresh(bufs.Repr - old(bufs.Repr)) && leastMax <= UINT32_MAX
      ensures old(ctx.bad) ==> rv == HeaderComp && State() == old(State()) && bufs.Contents() == old(bufs.Contents())
      ensures old(ctx.bad) ==> Valid() && Separate(bufs) && Grown(bufs, old(bufs.head), old(bufs.parts))
      ensures !old(ctx.bad) ==>
        Deflated(bufs, nvs, old(State()), rv, old(bufs.Contents()), old(bufs.Room()), old(bufs.head), old(bufs.parts))
      ensures ctx.bad == (rv != OK)
    {
      hide *;
      UntouchedNow(bufs);
      if ctx.bad {
        GrownStart(bufs);
        return HeaderComp;
      }
      rv := DeflateOrSpoil(bufs, nvs, State(), bufs.Contents(), bufs.Room(), bufs.head, bufs.parts,
                           ctx.Repr, bufs.Repr);
    }

    lemma ContextIsOwned(bufs: Bufs, nvs: seq<Field>, d0: Deflating, rv: Status,
                         before: Bytes, room: int, head: Chunk, parts: seq<Part>)
      requires Deflated(bufs, nvs, d0, rv, before, room, head, parts)
      ensures ctx in ctx.Repr && ctx !in bufs.Repr && bufs in bufs.Repr
    {
    }

    /** The output buffers share nothing with the deflater. */
    ghost predicate Separate(bufs: Bufs)
      reads bufs`Repr, ctx`Repr
    {
      bufs in bufs.Repr && ctx in ctx.Repr && bufs.Repr !! ctx.Repr && this !in bufs.Repr && this !in ctx.Repr
    }
  }

  /** The buffers are in order and as they were. */
  ghost predicate Untouched(bufs: Bufs, before: Bytes, room: int, head: Chunk, parts: seq<Part>)
    reads bufs, bufs.Repr
  {
    && bufs.Valid() && bufs.Roomy() && bufs.Contents() == before && bufs.Room() == room
    && bufs.head == head && bufs.parts == parts
  }

  /** The representation a search result and a mode stand for. */
  function Picked(nv: Field, mode: Indexing, res: Found): Repr
    requires -1 <= res.index && (res.exact ==> res.index >= 0)
  {
    if res.exact then Indexed(res.index)
    else if res.index == -1 then NewName(nv.name, nv.value, mode)
    else IndexedName(res.index, nv.value, mode)
  }
}
