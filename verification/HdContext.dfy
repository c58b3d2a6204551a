/**
 * The context a deflater or inflater keeps between blocks: the dynamic table in its
 * ring buffer, what it takes up, and for the deflater the index over it.
 */
module HdContext {
  import opened Common
  import opened DynamicTable
  import opened Hpack
  import opened RingBuffer
  import opened HashIndex

  /** `next_seq - 1 - i` on a `uint32_t`: the sequence number of the entry at place i. */
  function SeqAt(nextSeq: uint32, i: nat): uint32 {
    (nextSeq - 1 - i) % 0x1_0000_0000
  }

  predicate Numbered(entries: seq<HdEntry>, nextSeq: uint32) {
    forall i | 0 <= i < |entries| :: entries[i].seqNo == SeqAt(nextSeq, i)
  }

  /** The place is recovered from the sequence number, whether or not the counter has wrapped. */
  lemma SeqRecovers(nextSeq: uint32, i: uint32)
    ensures (nextSeq - 1 - SeqAt(nextSeq, i)) % 0x1_0000_0000 == i
  {
  }

  /** `next_seq++` on a `uint32_t`. */
  function NextSeq(nextSeq: uint32): uint32 {
    if nextSeq == UINT32_MAX then 0 else nextSeq + 1
  }

  lemma SeqShift(nextSeq: uint32, i: nat)
    ensures SeqAt(NextSeq(nextSeq), i + 1) == SeqAt(nextSeq, i)
    ensures SeqAt(NextSeq(nextSeq), 0) == nextSeq
  {
  }

  lemma NumberedMore(entries: seq<HdEntry>, nextSeq: uint32, e: HdEntry)
    requires Numbered(entries, nextSeq) && e.seqNo == nextSeq
    ensures Numbered([e] + entries, NextSeq(nextSeq))
  {
    hide SeqAt, NextSeq;
    var more := [e] + entries;
    forall i | 0 <= i < |more| ensures more[i].seqNo == SeqAt(NextSeq(nextSeq), i) {
      if i > 0 {
        assert entries[i - 1].seqNo == SeqAt(nextSeq, i - 1);
        SeqShift(nextSeq, i - 1);
      } else {
        SeqShift(nextSeq, 0);
      }
    }
  }

  lemma AbsButLast(entries: seq<HdEntry>)
    requires entries != []
    ensures Abs(entries[..|entries| - 1]) == Abs(entries)[..|entries| - 1]
  {
  }

  lemma AbsMore(e: HdEntry, entries: seq<HdEntry>)
    ensures Abs([e] + entries) == [EntryOf(e)] + Abs(entries)
  {
  }

  class Context {
    const tables: Tables
    const ring: RingBuf<HdEntry?>
    const index: HdMap?
    var bufsize: nat
    var bufsizeMax: nat
    var nextSeq: uint32
    var bad: bool
    ghost var entries: seq<HdEntry>
    ghost var Repr: set<object>

    ghost predicate Owned()
      reads this, ring
    {
      && this in Repr && ring in Repr && ring.buffer in Repr
      && (forall i | 0 <= i < |entries| :: entries[i] in Repr)
      && (index != null ==> index in Repr && index.table in Repr && index.table != ring.buffer)
    }

    ghost predicate Ringed()
      reads this`entries, ring, ring.buffer
    {
      ring.items == entries && ring.Valid()
    }

    ghost predicate Indexed()
      reads this`entries, index, if index == null then {} else {index.table}, entries`next
    {
      index != null ==> index.live == entries && index.Valid()
    }

    /** The ring buffer and, in a deflater, the index hold the same entries. */
    ghost predicate Stored()
      reads this, Repr
    {
      this in Repr && ring in Repr && Owned() && Ringed() && Indexed()
    }

    ghost predicate CountedAs(entries: seq<HdEntry>, size: nat, next: uint32) {
      && ValidTables(tables) && size == Size(Abs(entries)) && Numbered(entries, next)
      && (index != null ==> AllFiled(tables, entries))
    }

    /** `hd_table_bufsize` is the size of the table, and every entry is numbered and filed. */
    ghost predicate Counted()
      reads this
    {
      bufsizeMax <= UINT32_MAX && CountedAs(entries, bufsize, nextSeq)
    }

    ghost predicate Valid()
      reads this, Repr
    {
      Stored() && Counted() && bufsize <= bufsizeMax
    }

    /** The dynamic table. */
    ghost function Table(): seq<Entry>
      reads this`entries
    {
      Abs(entries)
    }

    /** `hd_context_init`. */
    constructor (tables: Tables, indexed: bool)
      requires ValidTables(tables)
      ensures Valid() && fresh(Repr) && this.tables == tables && Table() == []
      ensures bufsizeMax == DEFAULT_MAX && !bad && (index != null <==> indexed)
    {
      this.tables := tables;
      var r: RingBuf<HdEntry?> := new RingBuf<HdEntry?>(DEFAULT_MAX / ENTRY_OVERHEAD, null);
      ring := r;
      var m: HdMap? := null;
      ghost var parts: set<object> := {r, r.buffer};
      if indexed {
        var m1 := new HdMap();
        m := m1;
        parts := {r, r.buffer, m1, m1.table};
      }
      index := m;
      bufsize, bufsizeMax, nextSeq, bad, entries := 0, DEFAULT_MAX, 0, false, [];
      Repr := {this} + parts;
    }

    /** A new limit, to be enforced by a shrink. */
    method SetMax(max: nat)
      requires Stored() && Counted() && max <= UINT32_MAX
      modifies this`bufsizeMax
      ensures Stored() && Counted() && bufsizeMax == max
    {
      bufsizeMax := max;
    }

    /** A context that failed is of no further use. */
    method Spoil()
      requires Valid()
      modifies this`bad
      ensures Valid() && bad
    {
      bad := true;
    }

    /** The oldest entry is taken out of the ring buffer, the index and the count. */
    method DropOldest()
      requires Stored() && Counted() && entries != []
      modifies Repr
      ensures ring in Repr && this in Repr
      ensures Owned()
      ensures Ringed()
      ensures Indexed()
      ensures Counted() && Repr == old(Repr) && unchanged(this`bufsizeMax, this`nextSeq, this`bad)
      ensures entries == old(entries)[..|old(entries)| - 1]
    {
      hide RingBuf.Valid, HdMap.Valid, CountedAs, Abs;
      ghost var last := |entries| - 1;
      ring.Fits();
      var got := ring.Get(ring.len - 1);
      var e: HdEntry := got;
      CountedDrop(e);
      bufsize := bufsize - Room(EntryOf(e));
      ring.PopBack();
      if index != null {
        index.Remove(e, last);
      }
      entries := entries[..last];
    }

    lemma CountedDrop(e: HdEntry)
      requires Counted() && entries != [] && e == entries[|entries| - 1]
      ensures bufsize >= Room(EntryOf(e))
      ensures CountedAs(entries[..|entries| - 1], bufsize - Room(EntryOf(e)), nextSeq)
    {
      AbsButLast(entries);
    }

    /** The loop that evicts from the old end until `room` more would fit or nothing is left. */
    method Evicting(room: nat)
      requires Stored() && Counted()
      modifies Repr
      ensures Stored() && Counted() && Repr == old(Repr) && unchanged(this`bufsizeMax, this`nextSeq, this`bad)
      ensures entries <= old(entries)
      ensures Table() == if room <= bufsizeMax then Evict(old(Table()), bufsizeMax - room) else []
      ensures bufsize + room <= bufsizeMax || entries == []
    {
      hide Owned, Ringed, Indexed, CountedAs, Evict, Abs, RingBuf.Valid;
      RingLength();
      while bufsize + room > bufsizeMax && ring.len > 0
        invariant Stored() && Counted() && Repr == old(Repr) && unchanged(this`bufsizeMax, this`nextSeq, this`bad)
        invariant ring.len == |entries| && entries <= old(entries)
        invariant room <= bufsizeMax ==> Evict(old(Table()), bufsizeMax - room) == Evict(Table(), bufsizeMax - room)
        decreases |entries|
      {
        EvictOne(room);
        DropOldest();
        RingLength();
      }
      EvictedEnough(room);
    }

    lemma RingLength()
      requires Stored()
      ensures ring.len == |entries|
    {
      ring.Fits();
    }

    lemma EvictOne(room: nat)
      requires Counted() && bufsize + room > bufsizeMax && entries != []
      ensures room <= bufsizeMax
          ==> Evict(Table(), bufsizeMax - room) == Evict(Abs(entries[..|entries| - 1]), bufsizeMax - room)
    {
      AbsButLast(entries);
    }

    lemma EvictedEnough(room: nat)
      requires Counted() && (bufsize + room <= bufsizeMax || entries == [])
      ensures room <= bufsizeMax ==> Evict(Table(), bufsizeMax - room) == Table()
    {
    }

    /** `hd_context_shrink_table_size`. */
    method ShrinkTableSize()
      requires Stored() && Counted()
      modifies Repr
      ensures Valid() && Repr == old(Repr) && unchanged(this`bufsizeMax, this`nextSeq, this`bad)
      ensures Table() == Evict(old(Table()), bufsizeMax)
    {
      hide Owned, Ringed, Indexed, CountedAs, Evict, Abs;
      Evicting(0);
      NothingTaken();
    }

    lemma NothingTaken()
      requires Counted()
      ensures entries == [] ==> bufsize == 0
    {
    }

    /** `add_hd_table_incremental`. */
    method AddIncremental(name: Bytes, value: Bytes, token: int, hash: uint32)
      requires Valid() && (index != null ==> token == Token(tables, name) && hash == HashFor(token, name))
      modifies Repr
      ensures Valid() && Repr >= old(Repr) && fresh(Repr - old(Repr)) && unchanged(this`bufsizeMax, this`bad)
      ensures Table() == Add(old(Table()), Entry(name, value), bufsizeMax)
    {
      hide Owned, Ringed, Indexed, CountedAs, Evict, Abs;
      var room := Room(Entry(name, value));
      Evicting(room);
      NothingTaken();
      if room > bufsizeMax {
        return;
      }
      Store(name, value, token, hash);
    }

    /** The new entry goes in front. */
    method Store(name: Bytes, value: Bytes, token: int, hash: uint32)
      requires Stored() && Counted() && bufsize + Room(Entry(name, value)) <= bufsizeMax
      requires index != null ==> token == Token(tables, name) && hash == HashFor(token, name)
      modifies Repr
      ensures ring in Repr && this in Repr
      ensures Owned()
      ensures Ringed()
      ensures Indexed()
      ensures Counted() && Repr >= old(Repr) && fresh(Repr - old(Repr)) && unchanged(this`bufsizeMax, this`bad)
      ensures bufsize <= bufsizeMax
      ensures Table() == [Entry(name, value)] + old(Table())
    {
      hide RingBuf.Valid, HdMap.Valid, CountedAs, Abs, HashFor, Token;
      RingLength();
      FewEntries();
      var e := new HdEntry(name, value, token, hash, nextSeq);
      CountedMore(e);
      AbsMore(e, entries);
      ring.PushFront(e);
      nextSeq := NextSeq(nextSeq);
      if index != null {
        index.Insert(e);
      }
      bufsize := bufsize + Room(Entry(name, value));
      entries := [e] + entries;
      Repr := Repr + {e, ring.buffer};
    }

    /** Every entry costs its overhead, so the ring never needs more than 2^27 places. */
    lemma FewEntries()
      requires Counted() && bufsize <= bufsizeMax
      ensures |entries| < 0x0800_0000
    {
      LengthBound(Abs(entries));
    }

    lemma CountedMore(e: HdEntry)
      requires Counted() && e.seqNo == nextSeq && (index != null ==> Filed(tables, e))
      ensures CountedAs([e] + entries, bufsize + Room(Entry(e.name, e.value)), NextSeq(nextSeq))
    {
      hide Filed, Size, SeqAt, NextSeq, Token, HashFor, Huffman.ValidCode;
      AbsMore(e, entries);
      SizeCons(EntryOf(e), Abs(entries));
      NumberedMore(entries, nextSeq, e);
    }

    /** `nghttp2_hd_table_get`. */
    method TableGet(i: nat) returns (e: Entry)
      requires Valid() && i < STATIC_LENGTH + |Table()|
      ensures e == Resolve(tables, Table(), i)
    {
      hide RingBuf.Valid, HdMap.Valid, CountedAs;
      if i >= STATIC_LENGTH {
        RingLength();
        var got := ring.Get(i - STATIC_LENGTH);
        var found: HdEntry := got;
        e := EntryOf(found);
      } else {
        StaticLength();
        e := tables.fixed[i];
      }
    }

    lemma StaticLength()
      requires Counted()
      ensures |tables.fixed| == STATIC_LENGTH
    {
    }

    /** `search_static_table`. */
    method SearchStaticTable(e: Entry, token: nat, nameOnly: bool) returns (r: Found)
      requires ValidTables(tables) && token < STATIC_LENGTH && token == Token(tables, e.name)
      ensures r == SearchStatic(tables, e, token, nameOnly)
    {
      hide Token, Huffman.ValidCode;
      r := Found(token, false);
      if nameOnly {
        return;
      }
      var i: nat := token;
      while i <= WWW_AUTHENTICATE && Token(tables, tables.fixed[i].name) == token
        invariant token <= i <= STATIC_LENGTH
        invariant SearchStaticFrom(tables, e, token, i) == SearchStaticFrom(tables, e, token, token)
        decreases STATIC_LENGTH - i
      {
        if tables.fixed[i].value == e.value {
          return Found(i, true);
        }
        i := i + 1;
      }
    }

    /** `search_hd_table`. */
    method SearchTable(e: Entry, token: int, nameOnly: bool, hash: uint32) returns (r: Found)
      requires Valid() && index != null && token == Token(tables, e.name) && hash == HashFor(token, e.name)
      ensures r == Search(tables, Table(), e, nameOnly)
    {
      hide HdMap.Valid, RingBuf.Valid, Token, HashFor, SearchDynamic, SearchStatic, Abs, SeqAt;
      SearchReady();
      FewEntries();
      var ent, exact := index.Find(tables, e.name, e.value, token, hash, nameOnly);
      if !exact && 0 <= token <= WWW_AUTHENTICATE {
        r := SearchStaticTable(e, token, nameOnly);
        return;
      }
      if ent == null {
        return Found(-1, false);
      }
      ghost var place := SearchDynamic(Table(), e, nameOnly).index;
      SeqRecovers(nextSeq, place);
      r := Found((nextSeq - 1 - ent.seqNo) % 0x1_0000_0000 + STATIC_LENGTH, exact);
    }

    lemma SearchReady()
      requires Valid() && index != null
      ensures ValidTables(tables) && index.Valid() && index.live == entries && AllFiled(tables, entries)
    {
    }
  }
}
