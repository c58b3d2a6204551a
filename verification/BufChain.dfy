/**
 * The chained output buffers of `nghttp2_buf.c`: a list of chunks written one after
 * the other, which together stand for one string of octets.
 */
module BufChain {
  import opened Common

  /** `nghttp2_buf_chain` with its `nghttp2_buf`; the octets held are `mem[pos..last]`. */
  class Chunk {
    var next: Chunk?
    const mem: array<byte>
    var pos: nat
    var last: nat

    /** `buf_chain_new`, moved right by the offset. */
    constructor (length: nat, offset: nat)
      ensures next == null && fresh(mem) && mem.Length == length && pos == last == offset
    {
      next := null;
      mem := new byte[length](_ => 0);
      pos, last := offset, offset;
    }

    /** `nghttp2_cpymem` to the end of what is held. */
    method Write(s: Bytes, from: nat, n: nat)
      requires pos <= last && last + n <= mem.Length && from + n <= |s|
      modifies this`last, mem
      ensures last == old(last) + n
      ensures mem[pos..last] == old(mem[pos..last]) + s[from..from + n]
    {
      forall i | 0 <= i < n {
        mem[last + i] := s[from + i];
      }
      last := last + n;
    }

    /** `nghttp2_cpymem` of what is held to place `at` of out. */
    method CopyTo(out: array<byte>, at: nat)
      requires pos <= last <= mem.Length && at + (last - pos) <= out.Length && out != mem
      modifies out
      ensures out[..at + (last - pos)] == old(out[..at]) + mem[pos..last]
    {
      forall k | 0 <= k < last - pos {
        out[at + k] := mem[pos + k];
      }
    }
  }

  /** A chunk as a value: where its octets start, what they are and how many more fit. */
  datatype Part = Part(pos: nat, text: Bytes, free: nat)

  /** What a list of chunks holds. */
  function Text(parts: seq<Part>): Bytes {
    if parts == [] then [] else parts[0].text + Text(parts[1..])
  }

  function Free(parts: seq<Part>): nat {
    if parts == [] then 0 else parts[0].free + Free(parts[1..])
  }

  /** Room from part i on, with `more` chunks of `size` octets still to be had. */
  function Budget(parts: seq<Part>, i: nat, more: int, size: int): int {
    (if i <= |parts| then Free(parts[i..]) else 0) + more * size
  }

  lemma {:induction false} TextAppend(a: seq<Part>, b: seq<Part>)
    ensures Text(a + b) == Text(a) + Text(b)
  {
    if a == [] {
      assert a + b == b;
    } else {
      assert (a + b)[1..] == a[1..] + b;
      TextAppend(a[1..], b);
    }
  }

  lemma {:induction false} EmptyText(parts: seq<Part>)
    requires forall q | q in parts :: q.text == []
    ensures Text(parts) == []
  {
    if parts != [] {
      EmptyText(parts[1..]);
    }
  }

  /** Writing at the end of part i, with nothing after it, appends to the whole. */
  lemma WriteText(parts: seq<Part>, i: nat, s: Bytes, more: int, size: int)
    requires i < |parts| && |s| <= parts[i].free
    requires EmptyAfter(parts, i)
    ensures var parts' := parts[i := parts[i].(text := parts[i].text + s, free := parts[i].free - |s|)];
      && Text(parts') == Text(parts) + s && EmptyAfter(parts', i)
      && Budget(parts', i, more, size) == Budget(parts, i, more, size) - |s|
  {
    var q := parts[i].(text := parts[i].text + s, free := parts[i].free - |s|);
    SplitText(parts, i, parts[i]);
    SplitText(parts, i, q);
    assert parts[i := parts[i]] == parts;
    EmptyText(parts[i + 1..]);
    Associative(Text(parts[..i]), parts[i].text, s);
  }

  lemma SplitText(parts: seq<Part>, i: nat, q: Part)
    requires i < |parts|
    ensures Text(parts[i := q]) == Text(parts[..i]) + (q.text + Text(parts[i + 1..]))
    ensures Free(parts[i := q][i..]) == q.free + Free(parts[i + 1..])
  {
    var back := [q] + parts[i + 1..];
    assert parts[i := q] == parts[..i] + back;
    TextAppend(parts[..i], back);
    assert back[1..] == parts[i + 1..] && parts[i := q][i..] == back;
  }

  /** Different places of the chain are different chunks over different memory. */
  predicate Apart(chain: seq<Chunk>, i: int, j: int)
    requires 0 <= i < |chain| && 0 <= j < |chain|
  {
    chain[i] != chain[j] && chain[i].mem != chain[j].mem
  }

  predicate Distinct(chain: seq<Chunk>) {
    forall i, j | 0 <= i < |chain| && 0 <= j < |chain| && i != j :: Apart(chain, i, j)
  }

  /** The chunks are linked in this order and the last one ends the list. */
  ghost predicate Links(chain: seq<Chunk>)
    reads chain`next
  {
    forall i | 0 <= i < |chain| :: chain[i].next == if i + 1 < |chain| then chain[i + 1] else null
  }

  lemma LinkAt(chain: seq<Chunk>, i: nat)
    requires Links(chain) && i < |chain|
    ensures chain[i].next == if i + 1 < |chain| then chain[i + 1] else null
  {
  }

  /** Chunk c holds what part q says. */
  ghost predicate Shows(c: Chunk, q: Part)
    reads c`pos, c`last, c.mem
  {
    c.pos <= c.last <= c.mem.Length && q == Part(c.pos, c.mem[c.pos..c.last], c.mem.Length - c.last)
  }

  ghost predicate AllShow(chain: seq<Chunk>, parts: seq<Part>)
    reads chain`pos, chain`last, Mems(chain)
  {
    |parts| == |chain| && forall i | 0 <= i < |chain| :: Shows(chain[i], parts[i])
  }

  ghost function Mems(chain: seq<Chunk>): set<array<byte>> {
    set i | 0 <= i < |chain| :: chain[i].mem
  }

  ghost predicate Owned(chain: seq<Chunk>, repr: set<object>) {
    forall i | 0 <= i < |chain| :: chain[i] in repr && chain[i].mem in repr
  }

  /** Every chunk has the one length, with room for the offset. */
  predicate LongEnough(chain: seq<Chunk>, offset: nat, length: nat) {
    offset <= length && forall i | 0 <= i < |chain| :: chain[i].mem.Length == length
  }

  /** The chunks of a still start where they did, and those added since start at the offset. */
  predicate SamePlaces(a: seq<Part>, b: seq<Part>, offset: nat) {
    && |a| <= |b| && (forall i | 0 <= i < |a| :: b[i].pos == a[i].pos)
    && (forall i | |a| <= i < |b| :: b[i].pos == offset)
  }

  lemma SamePlacesRefl(a: seq<Part>, offset: nat)
    ensures SamePlaces(a, a, offset)
  {
  }

  lemma SamePlacesTrans(a: seq<Part>, b: seq<Part>, c: seq<Part>, offset: nat)
    requires SamePlaces(a, b, offset) && SamePlaces(b, c, offset)
    ensures SamePlaces(a, c, offset)
  {
  }

  predicate EmptyAfter(parts: seq<Part>, at: nat) {
    forall i | at < i < |parts| :: parts[i].text == []
  }

  /** `nghttp2_bufs`; `chain` lists the chunks from `head`, `at` is the place of `cur`, `parts` what they hold. */
  class Bufs {
    var head: Chunk
    var cur: Chunk
    const chunkLength: nat
    const maxChunk: nat
    var chunkUsed: nat
    const chunkKeep: nat
    const offset: nat
    ghost var chain: seq<Chunk>
    ghost var at: nat
    ghost var parts: seq<Part>
    ghost var Repr: set<object>

    ghost predicate Valid()
      reads this, Repr
    {
      && this in Repr && Owned(chain, Repr)
      && at < |chain| == |parts| && head == chain[0] && cur == chain[at]
      && Links(chain) && Distinct(chain) && AllShow(chain, parts) && EmptyAfter(parts, at)
      && chunkUsed == |chain| <= maxChunk && 1 <= chunkKeep <= maxChunk
      && offset <= chunkLength && LongEnough(chain, offset, chunkLength)
    }

    /** The octets added so far. */
    ghost function Contents(): Bytes
      reads this`parts
    {
      Text(parts)
    }

    /** How many octets can still be added before the buffers are full. */
    ghost function Room(): int
      reads this`parts, this`at, this`chunkUsed
    {
      Budget(parts, at, maxChunk - chunkUsed, chunkLength - offset)
    }

    /** `nghttp2_bufs_init3` once its arguments are accepted; see `Init`. */
    constructor (chunkLength: nat, maxChunk: nat, chunkKeep: nat, offset: nat)
      requires 1 <= chunkKeep <= maxChunk && offset <= chunkLength
      ensures Valid() && fresh(Repr) && Contents() == []
      ensures this.chunkLength == chunkLength && this.maxChunk == maxChunk
      ensures this.chunkKeep == chunkKeep && this.offset == offset
      ensures Room() == maxChunk * (chunkLength - offset) && at == 0
      ensures parts == [Part(offset, [], chunkLength - offset)]
    {
      var c := new Chunk(chunkLength, offset);
      head, cur := c, c;
      this.chunkLength, this.maxChunk, this.chunkKeep, this.offset := chunkLength, maxChunk, chunkKeep, offset;
      chunkUsed := 1;
      chain, at, parts := [c], 0, [Part(offset, [], chunkLength - offset)];
      Repr := {this, c, c.mem};
      new;
      assert c.mem[c.pos..c.last] == [];
      OneChunk(maxChunk, chunkLength - offset, parts);
    }

    /** `nghttp2_bufs_cur_avail`. */
    function CurAvail(): int
      reads this`cur, cur`last
    {
      cur.mem.Length - cur.last
    }

    /** Octets that fit the current chunk are copied to its end. */
    method Append(s: Bytes, from: nat, n: nat)
      requires Valid() && from + n <= |s| && n <= CurAvail()
      modifies this`parts, cur`last, cur.mem
      ensures (old(Roomy()) ==> Roomy()) && SamePlaces(old(parts), parts, offset)
      ensures Valid() && Contents() == old(Contents()) + s[from..from + n]
      ensures Room() == old(Room()) - n && CurAvail() == old(CurAvail()) - n
    {
      hide Text, Free, Budget, Links, Distinct, EmptyAfter, Owned, LongEnough;
      ghost var text := s[from..from + n];
      assert Shows(chain[at], parts[at]);
      WriteText(parts, at, text, maxChunk - chunkUsed, chunkLength - offset);
      ApartFrom(chain, at);
      cur.Write(s, from, n);
      parts := parts[at := parts[at].(text := parts[at].text + text, free := parts[at].free - n)];
      forall i | 0 <= i < |chain| ensures Shows(chain[i], parts[i]) {
        assert i != at ==> Apart(chain, i, at);
      }
    }

    /** `bufs_alloc_chain`: on to the next chunk, a new one if there is none, unless all are used. */
    method AllocChain() returns (rv: Status)
      requires Valid()
      modifies this`cur, this`at, this`chain, this`parts, this`chunkUsed, this`Repr, cur`next
      ensures Valid() && Contents() == old(Contents()) && (rv == OK || rv == BufferError)
      ensures fresh(Repr - old(Repr))
      ensures old(Roomy()) ==> Roomy()
      ensures rv == OK ==>
        parts[at].free == if old(at) + 1 < |old(parts)| then old(parts)[old(at) + 1].free else chunkLength - offset
      ensures rv == OK ==> old(at) + 1 < |old(parts)| || old(chunkUsed) < maxChunk
      ensures rv == OK ==> at == old(at) + 1
      ensures rv == OK ==> Room() == old(Room() - CurAvail())
      ensures head == old(head) && SamePlaces(old(parts), parts, offset)
      ensures rv == BufferError ==> old(Room() == CurAvail()) && unchanged(this)
    {
      hide Text, Free, Budget, Distinct, Links;
      assert CurShows() && cur.next == if at + 1 < |chain| then chain[at + 1] else null by { CurFacts(); }
      BudgetStep(parts, at, maxChunk - chunkUsed, chunkLength - offset);
      if cur.next != null {
        cur, at := cur.next, at + 1;
        return OK;
      }
      if maxChunk == chunkUsed {
        return BufferError;
      }
      AddChunk();
      return OK;
    }

    ghost predicate CurShows()
      requires at < |chain| && at < |parts|
      reads this, chain[at], chain[at].mem
    {
      Shows(chain[at], parts[at])
    }

    lemma CurFacts()
      requires Valid()
      ensures CurShows() && cur.next == if at + 1 < |chain| then chain[at + 1] else null
    {
      assert Shows(chain[at], parts[at]);
      LinkAt(chain, at);
    }

    /** A new chunk behind the last. */
    method AddChunk()
      requires Valid() && at == |chain| - 1 && chunkUsed < maxChunk
      modifies this`cur, this`at, this`chain, this`parts, this`chunkUsed, this`Repr, cur`next
      ensures Valid() && Contents() == old(Contents())
      ensures at == old(at) + 1 && parts == old(parts) + [Part(offset, [], chunkLength - offset)]
      ensures fresh(Repr - old(Repr)) && head == old(head)
      ensures Room() == old(Room() - CurAvail())
    {
      hide Text, Free, Budget, Distinct, Links, EmptyAfter, Owned, LongEnough;
      CurFacts();
      ghost var q := Part(offset, [], chunkLength - offset);
      OneMorePart(parts, q, maxChunk - chunkUsed);
      NothingAfter(parts + [q]);
      var c := NewChunk();
      chunkUsed := chunkUsed + 1;
      cur, at, chain, parts := c, at + 1, chain + [c], parts + [q];
      Repr := Repr + {c, c.mem};
    }

    method NewChunk() returns (c: Chunk)
      requires Valid() && at == |chain| - 1
      modifies cur`next
      ensures fresh(c) && fresh(c.mem) && c.mem.Length == chunkLength && c.pos == c.last == offset
      ensures Links(chain + [c]) && Distinct(chain + [c]) && LongEnough(chain + [c], offset, chunkLength)
      ensures AllShow(chain + [c], parts + [Part(offset, [], chunkLength - offset)])
      ensures Owned(chain + [c], Repr + {c, c.mem})
    {
      hide Links, Distinct;
      c := new Chunk(chunkLength, offset);
      DistinctMore(chain, c);
      LinkBehind(c);
      assert c.mem[c.pos..c.last] == [];
    }

    method LinkBehind(c: Chunk)
      requires at < |chain| && cur == chain[at] && at == |chain| - 1
      requires Links(chain) && Distinct(chain + [c]) && c.next == null
      modifies cur`next
      ensures Links(chain + [c])
    {
      ghost var more := chain + [c];
      cur.next := c;
      forall i | 0 <= i < |more| ensures more[i].next == if i + 1 < |more| then more[i + 1] else null {
        assert i != at ==> Apart(more, i, at);
        assert i < at ==> old(chain[i].next) == chain[i + 1];
      }
      assert Links(more);
    }

    /** The current chunk belongs to the buffers. */
    lemma CurOwned()
      requires Valid()
      ensures this in Repr && cur in Repr && cur.mem in Repr
    {
    }

    /** The octets a chunk holds. */
    lemma ChunkFacts(i: nat)
      requires Valid() && i <= at
      ensures chain[i] in Repr && chain[i].mem in Repr && chain[i].pos == parts[i].pos <= chain[i].last
      ensures chain[i].last - chain[i].pos == |parts[i].text|
      ensures chain[i].mem.Length == chunkLength && parts[i].pos + |parts[i].text| <= chunkLength
      ensures chain[i] == cur <==> i == at
      ensures i < at ==> chain[i].next == chain[i + 1]
    {
      assert Shows(chain[i], parts[i]);
      assert i != at ==> Apart(chain, i, at);
    }

    lemma RoomIsNat()
      requires Valid()
      ensures Room() >= 0 && CurAvail() >= 0
    {
      CurFacts();
      BudgetIsNat(parts, at, maxChunk - chunkUsed, chunkLength - offset);
    }

    /** Every chunk still to come has room for an octet. */
    ghost predicate Roomy()
      reads this`parts, this`at
    {
      offset < chunkLength && forall i | at < i < |parts| :: parts[i].free > 0
    }

    /** If the current chunk is full, the chunk to be written to next has room for an octet, or there is none. */
    ghost predicate NextHasRoom()
      reads this, cur
    {
      || CurAvail() > 0
      || if at + 1 < |parts| then parts[at + 1].free > 0 else offset < chunkLength || chunkUsed == maxChunk
    }

    lemma RoomyIsEnough()
      requires Roomy()
      ensures NextHasRoom()
    {
    }

    /**
     * `nghttp2_bufs_addb`. It does not look whether the chunk it moves on to has room, and would write behind
     * it if not, so its callers must know.
     */
    method Addb(b: byte) returns (rv: Status)
      requires Valid() && NextHasRoom()
      modifies Repr
      ensures Valid() && (old(Roomy()) ==> Roomy()) && fresh(Repr - old(Repr))
      ensures rv == if old(Room()) > 0 then OK else BufferError
      ensures rv == OK ==> Contents() == old(Contents()) + [b] && Room() == old(Room()) - 1
      ensures rv != OK ==> Contents() == old(Contents()) && Room() == old(Room())
      ensures head == old(head) && SamePlaces(old(parts), parts, offset)
    {
      hide Text, Free, Budget, Links, Distinct, AllShow, LongEnough, EmptyAfter;
      RoomIsNat();
      if CurAvail() == 0 {
        rv := AllocChain();
        if rv != OK {
          return;
        }
        AvailIsFree();
      }
      RoomCoversCur();
      Append([b], 0, 1);
      return OK;
    }

    lemma AvailIsFree()
      requires Valid()
      ensures CurAvail() == parts[at].free
    {
      CurFacts();
    }

    lemma RoomCoversCur()
      requires Valid()
      ensures Room() >= CurAvail()
    {
      CurFacts();
      BudgetStep(parts, at, maxChunk - chunkUsed, chunkLength - offset);
      BudgetIsNat(parts, at + 1, maxChunk - chunkUsed, chunkLength - offset);
    }

    /** `nghttp2_bufs_add`: all of the data, or as much of it as there is room for. */
    method Add(data: Bytes) returns (rv: Status)
      requires Valid()
      modifies Repr
      ensures Valid() && fresh(Repr - old(Repr)) && (old(Roomy()) ==> Roomy())
      ensures rv == if |data| <= old(Room()) then OK else BufferError
      ensures 0 <= old(Room()) && Contents() == old(Contents()) + data[..Min(|data|, old(Room()))]
      ensures Room() == old(Room()) - Min(|data|, old(Room()))
      ensures head == old(head) && SamePlaces(old(parts), parts, offset)
    {
      hide Text, Free, Budget, Links, Distinct, AllShow, LongEnough, EmptyAfter;
      RoomIsNat();
      var p: nat := 0;
      assert data[..p] == [];
      while p < |data|
        invariant p <= |data| && Valid() && fresh(Repr - old(Repr)) && (old(Roomy()) ==> Roomy())
        invariant Contents() == old(Contents()) + data[..p]
        invariant Room() == old(Room()) - p >= 0
        invariant head == old(head) && SamePlaces(old(parts), parts, offset)
        decreases |data| - p, maxChunk - at
      {
        RoomIsNat();
        var nwrite: nat := Min(CurAvail(), |data| - p);
        if nwrite == 0 {
          rv := AllocChain();
          if rv != OK {
            return;
          }
          RoomIsNat();
        } else {
          Append(data, p, nwrite);
          assert data[..p + nwrite] == data[..p] + data[p..p + nwrite];
          p := p + nwrite;
          RoomIsNat();
        }
      }
      assert data[..p] == data;
      return OK;
    }

    /** `nghttp2_bufs_len`. */
    method Len() returns (len: nat)
      requires Valid()
      ensures len == |Contents()|
    {
      hide Distinct, EmptyAfter, LongEnough, Owned;
      len := 0;
      var ci: Chunk? := head;
      ghost var i := 0;
      assert parts[0..] == parts;
      while ci != null
        invariant i <= |chain| && ci == if i < |chain| then chain[i] else null
        invariant len + |Text(parts[i..])| == |Contents()|
        decreases |chain| - i
      {
        assert Shows(chain[i], parts[i]) && chain[i].next == ci.next;
        assert parts[i..][1..] == parts[i + 1..];
        len := len + (ci.last - ci.pos);
        ci := ci.next;
        i := i + 1;
      }
    }

    /** `nghttp2_bufs_remove_copy`: the contents, in order, into memory of the caller's. */
    method RemoveCopy(out: array<byte>) returns (len: nat)
      requires Valid() && out.Length >= |Contents()| && out !in Repr
      modifies out
      ensures len == |Contents()| && out[..len] == Contents() && Valid()
    {
      hide Distinct, EmptyAfter, LongEnough, Links, Text;
      len := 0;
      var ci: Chunk? := head;
      ghost var i := 0;
      assert parts[0..] == parts;
      while ci != null
        invariant i <= |chain| && ci == if i < |chain| then chain[i] else null
        invariant Valid() && len <= out.Length && out[..len] + Text(parts[i..]) == Contents()
        decreases |chain| - i
      {
        assert Shows(chain[i], parts[i]);
        NextFact(i);
        TextFrom(parts, i, out[..len]);
        ci.CopyTo(out, len);
        len := len + (ci.last - ci.pos);
        ci := ci.next;
        i := i + 1;
      }
      EmptyText(parts[i..]);
    }

    lemma NextFact(i: nat)
      requires Links(chain) && i < |chain|
      ensures chain[i].next == if i + 1 < |chain| then chain[i + 1] else null
    {
    }

    /** The first loop of `nghttp2_bufs_reset`: chunks emptied up to the last one to keep. */
    method EmptyChunks() returns (ci: Chunk?)
      requires Valid()
      modifies chain`pos, chain`last
      ensures ci == if chunkKeep <= |chain| then chain[chunkKeep - 1] else null
      ensures forall j | 0 <= j < |chain| && j < chunkKeep :: chain[j].pos == chain[j].last == offset
    {
      hide Distinct, Links, AllShow, EmptyAfter, LongEnough, Owned;
      var k := chunkKeep;
      ci := head;
      ghost var i := 0;
      while ci != null
        invariant i <= |chain| && ci == (if i < |chain| then chain[i] else null) && k == chunkKeep - i > 0
        invariant forall j | 0 <= j < i :: chain[j].pos == chain[j].last == offset
        decreases |chain| - i
      {
        NextFact(i);
        ci.pos, ci.last := offset, offset;
        k := k - 1;
        if k == 0 {
          return;
        }
        ci := ci.next;
        i := i + 1;
      }
    }

    /** The chunks from the head on up to the number to keep, all of them emptied. */
    method KeepChunks()
      requires Valid()
      modifies this`chunkUsed, this`chain, chain`pos, chain`last, chain`next
      ensures chain == old(chain)[..Min(|old(chain)|, chunkKeep)] && chunkUsed == |chain| <= maxChunk
      ensures Owned(chain, Repr) && LongEnough(chain, offset, chunkLength) && Links(chain) && Distinct(chain)
      ensures |chain| > 0 && head == chain[0]
      ensures forall i | 0 <= i < |chain| :: chain[i].pos == chain[i].last == offset
    {
      hide Links, Distinct, Owned, LongEnough, EmptyAfter, AllShow;
      KeptChunks(chain, Min(|chain|, chunkKeep), Repr, offset, chunkLength);
      var ci := EmptyChunks();
      if ci != null {
        CutAfter(ci);
        chunkUsed := chunkKeep;
        chain := chain[..chunkKeep];
      }
    }

    /** `nghttp2_bufs_reset`: empty again, with at most `chunkKeep` chunks kept. */
    method Reset()
      requires Valid()
      modifies Repr
      ensures Valid() && Repr == old(Repr) && Contents() == [] && at == 0
      ensures chain == old(chain)[..Min(|old(chain)|, chunkKeep)]
      ensures forall i | 0 <= i < |parts| :: parts[i] == Part(offset, [], chunkLength - offset)
      ensures Room() == maxChunk * (chunkLength - offset)
    {
      OwnsChain();
      hide Text, Links, Distinct, Owned, LongEnough, EmptyAfter, AllShow, Blank;
      KeepChunks();
      cur, at, parts := head, 0, Blank(chain, offset, chunkLength);
      EmptyText(parts);
      AllBlank();
      AllRoom();
    }

    lemma AllRoom()
      requires at == 0 && |parts| == chunkUsed && offset <= chunkLength
      requires forall i | 0 <= i < |parts| :: parts[i].free == chunkLength - offset
      ensures Room() == maxChunk * (chunkLength - offset)
    {
      BlankBudget(parts, chunkLength - offset);
      assert parts[0..] == parts;
      var size := chunkLength - offset;
      assert chunkUsed * size + (maxChunk - chunkUsed) * size == maxChunk * size;
    }

    lemma OwnsChain()
      requires Valid()
      ensures forall c | c in chain :: c in Repr
    {
    }

    /** What `buf->pos += n; buf->last = buf->pos` leaves of empty buffers. */
    method SkipFront(n: nat)
      requires Valid() && at == 0 && parts[0].text == [] && n <= parts[0].free
      modifies this`parts, cur`pos, cur`last
      ensures Valid() && head == old(head) && at == 0
      ensures parts == old(parts)[0 := Part(old(parts[0].pos) + n, [], old(parts[0].free) - n)]
      ensures Contents() == old(Contents()) && Room() == old(Room()) - n && (old(Roomy()) ==> Roomy())
    {
      hide Text, Free, Budget, Links, Distinct, EmptyAfter, Owned, LongEnough;
      CurFacts();
      ApartFrom(chain, 0);
      SkipKeeps(parts, n, maxChunk - chunkUsed, chunkLength - offset);
      cur.pos := cur.pos + n;
      cur.last := cur.pos;
      parts := parts[0 := Part(parts[0].pos + n, [], parts[0].free - n)];
      assert cur.mem[cur.pos..cur.last] == [];
      forall i | 0 <= i < |chain| ensures Shows(chain[i], parts[i]) {
        assert i != 0 ==> Apart(chain, i, 0);
      }
    }

    /** `buf->pos -= n` on the head alone: whatever lay there is in front now. */
    method LowerFront(n: nat)
      requires Valid() && n <= head.pos
      modifies this`parts, head`pos
      ensures Valid() && head == old(head) && chain == old(chain) && at == old(at)
      ensures |parts| == |old(parts)| && |parts[0].text| == n + |old(parts)[0].text|
      ensures parts[0].text[n..] == old(parts)[0].text
      ensures forall k | 0 < k < |parts| :: parts[k] == old(parts)[k]
    {
      hide Text, Free, Budget, Links, Distinct, EmptyAfter, Owned, LongEnough;
      assert Shows(head, parts[0]);
      ApartFrom(chain, 0);
      ghost var text := head.mem[head.pos - n..head.last];
      FrontKeeps(parts, at, 0, Part(head.pos - n, text, parts[0].free));
      head.pos := head.pos - n;
      parts := parts[0 := Part(head.pos, text, parts[0].free)];
      assert text[n..] == old(head.mem[head.pos..head.last]);
      forall j | 0 <= j < |chain| ensures Shows(chain[j], parts[j]) {
        assert j != 0 ==> Apart(chain, j, 0);
      }
    }

    /** `buf->pos -= n` on chunk i, and the n octets now in front written. */
    method PutFront(c: Chunk, ghost i: nat, s: Bytes)
      requires Valid() && i <= at && c == chain[i] && |s| <= c.pos
      modifies this`parts, c`pos, c.mem
      ensures Valid() && head == old(head) && chain == old(chain) && at == old(at)
      ensures old(parts[i]).pos == old(c.pos)
      ensures parts == old(parts)[i := Part(old(c.pos) - |s|, s + old(parts[i]).text, old(parts[i]).free)]
    {
      hide Text, Free, Budget, Links, Distinct, EmptyAfter, Owned, LongEnough;
      assert Shows(c, parts[i]);
      ApartFrom(chain, i);
      FrontKeeps(parts, at, i, Part(c.pos - |s|, s + parts[i].text, parts[i].free));
      c.pos := c.pos - |s|;
      forall k | 0 <= k < |s| {
        c.mem[c.pos + k] := s[k];
      }
      parts := parts[i := Part(c.pos, s + parts[i].text, parts[i].free)];
      forall j | 0 <= j < |chain| ensures Shows(chain[j], parts[j]) {
        assert j != i ==> Apart(chain, j, i);
      }
    }

    lemma AllBlank()
      requires LongEnough(chain, offset, chunkLength) && parts == Blank(chain, offset, chunkLength)
      requires forall i | 0 <= i < |chain| :: chain[i].pos == chain[i].last == offset
      ensures AllShow(chain, parts) && EmptyAfter(parts, 0)
    {
      forall i | 0 <= i < |chain| ensures Shows(chain[i], parts[i]) {
        assert chain[i].mem[offset..offset] == [];
      }
    }

    /** The chunks behind the last one kept are let go. */
    method CutAfter(ci: Chunk)
      requires chunkKeep <= |chain| && 1 <= chunkKeep && ci == chain[chunkKeep - 1] && Links(chain) && Distinct(chain)
      modifies ci`next
      ensures Links(chain[..chunkKeep]) && Distinct(chain[..chunkKeep])
    {
      ghost var kept := chain[..chunkKeep];
      assert forall i | 0 <= i < |kept| :: kept[i] == chain[i];
      forall i, j | 0 <= i < |kept| && 0 <= j < |kept| && i != j ensures Apart(kept, i, j) {
        assert Apart(chain, i, j);
      }
      ghost var last := chunkKeep - 1;
      assert forall i | 0 <= i < last :: kept[i].next == chain[i + 1] && kept[i] != ci by {
        forall i | 0 <= i < last ensures kept[i].next == chain[i + 1] && kept[i] != ci {
          assert chain[i].next == chain[i + 1];
          assert Apart(chain, i, last);
        }
      }
      ci.next := null;
      assert Links(kept);
    }
  }

  /** `nghttp2_bufs_init3`. */
  method Init(chunkLength: nat, maxChunk: nat, chunkKeep: nat, offset: nat) returns (rv: Status, bufs: Bufs?)
    ensures rv == if chunkKeep == 0 || maxChunk < chunkKeep || chunkLength < offset then InvalidArgument else OK
    ensures rv != OK ==> bufs == null
    ensures rv == OK ==> bufs != null && bufs.Valid() && fresh(bufs.Repr) && bufs.Contents() == []
    ensures rv == OK ==> bufs.Room() == maxChunk * (chunkLength - offset)
    ensures rv == OK ==>
      && bufs.chunkLength == chunkLength && bufs.maxChunk == maxChunk
      && bufs.chunkKeep == chunkKeep && bufs.offset == offset
  {
    if chunkKeep == 0 || maxChunk < chunkKeep || chunkLength < offset {
      return InvalidArgument, null;
    }
    bufs := new Bufs(chunkLength, maxChunk, chunkKeep, offset);
    rv := OK;
  }

  lemma KeptChunks(chain: seq<Chunk>, k: nat, repr: set<object>, offset: nat, length: nat)
    requires k <= |chain| && Owned(chain, repr) && LongEnough(chain, offset, length)
    ensures Owned(chain[..k], repr) && LongEnough(chain[..k], offset, length)
    ensures forall c | c in chain :: c in repr
    ensures chain[..|chain|] == chain
  {
  }

  lemma TextFrom(parts: seq<Part>, i: nat, before: Bytes)
    requires i < |parts|
    ensures |Text(parts[i..])| >= |parts[i].text|
    ensures before + Text(parts[i..]) == before + parts[i].text + Text(parts[i + 1..])
  {
    assert parts[i..][1..] == parts[i + 1..];
    Associative(before, parts[i].text, Text(parts[i + 1..]));
  }

  /** Chunks emptied by a reset. */
  function Blank(chain: seq<Chunk>, offset: nat, length: nat): (r: seq<Part>)
    requires LongEnough(chain, offset, length)
    ensures |r| == |chain| && forall i | 0 <= i < |r| :: r[i] == Part(offset, [], length - offset)
  {
    seq(|chain|, i => Part(offset, [], length - offset))
  }

  lemma ApartFrom(chain: seq<Chunk>, at: nat)
    requires Distinct(chain) && at < |chain|
    ensures forall i | 0 <= i < |chain| && i != at :: Apart(chain, i, at)
  {
  }

  lemma NothingAfter(parts: seq<Part>)
    requires parts != []
    ensures EmptyAfter(parts, |parts| - 1)
  {
  }

  lemma DistinctMore(chain: seq<Chunk>, c: Chunk)
    requires Distinct(chain) && c !in chain && c.mem !in Mems(chain)
    ensures Distinct(chain + [c])
  {
    var more := chain + [c];
    forall i, j | 0 <= i < |more| && 0 <= j < |more| && i != j ensures Apart(more, i, j) {
      if i < |chain| && j < |chain| {
        assert Apart(chain, i, j);
      } else if i < |chain| {
        assert chain[i].mem in Mems(chain);
      } else {
        assert chain[j].mem in Mems(chain);
      }
    }
  }

  lemma BudgetIsNat(parts: seq<Part>, i: nat, more: nat, size: nat)
    ensures Budget(parts, i, more, size) >= 0
  {
    assert more * size >= 0;
  }

  /** Leaving part i for the next gives up what was free in it. */
  lemma BudgetStep(parts: seq<Part>, i: nat, more: int, size: int)
    requires i < |parts|
    ensures Budget(parts, i, more, size) == parts[i].free + Budget(parts, i + 1, more, size)
    ensures i == |parts| - 1 ==> Budget(parts, i + 1, more, size) == more * size
  {
    assert parts[i..][1..] == parts[i + 1..];
  }

  lemma OneMorePart(parts: seq<Part>, q: Part, more: int)
    requires parts != [] && q.text == []
    ensures Text(parts + [q]) == Text(parts)
    ensures Budget(parts + [q], |parts|, more - 1, q.free)
         == Budget(parts, |parts| - 1, more, q.free) - parts[|parts| - 1].free
  {
    TextAppend(parts, [q]);
    assert [q][1..] == [] && (parts + [q])[|parts|..] == [q];
    assert Free([q]) == q.free + Free([q][1..]);
    BudgetStep(parts, |parts| - 1, more, q.free);
    assert more * q.free == (more - 1) * q.free + q.free;
  }

  lemma OneChunk(max: nat, length: nat, parts: seq<Part>)
    requires max >= 1 && |parts| == 1 && parts[0].text == [] && parts[0].free == length
    ensures Text(parts) == [] && Budget(parts, 0, max - 1, length) == max * length
  {
    assert parts[0..] == parts && parts[1..] == [];
    assert Free(parts) == length + Free(parts[1..]);
    assert max * length == (max - 1) * length + length;
  }

  lemma {:induction false} BlankBudget(parts: seq<Part>, size: nat)
    requires forall i | 0 <= i < |parts| :: parts[i].free == size
    ensures Free(parts) == |parts| * size
  {
    if parts != [] {
      BlankBudget(parts[1..], size);
    }
  }

  lemma SkipKeeps(parts: seq<Part>, n: nat, more: int, size: int)
    requires parts != [] && EmptyAfter(parts, 0) && parts[0].text == [] && n <= parts[0].free
    ensures var r := parts[0 := Part(parts[0].pos + n, [], parts[0].free - n)];
      EmptyAfter(r, 0) && Text(r) == Text(parts) && Budget(r, 0, more, size) == Budget(parts, 0, more, size) - n
  {
    var q := Part(parts[0].pos + n, [], parts[0].free - n);
    SplitText(parts, 0, q);
    SplitText(parts, 0, parts[0]);
    assert parts[0 := parts[0]] == parts;
  }

  lemma FrontKeeps(parts: seq<Part>, at: nat, i: nat, q: Part)
    requires i <= at && i < |parts| && EmptyAfter(parts, at)
    ensures EmptyAfter(parts[i := q], at)
  {
  }
}
