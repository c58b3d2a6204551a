/**
 * The deflater's index over its dynamic table: 128 chains of entries by the hash of
 * their names, newest entry first.
 */
module HashIndex {
  import opened Common
  import opened DynamicTable
  import opened Hpack

  const MAP_SIZE := 128

  /** `nghttp2_hd_entry`; everything but the link is set once. */
  class HdEntry {
    const name: Bytes
    const value: Bytes
    const token: int
    const hash: uint32
    const seqNo: uint32
    var next: HdEntry?

    constructor (name: Bytes, value: Bytes, token: int, hash: uint32, seqNo: uint32)
      ensures this.name == name && this.value == value && this.token == token
      ensures this.hash == hash && this.seqNo == seqNo && next == null
    {
      this.name, this.value, this.token, this.hash, this.seqNo := name, value, token, hash, seqNo;
      next := null;
    }
  }

  /** One octet into the FNV-1a hash. */
  function HashOctet(h: uint32, b: byte): uint32 {
    ((h as bv32) ^ (b as bv32)) as int * 16777619 % 0x1_0000_0000
  }

  /** `name_hash`. */
  function NameHashFrom(h: uint32, name: Bytes): uint32
    decreases |name|
  {
    if name == [] then h else NameHashFrom(HashOctet(h, name[0]), name[1..])
  }

  function NameHash(name: Bytes): uint32 {
    NameHashFrom(2166136261, name)
  }

  /** The hash `deflate_nv` files a field under: tabulated, zero, or computed, by token. */
  function HashFor(token: int, name: Bytes): uint32 {
    if token > WWW_AUTHENTICATE then 0 else NameHash(name)
  }

  function EntryOf(e: HdEntry): Entry {
    Entry(e.name, e.value)
  }

  /** The table the entries stand for. */
  function Abs(live: seq<HdEntry>): (r: seq<Entry>)
    ensures |r| == |live| && forall i | 0 <= i < |live| :: r[i] == EntryOf(live[i])
  {
    seq(|live|, i requires 0 <= i < |live| => EntryOf(live[i]))
  }

  /** Token and hash are those of the name. */
  predicate Filed(p: Tables, e: HdEntry)
    requires ValidTables(p)
  {
    e.token == Token(p, e.name) && e.hash == HashFor(e.token, e.name)
  }

  predicate AllFiled(p: Tables, live: seq<HdEntry>)
    requires ValidTables(p)
  {
    forall i | 0 <= i < |live| :: Filed(p, live[i])
  }

  function Bucket(hash: uint32): (r: nat)
    ensures r < MAP_SIZE
  {
    hash % MAP_SIZE
  }

  /** The newest entry of bucket b from place i on. */
  function NextIn(live: seq<HdEntry>, i: nat, b: nat): (r: HdEntry?)
    requires i <= |live|
    decreases |live| - i
  {
    if i == |live| then null
    else if Bucket(live[i].hash) == b then live[i]
    else NextIn(live, i + 1, b)
  }

  predicate NoTwice(live: seq<HdEntry>) {
    forall i, j | 0 <= i < j < |live| :: live[i] != live[j]
  }

  lemma {:induction false} NextInFound(live: seq<HdEntry>, i: nat, b: nat) returns (j: nat)
    requires i <= |live|
    ensures i <= j <= |live|
    ensures forall k | i <= k < j :: Bucket(live[k].hash) != b
    ensures j == |live| ==> NextIn(live, i, b) == null
    ensures j < |live| ==> NextIn(live, i, b) == live[j] && Bucket(live[j].hash) == b
    decreases |live| - i
  {
    if i == |live| || Bucket(live[i].hash) == b {
      j := i;
    } else {
      j := NextInFound(live, i + 1, b);
    }
  }

  lemma {:induction false} NextInPush(live: seq<HdEntry>, e: HdEntry, i: nat, b: nat)
    requires i <= |live|
    ensures NextIn([e] + live, i + 1, b) == NextIn(live, i, b)
    decreases |live| - i
  {
    if i < |live| {
      NextInPush(live, e, i + 1, b);
    }
  }

  /** Without the entry at k, the chain through it closes over the gap. */
  ghost predicate NextInRemoved(live: seq<HdEntry>, k: nat, i: nat, b: nat)
    requires k < |live| && i <= |live|
  {
    var rest := live[..k] + live[k + 1..];
    && (i <= k ==>
          NextIn(rest, i, b) == if NextIn(live, i, b) == live[k] then NextIn(live, k + 1, b) else NextIn(live, i, b))
    && (i > k ==> NextIn(rest, i - 1, b) == NextIn(live, i, b))
  }

  lemma {:induction false} NextInRemove(live: seq<HdEntry>, k: nat, i: nat, b: nat)
    requires k < |live| && i <= |live| && NoTwice(live)
    ensures NextInRemoved(live, k, i, b)
    decreases |live| - i
  {
    var rest := live[..k] + live[k + 1..];
    if i < |live| {
      NextInRemove(live, k, i + 1, b);
      if i < k {
        assert rest[i] == live[i];
      } else if i > k {
        assert rest[i - 1] == live[i];
      } else {
        var j := NextInFound(live, k + 1, b);
      }
    }
  }

  class HdMap {
    const table: array<HdEntry?>
    /** The entries indexed, newest first. */
    ghost var live: seq<HdEntry>

    ghost predicate Valid()
      reads this, table, live`next
    {
      && table.Length == MAP_SIZE && NoTwice(live)
      && (forall b | 0 <= b < MAP_SIZE :: table[b] == NextIn(live, 0, b))
      && forall i | 0 <= i < |live| :: live[i].next == NextIn(live, i + 1, Bucket(live[i].hash))
    }

    /** `hd_map_init`. */
    constructor ()
      ensures Valid() && live == [] && fresh(table)
    {
      table := new HdEntry?[MAP_SIZE](_ => null);
      live := [];
    }

    /** `hd_map_insert`. */
    method Insert(e: HdEntry)
      requires Valid() && e !in live && e.next == null
      modifies this`live, table, e`next
      ensures Valid() && live == [e] + old(live)
    {
      ghost var was := live;
      var b := Bucket(e.hash);
      forall i: nat, b' | i <= |was| ensures NextIn([e] + was, i + 1, b') == NextIn(was, i, b') {
        NextInPush(was, e, i, b');
      }
      if table[b] == null {
        table[b] := e;
      } else {
        e.next := table[b];
        table[b] := e;
      }
      live := [e] + was;
    }

    /** `hd_map_find`. */
    method Find(p: Tables, name: Bytes, value: Bytes, token: int, hash: uint32, nameOnly: bool)
      returns (res: HdEntry?, exact: bool)
      requires Valid() && ValidTables(p) && AllFiled(p, live)
      requires token == Token(p, name) && hash == HashFor(token, name)
      ensures var found := SearchDynamic(Abs(live), Entry(name, value), nameOnly);
        && exact == found.exact
        && res == if found.index == -1 then null else live[found.index]
    {
      hide Token, HashFor, Bucket, NoTwice, ValidTables, Searched, AllFiled, Filed, NewestEqual, NewestName, NextIn;
      hide Abs;
      ghost var b := Bucket(hash);
      ghost var e := Entry(name, value);
      ghost var t := Abs(live);
      res, exact := null, false;
      var q: HdEntry? := table[Bucket(hash)];
      ghost var i, r := 0, -1;
      SearchedStart(t, e);
      while q != null
        invariant i <= |live| && q == NextIn(live, i, b) && -1 <= r < |live|
        invariant Searched(t, e, i, r) && res == (if r == -1 then null else live[r]) && (r >= 0 ==> !nameOnly)
        invariant !exact
        decreases |live| - i
      {
        ghost var j := NextInFound(live, i, b);
        SearchedSkip(p, live, e, token, hash, i, j, r);
        SearchedStep(live, e, j, r);
        SameName(p, live, j, name, token, hash);
        LinkOf(j);
        if token == q.token && (token != -1 || (hash == q.hash && q.name == name)) {
          if res == null {
            res := q;
            r := j;
            if nameOnly {
              return;
            }
          }
          if q.value == value {
            return q, true;
          }
        }
        i := j + 1;
        q := q.next;
      }
      ghost var j := NextInFound(live, i, b);
      SearchedSkip(p, live, e, token, hash, i, j, r);
      SearchedAll(t, e, r);
    }

    lemma LinkOf(i: nat)
      requires Valid() && i < |live|
      ensures live[i].next == NextIn(live, i + 1, Bucket(live[i].hash))
    {
    }

    /** `hd_map_remove`. */
    method Remove(e: HdEntry, ghost k: nat)
      requires Valid() && k < |live| && live[k] == e
      modifies this`live, table, live`next
      ensures Valid() && live == old(live)[..k] + old(live)[k + 1..] && e.next == null
    {
      var prev, i := Before(e, k);
      Unlink(e, k, prev, i);
    }

    /** The search of `hd_map_remove` for the link to the entry, in the table or in the entry before. */
    method Before(e: HdEntry, ghost k: nat) returns (prev: HdEntry?, ghost i: nat)
      requires Valid() && k < |live| && live[k] == e
      ensures LastBefore(live, k, i) && prev == if i == 0 then null else live[i - 1]
    {
      hide Bucket, NextIn;
      ghost var b := Bucket(e.hash);
      prev, i := null, 0;
      var q: HdEntry? := table[Bucket(e.hash)];
      ghost var j := NextInFound(live, 0, b);
      while q != e
        invariant i <= j <= k && q == live[j] && Bucket(live[j].hash) == b
        invariant (prev == null && i == 0) || (i > 0 && prev == live[i - 1] && Bucket(live[i - 1].hash) == b)
        invariant forall n | i <= n < j :: Bucket(live[n].hash) != b
        decreases |live| - j
      {
        LinkOf(j);
        assert live[j] != live[k];
        prev := q;
        i := j + 1;
        q := q.next;
        j := NextInFound(live, i, b);
      }
    }

    method Unlink(e: HdEntry, ghost k: nat, prev: HdEntry?, ghost i: nat)
      requires Valid() && k < |live| && live[k] == e
      requires LastBefore(live, k, i) && prev == if i == 0 then null else live[i - 1]
      modifies this`live, table, live`next
      ensures Valid() && live == old(live)[..k] + old(live)[k + 1..] && e.next == null
    {
      hide Bucket, NextIn;
      ghost var was := live;
      ghost var rest := was[..k] + was[k + 1..];
      LinkOf(k);
      StillOnce(was, k);
      if prev == null {
        table[Bucket(e.hash)] := e.next;
      } else {
        assert prev in live;
        prev.next := e.next;
      }
      e.next := null;
      live := rest;
      forall b | 0 <= b < MAP_SIZE ensures table[b] == NextIn(rest, 0, b) {
        Retabled(was, k, i, b);
      }
      forall n | 0 <= n < |rest| ensures rest[n].next == NextIn(rest, n + 1, Bucket(rest[n].hash)) {
        Relinked(was, k, i, n);
      }
    }
  }

  lemma StillOnce(live: seq<HdEntry>, k: nat)
    requires NoTwice(live) && k < |live|
    ensures var rest := live[..k] + live[k + 1..];
      NoTwice(rest) && forall n | 0 <= n < |rest| :: rest[n] != live[k]
  {
  }

  /** Place i is behind the last entry before k in the bucket of entry k. */
  predicate LastBefore(live: seq<HdEntry>, k: nat, i: nat)
    requires k < |live|
  {
    && i <= k && (forall n | i <= n < k :: Bucket(live[n].hash) != Bucket(live[k].hash))
    && (i > 0 ==> Bucket(live[i - 1].hash) == Bucket(live[k].hash))
  }

  /** Only from place i on does entry k come next. */
  lemma Reaches(live: seq<HdEntry>, k: nat, i: nat, n: nat, b: nat)
    requires k < |live| && NoTwice(live) && LastBefore(live, k, i) && n <= k
    ensures NextIn(live, n, b) == live[k] <==> b == Bucket(live[k].hash) && n >= i
  {
    hide Bucket, NextIn;
    var j := NextInFound(live, n, b);
  }

  lemma Retabled(live: seq<HdEntry>, k: nat, i: nat, b: nat)
    requires k < |live| && NoTwice(live) && LastBefore(live, k, i)
    ensures NextIn(live[..k] + live[k + 1..], 0, b)
         == if i == 0 && b == Bucket(live[k].hash) then NextIn(live, k + 1, b) else NextIn(live, 0, b)
  {
    hide Bucket, NextIn;
    Reaches(live, k, i, 0, b);
    NextInRemove(live, k, 0, b);
  }

  lemma Relinked(live: seq<HdEntry>, k: nat, i: nat, n: nat)
    requires k < |live| && NoTwice(live) && LastBefore(live, k, i) && n < |live| - 1
    ensures var rest := live[..k] + live[k + 1..];
      var b := Bucket(rest[n].hash);
      && (n < k ==> rest[n] == live[n])
      && (n < k ==> NextIn(rest, n + 1, b) == if n + 1 == i then NextIn(live, k + 1, b) else NextIn(live, n + 1, b))
      && (n >= k ==> rest[n] == live[n + 1] && NextIn(rest, n + 1, b) == NextIn(live, n + 2, b))
  {
    hide Bucket, NextIn, NoTwice;
    var rest := live[..k] + live[k + 1..];
    if n < k {
      Reaches(live, k, i, n + 1, Bucket(live[n].hash));
      NextInRemove(live, k, n + 1, Bucket(live[n].hash));
    } else {
      NextInRemove(live, k, n + 2, Bucket(live[n + 1].hash));
    }
  }

  /** How far a search has come: before place i nothing equals e, and r is the newest entry with its name, if any. */
  predicate Searched(t: seq<Entry>, e: Entry, i: nat, r: int)
    requires i <= |t|
  {
    && NewestEqual(t, e, 0) == NewestEqual(t, e, i)
    && NewestName(t, e.name, 0) == if r == -1 then NewestName(t, e.name, i) else r
  }

  lemma SearchedStart(t: seq<Entry>, e: Entry)
    ensures Searched(t, e, 0, -1)
  {
  }

  /** Entries of other buckets have other names. */
  lemma SearchedSkip(p: Tables, live: seq<HdEntry>, e: Entry, token: int, hash: uint32, i: nat, j: nat, r: int)
    requires ValidTables(p) && AllFiled(p, live) && token == Token(p, e.name) && hash == HashFor(token, e.name)
    requires i <= j <= |live| && forall k | i <= k < j :: Bucket(live[k].hash) != Bucket(hash)
    requires Searched(Abs(live), e, i, r)
    ensures Searched(Abs(live), e, j, r)
  {
    hide HashFor, Token, Bucket;
    forall k | i <= k < j ensures live[k].name != e.name {
      assert Filed(p, live[k]);
    }
    SkipOthers(Abs(live), e, i, j);
  }

  lemma SearchedStep(live: seq<HdEntry>, e: Entry, j: nat, r: int)
    requires j < |live| && -1 <= r && Searched(Abs(live), e, j, r)
    ensures live[j].name == e.name ==> NewestName(Abs(live), e.name, 0) == if r == -1 then j else r
    ensures live[j].name == e.name && live[j].value == e.value ==> NewestEqual(Abs(live), e, 0) == j
    ensures live[j].name == e.name && live[j].value != e.value ==>
      Searched(Abs(live), e, j + 1, if r == -1 then j else r)
    ensures live[j].name != e.name ==> Searched(Abs(live), e, j + 1, r)
  {
  }

  lemma SearchedAll(t: seq<Entry>, e: Entry, r: int)
    requires Searched(t, e, |t|, r)
    ensures NewestEqual(t, e, 0) == -1 && NewestName(t, e.name, 0) == r
  {
  }

  lemma {:induction false} SkipOthers(t: seq<Entry>, e: Entry, i: nat, j: nat)
    requires i <= j <= |t| && forall k | i <= k < j :: t[k].name != e.name
    ensures NewestEqual(t, e, i) == NewestEqual(t, e, j)
    ensures NewestName(t, e.name, i) == NewestName(t, e.name, j)
    decreases j - i
  {
    if i < j {
      SkipOthers(t, e, i + 1, j);
    }
  }

  /** The comparison by token, and by hash and octets where there is no token, is equality of names. */
  lemma SameName(p: Tables, live: seq<HdEntry>, j: nat, name: Bytes, token: int, hash: uint32)
    requires ValidTables(p) && j < |live| && AllFiled(p, live) && token == Token(p, name)
    requires hash == HashFor(token, name)
    ensures var e := live[j];
      (token == e.token && (token != -1 || (hash == e.hash && e.name == name))) <==> e.name == name
  {
    hide HashFor;
    assert Filed(p, live[j]);
  }
}
