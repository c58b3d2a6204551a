/**
 * The Robin Hood hash map of `nghttp2_map.c`: open addressing where an entry far from
 * home displaces one nearer to home, and removal shifts the following entries back.
 */
module RobinHood {
  import opened Common

  type int32 = x: int | -0x8000_0000 <= x < 0x8000_0000

  /** A slot; `None` stands for the null data pointer of a free slot. */
  datatype Bucket<T> = Bucket(hash: uint32, key: int32, data: Option<T>)

  function Free<T>(): Bucket<T> {
    Bucket(0, 0, None)
  }

  function Hash(key: int32): uint32 {
    key % 0x1_0000_0000 * 2654435769 % 0x1_0000_0000
  }

  function Slot<T>(key: int32, data: T): Bucket<T> {
    Bucket(Hash(key), key, Some(data))
  }

  /** `h2idx`: the leading bits of the hash. */
  function Home(hash: uint32, bits: nat): (r: nat)
    requires bits <= 32
    ensures r < Pow2(bits)
  {
    HashSplits(bits);
    QuotientBelow(hash, Pow2(bits), Pow2(32 - bits));
    hash / Pow2(32 - bits)
  }

  lemma HashSplits(bits: nat)
    requires bits <= 32
    ensures Pow2(bits) * Pow2(32 - bits) == 0x1_0000_0000
  {
    Pow2At32();
    Pow2Sum(bits, 32 - bits);
  }

  lemma QuotientBelow(n: nat, a: nat, b: nat)
    requires b > 0 && n < a * b
    ensures n / b < a
  {
    var q := n / b;
    assert q * b <= n;
    ProductMono(q, a, b);
  }

  lemma ProductMono(q: nat, a: nat, b: nat)
    ensures q >= a ==> q * b >= a * b
  {
    if q >= a {
      assert q * b == (q - a) * b + a * b;
    }
  }

  /** `(i + 1) & (len - 1)`. */
  function Next(i: nat, len: nat): (r: nat)
    requires i < len
    ensures r == if i + 1 == len then 0 else i + 1
  {
    (i + 1) % len
  }

  function Prev(i: nat, len: nat): (r: nat)
    requires i < len
    ensures r < len && Next(r, len) == i
  {
    if i == 0 then len - 1 else i - 1
  }

  /** `(to - from) & (len - 1)`. */
  function Gap(from: nat, to: nat, len: nat): (r: nat)
    requires from < len && to < len
    ensures r == if to >= from then to - from else to - from + len
  {
    if to < from then GapWraps(from, to, len); (to - from) % len else (to - from) % len
  }

  lemma GapWraps(from: nat, to: nat, len: nat)
    requires to < from < len
    ensures (to - from) % len == to - from + len
  {
    assert (to - from) == -1 * len + (to - from + len);
  }

  type Slots<T> = seq<Bucket<T>>

  predicate Sized<T>(t: Slots<T>, bits: nat) {
    4 <= bits <= 32 && |t| == Pow2(bits) && |t| >= 16
  }

  /** `distance`: how far slot idx is from the home of an entry. */
  function Distance<T>(len: nat, bits: nat, bkt: Bucket<T>, idx: nat): nat
    requires bits <= 32 && len == Pow2(bits) && idx < len
  {
    Gap(Home(bkt.hash, bits), idx, len)
  }

  /** How far the entry in slot i is from home. */
  function Off<T>(t: Slots<T>, bits: nat, i: nat): nat
    requires Sized(t, bits) && i < |t|
  {
    Distance(|t|, bits, t[i], i)
  }

  predicate Used<T>(t: Slots<T>, i: nat)
    requires i < |t|
  {
    t[i].data.Some?
  }

  /** An entry away from home has a neighbour behind it that is at most one step nearer to its own home. */
  predicate Leans<T>(t: Slots<T>, bits: nat, i: nat)
    requires Sized(t, bits) && i < |t|
  {
    Used(t, i) && Off(t, bits, i) > 0 ==>
      Used(t, Prev(i, |t|)) && Off(t, bits, i) <= Off(t, bits, Prev(i, |t|)) + 1
  }

  /** The probe layout. */
  predicate Layout<T>(t: Slots<T>, bits: nat) {
    Sized(t, bits) && forall i: nat | i < |t| :: Leans(t, bits, i)
  }

  /** Free slots are blank, entries carry their key's hash, and no key occurs twice. */
  ghost predicate Clean<T(!new)>(ms: multiset<Bucket<T>>) {
    && (forall b | b in ms :: if b.data.None? then b == Free() else b.hash == Hash(b.key) && ms[b] == 1)
    && (forall b, c | b in ms && c in ms && b.data.Some? && c.data.Some? && b.key == c.key :: b == c)
  }

  /** The slots hold exactly the entries of m. */
  ghost predicate Holds<T(!new)>(ms: multiset<Bucket<T>>, m: map<int32, T>) {
    && (forall b | b in ms && b.data.Some? :: b.key in m && m[b.key] == b.data.value)
    && (forall k | k in m :: Slot(k, m[k]) in ms)
  }

  // ---------------------------------------------------------------- probing

  /** Up to an entry, no slot on the way from its home is free or holds an entry nearer home than the walk is long. */
  lemma {:induction false} OnPath<T>(t: Slots<T>, bits: nat, p: nat, i: nat)
    requires Layout(t, bits) && p < |t| && i < |t| && Used(t, p)
    requires Gap(Home(t[p].hash, bits), i, |t|) <= Off(t, bits, p)
    ensures Used(t, i) && Off(t, bits, i) >= Gap(Home(t[p].hash, bits), i, |t|)
    decreases Off(t, bits, p) - Gap(Home(t[p].hash, bits), i, |t|)
  {
    hide Home;
    if i != p {
      var n := Next(i, |t|);
      OnPath(t, bits, p, n);
      assert Leans(t, bits, n);
      assert Prev(n, |t|) == i;
    }
  }

  /** Where the entry for a key is, if it is anywhere. */
  ghost predicate SitsAt<T>(t: Slots<T>, key: int32, p: nat) {
    p < |t| && Used(t, p) && t[p].key == key
  }

  /** Filling slot i with c keeps the layout when c is no nearer home than what was there. */
  lemma PlaceKeepsLayout<T>(t: Slots<T>, bits: nat, i: nat, c: Bucket<T>)
    requires Layout(t, bits) && i < |t| && c.data.Some?
    requires !Used(t, i) || Off(t, bits, i) <= Gap(Home(c.hash, bits), i, |t|)
    requires var d := Gap(Home(c.hash, bits), i, |t|);
      d > 0 ==> Used(t, Prev(i, |t|)) && d <= Off(t, bits, Prev(i, |t|)) + 1
    ensures Layout(t[i := c], bits)
  {
    hide Home;
    var u := t[i := c];
    forall j: nat | j < |u| ensures Leans(u, bits, j) {
      assert Leans(t, bits, j);
    }
  }

  // ---------------------------------------------------------------- shifting back

  /** The layout with a hole at h whose former entry was `was` away from home. */
  predicate Holed<T>(t: Slots<T>, bits: nat, h: nat, was: nat) {
    && Sized(t, bits) && h < |t| && !Used(t, h)
    && (forall i: nat | i < |t| && i != Next(h, |t|) :: Leans(t, bits, i))
    && (was > 0 ==> Used(t, Prev(h, |t|)) && was <= Off(t, bits, Prev(h, |t|)) + 1)
    && (Used(t, Next(h, |t|)) ==> Off(t, bits, Next(h, |t|)) <= was + 1)
  }

  lemma OpenHole<T>(t: Slots<T>, bits: nat, h: nat)
    requires Layout(t, bits) && h < |t| && Used(t, h)
    ensures Holed(t[h := Free()], bits, h, Off(t, bits, h))
  {
    hide Home;
    var u := t[h := Free()];
    assert Leans(t, bits, h) && Leans(t, bits, Next(h, |t|));
    assert Prev(Next(h, |t|), |t|) == h;
    forall i: nat | i < |u| && i != Next(h, |u|) ensures Leans(u, bits, i) {
      assert Leans(t, bits, i);
    }
  }

  lemma CloseHole<T>(t: Slots<T>, bits: nat, h: nat, was: nat)
    requires Holed(t, bits, h, was)
    requires !Used(t, Next(h, |t|)) || Off(t, bits, Next(h, |t|)) == 0
    ensures Layout(t, bits)
  {
    hide Home;
    assert Leans(t, bits, Next(h, |t|));
  }

  lemma ShiftHole<T>(t: Slots<T>, bits: nat, h: nat, was: nat)
    requires Holed(t, bits, h, was)
    requires Used(t, Next(h, |t|)) && Off(t, bits, Next(h, |t|)) > 0
    ensures var n := Next(h, |t|);
      Holed(t[h := t[n]][n := Free()], bits, n, Off(t, bits, n))
  {
    hide Home;
    var n := Next(h, |t|);
    var u := t[h := t[n]][n := Free()];
    assert Off(u, bits, h) == Off(t, bits, n) - 1;
    assert Prev(n, |t|) == h;
    assert Leans(t, bits, Next(n, |t|));
    assert Prev(Next(n, |t|), |t|) == n;
    forall i: nat | i < |u| && i != Next(n, |u|) ensures Leans(u, bits, i) {
      if i != h && i != n {
        assert Leans(t, bits, i);
        assert Prev(i, |t|) != h && Prev(i, |t|) != n;
      }
    }
  }

  // ---------------------------------------------------------------- the table as a collection

  lemma InsertModel<T(!new)>(ms: multiset<Bucket<T>>, m: map<int32, T>, key: int32, data: T)
    requires Clean(ms) && Holds(ms, m) && key !in m
    requires Free() in ms
    ensures var ms' := ms - multiset{Free()} + multiset{Slot(key, data)};
      Clean(ms') && Holds(ms', m[key := data])
  {
    var c := Slot(key, data);
    assert c !in ms;
  }

  lemma RemoveModel<T(!new)>(ms: multiset<Bucket<T>>, m: map<int32, T>, key: int32)
    requires Clean(ms) && Holds(ms, m) && key in m
    ensures var ms' := ms - multiset{Slot(key, m[key])} + multiset{Free()};
      Clean(ms') && Holds(ms', m - {key})
  {
    var ms' := ms - multiset{Slot(key, m[key])} + multiset{Free()};
    assert forall b | b in ms' && b.data.Some? :: b in ms && b != Slot(key, m[key]);
  }

  /** A key of the map sits in some slot. */
  lemma FindSlot<T(!new)>(t: Slots<T>, m: map<int32, T>, key: int32) returns (p: nat)
    requires Holds(multiset(t), m) && key in m
    ensures p < |t| && t[p] == Slot(key, m[key])
  {
    assert Slot(key, m[key]) in multiset(t);
    p :| p < |t| && t[p] == Slot(key, m[key]);
  }

  /** An entry met in a slot tells the key's value. */
  lemma SlotTells<T(!new)>(t: Slots<T>, m: map<int32, T>, i: nat)
    requires Clean(multiset(t)) && Holds(multiset(t), m) && i < |t| && Used(t, i)
    ensures t[i].key in m && t[i] == Slot(t[i].key, m[t[i].key])
  {
    assert t[i] in multiset(t);
  }

  /**
   * What a search may conclude after d steps from home: while every slot passed was taken by an entry
   * at least as far from its home, the key can only be further on.
   */
  ghost predicate NotYet<T>(t: Slots<T>, bits: nat, key: int32, d: nat)
    requires Sized(t, bits)
  {
    forall p: nat | SitsAt(t, key, p) && t[p].hash == Hash(key) :: d <= Off(t, bits, p)
  }

  /** Stopping at a free slot, or at one whose entry is nearer home than the walk is long, is right. */
  lemma StopMeansAbsent<T(!new)>(t: Slots<T>, m: map<int32, T>, bits: nat, key: int32, d: nat, i: nat)
    requires Layout(t, bits) && Clean(multiset(t)) && Holds(multiset(t), m) && i < |t|
    requires d == Gap(Home(Hash(key), bits), i, |t|) && NotYet(t, bits, key, d)
    requires !Used(t, i) || d > Off(t, bits, i)
    ensures key !in m
  {
    hide Home;
    if key in m {
      var p := FindSlot(t, m, key);
      assert SitsAt(t, key, p);
      OnPath(t, bits, p, i);
    }
  }

  lemma PassKeepsNotYet<T>(t: Slots<T>, bits: nat, key: int32, d: nat, i: nat)
    requires Sized(t, bits) && i < |t| && d == Gap(Home(Hash(key), bits), i, |t|) && NotYet(t, bits, key, d)
    requires Used(t, i) && t[i].key != key
    ensures NotYet(t, bits, key, d + 1)
  {
    hide Home;
    forall p: nat | SitsAt(t, key, p) && t[p].hash == Hash(key) ensures d + 1 <= Off(t, bits, p) {
      assert p != i;
    }
  }

  /** An entry c carried to slot i, d steps from its home, with a free slot `hole` still ahead of it. */
  predicate Carried<T>(t: Slots<T>, bits: nat, c: Bucket<T>, d: nat, i: nat, hole: nat)
    requires Sized(t, bits)
  {
    && i < |t| && hole < |t| && !Used(t, hole) && c.data.Some?
    && d == Gap(Home(c.hash, bits), i, |t|) <= Gap(Home(c.hash, bits), hole, |t|)
    && (d > 0 ==> Used(t, Prev(i, |t|)) && d <= Off(t, bits, Prev(i, |t|)) + 1)
  }

  lemma CarriedFromHome<T>(t: Slots<T>, bits: nat, c: Bucket<T>, hole: nat)
    requires Sized(t, bits) && hole < |t| && !Used(t, hole) && c.data.Some?
    ensures Carried(t, bits, c, 0, Home(c.hash, bits), hole)
    ensures forall key: int32 :: NotYet(t, bits, key, 0)
  {
  }

  lemma CarryOn<T>(t: Slots<T>, bits: nat, c: Bucket<T>, d: nat, i: nat, hole: nat)
    requires Layout(t, bits) && Carried(t, bits, c, d, i, hole) && Used(t, i) && d <= Off(t, bits, i)
    ensures Carried(t, bits, c, d + 1, Next(i, |t|), hole)
    ensures Gap(Next(i, |t|), hole, |t|) < Gap(i, hole, |t|)
  {
    hide Home;
    assert Prev(Next(i, |t|), |t|) == i;
  }

  lemma Displace<T>(t: Slots<T>, bits: nat, c: Bucket<T>, d: nat, i: nat, hole: nat)
    requires Layout(t, bits) && Carried(t, bits, c, d, i, hole) && Used(t, i) && d > Off(t, bits, i)
    ensures Layout(t[i := c], bits)
    ensures Carried(t[i := c], bits, t[i], Off(t, bits, i) + 1, Next(i, |t|), hole)
    ensures Gap(Next(i, |t|), hole, |t|) < Gap(i, hole, |t|)
  {
    hide Home;
    PlaceKeepsLayout(t, bits, i, c);
    if Gap(Home(t[i].hash, bits), hole, |t|) <= Off(t, bits, i) {
      OnPath(t, bits, i, hole);
    }
    assert Prev(Next(i, |t|), |t|) == i;
  }

  /** `insert`: false exactly when the key is already there, and then nothing has changed. */
  method InsertEntry<T(!new)>(table: array<Bucket<T>>, bits: nat, hash: uint32, key: int32, data: T,
                              ghost m: map<int32, T>)
    returns (ok: bool)
    requires Sized(table[..], bits)
    requires Layout(table[..], bits) && Clean(multiset(table[..])) && Holds(multiset(table[..]), m)
    requires Free() in table[..] && hash == Hash(key)
    modifies table
    ensures ok <==> key !in m
    ensures !ok ==> table[..] == old(table[..])
    ensures Sized(table[..], bits) && Layout(table[..], bits)
    ensures ok ==> multiset(table[..]) == old(multiset(table[..])) - multiset{Free()} + multiset{Slot(key, data)}
  {
    hide Home, Layout, Clean, Holds, Gap, Prev;
    var carried := Bucket(hash, key, Some(data));
    var idx: nat := Home(hash, bits);
    var d: nat := 0;
    ghost var hole: nat :| hole < table.Length && table[hole] == Free();
    ghost var swapped := false;
    ghost var was := table[..];
    CarriedFromHome(was, bits, carried, hole);
    while true
      invariant Sized(table[..], bits)
      invariant Layout(table[..], bits) && Carried(table[..], bits, carried, d, idx, hole)
      invariant multiset(table[..]) + multiset{carried} == multiset(was) + multiset{Slot(key, data)}
      invariant !swapped ==> table[..] == was && carried == Slot(key, data) && NotYet(table[..], bits, key, d)
      invariant swapped ==> key !in m
      decreases Gap(idx, hole, table.Length)
    {
      var bkt := table[idx];
      if bkt.data.None? {
        if !swapped {
          StopMeansAbsent(table[..], m, bits, key, d, idx);
        }
        PlaceKeepsLayout(table[..], bits, idx, carried);
        FreeIsBlank(table[..], was, key, data, carried, idx);
        table[idx] := carried;
        return true;
      }
      if key !in m {
        CarriedIsNew(table[..], was, m, key, data, carried, idx);
      }
      var dd: nat := Distance(table.Length, bits, bkt, idx);
      if d > dd {
        if !swapped {
          StopMeansAbsent(table[..], m, bits, key, d, idx);
        }
        Displace(table[..], bits, carried, d, idx, hole);
        table[idx] := carried;
        carried := bkt;
        d := dd;
        swapped := true;
      } else if bkt.key == carried.key {
        KeyIsThere(table[..], m, key, idx);
        return false;
      } else {
        CarryOn(table[..], bits, carried, d, idx, hole);
        if !swapped {
          PassKeepsNotYet(table[..], bits, key, d, idx);
        }
      }
      d := d + 1;
      idx := Next(idx, table.Length);
    }
  }

  lemma KeyIsThere<T(!new)>(t: Slots<T>, m: map<int32, T>, key: int32, i: nat)
    requires Holds(multiset(t), m) && i < |t| && Used(t, i)
    ensures t[i].key == key ==> key in m
  {
    assert t[i] in multiset(t);
  }

  /** A free slot is blank, so filling it trades a blank for the entry. */
  lemma FreeIsBlank<T(!new)>(t: Slots<T>, was: Slots<T>, key: int32, data: T, c: Bucket<T>, i: nat)
    requires Clean(multiset(was)) && i < |t| && !Used(t, i) && c.data.Some?
    requires multiset(t) + multiset{c} == multiset(was) + multiset{Slot(key, data)}
    ensures multiset(t[i := c]) == multiset(was) - multiset{Free()} + multiset{Slot(key, data)}
  {
    var both := multiset(t) + multiset{c};
    assert t[i] in multiset(t) && t[i] in both;
    assert t[i] in multiset(was);
    assert multiset(t[i := c]) == both - multiset{t[i]};
  }

  /** While the new entry or one it displaced is carried, no slot holds the carried key. */
  lemma CarriedIsNew<T(!new)>(t: Slots<T>, was: Slots<T>, m: map<int32, T>, key: int32, data: T, c: Bucket<T>, i: nat)
    requires Clean(multiset(was)) && Holds(multiset(was), m) && Free() in was && key !in m
    requires multiset(t) + multiset{c} == multiset(was) + multiset{Slot(key, data)}
    requires i < |t| && Used(t, i) && c.data.Some?
    ensures t[i].key != c.key
  {
    InsertModel(multiset(was), m, key, data);
    var ms := multiset(was) - multiset{Free()} + multiset{Slot(key, data)};
    var both := multiset(t) + multiset{c};
    assert both[Free()] >= 1 && multiset(t)[Free()] >= 1;
    assert ms == both - multiset{Free()} == multiset(t) - multiset{Free()} + multiset{c};
    assert t[i] in multiset(t) && t[i] in ms && c in ms;
    assert t[i] == c ==> ms[c] >= 2;
  }

  lemma StartSearch<T>(t: Slots<T>, bits: nat, key: int32)
    requires Sized(t, bits)
    ensures NotYet(t, bits, key, 0) && Gap(Home(Hash(key), bits), Home(Hash(key), bits), |t|) == 0
  {
  }

  /** The loop `nghttp2_map_find` and `nghttp2_map_remove` share: the slot of the key, if it has one. */
  method Locate<T(!new)>(table: array<Bucket<T>>, bits: nat, key: int32, ghost m: map<int32, T>)
    returns (found: Option<nat>)
    requires Sized(table[..], bits) && Layout(table[..], bits)
    requires Clean(multiset(table[..])) && Holds(multiset(table[..]), m) && Free() in table[..]
    ensures found.None? ==> key !in m
    ensures found.Some? ==> found.value < table.Length && key in m && table[found.value] == Slot(key, m[key])
  {
    hide Home, Layout, Clean, Holds;
    ghost var t := table[..];
    ghost var hole: nat :| hole < table.Length && t[hole] == Free();
    var idx: nat := Home(Hash(key), bits);
    var d: nat := 0;
    StartSearch(t, bits, key);
    while true
      invariant idx < table.Length
      invariant d == Gap(Home(Hash(key), bits), idx, table.Length) <= Gap(Home(Hash(key), bits), hole, table.Length)
      invariant NotYet(t, bits, key, d)
      decreases Gap(idx, hole, table.Length)
    {
      var bkt := table[idx];
      if bkt.data.None? || d > Distance(table.Length, bits, bkt, idx) {
        StopMeansAbsent(t, m, bits, key, d, idx);
        return None;
      }
      if bkt.key == key {
        SlotTells(t, m, idx);
        return Some(idx);
      }
      PassKeepsNotYet(t, bits, key, d, idx);
      d := d + 1;
      idx := Next(idx, table.Length);
    }
  }

  /** The inner loop of `nghttp2_map_remove`: the entries behind the freed slot move back one by one. */
  method ShiftBack<T(!new)>(table: array<Bucket<T>>, bits: nat, at: nat, ghost was: nat, ghost stop: nat)
    requires Sized(table[..], bits) && at < table.Length && table[at] == Free() && Holed(table[..], bits, at, was)
    requires stop < table.Length && stop != at && table[stop] == Free()
    modifies table
    ensures Sized(table[..], bits) && Layout(table[..], bits)
    ensures multiset(table[..]) == old(multiset(table[..]))
  {
    hide Home, Layout, Holed, Gap, Pow2, Leans;
    ghost var gone: nat := was;
    var didx: nat := at;
    var idx: nat := Next(didx, table.Length);
    while true
      invariant Sized(table[..], bits) && didx < table.Length && idx == Next(didx, table.Length)
      invariant Holed(table[..], bits, didx, gone) && table[didx] == Free()
      invariant stop != didx && table[stop] == Free()
      invariant multiset(table[..]) == old(multiset(table[..]))
      decreases Gap(idx, stop, table.Length)
    {
      var bkt := table[idx];
      if bkt.data.None? || Distance(table.Length, bits, bkt, idx) == 0 {
        CloseHole(table[..], bits, didx, gone);
        return;
      }
      ShiftHole(table[..], bits, didx, gone);
      MoveKeepsEntries(table[..], didx, idx);
      NearerTo(idx, stop, table.Length);
      gone := Off(table[..], bits, idx);
      table[didx] := bkt;
      table[idx] := Free();
      didx := idx;
      idx := Next(idx, table.Length);
    }
  }

  lemma NearerTo(i: nat, stop: nat, len: nat)
    requires i < len && stop < len && i != stop
    ensures Gap(Next(i, len), stop, len) < Gap(i, stop, len)
  {
  }

  lemma MoveKeepsEntries<T>(t: Slots<T>, h: nat, n: nat)
    requires h < |t| && n < |t| && h != n && t[h] == Free()
    ensures multiset(t[h := t[n]][n := Free()]) == multiset(t)
  {
  }

  /** An entry met while copying slots in order is not among those copied. */
  lemma NotCopiedYet<T(!new)>(t: Slots<T>, i: nat, part: map<int32, T>)
    requires Clean(multiset(t)) && i < |t| && Used(t, i) && Holds(multiset(t[..i]), part)
    ensures t[i].key !in part
  {
    var b := t[i];
    assert t == t[..i] + [b] + t[i + 1..];
    assert b in multiset(t) && multiset(t)[b] == 1;
    assert b !in multiset(t[..i]);
    assert forall c | c in multiset(t[..i]) :: c in multiset(t);
  }

  lemma EntryCopied<T(!new)>(t: Slots<T>, i: nat, part: map<int32, T>)
    requires Clean(multiset(t)) && i < |t| && Used(t, i) && Holds(multiset(t[..i]), part) && t[i].key !in part
    ensures t[i] == Slot(t[i].key, t[i].data.value)
    ensures Holds(multiset(t[..i + 1]), part[t[i].key := t[i].data.value])
  {
    assert t[i] in multiset(t);
    assert t[..i + 1] == t[..i] + [t[i]];
    assert forall c | c in multiset(t[..i + 1]) :: c in multiset(t[..i]) || c == t[i];
  }

  lemma FreeCopied<T(!new)>(t: Slots<T>, i: nat, part: map<int32, T>)
    requires i < |t| && !Used(t, i) && Holds(multiset(t[..i]), part)
    ensures Holds(multiset(t[..i + 1]), part)
  {
    assert t[..i + 1] == t[..i] + [t[i]];
  }

  lemma HoldsUnique<T(!new)>(ms: multiset<Bucket<T>>, m: map<int32, T>, n: map<int32, T>)
    requires Holds(ms, m) && Holds(ms, n)
    ensures m == n
  {
    assert forall k | k in m :: Slot(k, m[k]) in ms && k in n && n[k] == m[k];
    assert forall k | k in n :: Slot(k, n[k]) in ms && k in m;
  }

  /** A table of slots that stands for the finite map m. */
  ghost predicate Stored<T(!new)>(t: Slots<T>, bits: nat, m: map<int32, T>) {
    && bits <= 31 && Sized(t, bits) && Layout(t, bits)
    && Clean(multiset(t)) && Holds(multiset(t), m)
    && multiset(t)[Free()] == |t| - |m|
  }

  lemma StoredParts<T(!new)>(t: Slots<T>, bits: nat, m: map<int32, T>)
    requires Stored(t, bits, m) && |m| < |t|
    ensures Sized(t, bits) && Layout(t, bits) && Clean(multiset(t)) && Holds(multiset(t), m) && Free() in t
  {
    assert Free() in multiset(t);
  }

  lemma InsertStored<T(!new)>(t: Slots<T>, u: Slots<T>, bits: nat, m: map<int32, T>, key: int32, data: T)
    requires Stored(t, bits, m) && |m| < |t| && key !in m && Sized(u, bits) && Layout(u, bits)
    requires multiset(u) == multiset(t) - multiset{Free()} + multiset{Slot(key, data)}
    ensures Stored(u, bits, m[key := data])
  {
    hide Layout, Clean, Holds;
    StoredParts(t, bits, m);
    InsertModel(multiset(t), m, key, data);
  }

  lemma RemoveStored<T(!new)>(t: Slots<T>, u: Slots<T>, bits: nat, m: map<int32, T>, key: int32, i: nat)
    requires Stored(t, bits, m) && key in m && i < |t| && t[i] == Slot(key, m[key])
    requires Sized(u, bits) && Layout(u, bits) && multiset(u) == multiset(t[i := Free()])
    ensures Stored(u, bits, m - {key}) && |m - {key}| == |m| - 1
  {
    hide Layout, Clean, Holds;
    RemoveModel(multiset(t), m, key);
    assert multiset(t[i := Free()]) == multiset(t) - multiset{t[i]} + multiset{Free()};
    assert (m - {key}).Keys == m.Keys - {key};
    assert |m.Keys| == |m| && |(m - {key}).Keys| == |m - {key}|;
  }

  /** `nghttp2_map`; `m` is the finite map it stands for. */
  class Map<T(!new)> {
    var table: array<Bucket<T>>
    var size: nat
    var tablelenbits: nat
    ghost var m: map<int32, T>

    ghost predicate Valid()
      reads this, table
    {
      && size == |m| && 4 * size <= 3 * table.Length
      && if table.Length == 0 then m == map[] else Stored(table[..], tablelenbits, m)
    }

    constructor ()
      ensures Valid() && m == map[] && fresh(table)
    {
      table := new Bucket<T>[0];
      size, tablelenbits := 0, 0;
      m := map[];
    }

    /** `map_resize`: every entry goes into a larger table, and none of them is refused. */
    method Resize(newLen: nat, newBits: nat)
      requires Valid() && 4 <= newBits <= 31 && newLen == Pow2(newBits) && newLen >= 16
      requires table.Length < newLen && size < newLen
      modifies this`table, this`tablelenbits
      ensures fresh(table) && table.Length == newLen && tablelenbits == newBits
      ensures Stored(table[..], newBits, m)
    {
      hide Home, Layout, Clean, Holds, Off;
      var newTable := new Bucket<T>[newLen](_ => Free());
      ghost var part: map<int32, T> := map[];
      ghost var t := table[..];
      BlankTable(newTable[..], newBits);
      EmptyHolds(t[..0]);
      var i := 0;
      while i < table.Length
        invariant i <= table.Length && table == old(table) && table[..] == t
        invariant Sized(newTable[..], newBits) && Layout(newTable[..], newBits)
        invariant Clean(multiset(newTable[..])) && Holds(multiset(newTable[..]), part)
        invariant multiset(newTable[..])[Free()] == newLen - |part|
        invariant Holds(multiset(t[..i]), part) && |part| <= |m|
      {
        var bkt := table[i];
        if bkt.data.Some? {
          NotCopiedYet(t, i, part);
          EntryCopied(t, i, part);
          PartIsSmaller(t, i, part, m);
          InsertModel(multiset(newTable[..]), part, bkt.key, bkt.data.value);
          var ok := InsertEntry(newTable, newBits, bkt.hash, bkt.key, bkt.data.value, part);
          assert ok;
          part := part[bkt.key := bkt.data.value];
        } else {
          FreeCopied(t, i, part);
        }
        i := i + 1;
      }
      assert t[..i] == t;
      if t != [] {
        HoldsUnique(multiset(t), m, part);
      } else {
        HoldsUnique(multiset(t), map[], part);
      }
      table := newTable;
      tablelenbits := newBits;
    }

    /** Whether one more entry would exceed the load factor of 0.75. */
    predicate Crowded()
      reads this
    {
      (size + 1) * 4 > table.Length * 3
    }

    /** The length of the table that follows one of this length. */
    static function Larger(length: nat): nat {
      if length == 0 then 16 else 2 * length
    }

    /** The first half of `nghttp2_map_insert`: a table with room for one more entry, unless memory is out. */
    method MakeRoom(canAlloc: bool) returns (ok: bool)
      requires Valid() && (canAlloc ==> tablelenbits < 31)
      modifies this`table, this`tablelenbits
      ensures Valid() && (table == old(table) || fresh(table))
      ensures ok <==> canAlloc || !old(Crowded())
      ensures if ok then !Crowded() else table == old(table) && tablelenbits == old(tablelenbits)
      ensures table.Length == if !ok || !old(Crowded()) then old(table.Length) else Larger(old(table.Length))
    {
      hide Stored, Sized, Layout, Clean, Holds, Pow2;
      if Crowded() {
        if !canAlloc {
          return false;
        }
        if table.Length > 0 {
          Doubled(table[..], tablelenbits, m);
          Resize(table.Length * 2, tablelenbits + 1);
        } else {
          InitialLength();
          Resize(16, 4);
        }
      }
      return true;
    }

    /** The second half: the entry goes into a table that has room for it. */
    method Place(key: int32, data: T) returns (rv: Status)
      requires Valid() && !Crowded()
      modifies this`size, this`m, table
      ensures Valid()
      ensures rv == if key in old(m) then InvalidArgument else OK
      ensures m == if rv == OK then old(m)[key := data] else old(m)
    {
      hide Stored, Sized, Layout, Clean, Holds, Pow2, Free, Slot, Hash;
      ghost var t := table[..];
      StoredParts(t, tablelenbits, m);
      var ok := InsertEntry(table, tablelenbits, Hash(key), key, data, m);
      if !ok {
        return InvalidArgument;
      }
      InsertStored(t, table[..], tablelenbits, m, key, data);
      size := size + 1;
      m := m[key := data];
      return OK;
    }

    /**
     * `nghttp2_map_insert`. `canAlloc` says whether memory for a larger table is to be had;
     * the length of a table is a 32-bit number.
     */
    method Insert(key: int32, data: T, canAlloc: bool) returns (rv: Status)
      requires Valid() && (canAlloc ==> tablelenbits < 31)
      modifies this, table
      ensures Valid() && (table == old(table) || fresh(table))
      ensures var full := 4 * (|old(m)| + 1) > 3 * old(table.Length);
        && rv == (if !canAlloc && full then NoMem else if key in old(m) then InvalidArgument else OK)
        && table.Length == (if canAlloc && full then Larger(old(table.Length)) else old(table.Length))
      ensures m == if rv == OK then old(m)[key := data] else old(m)
    {
      Counted();
      hide Stored;
      var room := MakeRoom(canAlloc);
      if !room {
        return NoMem;
      }
      rv := Place(key, data);
    }

    lemma Counted()
      requires Valid()
      ensures size == |m|
    {
    }

    /** `nghttp2_map_find`. */
    method Find(key: int32) returns (r: Option<T>)
      requires Valid()
      ensures r == if key in m then Some(m[key]) else None
    {
      hide Stored, Sized, Layout, Clean, Holds, Pow2;
      if size == 0 {
        return None;
      }
      StoredParts(table[..], tablelenbits, m);
      var found := Locate(table, tablelenbits, key, m);
      if found.None? {
        return None;
      }
      return table[found.value].data;
    }

    /** `nghttp2_map_remove`. */
    method Remove(key: int32) returns (rv: Status)
      requires Valid()
      modifies this`size, this`m, table
      ensures Valid()
      ensures rv == if key in old(m) then OK else InvalidArgument
      ensures m == old(m) - {key}
    {
      hide Stored, Sized, Layout, Clean, Holds, Pow2, Hash;
      if size == 0 {
        return InvalidArgument;
      }
      StoredParts(table[..], tablelenbits, m);
      var found := Locate(table, tablelenbits, key, m);
      if found.None? {
        return InvalidArgument;
      }
      TakeOut(found.value, key);
      return OK;
    }

    /** The entry found is freed and the ones behind it move up. */
    method TakeOut(idx: nat, key: int32)
      requires Valid() && table.Length > 0 && idx < table.Length && key in m && table[idx] == Slot(key, m[key])
      modifies this`size, this`m, table
      ensures Valid() && m == old(m) - {key}
    {
      hide Stored, Layout, Holed, Clean, Holds, Pow2, Hash, Off;
      ghost var t := table[..];
      StoredParts(t, tablelenbits, m);
      OpenHole(t, tablelenbits, idx);
      ghost var stop := OtherFree(t, idx);
      table[idx] := Free();
      ShiftBack(table, tablelenbits, idx, Off(t, tablelenbits, idx), stop);
      RemoveStored(t, table[..], tablelenbits, m, key, idx);
      size := size - 1;
      m := m - {key};
    }

    /** `nghttp2_map_clear`. */
    method Clear()
      requires Valid()
      modifies this, table
      ensures Valid() && table == old(table) && m == map[]
    {
      if table.Length == 0 {
        return;
      }
      ghost var t := table[..];
      forall i | 0 <= i < table.Length {
        table[i] := Free();
      }
      size := 0;
      m := map[];
      BlankTable(table[..], tablelenbits);
    }
  }

  /** Freeing slot i leaves the slots that were free before. */
  lemma OtherFree<T>(t: Slots<T>, i: nat) returns (j: nat)
    requires i < |t| && Used(t, i) && Free() in t
    ensures j < |t| && j != i && t[j] == Free()
  {
    j :| j < |t| && t[j] == Free();
  }

  lemma InitialLength()
    ensures Pow2(4) == 16
  {
  }

  lemma Doubled<T(!new)>(t: Slots<T>, bits: nat, m: map<int32, T>)
    requires Stored(t, bits, m)
    ensures |t| * 2 == Pow2(bits + 1) && |t| >= 16 && 4 <= bits
  {
  }

  lemma BlankTable<T(!new)>(t: Slots<T>, bits: nat)
    requires 4 <= bits <= 32 && |t| == Pow2(bits) && |t| >= 16 && forall i | 0 <= i < |t| :: t[i] == Free()
    ensures Sized(t, bits) && Layout(t, bits) && Clean(multiset(t)) && Holds(multiset(t), map[])
    ensures multiset(t)[Free()] == |t|
  {
    AllFree(t);
  }

  lemma {:induction false} AllFree<T>(t: Slots<T>)
    requires forall i | 0 <= i < |t| :: t[i] == Free()
    ensures multiset(t)[Free()] == |t|
    ensures forall b | b in multiset(t) :: b == Free()
  {
    if t != [] {
      AllFree(t[1..]);
      assert t == [t[0]] + t[1..];
    }
  }

  lemma EmptyHolds<T(!new)>(t: Slots<T>)
    requires t == []
    ensures Holds(multiset(t), map[])
  {
  }

  lemma PartIsSmaller<T(!new)>(t: Slots<T>, i: nat, part: map<int32, T>, m: map<int32, T>)
    requires Clean(multiset(t)) && i < |t| && Used(t, i)
    requires Holds(multiset(t[..i]), part) && Holds(multiset(t), m)
    ensures |part| < |m|
  {
    NotCopiedYet(t, i, part);
    assert t == t[..i] + t[i..];
    assert t[i] in multiset(t);
    forall k | k in part ensures k in m {
      assert Slot(k, part[k]) in multiset(t);
    }
    assert part.Keys < m.Keys by {
      assert t[i].key in m.Keys && t[i].key !in part.Keys;
    }
    SubsetSmaller(part.Keys, m.Keys);
    assert |part| == |part.Keys| && |m| == |m.Keys|;
  }

  lemma SubsetSmaller<K>(a: set<K>, b: set<K>)
    requires a < b
    ensures |a| < |b|
  {
    assert |b| == |a| + |b - a|;
    var x :| x in b && x !in a;
    assert x in b - a;
  }
}
