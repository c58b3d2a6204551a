/**
 * The dynamic table of section 4 of RFC 7541 as a sequence of entries, newest
 * first: what eviction and insertion leave in it.
 */
module DynamicTable {
  import opened Common

  datatype Entry = Entry(name: Bytes, value: Bytes)

  const ENTRY_OVERHEAD := 32

  /** `entry_room`. */
  function Room(e: Entry): (r: nat)
    ensures r >= ENTRY_OVERHEAD
  {
    ENTRY_OVERHEAD + |e.name| + |e.value|
  }

  function Size(t: seq<Entry>): nat {
    if t == [] then 0 else Size(t[..|t| - 1]) + Room(t[|t| - 1])
  }

  /** Entries dropped from the old end until at most `limit` is taken. */
  function Evict(t: seq<Entry>, limit: nat): (r: seq<Entry>)
    ensures r <= t && Size(r) <= limit
  {
    if Size(t) <= limit then t else Evict(t[..|t| - 1], limit)
  }

  /** Insertion: room is made at the old end; an entry larger than the table only empties it. */
  function Add(t: seq<Entry>, e: Entry, max: nat): seq<Entry> {
    if Room(e) > max then [] else [e] + Evict(t, max - Room(e))
  }

  lemma {:induction false} SizeCons(e: Entry, t: seq<Entry>)
    ensures Size([e] + t) == Room(e) + Size(t)
  {
    var u := [e] + t;
    if t == [] {
      assert u[..0] == [];
    } else {
      assert u[..|u| - 1] == [e] + t[..|t| - 1];
      SizeCons(e, t[..|t| - 1]);
    }
  }

  /** A table never outgrows its limit, and every entry costs at least its overhead. */
  lemma AddFits(t: seq<Entry>, e: Entry, max: nat)
    ensures Size(Add(t, e, max)) <= max
  {
    if Room(e) <= max {
      SizeCons(e, Evict(t, max - Room(e)));
    }
  }

  lemma {:induction false} LengthBound(t: seq<Entry>)
    ensures ENTRY_OVERHEAD * |t| <= Size(t)
  {
    if t != [] {
      LengthBound(t[..|t| - 1]);
    }
  }

  lemma {:induction false} PrefixSize(t: seq<Entry>, k: nat)
    requires k <= |t|
    ensures Size(t[..k]) <= Size(t)
    ensures k < |t| ==> Size(t[..k]) < Size(t)
  {
    if k < |t| {
      var h := t[..|t| - 1];
      PrefixSize(h, k);
      assert h[..k] == t[..k];
    } else {
      assert t[..k] == t;
    }
  }

  /** What is kept is the longest run of newest entries that fits: only the oldest go, and no more than needed. */
  lemma {:induction false} EvictIsLongest(t: seq<Entry>, limit: nat, k: nat)
    requires k <= |t|
    ensures k <= |Evict(t, limit)| <==> Size(t[..k]) <= limit
  {
    PrefixSize(t, k);
    if Size(t) > limit {
      var h := t[..|t| - 1];
      if k < |t| {
        EvictIsLongest(h, limit, k);
        assert h[..k] == t[..k];
      } else {
        assert t[..k] == t;
      }
    }
  }

  /**
   * Insertion for every entry and limit: nothing is left exactly when the entry alone is larger than the limit;
   * otherwise it stands in front of the longest newest run that fits beside it.
   */
  lemma AddIs(t: seq<Entry>, e: Entry, max: nat, k: nat)
    requires k <= |t|
    ensures Add(t, e, max) == [] <==> Room(e) > max
    ensures Room(e) <= max ==>
      var r := Add(t, e, max);
      && r[0] == e && r[1..] <= t
      && (k <= |r| - 1 <==> Room(e) + Size(t[..k]) <= max)
  {
    if Room(e) <= max {
      EvictIsLongest(t, max - Room(e), k);
    }
  }

  /** The octets of all names and values. */
  function Octets(t: seq<Entry>): nat {
    if t == [] then 0 else |t[0].name| + |t[0].value| + Octets(t[1..])
  }

  /** Section 4.1 of RFC 7541: the octets of the strings and 32 for each entry. */
  lemma {:induction false} SizeIs(t: seq<Entry>)
    ensures Size(t) == 32 * |t| + Octets(t)
  {
    if t != [] {
      SizeIs(t[1..]);
      SizeCons(t[0], t[1..]);
      assert t == [t[0]] + t[1..];
    }
  }

  /** Shrinking twice is shrinking once to the smaller size. */
  lemma {:induction false} EvictTwice(t: seq<Entry>, a: nat, b: nat)
    ensures Evict(Evict(t, a), b) == Evict(t, Min(a, b))
  {
    if Size(t) > a {
      EvictTwice(t[..|t| - 1], a, b);
    } else if Size(t) > b {
      EvictTwice(t[..|t| - 1], a, b);
      PrefixSize(t, |t| - 1);
    }
  }

  /** The table after a whole series of size changes. */
  function EvictAll(t: seq<Entry>, sizes: seq<nat>): seq<Entry>
    decreases |sizes|
  {
    if sizes == [] then t else EvictAll(Evict(t, sizes[0]), sizes[1..])
  }

  function Minimum(sizes: seq<nat>): nat
    requires sizes != []
  {
    if |sizes| == 1 then sizes[0] else Min(sizes[0], Minimum(sizes[1..]))
  }

  /** A series of size changes leaves what one change to their minimum leaves. */
  lemma {:induction false} ShrinkSeriesIsMinimum(t: seq<Entry>, sizes: seq<nat>)
    requires sizes != []
    ensures EvictAll(t, sizes) == Evict(t, Minimum(sizes))
    decreases |sizes|
  {
    if |sizes| == 1 {
      assert sizes[1..] == [];
    } else {
      ShrinkSeriesIsMinimum(Evict(t, sizes[0]), sizes[1..]);
      EvictTwice(t, sizes[0], Minimum(sizes[1..]));
    }
  }
}
