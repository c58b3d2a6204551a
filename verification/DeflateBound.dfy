/** How long a deflated block can get, and when `nghttp2_hd_deflate_bound` bounds it. */
module DeflateBound {
  import opened Common
  import opened DynamicTable
  import opened Hpack
  import PrefixInt
  import Huffman = HuffmanCode

  /** From this length on a string's own length takes six octets. */
  const LONG := 0x1000_0000 + 127

  function Lengths(nvs: seq<Field>): nat {
    if nvs == [] then 0 else |nvs[0].name| + |nvs[0].value| + Lengths(nvs[1..])
  }

  /** What `nghttp2_hd_deflate_bound` adds up. */
  function Allowance(nvs: seq<Field>): nat {
    12 + 12 * |nvs| + Lengths(nvs)
  }

  /** `nghttp2_hd_deflate_bound`, its sum kept in a `size_t` of the hub. */
  method Bound(nva: seq<Field>) returns (n: nat)
    ensures n == Allowance(nva) % SIZE_MODULUS
  {
    n := 12;
    n := (n + 6 * 2 * |nva|) % SIZE_MODULUS;
    ghost var sum: nat := 12 + 12 * |nva|;
    var i := 0;
    while i < |nva|
      invariant i <= |nva| && n == sum % SIZE_MODULUS && sum + Lengths(nva[i..]) == Allowance(nva)
    {
      assert nva[i..][1..] == nva[i + 1..];
      WrapAdd(sum, |nva[i].name| + |nva[i].value|);
      sum := sum + |nva[i].name| + |nva[i].value|;
      n := (n + |nva[i].name| + |nva[i].value|) % SIZE_MODULUS;
      i := i + 1;
    }
  }

  lemma WrapAdd(sum: nat, more: nat)
    ensures (sum % SIZE_MODULUS + more) % SIZE_MODULUS == (sum + more) % SIZE_MODULUS
  {
  }

  lemma SixOctets(first: byte, n: uint32, prefix: nat)
    requires PrefixInt.IsPrefix(prefix)
    ensures |PrefixInt.Encode(first, n, prefix)| <= 6
  {
    if n >= PrefixInt.Mask(prefix) {
      Pow2At32();
      Pow2Mono(32, 7 * 5);
      PrefixInt.GroupsLength(n - PrefixInt.Mask(prefix), 5);
    }
  }

  lemma FiveOctets(first: byte, n: nat)
    requires n < LONG
    ensures |PrefixInt.Encode(first, n, 7)| <= 5
  {
    if n >= 127 {
      Pow2At28();
      PrefixInt.GroupsLength(n - 127, 4);
    }
  }

  lemma Pow2At28()
    ensures Pow2(28) == 0x1000_0000
  {
    assert Pow2(7) == 128;
    Pow2Sum(7, 7);
    Pow2Sum(14, 14);
    assert 16384 * 16384 == 0x1000_0000;
  }

  /** By how much a field may overrun the twelve octets it is allowed: a new name with two long strings does. */
  function Excess(nv: Field): int {
    (if |nv.name| >= LONG then 1 else 0) + (if |nv.value| >= LONG then 1 else 0) - 1
  }

  function ExcessAll(nvs: seq<Field>): int {
    if nvs == [] then 0 else Excess(nvs[0]) + ExcessAll(nvs[1..])
  }

  lemma StringBound(p: Tables, s: Bytes)
    requires ValidTables(p) && |s| <= UINT32_MAX
    ensures |EncodeString(p, s)| <= |s| + if |s| >= LONG then 6 else 5
  {
    var h := Huffman.Encode(p.code, s);
    var n := Min(|h|, |s|);
    SixOctets(0x80, n, 7);
    SixOctets(0, n, 7);
    if n < LONG {
      FiveOctets(0x80, n);
      FiveOctets(0, n);
    }
  }

  /** Whatever representation is picked for a field, it overruns its allowance by its excess at most. */
  lemma FieldBound(p: Tables, d: Deflating, nv: Field)
    requires ValidTables(p) && ValidDeflating(d) && d.max <= UINT32_MAX && Addressable(nv)
    ensures |EncodeRepr(p, Choose(p, d, nv))| <= 12 + Excess(nv) + |nv.name| + |nv.value|
  {
    hide EncodeString, PrefixInt.Encode, Search;
    LengthBound(d.table);
    ChoiceIsSound(p, d, nv);
    StringBound(p, nv.name);
    StringBound(p, nv.value);
    var r := Choose(p, d, nv);
    match r
    case Indexed(i) => SixOctets(0x80, i + 1, 7);
    case IndexedName(i, _, mode) => SixOctets(FirstOctet(mode), i + 1, NamePrefix(mode));
    case NewName(_, _, _) =>
  }

  lemma {:induction false} FieldsBound(p: Tables, d: Deflating, nvs: seq<Field>)
    requires ValidTables(p) && ValidDeflating(d) && d.max <= UINT32_MAX && AllAddressable(nvs)
    ensures |DeflateFields(p, d, nvs).1| <= 12 * |nvs| + ExcessAll(nvs) + Lengths(nvs)
    decreases |nvs|
  {
    if nvs != [] {
      assert Addressable(nvs[0]);
      hide EncodeRepr, Choose, Addressable, Excess;
      FieldBound(p, d, nvs[0]);
      AddFits(d.table, Entry(nvs[0].name, nvs[0].value), d.max);
      FieldsBound(p, AfterField(p, d, nvs[0]), nvs[1..]);
    }
  }

  /** The octets of the size updates a block would open with. */
  function Owed(d: Deflating): nat {
    |EncodeUpdates(SizeUpdates(d))|
  }

  /**
   * From any state, a block of any fields keeps to the bound when the updates owed and the excess of the
   * fields together take no more than the twelve octets set aside, and the bound itself fits a `size_t`.
   */
  lemma BlockBound(p: Tables, d: Deflating, nvs: seq<Field>)
    requires ValidTables(p) && ValidDeflating(d) && d.max <= UINT32_MAX && AllAddressable(nvs)
    ensures |DeflateBlock(p, d, nvs).1| <= Owed(d) + 12 * |nvs| + ExcessAll(nvs) + Lengths(nvs)
    ensures Owed(d) + ExcessAll(nvs) <= 12 ==> |DeflateBlock(p, d, nvs).1| <= Allowance(nvs)
    ensures Owed(d) + ExcessAll(nvs) <= 12 && Allowance(nvs) < SIZE_MODULUS ==>
      |DeflateBlock(p, d, nvs).1| <= Allowance(nvs) % SIZE_MODULUS
  {
    hide DeflateFields, EncodeUpdates, AllAddressable;
    FieldsBound(p, Announced(d), nvs);
  }

  /** No field has more than one long string. */
  predicate OneLongAtMost(nvs: seq<Field>) {
    forall i | 0 <= i < |nvs| :: |nvs[i].name| < LONG || |nvs[i].value| < LONG
  }

  lemma {:induction false} NoExcess(nvs: seq<Field>)
    requires OneLongAtMost(nvs)
    ensures ExcessAll(nvs) <= 0
  {
    if nvs != [] {
      NoExcess(nvs[1..]);
    }
  }

  /** So the bound holds from any state when no field has two long strings. */
  lemma BoundHolds(p: Tables, d: Deflating, nvs: seq<Field>)
    requires ValidTables(p) && ValidDeflating(d) && d.max <= UINT32_MAX && d.leastMax <= UINT32_MAX
    requires AllAddressable(nvs) && OneLongAtMost(nvs)
    ensures |DeflateBlock(p, d, nvs).1| <= Allowance(nvs)
  {
    hide DeflateBlock, AllAddressable;
    NoExcess(nvs);
    UpdatesBound(d);
    BlockBound(p, d, nvs);
  }

  lemma UpdatesBound(d: Deflating)
    requires d.max <= UINT32_MAX && d.leastMax <= UINT32_MAX
    ensures |EncodeUpdates(SizeUpdates(d))| <= 12
  {
    hide PrefixInt.Encode;
    SixOctets(0x20, d.max, 5);
    SixOctets(0x20, d.leastMax, 5);
    assert EncodeUpdates([d.max]) == EncodeTableSize(d.max) + EncodeUpdates([]);
    if d.notify && d.max > d.leastMax {
      assert SizeUpdates(d)[1..] == [d.max];
    }
  }

  // ---------------------------------------------------------------- where the bound is exceeded

  /** A field that can only be sent as it is: its name in no table, never to be indexed, coding no help. */
  predicate Plain(p: Tables, t: seq<Entry>, nv: Field)
    requires ValidTables(p)
  {
    && nv.noIndex && Token(p, nv.name) == -1 && NewestName(t, nv.name, 0) == -1
    && CodedLength(p, nv.name) == |nv.name| && CodedLength(p, nv.value) == |nv.value|
  }

  predicate AllPlain(p: Tables, t: seq<Entry>, nvs: seq<Field>)
    requires ValidTables(p)
  {
    forall i | 0 <= i < |nvs| :: Plain(p, t, nvs[i])
  }

  /** The octets of such a field besides its strings: the one it opens with and the two lengths. */
  function Overhead(nv: Field): nat {
    1 + |PrefixInt.Encode(0, |nv.name|, 7)| + |PrefixInt.Encode(0, |nv.value|, 7)|
  }

  function OverheadAll(nvs: seq<Field>): nat {
    if nvs == [] then 0 else Overhead(nvs[0]) + OverheadAll(nvs[1..])
  }

  lemma PlainField(p: Tables, d: Deflating, nv: Field)
    requires ValidTables(p) && Plain(p, d.table, nv)
    ensures |EncodeRepr(p, Choose(p, d, nv))| == Overhead(nv) + |nv.name| + |nv.value|
    ensures AfterField(p, d, nv) == d
  {
    hide Token, Huffman.Encode, NewestName, NewestEqual, PrefixInt.Encode;
    assert Choose(p, d, nv) == NewName(nv.name, nv.value, NeverIndexing);
  }

  lemma {:induction false} PlainFields(p: Tables, d: Deflating, nvs: seq<Field>)
    requires ValidTables(p) && AllPlain(p, d.table, nvs)
    ensures |DeflateFields(p, d, nvs).1| == OverheadAll(nvs) + Lengths(nvs)
    decreases |nvs|
  {
    if nvs != [] {
      assert Plain(p, d.table, nvs[0]);
      hide EncodeRepr, Choose, AfterField, Overhead, Plain;
      PlainField(p, d, nvs[0]);
      PlainFields(p, d, nvs[1..]);
    }
  }

  /**
   * From any state, a block of such fields is longer than the sum exactly when the updates owed and what
   * the fields take besides their strings come to more than twelve octets and twelve for each.
   */
  lemma SumIsExceededIff(p: Tables, d: Deflating, nvs: seq<Field>)
    requires ValidTables(p) && AllPlain(p, d.table, nvs)
    ensures |DeflateBlock(p, d, nvs).1| == Owed(d) + OverheadAll(nvs) + Lengths(nvs)
    ensures |DeflateBlock(p, d, nvs).1| > Allowance(nvs) <==> Owed(d) + OverheadAll(nvs) > 12 + 12 * |nvs|
  {
    hide DeflateFields, AllPlain;
    PlainFields(p, Announced(d), nvs);
  }

  lemma {:induction false} OverheadBounds(nvs: seq<Field>)
    ensures OverheadAll(nvs) >= 3 * |nvs|
  {
    if nvs != [] {
      OverheadBounds(nvs[1..]);
    }
  }

  lemma WrapsDown(n: nat)
    ensures n >= SIZE_MODULUS ==> n % SIZE_MODULUS <= n - SIZE_MODULUS
    ensures n < SIZE_MODULUS ==> n % SIZE_MODULUS == n
  {
  }

  /**
   * The bound as the hub computes it is exceeded in that case and when its sum does not fit a `size_t`. No
   * array of 2^28 fields fits the address space that goes with it.
   */
  lemma BoundIsExceededIff(p: Tables, d: Deflating, nvs: seq<Field>)
    requires ValidTables(p) && AllPlain(p, d.table, nvs) && |nvs| < 0x1000_0000
    ensures |DeflateBlock(p, d, nvs).1| > Allowance(nvs) % SIZE_MODULUS
      <==> Allowance(nvs) >= SIZE_MODULUS || Owed(d) + OverheadAll(nvs) > 12 + 12 * |nvs|
  {
    hide AllPlain;
    SumIsExceededIff(p, d, nvs);
    OverheadBounds(nvs);
    WrapsDown(Allowance(nvs));
    hide DeflateBlock, Allowance;
  }

  /** With two long strings the overhead is thirteen. */
  lemma LongOverhead(nv: Field)
    requires TwoLong(nv)
    ensures Overhead(nv) == 13
  {
    SixOctetsExactly(0, |nv.name|, 7);
    SixOctetsExactly(0, |nv.value|, 7);
  }

  predicate TwoLong(nv: Field) {
    LONG <= |nv.name| <= UINT32_MAX && LONG <= |nv.value| <= UINT32_MAX
  }

  lemma {:induction false} LongOverheads(nvs: seq<Field>)
    requires forall i | 0 <= i < |nvs| :: TwoLong(nvs[i])
    ensures OverheadAll(nvs) == 13 * |nvs|
  {
    if nvs != [] {
      assert TwoLong(nvs[0]);
      hide Overhead;
      LongOverhead(nvs[0]);
      LongOverheads(nvs[1..]);
    }
  }

  /** Of fields with two long strings it takes as many as the updates owed leave of the twelve octets, and one. */
  lemma LongBlockExceedsIff(p: Tables, d: Deflating, nvs: seq<Field>)
    requires ValidTables(p) && AllPlain(p, d.table, nvs) && forall i | 0 <= i < |nvs| :: TwoLong(nvs[i])
    ensures |DeflateBlock(p, d, nvs).1| > Allowance(nvs) <==> Owed(d) + |nvs| > 12
  {
    hide DeflateBlock, AllPlain, Owed, Allowance, TwoLong;
    SumIsExceededIff(p, d, nvs);
    LongOverheads(nvs);
  }

  // ---------------------------------------------------------------- that there are such fields

  /** No name of the tables is as long as the strings here. */
  predicate ShortNames(p: Tables)
    requires ValidTables(p)
  {
    forall i | 0 <= i < STATIC_LENGTH + EXTRA_TOKENS :: |NameOf(p, i)| < LONG
  }

  /** Whatever the code, there is a field that can only be sent as it is, with two long strings. */
  lemma LongPlainField(p: Tables) returns (nv: Field)
    requires ValidTables(p) && ShortNames(p)
    ensures Plain(p, [], nv) && |nv.name| == |nv.value| == LONG
  {
    var s := Huffman.StubbornString(p.code, LONG);
    nv := Field(s, s, true);
    NoSuchName(p, s);
  }

  lemma NoSuchName(p: Tables, name: Bytes)
    requires ValidTables(p) && ShortNames(p) && |name| >= LONG
    ensures Token(p, name) == -1
  {
    hide TokenFrom;
  }

  /** One such field is enough when the peer is owed two updates of six octets. */
  lemma OneFieldExceeds(p: Tables) returns (d: Deflating, nv: Field)
    requires ValidTables(p) && ShortNames(p)
    ensures var size := 0x1000_0020;
      d == ChangeDeflateSize(ChangeDeflateSize(InitialDeflating(size), size - 1), size)
    ensures |DeflateBlock(p, d, [nv]).1| == Allowance([nv]) + 1 && Allowance([nv]) < SIZE_MODULUS
  {
    hide DeflateBlock, Token, PrefixInt.Encode, CodedLength, NewestName;
    var size := 0x1000_0020;
    nv := LongPlainField(p);
    d := ChangeDeflateSize(ChangeDeflateSize(InitialDeflating(size), size - 1), size);
    assert SizeUpdates(d) == [size - 1, size] && [size - 1, size][1..] == [size] && [size][1..] == [];
    assert EncodeUpdates([size]) == EncodeTableSize(size) + EncodeUpdates([]);
    SixOctetsExactly(0x20, size - 1, 5);
    SixOctetsExactly(0x20, size, 5);
    LongOverhead(nv);
    assert [nv][1..] == [];
    SumIsExceededIff(p, d, [nv]);
  }

  lemma SixOctetsExactly(first: byte, n: uint32, prefix: nat)
    requires PrefixInt.IsPrefix(prefix) && n >= 0x1000_0000 + PrefixInt.Mask(prefix)
    ensures |PrefixInt.Encode(first, n, prefix)| == 6
  {
    SixOctets(first, n, prefix);
    var m: nat := n - PrefixInt.Mask(prefix);
    var m1: nat := m / 128;
    var m2: nat := m1 / 128;
    var m3: nat := m2 / 128;
    assert m1 >= 0x20_0000 && m2 >= 0x4000 && m3 >= 128;
    assert |PrefixInt.Groups(m3)| >= 2;
    assert |PrefixInt.Groups(m2)| >= 3;
    assert |PrefixInt.Groups(m1)| >= 4;
    assert |PrefixInt.Groups(m)| >= 5;
  }
}
