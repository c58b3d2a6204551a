/**
 * What the two ends make of size settings: what the inflater's table becomes and what
 * it then demands of the next block, what the deflater announces, and what holds of
 * table and limit over any run of calls (sections 4.2 and 6.3 of RFC 7541).
 */
module Resizing {
  import opened Common
  import opened DynamicTable
  import opened Hpack
  import opened InflateMachine
  import opened InflateRuns
  import PrefixInt

  /**
   * One setting: refused exactly in the middle of a block. A size below the limit in force leaves the longest
   * newest run that fits it, becomes the limit and has to be acknowledged; any other is only noted.
   */
  lemma ResizeIs(s: Inflating, size: nat, k: nat)
    requires k <= |s.table|
    ensures ChangeInflateSize(s, size).None? <==> s.state != Start && s.state != ExpectTableSize
    ensures match ChangeInflateSize(s, size)
      case None => true
      case Some(r) =>
        && r.settings == size
        && (size >= s.max ==> r == s.(settings := size))
        && (size < s.max ==>
              && r.table <= s.table && (k <= |r.table| <==> Size(s.table[..k]) <= size)
              && r.max == size && r.leastMax == size && r.state == ExpectTableSize)
  {
    EvictIsLongest(s.table, size, k);
  }

  /** Settings one after the other, without a block between them. */
  function ResizeAll(s: Inflating, sizes: seq<nat>): Option<Inflating>
    decreases |sizes|
  {
    if sizes == [] then Some(s)
    else match ChangeInflateSize(s, sizes[0])
      case None => None
      case Some(r) => ResizeAll(r, sizes[1..])
  }

  lemma EvictNothing(t: seq<Entry>, limit: nat)
    requires Size(t) <= limit
    ensures Evict(t, limit) == t
  {
  }

  lemma OneResize(s: Inflating, size: nat)
    requires Size(s.table) <= s.max && (s.state == Start || s.state == ExpectTableSize)
    ensures ChangeInflateSize(s, size).Some?
    ensures var r := ChangeInflateSize(s, size).value;
      && r.settings == size && r.max == Min(s.max, size) && r.table == Evict(s.table, size)
      && r.state == (if size < s.max then ExpectTableSize else s.state)
      && r.leastMax == (if size < s.max then size else s.leastMax)
  {
    hide Size, Evict;
    if size >= s.max {
      EvictNothing(s.table, size);
    }
  }

  /**
   * Any settings between two blocks: the last one is what was agreed, the least one is what the table is held to
   * and, if it is below the limit in force, what the peer has to acknowledge.
   */
  lemma {:induction false} SettingsAre(s: Inflating, sizes: seq<nat>)
    requires Size(s.table) <= s.max && (s.state == Start || s.state == ExpectTableSize) && sizes != []
    ensures ResizeAll(s, sizes).Some?
    ensures var r, least := ResizeAll(s, sizes).value, Minimum(sizes);
      && r.settings == sizes[|sizes| - 1] && r.max == Min(s.max, least) && r.table == Evict(s.table, least)
      && Size(r.table) <= r.max
      && r.state == (if least < s.max then ExpectTableSize else s.state)
      && r.leastMax == (if least < s.max then least else s.leastMax)
    decreases |sizes|
  {
    hide Size, ChangeInflateSize;
    OneResize(s, sizes[0]);
    var r := ChangeInflateSize(s, sizes[0]).value;
    FitsAfter(s.table, s.max, sizes[0]);
    if |sizes| == 1 {
      assert sizes[1..] == [];
    } else {
      SettingsAre(r, sizes[1..]);
      EvictTwice(s.table, sizes[0], Minimum(sizes[1..]));
    }
  }

  lemma FitsAfter(t: seq<Entry>, max: nat, size: nat)
    requires Size(t) <= max
    ensures Size(Evict(t, size)) <= Min(max, size)
  {
  }

  // ---------------------------------------------------------------- what the next block has to say

  /** The block opens with a size update of at most `most`. */
  predicate OpensWithUpdate(block: Bytes, most: int) {
    && block != [] && block[0] / 32 == 1
    && match PrefixInt.Decode(0, 0, block, 5)
       case Done(v, _) => v <= most
       case _ => false
  }

  lemma FirstOctetRuns(p: Tables, s: Inflating, block: Bytes)
    requires ValidTables(p) && Valid(s) && (s.state == Start || s.state == ExpectTableSize)
    requires block != [] && block[0] / 32 == 1
    ensures var s0 := s.(left := 0, shift := 0, opcode := OpIndexed, state := ReadTableSize);
      Valid(s0) && Run(p, Live(s), block) == Run(p, Live(s0), block)
  {
    var s0 := s.(left := 0, shift := 0, opcode := OpIndexed, state := ReadTableSize);
    assert Step(p, s, block[0]) == Step(p, s0, block[0]) by { hide IntegerOctet; }
    SameStep(p, s, s0, block);
  }

  /** An update above the least size set, or above the last, is never taken. */
  lemma UpdateAboveIsRefused(p: Tables, s: Inflating, block: Bytes)
    requires ValidTables(p) && Valid(s) && (s.state == Start || s.state == ExpectTableSize)
    requires block != [] && block[0] / 32 == 1 && !OpensWithUpdate(block, Min(s.leastMax, s.settings))
    ensures InflateBlock(p, s, block) == None
  {
    var s0 := s.(left := 0, shift := 0, opcode := OpIndexed, state := ReadTableSize);
    FirstOctetRuns(p, s, block);
    RunInteger(p, s0, block);
    hide Run, IntegerDone, PrefixInt.Decode;
    assert Prefix(s0) == 5 && Limit(s0) == Min(s.leastMax, s.settings);
    match PrefixInt.Decode(0, 0, block, 5)
    case Overflow => assert IntegerRun(p, s0, block).m.Broken?;
    case More(_, _) =>
      var m := IntegerRun(p, s0, block).m;
      assert m.Broken? || m.s.state == ReadTableSize;
    case Done(_, _) => assert IntegerRun(p, s0, block).m.Broken?;
  }

  /** A demanded update cannot be left out. */
  lemma MissingUpdateIsRefused(p: Tables, s: Inflating, block: Bytes)
    requires ValidTables(p) && Valid(s) && s.state == ExpectTableSize
    requires block == [] || block[0] / 32 != 1
    ensures InflateBlock(p, s, block) == None
  {
    hide FirstOctetOf, IntegerOctet, NameOctet, ValueOctet;
    if block != [] {
      StepKeeps(p, s, block[0]);
      assert Step(p, s, block[0]) == Ran(Broken, []);
      assert Run(p, Broken, block[1..]) == Ran(Broken, []);
    }
  }

  lemma {:induction false} ResizeAllKeeps(s: Inflating, sizes: seq<nat>)
    requires Valid(s)
    ensures match ResizeAll(s, sizes) case None => true case Some(r) => Valid(r)
    decreases |sizes|
  {
    hide Size, Evict;
    if sizes != [] && ChangeInflateSize(s, sizes[0]).Some? {
      ResizeAllKeeps(ChangeInflateSize(s, sizes[0]).value, sizes[1..]);
    }
  }

  /**
   * After settings of which one was below the limit in force, every block that does not acknowledge the least of
   * them, with an update of at most that size, is refused.
   */
  lemma ShrinkingIsAcknowledged(p: Tables, s: Inflating, sizes: seq<nat>, block: Bytes)
    requires ValidTables(p) && Valid(s) && (s.state == Start || s.state == ExpectTableSize)
    requires sizes != [] && Minimum(sizes) < s.max
    ensures ResizeAll(s, sizes).Some? && Valid(ResizeAll(s, sizes).value)
    ensures InflateBlock(p, ResizeAll(s, sizes).value, block).Some? ==> OpensWithUpdate(block, Minimum(sizes))
  {
    SettingsAre(s, sizes);
    ResizeAllKeeps(s, sizes);
    hide InflateBlock, Valid, ResizeAll, Evict, Size, Minimum;
    var r := ResizeAll(s, sizes).value;
    LeastOfSizes(sizes);
    if block == [] || block[0] / 32 != 1 {
      MissingUpdateIsRefused(p, r, block);
    } else if !OpensWithUpdate(block, Min(r.leastMax, r.settings)) {
      UpdateAboveIsRefused(p, r, block);
    }
  }

  lemma {:induction false} LeastOfSizes(sizes: seq<nat>)
    requires sizes != []
    ensures Minimum(sizes) in sizes && forall i | 0 <= i < |sizes| :: Minimum(sizes) <= sizes[i]
    decreases |sizes|
  {
    if |sizes| > 1 {
      LeastOfSizes(sizes[1..]);
      assert forall i | 1 <= i < |sizes| :: sizes[i] == sizes[1..][i - 1];
    }
  }

  // ---------------------------------------------------------------- any run of calls

  /** The size last agreed after the calls: that of the last setting that was not refused. */
  function LastAgreed(p: Tables, m: Machine, cs: seq<Call>, agreed: nat): nat
    requires ValidTables(p) && ValidMachine(m)
    decreases |cs|
  {
    if cs == [] then agreed
    else
      AfterKeeps(p, m, cs[0]);
      var refused := m.Broken? || (m.s.state != Start && m.s.state != ExpectTableSize);
      LastAgreed(p, After(p, m, cs[0]), cs[1..], if cs[0].Resize? && !refused then cs[0].size else agreed)
  }

  /** A live machine's entries and limit stay within what was agreed. */
  predicate Within(m: Machine, agreed: nat) {
    m.Live? ==> Size(m.s.table) <= m.s.max <= m.s.settings == agreed
  }

  lemma IntegerOctetWithin(p: Tables, s: Inflating, b: byte)
    requires ValidTables(p) && ReadsInteger(s.state) && Valid(s) && s.max <= s.settings
    ensures match IntegerOctet(p, s, b).m
      case Broken => true
      case Live(t) => t.settings == s.settings && t.max <= t.settings
  {
    hide Evict, Resolve, Add, PrefixInt.DecodeOctet;
  }

  lemma FirstOctetWithin(p: Tables, s: Inflating, b: byte)
    requires ValidTables(p) && Valid(s) && s.max <= s.settings
    ensures match FirstOctetOf(p, s, b).m
      case Broken => true
      case Live(t) => t.settings == s.settings && t.max <= t.settings
  {
    hide IntegerOctet;
    var clean := s.(left := 0, shift := 0);
    var literal := clean.(indexRequired := b / 64 == 1, noIndex := b / 16 == 1);
    IntegerOctetWithin(p, clean.(opcode := OpIndexed, state := ReadTableSize), b);
    IntegerOctetWithin(p, clean.(opcode := OpIndexed, state := ReadIndex), b);
    IntegerOctetWithin(p, literal.(opcode := OpIndexedName, state := ReadIndex), b);
  }

  /** No octet changes what was agreed or lifts the limit above it. */
  lemma StepWithin(p: Tables, s: Inflating, b: byte)
    requires ValidTables(p) && Valid(s) && s.max <= s.settings
    ensures match Step(p, s, b).m
      case Broken => true
      case Live(t) => t.settings == s.settings && t.max <= t.settings
  {
    var clean := s.(left := 0, shift := 0);
    if s.state == ExpectTableSize || s.state == Start || s.state == Opcode {
      FirstOctetWithin(p, s, b);
    } else if ReadsInteger(s.state) {
      IntegerOctetWithin(p, s, b);
    } else if s.state == CheckNameLen {
      IntegerOctetWithin(p, clean.(huffman := b >= 128, state := ReadNameLen), b);
    } else if s.state == CheckValueLen || s.left == 0 {
      IntegerOctetWithin(p, clean.(huffman := b >= 128, state := ReadValueLen), b);
    } else {
      hide Resolve, Add;
      StringOctetShape(p, s, b);
    }
  }

  lemma {:induction false} RunWithin(p: Tables, m: Machine, octets: Bytes)
    requires ValidTables(p) && ValidMachine(m) && (m.Live? ==> m.s.max <= m.s.settings)
    ensures match Run(p, m, octets).m
      case Broken => true
      case Live(t) => m.Live? && t.settings == m.s.settings && t.max <= t.settings
    decreases |octets|
  {
    hide Step, Valid;
    if m.Live? && octets != [] {
      StepKeeps(p, m.s, octets[0]);
      StepWithin(p, m.s, octets[0]);
      RunWithin(p, Step(p, m.s, octets[0]).m, octets[1..]);
    }
  }

  lemma AfterWithin(p: Tables, m: Machine, c: Call, agreed: nat)
    requires ValidTables(p) && ValidMachine(m) && Within(m, agreed)
    ensures ValidMachine(After(p, m, c)) && Within(After(p, m, c), LastAgreed(p, m, [c], agreed))
  {
    AfterKeeps(p, m, c);
    assert LastAgreed(p, After(p, m, c), [c][1..], agreed) == agreed;
    hide Run, Evict, Size;
    if c.Feed? {
      RunWithin(p, m, c.octets);
    }
  }

  /**
   * On arbitrary octets and any interleaving of calls, the entries stay within the limit and the limit within the
   * size last agreed.
   */
  lemma {:induction false} EveryRunIsAgreed(p: Tables, m: Machine, cs: seq<Call>, agreed: nat)
    requires ValidTables(p) && ValidMachine(m) && Within(m, agreed)
    ensures ValidMachine(AfterAll(p, m, cs)) && Within(AfterAll(p, m, cs), LastAgreed(p, m, cs, agreed))
    decreases |cs|
  {
    hide After, Within, Valid;
    if cs != [] {
      AfterWithin(p, m, cs[0], agreed);
      EveryRunIsAgreed(p, After(p, m, cs[0]), cs[1..], LastAgreed(p, m, [cs[0]], agreed));
    }
  }

  // ---------------------------------------------------------------- what the deflater announces

  function ChangeAll(d: Deflating, sizes: seq<nat>): Deflating
    decreases |sizes|
  {
    if sizes == [] then d else ChangeAll(ChangeDeflateSize(d, sizes[0]), sizes[1..])
  }

  /** Any settings between two blocks, at the deflater. */
  lemma {:induction false} ChangesAre(d: Deflating, sizes: seq<nat>)
    requires sizes != []
    ensures var r, least := ChangeAll(d, sizes), Min(Minimum(sizes), d.cap);
      && r.table == Evict(d.table, least) && r.max == Min(sizes[|sizes| - 1], d.cap) && r.cap == d.cap
      && r.leastMax == Min(d.leastMax, least) && r.notify
    decreases |sizes|
  {
    if |sizes| == 1 {
      assert sizes[1..] == [];
    } else {
      ChangesAre(ChangeDeflateSize(d, sizes[0]), sizes[1..]);
      EvictTwice(d.table, Min(sizes[0], d.cap), Min(Minimum(sizes[1..]), d.cap));
    }
  }

  /**
   * The block after any settings opens with the least of them and the last, or with the last alone when it is the
   * least; a block with no setting since the one before it announces nothing.
   */
  lemma SettingsAreAnnounced(d: Deflating, sizes: seq<nat>)
    requires !d.notify && d.leastMax == UINT32_MAX && sizes != []
    requires forall i | 0 <= i < |sizes| :: sizes[i] <= UINT32_MAX
    ensures SizeUpdates(d) == []
    ensures var least, last := Min(Minimum(sizes), d.cap), Min(sizes[|sizes| - 1], d.cap);
      SizeUpdates(ChangeAll(d, sizes)) == if least < last then [least, last] else [last]
  {
    ChangesAre(d, sizes);
    LeastOfSizes(sizes);
    hide Minimum, ChangeAll;
  }

  /** After a block nothing is owed. */
  lemma BlockAnnounces(p: Tables, d: Deflating, nvs: seq<Field>)
    requires ValidTables(p) && ValidDeflating(d)
    ensures var d' := DeflateBlock(p, d, nvs).0; !d'.notify && (d.notify ==> d'.leastMax == UINT32_MAX)
  {
    DeflateFieldsKeeps(p, Announced(d), nvs);
  }
}
