/**
 * The deflater and the inflater put together: what is sent is what is received,
 * and the two dynamic tables stay equal over any exchange of blocks and settings.
 */
module Lossless {
  import opened Common
  import opened DynamicTable
  import opened Hpack
  import opened InflateMachine
  import opened InflateRuns
  import PrefixInt
  import Huffman = HuffmanCode

  /** A fresh integer state reads back what was encoded for its prefix. */
  lemma RunEncodedInteger(p: Tables, s: Inflating, first: byte, n: uint32, rest: Bytes) returns (h: nat)
    requires ValidTables(p) && Valid(s) && ReadsInteger(s.state) && s.left == 0 && n <= Limit(s)
    ensures ValidMachine(IntegerDone(p, s.(left := n, shift := h)).m)
    ensures Run(p, Live(s), PrefixInt.Encode(first, n, Prefix(s)) + rest)
         == Then(p, IntegerDone(p, s.(left := n, shift := h)), rest)
  {
    hide IntegerDone, Run;
    var code := PrefixInt.Encode(first, n, Prefix(s));
    PrefixInt.RoundTrip(first, n, Prefix(s), rest);
    RunInteger(p, s, code + rest);
    h := PrefixInt.Decode(0, 0, code + rest, Prefix(s)).shift;
    InflateRuns.IntegerDoneKeeps(p, s, n, h);
    assert (code + rest)[|code|..] == rest;
  }

  /** What the rest of a representation leaves alone. */
  predicate SameHeader(s: Inflating, t: Inflating) {
    && t.table == s.table && t.max == s.max && t.settings == s.settings && t.leastMax == s.leastMax
    && t.opcode == s.opcode && t.index == s.index && t.indexRequired == s.indexRequired && t.noIndex == s.noIndex
  }

  /** The octets of a string after its length, and whether they are Huffman coded. */
  function Coded(p: Tables, v: Bytes): (Bytes, bool)
    requires ValidTables(p)
  {
    var h := Huffman.Encode(p.code, v);
    if |h| < |v| then (h, true) else (v, false)
  }

  lemma EncodedString(p: Tables, v: Bytes)
    requires ValidTables(p)
    ensures var (octets, huffman) := Coded(p, v);
      var first := if huffman then 0x80 else 0;
      && EncodeString(p, v) == PrefixInt.Encode(first, |octets|, 7) + octets
      && (EncodeString(p, v)[0] >= 128 <==> huffman)
      && |octets| == CodedLength(p, v)
      && (octets == [] ==> v == [] && !huffman)
  {
    var (octets, huffman) := Coded(p, v);
    var first := if huffman then 0x80 else 0;
    assert PrefixInt.HighBits(PrefixInt.Encode(first, |octets|, 7)[0], 7) == PrefixInt.HighBits(first, 7);
  }

  /** The octets of a string, absorbed by a buffer that was empty, are the string. */
  lemma AbsorbCoded(p: Tables, s: Inflating, v: Bytes)
    requires ValidTables(p) && Valid(s) && ReadsString(s.state)
    requires var (octets, huffman) := Coded(p, v);
      |octets| == s.left && ReadsHuffman(s.state) == huffman && (huffman ==> s.walk == Huffman.At([]))
    requires if ReadsNamePart(s.state) then s.name == [] else s.value == []
    ensures var u := Absorb(p, s, Coded(p, v).0);
      && u.Some? && u.value.left == 0 && u.value.state == s.state && SameHeader(s, u.value)
      && (if ReadsNamePart(s.state) then u.value.name == v else u.value.value == v && u.value.name == s.name)
  {
    hide Huffman.Walk, Huffman.Encode, Huffman.Unpack;
    Huffman.DecodeEncoded(p.code, v);
  }

  // ---------------------------------------------------------------- strings on the wire

  /** The length of a string, read from the state that looks at its first octet. */
  lemma RunLength(p: Tables, s: Inflating, v: Bytes, rest: Bytes) returns (t: Inflating)
    requires ValidTables(p) && Valid(s) && (s.state == CheckNameLen || s.state == CheckValueLen)
    requires CodedLength(p, v) <= MAX_NV
    ensures t == s.(huffman := Coded(p, v).1, left := |Coded(p, v).0|, shift := t.shift,
                    state := if s.state == CheckNameLen then ReadNameLen else ReadValueLen)
    ensures t.left <= Limit(t) && ValidMachine(IntegerDone(p, t).m)
    ensures Run(p, Live(s), EncodeString(p, v) + rest) == Then(p, IntegerDone(p, t), Coded(p, v).0 + rest)
  {
    hide Run, IntegerDone, Coded, EncodeString, PrefixInt.Encode;
    EncodedString(p, v);
    var (octets, huffman) := Coded(p, v);
    var first := if huffman then 0x80 else 0;
    var wire := EncodeString(p, v) + rest;
    var s0 := s.(huffman := huffman, left := 0, shift := 0,
                 state := if s.state == CheckNameLen then ReadNameLen else ReadValueLen);
    FirstOfString(p, s, s0, wire);
    SameStep(p, s, s0, wire);
    Associative(PrefixInt.Encode(first, |octets|, 7), octets, rest);
    var h := RunEncodedInteger(p, s0, first, |octets|, octets + rest);
    t := s0.(left := |octets|, shift := h);
  }

  lemma FirstOfString(p: Tables, s: Inflating, s0: Inflating, wire: Bytes)
    requires ValidTables(p) && Valid(s) && (s.state == CheckNameLen || s.state == CheckValueLen) && wire != []
    requires s0 == s.(huffman := wire[0] >= 128, left := 0, shift := 0,
                      state := if s.state == CheckNameLen then ReadNameLen else ReadValueLen)
    ensures Valid(s0) && Step(p, s, wire[0]) == Step(p, s0, wire[0])
  {
    hide IntegerOctet;
  }

  /** The octets of a non-empty string, read by a state that expects exactly them. */
  lemma RunBody(p: Tables, s: Inflating, v: Bytes, rest: Bytes) returns (u: Inflating)
    requires ValidTables(p) && Valid(s) && ReadsString(s.state) && s.left > 0
    requires var (octets, huffman) := Coded(p, v);
      |octets| == s.left && ReadsHuffman(s.state) == huffman && (huffman ==> s.walk == Huffman.At([]))
    requires if ReadsNamePart(s.state) then s.name == [] else s.value == []
    ensures u.left == 0 && u.state == s.state && SameHeader(s, u) && InString(u)
    ensures if ReadsNamePart(s.state) then u.name == v else u.value == v && u.name == s.name
    ensures ValidMachine(StringDone(p, u).m)
    ensures Run(p, Live(s), Coded(p, v).0 + rest) == Then(p, StringDone(p, u), rest)
  {
    hide Run, Absorb, Coded, StringDone, Valid;
    var octets := Coded(p, v).0;
    AbsorbCoded(p, s, v);
    AbsorbKeeps(p, s, octets);
    RunString(p, s, octets + rest);
    assert (octets + rest)[..|octets|] == octets && (octets + rest)[|octets|..] == rest;
    u := Absorb(p, s, octets).value;
  }

  /** A name, up to the state that waits for the value. */
  lemma RunName(p: Tables, s: Inflating, v: Bytes, rest: Bytes) returns (t: Inflating)
    requires ValidTables(p) && Valid(s) && s.state == CheckNameLen && rest != [] && CodedLength(p, v) <= MAX_NV
    ensures Valid(t) && t.state == CheckValueLen && SameHeader(s, t) && t.name == v
    ensures Run(p, Live(s), EncodeString(p, v) + rest) == Run(p, Live(t), rest)
  {
    hide Run, EncodeString, Coded, IntegerDone, Valid, StringDone;
    EncodedString(p, v);
    var octets := Coded(p, v).0;
    var s0 := RunLength(p, s, v, rest);
    assert s.opcode == OpNewName by { ValidName(s); }
    var s1 := NameStarted(p, s0);
    if octets == [] {
      assert octets + rest == rest;
      EmptyNameIsSkipped(p, s1, rest);
      t := s1.(state := CheckValueLen);
    } else {
      var u := RunBody(p, s1, v, rest);
      t := NameEnded(p, u);
    }
  }

  lemma ValidName(s: Inflating)
    requires Valid(s) && ReadsNamePart(s.state)
    ensures s.opcode == OpNewName
  {
  }

  lemma NameStarted(p: Tables, s: Inflating) returns (t: Inflating)
    requires ValidTables(p) && s.state == ReadNameLen && s.left <= Limit(s) && s.opcode == OpNewName
    requires ValidMachine(IntegerDone(p, s).m)
    ensures IntegerDone(p, s) == Ran(Live(t), []) && Valid(t)
    ensures t == s.(state := if s.huffman then ReadNameHuff else ReadName, name := [], walk := t.walk)
    ensures s.huffman ==> t.walk == Huffman.At([])
  {
    t := IntegerDone(p, s).m.s;
  }

  lemma NameEnded(p: Tables, u: Inflating) returns (t: Inflating)
    requires ValidTables(p) && InString(u) && ReadsNamePart(u.state) && ValidMachine(StringDone(p, u).m)
    ensures StringDone(p, u) == Ran(Live(t), []) && Valid(t)
    ensures t == u.(state := CheckValueLen)
  {
    t := StringDone(p, u).m.s;
  }

  /** What a value completes: the field goes out and the table takes it in if asked to. */
  predicate Committed(s: Inflating, name: Bytes, v: Bytes, t: Inflating) {
    && t.table == (if s.indexRequired then Add(s.table, Entry(name, v), s.max) else s.table)
    && t.max == s.max && t.settings == s.settings && t.leastMax == s.leastMax && t.state == Opcode
  }

  function NameIn(p: Tables, s: Inflating): Bytes
    requires ValidTables(p)
    requires s.opcode != OpNewName ==> s.index < STATIC_LENGTH + |s.table|
  {
    if s.opcode == OpNewName then s.name else Resolve(p, s.table, s.index).name
  }

  lemma CommitIs(p: Tables, s: Inflating, v: Bytes, u: Inflating)
    requires ValidTables(p) && Size(s.table) <= s.max
    requires s.opcode != OpNewName ==> s.index < STATIC_LENGTH + |s.table|
    requires SameHeader(s, u) && u.value == v && u.name == s.name
    ensures var r := Commit(p, u);
      && r.m.Live? && Valid(r.m.s) && Committed(s, NameIn(p, s), v, r.m.s)
      && r.out == [Field(NameIn(p, s), v, s.noIndex)]
  {
    CommitKeeps(p, u);
  }

  /** A value, to the end of its field. */
  lemma RunValue(p: Tables, s: Inflating, v: Bytes, rest: Bytes) returns (t: Inflating)
    requires ValidTables(p) && Valid(s) && s.state == CheckValueLen && CodedLength(p, v) <= MAX_NV
    ensures Valid(t) && Committed(s, NameIn(p, s), v, t)
    ensures Run(p, Live(s), EncodeString(p, v) + rest)
         == Then(p, Ran(Live(t), [Field(NameIn(p, s), v, s.noIndex)]), rest)
  {
    hide Run, EncodeString, Coded, Commit, Committed, NameIn;
    EncodedString(p, v);
    var octets := Coded(p, v).0;
    var s0 := RunLength(p, s, v, rest);
    if octets == [] {
      assert octets + rest == rest;
      CommitIs(p, s, v, StartValue(s0));
      t := Commit(p, StartValue(s0)).m.s;
    } else {
      var s1 := StartValue(s0);
      assert Run(p, Live(s), EncodeString(p, v) + rest) == Run(p, Live(s1), octets + rest);
      var u := RunBody(p, s1, v, rest);
      CommitIs(p, s, v, u);
      t := Commit(p, u).m.s;
    }
  }

  // ---------------------------------------------------------------- one representation

  /** The strings a representation carries are within what the inflater takes. */
  predicate Sendable(p: Tables, r: Repr)
    requires ValidTables(p)
  {
    match r
    case Indexed(i) => i + 1 <= UINT32_MAX
    case IndexedName(i, v, _) => i + 1 <= UINT32_MAX && CodedLength(p, v) <= MAX_NV
    case NewName(n, v, _) => CodedLength(p, n) <= MAX_NV && CodedLength(p, v) <= MAX_NV
  }

  /** Between two representations of a block. */
  predicate AtRepr(s: Inflating) {
    Valid(s) && (s.state == Start || s.state == Opcode)
  }

  /** The reader took in a representation and is ready for the next. */
  predicate TookIn(p: Tables, s: Inflating, r: Repr, t: Inflating)
    requires ValidTables(p) && ValidRepr(s.table, r)
  {
    && AtRepr(t) && t.state == Opcode && t.table == TableAfter(p, s.table, s.max, r)
    && t.max == s.max && t.settings == s.settings && t.leastMax == s.leastMax
  }

  lemma RunIndexed(p: Tables, s: Inflating, r: Repr, rest: Bytes) returns (t: Inflating)
    requires ValidTables(p) && AtRepr(s) && ValidRepr(s.table, r) && Sendable(p, r) && r.Indexed?
    ensures TookIn(p, s, r, t)
    ensures Run(p, Live(s), EncodeRepr(p, r) + rest) == Then(p, Ran(Live(t), [Meaning(p, s.table, r)]), rest)
  {
    hide Run, Resolve, Valid, Step, IntegerDone, PrefixInt.Encode, Limit;
    var n := r.index + 1;
    var wire := EncodeRepr(p, r) + rest;
    IndexedFirst(s, n);
    var s0 := FirstStepIndexed(p, s, wire[0]);
    SameStep(p, s, s0, wire);
    assert n <= Limit(s0) by { IndexLimit(s0); }
    var h := RunEncodedInteger(p, s0, 0x80, n, rest);
    IndexLimit(s0.(left := n, shift := h));
    t := IndexedDone(p, s0.(left := n, shift := h));
  }

  lemma IndexLimit(s: Inflating)
    requires s.state == ReadIndex
    ensures Limit(s) == |s.table| + STATIC_LENGTH
  {
  }

  lemma FirstStepIndexed(p: Tables, s: Inflating, b: byte) returns (t: Inflating)
    requires ValidTables(p) && AtRepr(s) && b >= 128 && b / 32 != 1
    ensures t == s.(left := 0, shift := 0, opcode := OpIndexed, state := ReadIndex)
    ensures Valid(t) && Step(p, s, b) == Step(p, t, b) && Prefix(t) == 7
  {
    hide IntegerOctet;
    t := s.(left := 0, shift := 0, opcode := OpIndexed, state := ReadIndex);
  }

  lemma IndexedDone(p: Tables, s: Inflating) returns (t: Inflating)
    requires ValidTables(p) && s.state == ReadIndex && s.opcode == OpIndexed && 0 < s.left <= Limit(s)
    requires ValidMachine(IntegerDone(p, s).m)
    ensures t == s.(index := s.left - 1, state := Opcode) && Valid(t)
    ensures var e := Resolve(p, s.table, s.left - 1); IntegerDone(p, s) == Ran(Live(t), [Field(e.name, e.value, false)])
  {
    hide Resolve;
    t := s.(index := s.left - 1, state := Opcode);
  }

  /** The first octet of an indexed field is told apart by its top bit. */
  lemma IndexedFirst(s: Inflating, n: nat)
    ensures var b := PrefixInt.Encode(0x80, n, 7)[0]; b >= 128 && b / 32 != 1
  {
    assert PrefixInt.HighBits(PrefixInt.Encode(0x80, n, 7)[0], 7) == 128;
  }

  /** The first octet of a literal with an indexed name says how it is to be indexed. */
  lemma IndexedNameFirst(mode: Indexing, n: nat)
    requires n >= 1
    ensures var b := PrefixInt.Encode(FirstOctet(mode), n, NamePrefix(mode))[0];
      && b < 128 && b / 32 != 1 && b != 0x40 && b != 0 && b != 0x10
      && (b / 64 == 1 <==> mode == WithIndexing) && (b / 16 == 1 <==> mode == NeverIndexing)
  {
    var prefix := NamePrefix(mode);
    var k := PrefixInt.Mask(prefix);
    var high := PrefixInt.HighBits(FirstOctet(mode), prefix);
    assert high == FirstOctet(mode);
    assert PrefixInt.Encode(FirstOctet(mode), n, prefix)[0] == high + Min(n, k);
  }

  /** What a literal representation sets before its value is read. */
  predicate LiteralSet(s: Inflating, mode: Indexing, t: Inflating) {
    && t.table == s.table && t.max == s.max && t.settings == s.settings && t.leastMax == s.leastMax
    && t.indexRequired == (mode == WithIndexing) && t.noIndex == (mode == NeverIndexing)
  }

  lemma RunNameIndex(p: Tables, s: Inflating, r: Repr, rest: Bytes) returns (t: Inflating)
    requires ValidTables(p) && AtRepr(s) && ValidRepr(s.table, r) && r.IndexedName? && r.index + 1 <= UINT32_MAX
    ensures Valid(t) && t.state == CheckValueLen && LiteralSet(s, r.mode, t)
    ensures t.opcode == OpIndexedName && t.index == r.index
    ensures Run(p, Live(s), PrefixInt.Encode(FirstOctet(r.mode), r.index + 1, NamePrefix(r.mode)) + rest)
         == Run(p, Live(t), rest)
  {
    hide Run, PrefixInt.Encode, Valid, Step, IntegerDone, Limit, Prefix;
    var code := PrefixInt.Encode(FirstOctet(r.mode), r.index + 1, NamePrefix(r.mode));
    var wire := code + rest;
    IndexedNameFirst(r.mode, r.index + 1);
    assert wire[0] == code[0];
    var s0 := FirstStepIndexedName(p, s, r.mode, wire[0]);
    SameStep(p, s, s0, wire);
    assert r.index + 1 <= Limit(s0) by { IndexLimit(s0); }
    var h := RunEncodedInteger(p, s0, FirstOctet(r.mode), r.index + 1, rest);
    IndexLimit(s0.(left := r.index + 1, shift := h));
    t := NameIndexDone(p, s0.(left := r.index + 1, shift := h));
  }

  lemma FirstStepIndexedName(p: Tables, s: Inflating, mode: Indexing, b: byte) returns (t: Inflating)
    requires ValidTables(p) && AtRepr(s) && b < 128 && b / 32 != 1 && b != 0x40 && b != 0 && b != 0x10
    requires (b / 64 == 1 <==> mode == WithIndexing) && (b / 16 == 1 <==> mode == NeverIndexing)
    ensures t == s.(left := 0, shift := 0, opcode := OpIndexedName, state := ReadIndex,
                    indexRequired := mode == WithIndexing, noIndex := mode == NeverIndexing)
    ensures Valid(t) && Step(p, s, b) == Step(p, t, b) && Prefix(t) == NamePrefix(mode)
  {
    hide IntegerOctet;
    t := s.(left := 0, shift := 0, opcode := OpIndexedName, state := ReadIndex,
            indexRequired := mode == WithIndexing, noIndex := mode == NeverIndexing);
  }

  lemma NameIndexDone(p: Tables, s: Inflating) returns (t: Inflating)
    requires ValidTables(p) && s.state == ReadIndex && s.opcode == OpIndexedName && 0 < s.left <= Limit(s)
    requires ValidMachine(IntegerDone(p, s).m)
    ensures t == s.(index := s.left - 1, state := CheckValueLen) && Valid(t)
    ensures IntegerDone(p, s) == Ran(Live(t), [])
  {
    t := s.(index := s.left - 1, state := CheckValueLen);
  }

  lemma RunNewNameStart(p: Tables, s: Inflating, mode: Indexing, rest: Bytes) returns (t: Inflating)
    requires ValidTables(p) && AtRepr(s)
    ensures Valid(t) && t.state == CheckNameLen && LiteralSet(s, mode, t) && t.opcode == OpNewName
    ensures Run(p, Live(s), [FirstOctet(mode)] + rest) == Run(p, Live(t), rest)
  {
    hide Run;
    var wire := [FirstOctet(mode)] + rest;
    t := s.(left := 0, shift := 0, opcode := OpNewName, state := CheckNameLen,
            indexRequired := mode == WithIndexing, noIndex := mode == NeverIndexing);
    assert Step(p, s, wire[0]) == Ran(Live(t), []) by { hide IntegerOctet; }
    SilentStep(p, s, t, wire);
    assert wire[1..] == rest;
  }

  /** Any representation a deflater may send is read back with its meaning. */
  lemma RunRepr(p: Tables, s: Inflating, r: Repr, rest: Bytes) returns (t: Inflating)
    requires ValidTables(p) && AtRepr(s) && ValidRepr(s.table, r) && Sendable(p, r)
    ensures TookIn(p, s, r, t)
    ensures Run(p, Live(s), EncodeRepr(p, r) + rest) == Then(p, Ran(Live(t), [Meaning(p, s.table, r)]), rest)
  {
    hide Run, EncodeString, Resolve, PrefixInt.Encode, CodedLength, Add;
    match r
    case Indexed(_) => t := RunIndexed(p, s, r, rest);
    case IndexedName(_, _, _) => t := RunIndexedName(p, s, r, rest);
    case NewName(_, _, _) => t := RunNewName(p, s, r, rest);
  }

  lemma RunIndexedName(p: Tables, s: Inflating, r: Repr, rest: Bytes) returns (t: Inflating)
    requires ValidTables(p) && AtRepr(s) && ValidRepr(s.table, r) && Sendable(p, r) && r.IndexedName?
    ensures TookIn(p, s, r, t)
    ensures Run(p, Live(s), EncodeRepr(p, r) + rest) == Then(p, Ran(Live(t), [Meaning(p, s.table, r)]), rest)
  {
    hide Run, EncodeString, Resolve, PrefixInt.Encode, CodedLength, Add;
    var head := PrefixInt.Encode(FirstOctet(r.mode), r.index + 1, NamePrefix(r.mode));
    Associative(head, EncodeString(p, r.value), rest);
    var s1 := RunNameIndex(p, s, r, EncodeString(p, r.value) + rest);
    t := RunValue(p, s1, r.value, rest);
  }

  lemma RunNewName(p: Tables, s: Inflating, r: Repr, rest: Bytes) returns (t: Inflating)
    requires ValidTables(p) && AtRepr(s) && Sendable(p, r) && r.NewName?
    ensures TookIn(p, s, r, t)
    ensures Run(p, Live(s), EncodeRepr(p, r) + rest) == Then(p, Ran(Live(t), [Meaning(p, s.table, r)]), rest)
  {
    hide Run, EncodeString, CodedLength, Add;
    var name, value := EncodeString(p, r.name), EncodeString(p, r.value);
    Associative([FirstOctet(r.mode)] + name, value, rest);
    Associative([FirstOctet(r.mode)], name, value + rest);
    var s1 := RunNewNameStart(p, s, r.mode, name + (value + rest));
    EncodedString(p, r.value);
    var s2 := RunName(p, s1, r.name, value + rest);
    t := RunValue(p, s2, r.value, rest);
  }

  // ---------------------------------------------------------------- one block

  /** The fields the inflater takes: no string is coded in more than its limit. */
  predicate Fits(p: Tables, nv: Field)
    requires ValidTables(p)
  {
    CodedLength(p, nv.name) <= MAX_NV && CodedLength(p, nv.value) <= MAX_NV
  }

  predicate AllFit(p: Tables, nvs: seq<Field>)
    requires ValidTables(p)
  {
    forall i | 0 <= i < |nvs| :: Fits(p, nvs[i])
  }

  function DeliveredAll(p: Tables, nvs: seq<Field>): (r: seq<Field>)
    requires ValidTables(p)
    ensures |r| == |nvs|
    ensures forall i | 0 <= i < |nvs| :: r[i] == Delivered(p, nvs[i])
  {
    if nvs == [] then [] else [Delivered(p, nvs[0])] + DeliveredAll(p, nvs[1..])
  }

  /** Two ends that agree on the table between representations. */
  predicate Agree(d: Deflating, s: Inflating) {
    ValidDeflating(d) && AtRepr(s) && d.table == s.table && d.max == s.max && d.max <= UINT32_MAX
  }

  lemma ChoiceIsSendable(p: Tables, d: Deflating, nv: Field)
    requires ValidTables(p) && ValidDeflating(d) && d.max <= UINT32_MAX && Fits(p, nv)
    ensures Sendable(p, Choose(p, d, nv))
  {
    LengthBound(d.table);
    ChoiceIsSound(p, d, nv);
  }

  lemma {:induction false} RunFields(p: Tables, d: Deflating, s: Inflating, nvs: seq<Field>) returns (t: Inflating)
    requires ValidTables(p) && Agree(d, s) && AllFit(p, nvs)
    ensures Agree(DeflateFields(p, d, nvs).0, t) && t.settings == s.settings && t.leastMax == s.leastMax
    ensures Run(p, Live(s), DeflateFields(p, d, nvs).1) == Ran(Live(t), DeliveredAll(p, nvs))
    decreases |nvs|
  {
    if nvs == [] {
      t := s;
    } else {
      hide Run, EncodeRepr, Choose;
      var r := Choose(p, d, nvs[0]);
      var d1 := AfterField(p, d, nvs[0]);
      ChoiceIsSound(p, d, nvs[0]);
      ChoiceIsSendable(p, d, nvs[0]);
      DeflateFieldsKeeps(p, d, nvs[..1]);
      AfterFieldKeeps(p, d, nvs[0]);
      var s1 := RunRepr(p, s, r, DeflateFields(p, d1, nvs[1..]).1);
      t := RunFields(p, d1, s1, nvs[1..]);
    }
  }

  lemma AfterFieldKeeps(p: Tables, d: Deflating, nv: Field)
    requires ValidTables(p) && ValidDeflating(d)
    ensures ValidDeflating(AfterField(p, d, nv))
    ensures AfterField(p, d, nv) == d.(table := AfterField(p, d, nv).table)
  {
    AddFits(d.table, Entry(nv.name, nv.value), d.max);
  }

  /** A size update is taken in when it is within what was asked for. */
  lemma RunSizeUpdate(p: Tables, s: Inflating, n: uint32, rest: Bytes) returns (t: Inflating)
    requires ValidTables(p) && Valid(s) && (s.state == Start || s.state == ExpectTableSize)
    requires n <= s.leastMax && n <= s.settings
    ensures t == s.(table := Evict(s.table, n), max := n, leastMax := UINT32_MAX, state := Start,
                    opcode := OpIndexed, left := n, shift := t.shift)
    ensures Valid(t)
    ensures Run(p, Live(s), EncodeTableSize(n) + rest) == Run(p, Live(t), rest)
  {
    hide Run, Evict, Size, PrefixInt.Encode;
    var s0 := s.(left := 0, shift := 0, opcode := OpIndexed, state := ReadTableSize);
    var wire := EncodeTableSize(n) + rest;
    assert PrefixInt.HighBits(EncodeTableSize(n)[0], 5) == 0x20;
    assert wire[0] == EncodeTableSize(n)[0];
    assert Step(p, s, wire[0]) == Step(p, s0, wire[0]) by { hide IntegerOctet; }
    SameStep(p, s, s0, wire);
    var h := RunEncodedInteger(p, s0, 0x20, n, rest);
    t := IntegerDone(p, s0.(left := n, shift := h)).m.s;
    assert IntegerDone(p, s0.(left := n, shift := h)) == Ran(Live(t), []);
  }

  // ---------------------------------------------------------------- whole exchanges

  /**
   * The two ends between blocks. While an update is owed, the deflater's table is what the
   * inflater's becomes by shrinking it to the least size passed through since the last block.
   */
  predicate InSync(d: Deflating, s: Inflating) {
    && ValidDeflating(d) && Valid(s) && d.max <= UINT32_MAX && d.leastMax <= UINT32_MAX
    && (s.state == Start || (s.state == ExpectTableSize && d.notify))
    && if d.notify then
         && d.table == Evict(s.table, Min(d.leastMax, d.max))
         && Min(d.leastMax, d.max) <= s.leastMax && d.max <= s.settings
         && Min(d.leastMax, d.max) <= s.settings
         && (d.leastMax <= d.max || d.max == d.cap)
       else
         d.table == s.table && d.max == s.max && d.leastMax == UINT32_MAX && s.leastMax == UINT32_MAX
  }

  lemma SyncIsValid(d: Deflating, s: Inflating)
    requires InSync(d, s)
    ensures Valid(s)
  {
  }

  lemma InitiallyInSync(cap: nat)
    ensures InSync(InitialDeflating(cap), InitialInflating())
  {
  }

  /** The same size setting applied at both ends keeps them in step, whatever settings came before. */
  lemma ResizeKeepsSync(d: Deflating, s: Inflating, size: uint32)
    requires InSync(d, s)
    ensures ChangeInflateSize(s, size).Some?
    ensures InSync(ChangeDeflateSize(d, size), ChangeInflateSize(s, size).value)
  {
    hide Size;
    var next := Min(size, d.cap);
    var least := Min(d.leastMax, next);
    EvictTwice(s.table, Min(d.leastMax, d.max), next);
    EvictTwice(s.table, size, least);
  }

  /** The size updates of a block bring the inflater to the deflater's table and size. */
  lemma RunUpdates(p: Tables, d: Deflating, s: Inflating, rest: Bytes) returns (t: Inflating)
    requires ValidTables(p) && InSync(d, s)
    ensures Agree(Announced(d), t) && t.leastMax == UINT32_MAX && (d.notify ==> d.max <= t.settings)
    ensures t.state == Start
    ensures Run(p, Live(s), EncodeUpdates(SizeUpdates(d)) + rest) == Run(p, Live(t), rest)
  {
    hide Run, Size, EncodeTableSize;
    if !d.notify {
      t := s;
      assert EncodeUpdates([]) + rest == rest;
    } else if d.max > d.leastMax {
      var second := EncodeTableSize(d.max);
      assert EncodeUpdates([d.max]) == second + [] == second;
      assert EncodeUpdates(SizeUpdates(d)) == EncodeTableSize(d.leastMax) + second by {
        assert SizeUpdates(d)[1..] == [d.max];
      }
      Associative(EncodeTableSize(d.leastMax), second, rest);
      var s1 := RunSizeUpdate(p, s, d.leastMax, second + rest);
      t := RunSizeUpdate(p, s1, d.max, rest);
      EvictTwice(s.table, d.leastMax, d.max);
    } else {
      assert EncodeUpdates(SizeUpdates(d)) == EncodeTableSize(d.max) + [] == EncodeTableSize(d.max);
      t := RunSizeUpdate(p, s, d.max, rest);
    }
  }

  /** A block is inflated to the fields that went in, and leaves the tables equal. */
  lemma BlockRoundTrip(p: Tables, d: Deflating, s: Inflating, nvs: seq<Field>)
    requires ValidTables(p) && InSync(d, s) && AllFit(p, nvs)
    ensures var (d', wire) := DeflateBlock(p, d, nvs);
      var r := InflateBlock(p, s, wire);
      && r.Some? && r.value.1 == DeliveredAll(p, nvs)
      && r.value.0.table == d'.table && r.value.0.max == d'.max && !d'.notify
      && InSync(d', r.value.0)
  {
    hide Run, Size, DeflateFields, EncodeUpdates;
    var fields := DeflateFields(p, Announced(d), nvs);
    var s1 := RunUpdates(p, d, s, fields.1);
    var t := RunFields(p, Announced(d), s1, nvs);
    DeflateFieldsKeeps(p, Announced(d), nvs);
    assert InflateBlock(p, s, DeflateBlock(p, d, nvs).1) == Some((EndHeaders(t), DeliveredAll(p, nvs)));
  }

  /** What happens on a connection: a size setting reaches both ends, or a header block is sent. */
  datatype Event = Setting(size: uint32) | Block(fields: seq<Field>)

  predicate EventFits(p: Tables, e: Event)
    requires ValidTables(p)
  {
    e.Block? ==> AllFit(p, e.fields)
  }

  datatype Ends = Ends(d: Deflating, s: Inflating, got: seq<seq<Field>>)

  predicate TablesEqual(ends: Ends) {
    ends.d.table == ends.s.table && ends.d.max == ends.s.max
  }

  /** Both ends after an exchange, and the blocks received; `None` when a block or setting was refused. */
  function Exchange(p: Tables, ends: Ends, events: seq<Event>): Option<Ends>
    requires ValidTables(p) && Valid(ends.s)
    decreases |events|
  {
    if events == [] then Some(ends)
    else
      match OneEvent(p, ends, events[0])
      case None => None
      case Some(after) => OneEventKeeps(p, ends, events[0]); Exchange(p, after, events[1..])
  }

  function OneEvent(p: Tables, ends: Ends, e: Event): Option<Ends>
    requires ValidTables(p) && Valid(ends.s)
  {
    match e
    case Setting(size) =>
      (match ChangeInflateSize(ends.s, size)
       case None => None
       case Some(s) => Some(Ends(ChangeDeflateSize(ends.d, size), s, ends.got)))
    case Block(fields) =>
      var (d, wire) := DeflateBlock(p, ends.d, fields);
      match InflateBlock(p, ends.s, wire)
      case None => None
      case Some((s, out)) => Some(Ends(d, s, ends.got + [out]))
  }

  lemma OneEventKeeps(p: Tables, ends: Ends, e: Event)
    requires ValidTables(p) && Valid(ends.s)
    ensures OneEvent(p, ends, e).Some? ==> Valid(OneEvent(p, ends, e).value.s)
  {
    hide DeflateBlock, Run, Evict, Size;
    if e.Block? {
      RunKeeps(p, Live(ends.s), DeflateBlock(p, ends.d, e.fields).1);
    }
  }

  function Arriving(p: Tables, e: Event): seq<seq<Field>>
    requires ValidTables(p)
  {
    match e case Setting(_) => [] case Block(fields) => [DeliveredAll(p, fields)]
  }

  /** The blocks among the events, as the receiver is to see them. */
  function Expected(p: Tables, events: seq<Event>): seq<seq<Field>>
    requires ValidTables(p)
    decreases |events|
  {
    if events == [] then [] else Arriving(p, events[0]) + Expected(p, events[1..])
  }

  function Blocks(events: seq<Event>): nat {
    if events == [] then 0 else (if events[0].Block? then 1 else 0) + Blocks(events[1..])
  }

  /** One list for every block, in the order sent, with every field of it. */
  lemma {:induction false} ExpectedIs(p: Tables, events: seq<Event>, i: nat)
    requires ValidTables(p) && i < |events|
    ensures |Expected(p, events)| == Blocks(events) && Blocks(events[..i]) <= Blocks(events)
    ensures events[i].Block? ==>
      && Blocks(events[..i]) < Blocks(events)
      && Expected(p, events)[Blocks(events[..i])] == DeliveredAll(p, events[i].fields)
    decreases |events|
  {
    hide DeliveredAll;
    if |events| > 1 {
      ExpectedIs(p, events[1..], if i == 0 then 0 else i - 1);
    }
    if i > 0 {
      assert events[..i][1..] == events[1..][..i - 1] && events[1..][i - 1] == events[i];
    }
  }

  /**
   * Lossless and in step: over any sequence of settings and blocks nothing is refused, every block
   * arrives as sent, and after a block the two tables and their sizes are equal.
   */
  lemma {:induction false} ExchangeIsLossless(p: Tables, ends: Ends, events: seq<Event>)
    requires ValidTables(p) && InSync(ends.d, ends.s)
    requires forall i | 0 <= i < |events| :: EventFits(p, events[i])
    ensures var r := Exchange(p, ends, events);
      && r.Some? && InSync(r.value.d, r.value.s)
      && r.value.got == ends.got + Expected(p, events)
      && (events != [] && events[|events| - 1].Block? ==> TablesEqual(r.value))
    decreases |events|
  {
    hide OneEvent, InSync, Valid, TablesEqual, Arriving;
    SyncIsValid(ends.d, ends.s);
    if events != [] {
      var next := OneEventKeepsSync(p, ends, events[0]);
      OneEventKeeps(p, ends, events[0]);
      Associative(ends.got, Arriving(p, events[0]), Expected(p, events[1..]));
      ExchangeIsLossless(p, next, events[1..]);
    }
  }

  lemma OneEventKeepsSync(p: Tables, ends: Ends, e: Event) returns (next: Ends)
    requires ValidTables(p) && InSync(ends.d, ends.s) && EventFits(p, e)
    ensures OneEvent(p, ends, e) == Some(next) && InSync(next.d, next.s)
    ensures next.got == ends.got + Arriving(p, e)
    ensures e.Block? ==> TablesEqual(next)
  {
    hide DeflateBlock, InflateBlock, ChangeDeflateSize, ChangeInflateSize, InSync, Valid;
    SyncIsValid(ends.d, ends.s);
    match e {
      case Setting(size) => ResizeKeepsSync(ends.d, ends.s, size);
      case Block(fields) => BlockRoundTrip(p, ends.d, ends.s, fields);
    }
    next := OneEvent(p, ends, e).value;
  }

  /** From the initial state of a connection. */
  lemma ConnectionIsLossless(p: Tables, cap: nat, events: seq<Event>)
    requires ValidTables(p)
    requires forall i | 0 <= i < |events| :: EventFits(p, events[i])
    ensures var r := Exchange(p, Ends(InitialDeflating(cap), InitialInflating(), []), events);
      && r.Some? && r.value.got == Expected(p, events)
      && (events != [] && events[|events| - 1].Block? ==> TablesEqual(r.value))
  {
    InitiallyInSync(cap);
    ExchangeIsLossless(p, Ends(InitialDeflating(cap), InitialInflating(), []), events);
  }
}
