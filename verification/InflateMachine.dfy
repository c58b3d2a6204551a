/**
 * The resumable inflater as a machine fed one octet at a time. Its states are the
 * original's; a run over a string is the reference the chunked implementation is
 * held to, so a partition of the input cannot matter once that is shown.
 */
module InflateMachine {
  import opened Common
  import opened DynamicTable
  import opened Hpack
  import PrefixInt
  import Huffman = HuffmanCode

  const MAX_NV := 65536

  datatype State =
    | ExpectTableSize | Start | Opcode
    | ReadTableSize | ReadIndex
    | CheckNameLen | ReadNameLen | ReadNameHuff | ReadName
    | CheckValueLen | ReadValueLen | ReadValueHuff | ReadValue

  datatype Op = NoOp | OpIndexed | OpNewName | OpIndexedName

  datatype Inflating = Inflating(
    table: seq<Entry>, max: nat, settings: nat, leastMax: nat,
    state: State, opcode: Op, left: uint32, index: nat, shift: nat, huffman: bool, indexRequired: bool, noIndex: bool,
    walk: Huffman.Node, name: Bytes, value: Bytes)

  /** A machine that has failed once stays failed. */
  datatype Machine = Live(s: Inflating) | Broken

  datatype Ran = Ran(m: Machine, out: seq<Field>)

  /** `nghttp2_hd_inflate_init`. */
  function InitialInflating(): Inflating {
    Inflating([], DEFAULT_MAX, DEFAULT_MAX, UINT32_MAX, Start, NoOp, 0, 0, 0,
              false, false, false, Huffman.At([]), [], [])
  }

  predicate ReadsInteger(st: State) {
    st == ReadTableSize || st == ReadIndex || st == ReadNameLen || st == ReadValueLen
  }

  predicate ReadsNamePart(st: State) {
    st == CheckNameLen || st == ReadNameLen || st == ReadNameHuff || st == ReadName
  }

  predicate ReadsValuePart(st: State) {
    st == CheckValueLen || st == ReadValueLen || st == ReadValueHuff || st == ReadValue
  }

  predicate ReadsHuffman(st: State) {
    st == ReadNameHuff || st == ReadValueHuff
  }

  /** What every reachable state keeps; the index clause is the assertion of `nghttp2_hd_table_get`. */
  predicate Valid(s: Inflating) {
    && Size(s.table) <= s.max
    && (ReadsNamePart(s.state) ==> s.opcode == OpNewName)
    && (ReadsValuePart(s.state) && s.opcode != OpNewName ==> s.index < STATIC_LENGTH + |s.table|)
    && (ReadsInteger(s.state) ==> s.left == 0 ==> s.shift == 0)
    && (s.state == ReadValue || s.state == ReadValueHuff ==> s.left > 0)
    && (ReadsHuffman(s.state) ==> s.walk.At? && (s.left == 0 ==> Huffman.Accepting(s.walk)))
  }

  predicate ValidMachine(m: Machine) {
    m.Live? ==> Valid(m.s)
  }

  function Prefix(s: Inflating): (r: nat)
    ensures PrefixInt.IsPrefix(r)
  {
    if s.state == ReadTableSize then 5
    else if s.state != ReadIndex || s.opcode == OpIndexed then 7
    else if s.indexRequired then 6
    else 4
  }

  /** The largest integer acceptable in the state. */
  function Limit(s: Inflating): int {
    if s.state == ReadTableSize then Min(s.leastMax, s.settings)
    else if s.state == ReadIndex then |s.table| + STATIC_LENGTH
    else MAX_NV
  }

  /** `hd_inflate_commit_newname` and `hd_inflate_commit_indname`. */
  function Commit(p: Tables, s: Inflating): (r: Ran)
    requires ValidTables(p)
    requires s.opcode != OpNewName ==> s.index < STATIC_LENGTH + |s.table|
  {
    var name := if s.opcode == OpNewName then s.name else Resolve(p, s.table, s.index).name;
    var table := if s.indexRequired then Add(s.table, Entry(name, s.value), s.max) else s.table;
    Ran(Live(s.(table := table, state := Opcode)), [Field(name, s.value, s.noIndex)])
  }

  /** The value buffer set up once the length is known. */
  function StartValue(s: Inflating): Inflating {
    if s.huffman then s.(state := ReadValueHuff, walk := Huffman.At([]), value := [])
    else s.(state := ReadValue, value := [])
  }

  /** The integer in `left` is complete and within its limit. */
  function IntegerDone(p: Tables, s: Inflating): Ran
    requires ValidTables(p) && ReadsInteger(s.state) && s.left <= Limit(s)
    requires s.state == ReadValueLen && s.opcode != OpNewName ==> s.index < STATIC_LENGTH + |s.table|
  {
    if s.state == ReadTableSize then
      Ran(Live(s.(leastMax := UINT32_MAX, max := s.left, table := Evict(s.table, s.left), state := Start)), [])
    else if s.state == ReadIndex then
      if s.left == 0 then Ran(Broken, [])
      else if s.opcode == OpIndexed then
        var e := Resolve(p, s.table, s.left - 1);
        Ran(Live(s.(index := s.left - 1, state := Opcode)), [Field(e.name, e.value, false)])
      else Ran(Live(s.(index := s.left - 1, state := CheckValueLen)), [])
    else if s.state == ReadNameLen then
      if s.huffman then Ran(Live(s.(state := ReadNameHuff, walk := Huffman.At([]), name := [])), [])
      else Ran(Live(s.(state := ReadName, name := [])), [])
    else if s.left == 0 then Commit(p, StartValue(s))
    else Ran(Live(StartValue(s)), [])
  }

  /** One octet of an integer. */
  function IntegerOctet(p: Tables, s: Inflating, b: byte): Ran
    requires ValidTables(p) && ReadsInteger(s.state)
    requires s.state == ReadValueLen && s.opcode != OpNewName ==> s.index < STATIC_LENGTH + |s.table|
  {
    match PrefixInt.DecodeOctet(s.left, s.shift, b, Prefix(s))
    case Overflow => Ran(Broken, [])
    case More(a, h) => if a > Limit(s) then Ran(Broken, []) else Ran(Live(s.(left := a, shift := h)), [])
    case Done(v, h) => if v > Limit(s) then Ran(Broken, []) else IntegerDone(p, s.(left := v, shift := h))
  }

  /** The first octet of a representation or of a size update. */
  function FirstOctetOf(p: Tables, s: Inflating, b: byte): Ran
    requires ValidTables(p)
  {
    var clean := s.(left := 0, shift := 0);
    if b / 32 == 1 then
      if s.state == Opcode then Ran(Broken, [])
      else IntegerOctet(p, clean.(opcode := OpIndexed, state := ReadTableSize), b)
    else if b >= 128 then IntegerOctet(p, clean.(opcode := OpIndexed, state := ReadIndex), b)
    else
      var literal := clean.(indexRequired := b / 64 == 1, noIndex := b / 16 == 1);
      if b == 0x40 || b == 0 || b == 0x10 then Ran(Live(literal.(opcode := OpNewName, state := CheckNameLen)), [])
      else IntegerOctet(p, literal.(opcode := OpIndexedName, state := ReadIndex), b)
  }

  /** The first octet of a value, whose top bit says whether it is Huffman coded. */
  function ValueLengthOctet(p: Tables, s: Inflating, b: byte): Ran
    requires ValidTables(p)
    requires s.opcode != OpNewName ==> s.index < STATIC_LENGTH + |s.table|
  {
    IntegerOctet(p, s.(huffman := b >= 128, state := ReadValueLen, left := 0, shift := 0), b)
  }

  /** A string octet taken in; `None` when the Huffman code or its padding is violated. */
  function StringOctet(p: Tables, s: Inflating, b: byte): Option<Inflating>
    requires ValidTables(p) && s.left > 0
  {
    var s1 := s.(left := s.left - 1);
    if ReadsHuffman(s.state) then
      var w := Huffman.Walk(p.code, s.walk, Huffman.ToBits(b, 8));
      var s2 := s1.(walk := w.node);
      if w.node.Dead? || (s1.left == 0 && !Huffman.Accepting(w.node)) then None
      else if s.state == ReadNameHuff then Some(s2.(name := s.name + w.out))
      else Some(s2.(value := s.value + w.out))
    else if s.state == ReadName then Some(s1.(name := s.name + [b]))
    else Some(s1.(value := s.value + [b]))
  }

  function Step(p: Tables, s: Inflating, b: byte): Ran
    requires ValidTables(p) && Valid(s)
  {
    if s.state == ExpectTableSize && b / 32 != 1 then Ran(Broken, [])
    else if s.state == ExpectTableSize || s.state == Start || s.state == Opcode then FirstOctetOf(p, s, b)
    else if ReadsInteger(s.state) then IntegerOctet(p, s, b)
    else if s.state == CheckNameLen then
      IntegerOctet(p, s.(huffman := b >= 128, state := ReadNameLen, left := 0, shift := 0), b)
    else if s.state == CheckValueLen then ValueLengthOctet(p, s, b)
    else if ReadsNamePart(s.state) then NameOctet(p, s, b)
    else ValueOctet(p, s, b)
  }

  /** An octet met while reading a name; the name may be empty, and then the octet starts the value. */
  function NameOctet(p: Tables, s: Inflating, b: byte): Ran
    requires ValidTables(p) && s.opcode == OpNewName
  {
    if s.left == 0 then ValueLengthOctet(p, s, b)
    else match StringOctet(p, s, b)
      case None => Ran(Broken, [])
      case Some(s') => Ran(Live(if s'.left == 0 then s'.(state := CheckValueLen) else s'), [])
  }

  function ValueOctet(p: Tables, s: Inflating, b: byte): Ran
    requires ValidTables(p) && s.left > 0
    requires s.opcode != OpNewName ==> s.index < STATIC_LENGTH + |s.table|
  {
    match StringOctet(p, s, b)
    case None => Ran(Broken, [])
    case Some(s') => if s'.left == 0 then Commit(p, s') else Ran(Live(s'), [])
  }

  lemma CommitKeeps(p: Tables, s: Inflating)
    requires ValidTables(p) && Size(s.table) <= s.max
    requires s.opcode != OpNewName ==> s.index < STATIC_LENGTH + |s.table|
    ensures ValidMachine(Commit(p, s).m)
  {
    var name := if s.opcode == OpNewName then s.name else Resolve(p, s.table, s.index).name;
    AddFits(s.table, Entry(name, s.value), s.max);
  }

  lemma SizeDoneKeeps(p: Tables, s: Inflating)
    requires ValidTables(p) && s.state == ReadTableSize && s.left <= Limit(s)
    ensures ValidMachine(IntegerDone(p, s).m)
  {
    hide Evict, Size;
    assert IntegerDone(p, s).m.s.state == Start;
  }

  lemma IndexDoneKeeps(p: Tables, s: Inflating)
    requires ValidTables(p) && s.state == ReadIndex && s.left <= Limit(s)
    requires Size(s.table) <= s.max
    ensures ValidMachine(IntegerDone(p, s).m)
  {
    hide Resolve;
  }

  lemma NameLengthDoneKeeps(p: Tables, s: Inflating)
    requires ValidTables(p) && s.state == ReadNameLen && s.left <= Limit(s)
    requires Size(s.table) <= s.max && s.opcode == OpNewName
    ensures ValidMachine(IntegerDone(p, s).m)
  {
    assert Huffman.Accepting(Huffman.At([]));
  }

  lemma ValueLengthDoneKeeps(p: Tables, s: Inflating)
    requires ValidTables(p) && s.state == ReadValueLen && s.left <= Limit(s)
    requires Size(s.table) <= s.max && (s.opcode != OpNewName ==> s.index < STATIC_LENGTH + |s.table|)
    ensures ValidMachine(IntegerDone(p, s).m)
  {
    CommitKeeps(p, StartValue(s));
  }

  lemma IntegerOctetKeeps(p: Tables, s: Inflating, b: byte)
    requires ValidTables(p) && ReadsInteger(s.state) && Valid(s)
    ensures ValidMachine(IntegerOctet(p, s, b).m)
  {
    match PrefixInt.DecodeOctet(s.left, s.shift, b, Prefix(s))
    case Overflow =>
    case More(a, h) => PrefixInt.ResumedIsNotFresh(s.left, s.shift, b, Prefix(s));
    case Done(v, h) =>
      if v <= Limit(s) {
        var t := s.(left := v, shift := h);
        if s.state == ReadNameLen {
          NameLengthDoneKeeps(p, t);
        } else if s.state == ReadValueLen {
          ValueLengthDoneKeeps(p, t);
        } else if s.state == ReadIndex {
          IndexDoneKeeps(p, t);
        } else {
          SizeDoneKeeps(p, t);
        }
      }
  }

  /** Every octet, whatever it is, leads from a valid state to a valid state or to failure. */
  lemma StepKeeps(p: Tables, s: Inflating, b: byte)
    requires ValidTables(p) && Valid(s)
    ensures ValidMachine(Step(p, s, b).m)
  {
    var clean := s.(left := 0, shift := 0);
    if s.state == ExpectTableSize || s.state == Start || s.state == Opcode {
      FirstOctetKeeps(p, s, b);
    } else if ReadsInteger(s.state) {
      IntegerOctetKeeps(p, s, b);
    } else if s.state == CheckNameLen {
      IntegerOctetKeeps(p, clean.(huffman := b >= 128, state := ReadNameLen), b);
    } else if s.state == CheckValueLen {
      IntegerOctetKeeps(p, clean.(huffman := b >= 128, state := ReadValueLen), b);
    } else if s.left == 0 {
      IntegerOctetKeeps(p, clean.(huffman := b >= 128, state := ReadValueLen), b);
    } else if ReadsNamePart(s.state) {
      NameOctetKeeps(p, s, b);
    } else {
      ValueOctetKeeps(p, s, b);
    }
  }

  lemma FirstOctetKeeps(p: Tables, s: Inflating, b: byte)
    requires ValidTables(p) && Valid(s)
    ensures ValidMachine(FirstOctetOf(p, s, b).m)
  {
    hide IntegerOctet;
    var clean := s.(left := 0, shift := 0);
    var literal := clean.(indexRequired := b / 64 == 1, noIndex := b / 16 == 1);
    IntegerOctetKeeps(p, clean.(opcode := OpIndexed, state := ReadTableSize), b);
    IntegerOctetKeeps(p, clean.(opcode := OpIndexed, state := ReadIndex), b);
    IntegerOctetKeeps(p, literal.(opcode := OpIndexedName, state := ReadIndex), b);
  }

  /** A string octet moves only the reading position, the Huffman node and the buffer. */
  lemma StringOctetShape(p: Tables, s: Inflating, b: byte)
    requires ValidTables(p) && s.left > 0
    ensures match StringOctet(p, s, b)
      case None => true
      case Some(t) =>
        && t == s.(left := s.left - 1, walk := t.walk, name := t.name, value := t.value)
        && (ReadsHuffman(s.state) ==> t.walk.At? && (t.left == 0 ==> Huffman.Accepting(t.walk)))
  {
  }

  lemma NameOctetKeeps(p: Tables, s: Inflating, b: byte)
    requires ValidTables(p) && Valid(s) && (s.state == ReadName || s.state == ReadNameHuff) && s.left > 0
    ensures ValidMachine(NameOctet(p, s, b).m)
  {
    StringOctetShape(p, s, b);
  }

  lemma ValueOctetKeeps(p: Tables, s: Inflating, b: byte)
    requires ValidTables(p) && Valid(s) && (s.state == ReadValue || s.state == ReadValueHuff)
    ensures ValidMachine(ValueOctet(p, s, b).m)
  {
    StringOctetShape(p, s, b);
    match StringOctet(p, s, b)
    case None =>
    case Some(t) =>
      if t.left == 0 {
        CommitKeeps(p, t);
      }
  }

  /** Feeding a string octet by octet. */
  function Run(p: Tables, m: Machine, s: Bytes): Ran
    requires ValidTables(p) && ValidMachine(m)
    decreases |s|
  {
    if m.Broken? || s == [] then Ran(m, [])
    else
      StepKeeps(p, m.s, s[0]);
      var one := Step(p, m.s, s[0]);
      var rest := Run(p, one.m, s[1..]);
      Ran(rest.m, one.out + rest.out)
  }

  lemma {:induction false} RunKeeps(p: Tables, m: Machine, s: Bytes)
    requires ValidTables(p) && ValidMachine(m)
    ensures ValidMachine(Run(p, m, s).m)
    decreases |s|
  {
    hide Step, Valid;
    if m.Live? && s != [] {
      StepKeeps(p, m.s, s[0]);
      RunKeeps(p, Step(p, m.s, s[0]).m, s[1..]);
    }
  }

  /** Feeding two strings in turn is feeding their concatenation. */
  lemma {:induction false} RunAppend(p: Tables, m: Machine, s: Bytes, t: Bytes)
    requires ValidTables(p) && ValidMachine(m)
    ensures ValidMachine(Run(p, m, s).m)
    ensures Run(p, m, s + t).m == Run(p, Run(p, m, s).m, t).m
    ensures Run(p, m, s + t).out == Run(p, m, s).out + Run(p, Run(p, m, s).m, t).out
    decreases |s|
  {
    hide Step, Valid;
    if m.Live? && s != [] {
      StepKeeps(p, m.s, s[0]);
      assert (s + t)[1..] == s[1..] + t;
      RunAppend(p, Step(p, m.s, s[0]).m, s[1..], t);
    } else if s == [] {
      assert s + t == t;
    }
  }

  /** The states in which a header block may end. */
  predicate MayEnd(s: Inflating) {
    s.state == Opcode || s.state == Start
  }

  /** `nghttp2_hd_inflate_end_headers`. */
  function EndHeaders(s: Inflating): Inflating {
    s.(state := Start)
  }

  /** A whole block: its fields and the inflater ready for the next block, or failure. */
  function InflateBlock(p: Tables, s: Inflating, block: Bytes): Option<(Inflating, seq<Field>)>
    requires ValidTables(p) && Valid(s)
  {
    var r := Run(p, Live(s), block);
    if r.m.Live? && MayEnd(r.m.s) then Some((EndHeaders(r.m.s), r.out)) else None
  }

  /** `nghttp2_hd_inflate_change_table_size`; `None` when refused in the middle of a block. */
  function ChangeInflateSize(s: Inflating, size: nat): Option<Inflating> {
    if s.state != ExpectTableSize && s.state != Start then None
    else if s.max > size then
      Some(s.(settings := size, state := ExpectTableSize, leastMax := size, max := size, table := Evict(s.table, size)))
    else Some(s.(settings := size))
  }

  // ---------------------------------------------------------------- any run of calls

  /** A call on the inflater. */
  datatype Call = Feed(octets: Bytes, final: bool) | Resize(size: nat) | End

  /**
   * The machine after a call; a block that ends too early fails, a failed machine stays failed and a refused
   * size change does nothing.
   */
  function After(p: Tables, m: Machine, c: Call): Machine
    requires ValidTables(p) && ValidMachine(m)
  {
    if m.Broken? then Broken
    else match c
      case Feed(octets, final) =>
        var r := Run(p, m, octets).m;
        if r.Live? && final && !MayEnd(r.s) then Broken else r
      case Resize(size) => (match ChangeInflateSize(m.s, size) case Some(s) => Live(s) case None => m)
      case End => Live(EndHeaders(m.s))
  }

  lemma AfterKeeps(p: Tables, m: Machine, c: Call)
    requires ValidTables(p) && ValidMachine(m)
    ensures ValidMachine(After(p, m, c))
  {
    hide Run, Evict, Size;
    if c.Feed? {
      RunKeeps(p, m, c.octets);
    }
  }

  function AfterAll(p: Tables, m: Machine, cs: seq<Call>): Machine
    requires ValidTables(p) && ValidMachine(m)
    decreases |cs|
  {
    if cs == [] then m else AfterKeeps(p, m, cs[0]); AfterAll(p, After(p, m, cs[0]), cs[1..])
  }

  /**
   * On arbitrary octets and any interleaving of calls: a live inflater's table fits its limit and the
   * index it is about to commit is in range; a failed one never comes back.
   */
  lemma {:induction false} EveryRunIsSafe(p: Tables, m: Machine, cs: seq<Call>)
    requires ValidTables(p) && ValidMachine(m)
    ensures ValidMachine(AfterAll(p, m, cs))
    ensures m.Broken? ==> AfterAll(p, m, cs).Broken?
    decreases |cs|
  {
    if cs != [] {
      AfterKeeps(p, m, cs[0]);
      EveryRunIsSafe(p, After(p, m, cs[0]), cs[1..]);
    }
  }
}
