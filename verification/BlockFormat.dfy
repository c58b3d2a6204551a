/**
 * A header block read in one go as the standard lays it out (sections 3.2, 5 and 6 of
 * RFC 7541), and the proof that the octet-wise machine with its states reads exactly
 * the same from any octets whatever.
 */
module BlockFormat {
  import opened Common
  import opened DynamicTable
  import opened Hpack
  import opened InflateMachine
  import opened InflateRuns
  import opened Lossless
  import opened Resizing
  import PrefixInt
  import Huffman = HuffmanCode

  // ---------------------------------------------------------------- reading in one go

  /** A whole integer in front of s, and what follows it. */
  function ReadInt(s: Bytes, prefix: nat): (r: Option<(uint32, Bytes)>)
    requires PrefixInt.IsPrefix(prefix)
    ensures r.Some? ==> |r.value.1| < |s|
  {
    if s == [] then None
    else match PrefixInt.Decode(0, 0, s, prefix)
      case Done(v, _) => Some((v, s[PrefixInt.Consumed(0, 0, s, prefix)..]))
      case _ => None
  }

  /** The octets of a string, as they are or decoded; the padding has to be fewer than eight ones. */
  function Body(p: Tables, huffman: bool, octets: Bytes): Option<Bytes>
    requires ValidTables(p)
  {
    if !huffman then Some(octets)
    else
      var w := Huffman.Walk(p.code, Huffman.At([]), Huffman.Unpack(octets));
      if Huffman.Accepting(w.node) then Some(w.out) else None
  }

  /** A string of at most 65536 octets in front of s: a bit for the coding, the length, the octets. */
  function ReadString(p: Tables, s: Bytes): (r: Option<(Bytes, Bytes)>)
    requires ValidTables(p)
    ensures r.Some? ==> |r.value.1| < |s|
  {
    match ReadInt(s, 7)
    case None => None
    case Some((n, rest)) =>
      if n > 65536 || |rest| < n then None
      else match Body(p, s[0] >= 128, rest[..n])
        case None => None
        case Some(v) => Some((v, rest[n..]))
  }

  /** A literal: the index of its name, or 0 and the name itself, then the value. */
  function ReadLiteral(p: Tables, t: seq<Entry>, s: Bytes, prefix: nat, mode: Indexing): (r: Option<(Repr, Bytes)>)
    requires ValidTables(p) && PrefixInt.IsPrefix(prefix)
    ensures r.Some? ==> ValidRepr(t, r.value.0) && !r.value.0.Indexed? && r.value.0.mode == mode && |r.value.1| < |s|
  {
    match ReadInt(s, prefix)
    case None => None
    case Some((i, rest)) =>
      if i > 61 + |t| then None
      else if i > 0 then
        match ReadString(p, rest) case None => None case Some((v, rest')) => Some((IndexedName(i - 1, v, mode), rest'))
      else match ReadString(p, rest)
        case None => None
        case Some((name, rest')) =>
          match ReadString(p, rest') case None => None case Some((v, rest'')) => Some((NewName(name, v, mode), rest''))
  }

  /** A field representation by its leading bits: 1, 01, 0000 or 0001; 001 is a size update and has no place here. */
  function ReadRepr(p: Tables, t: seq<Entry>, s: Bytes): (r: Option<(Repr, Bytes)>)
    requires ValidTables(p) && s != []
    ensures r.Some? ==> ValidRepr(t, r.value.0) && |r.value.1| < |s|
  {
    if s[0] >= 128 then
      match ReadInt(s, 7)
      case None => None
      case Some((i, rest)) => if 1 <= i <= 61 + |t| then Some((Indexed(i - 1), rest)) else None
    else if s[0] >= 64 then ReadLiteral(p, t, s, 6, WithIndexing)
    else if s[0] >= 32 then None
    else ReadLiteral(p, t, s, 4, if s[0] >= 16 then NeverIndexing else WithoutIndexing)
  }

  /** Fields to the end of the block: the table after them and what they mean. */
  function ReadFields(p: Tables, t: seq<Entry>, max: nat, s: Bytes): Option<(seq<Entry>, seq<Field>)>
    requires ValidTables(p)
    decreases |s|
  {
    if s == [] then Some((t, []))
    else match ReadRepr(p, t, s)
      case None => None
      case Some((r, rest)) =>
        match ReadFields(p, TableAfter(p, t, max, r), max, rest)
        case None => None
        case Some((t', fields)) => Some((t', [Meaning(p, t, r)] + fields))
  }

  /** Size updates in front of a block: the first may be at most `first`, all others at most `most`. */
  function ReadUpdates(t: seq<Entry>, max: nat, first: int, most: int, s: Bytes): Option<(seq<Entry>, nat, Bytes)>
    decreases |s|
  {
    if s == [] || s[0] / 32 != 1 then Some((t, max, s))
    else match ReadInt(s, 5)
      case None => None
      case Some((n, rest)) => if n > first then None else ReadUpdates(Evict(t, n), n, most, most, rest)
  }

  /** A block: an update first if one is demanded, then fields. */
  function ReadBlock(p: Tables, s: Inflating, block: Bytes): Option<(seq<Entry>, nat, seq<Field>)>
    requires ValidTables(p)
  {
    if s.state == ExpectTableSize && (block == [] || block[0] / 32 != 1) then None
    else match ReadUpdates(s.table, s.max, Min(s.leastMax, s.settings), s.settings, block)
      case None => None
      case Some((t, max, rest)) =>
        match ReadFields(p, t, max, rest)
        case None => None
        case Some((t', fields)) => Some((t', max, fields))
  }

  // ---------------------------------------------------------------- the machine reads the same

  /** A run that is no whole block. */
  predicate Fails(r: Ran) {
    r.m.Broken? || !MayEnd(r.m.s)
  }

  lemma IntegerIsRead(p: Tables, s: Inflating, wire: Bytes) returns (t: Inflating)
    requires ValidTables(p) && Valid(s) && ReadsInteger(s.state) && s.left == 0
    ensures match ReadInt(wire, Prefix(s))
      case None => Fails(Run(p, Live(s), wire))
      case Some((n, rest)) =>
        if n > Limit(s) then Fails(Run(p, Live(s), wire))
        else
          && t == s.(left := n, shift := t.shift) && t.left <= Limit(t) && ValidMachine(IntegerDone(p, t).m)
          && Run(p, Live(s), wire) == Then(p, IntegerDone(p, t), rest)
  {
    RunInteger(p, s, wire);
    hide Run, IntegerDone, PrefixInt.Decode, PrefixInt.Consumed;
    t := s;
    if wire != [] {
      match PrefixInt.Decode(0, 0, wire, Prefix(s))
      case Overflow =>
      case More(_, _) =>
      case Done(n, h) =>
        t := s.(left := n, shift := h);
        if n <= Limit(s) {
          InflateRuns.IntegerDoneKeeps(p, s, n, h);
        }
    }
  }

  /** The body of a string that is not empty. */
  lemma BodyIsRead(p: Tables, s: Inflating, wire: Bytes) returns (u: Inflating)
    requires ValidTables(p) && Valid(s) && ReadsString(s.state) && s.left > 0
    requires ReadsHuffman(s.state) ==> s.walk == Huffman.At([])
    requires if ReadsNamePart(s.state) then s.name == [] else s.value == []
    ensures |wire| < s.left ==> Fails(Run(p, Live(s), wire))
    ensures |wire| >= s.left ==> match Body(p, ReadsHuffman(s.state), wire[..s.left])
      case None => Fails(Run(p, Live(s), wire))
      case Some(v) =>
        && u.left == 0 && u.state == s.state && SameHeader(s, u) && InString(u) && ValidMachine(StringDone(p, u).m)
        && (if ReadsNamePart(s.state) then u.name == v else u.value == v && u.name == s.name)
        && Run(p, Live(s), wire) == Then(p, StringDone(p, u), wire[s.left..])
  {
    u := s;
    if wire != [] {
      var k := Min(s.left, |wire|);
      RunString(p, s, wire);
      AbsorbKeeps(p, s, wire[..k]);
      AbsorbShape(p, s, wire[..k]);
      BodyAbsorbed(p, s, wire[..k]);
      hide Run, Absorb, StringDone, Valid, Huffman.Walk, Body;
      match Absorb(p, s, wire[..k])
      case None =>
      case Some(t) => u := t;
    }
  }

  lemma BodyAbsorbed(p: Tables, s: Inflating, octets: Bytes)
    requires ValidTables(p) && ReadsString(s.state) && |octets| <= s.left
    requires ReadsHuffman(s.state) ==> s.walk == Huffman.At([])
    requires if ReadsNamePart(s.state) then s.name == [] else s.value == []
    ensures |octets| == s.left ==> match Body(p, ReadsHuffman(s.state), octets)
      case None => Absorb(p, s, octets) == None
      case Some(v) =>
        && Absorb(p, s, octets).Some?
        && var u := Absorb(p, s, octets).value;
           u.left == 0 && if ReadsNamePart(s.state) then u.name == v else u.value == v && u.name == s.name
    ensures Absorb(p, s, octets).Some? ==>
      var u := Absorb(p, s, octets).value; u.left == s.left - |octets| && u.state == s.state && SameHeader(s, u)
  {
    hide Huffman.Walk, Huffman.Unpack, Huffman.Accepting;
    assert [] + octets == octets;
    var w := Huffman.Walk(p.code, s.walk, Huffman.Unpack(octets));
    assert [] + w.out == w.out;
    assert Huffman.Accepting(w.node) ==> w.node.At? by { AcceptingIsAt(w.node); }
  }

  lemma AcceptingIsAt(n: Huffman.Node)
    ensures Huffman.Accepting(n) ==> n.At?
  {
  }

  /** The length of a string. */
  lemma LengthIsRead(p: Tables, s: Inflating, wire: Bytes) returns (t: Inflating)
    requires ValidTables(p) && Valid(s) && (s.state == CheckNameLen || s.state == CheckValueLen)
    ensures match ReadInt(wire, 7)
      case None => Fails(Run(p, Live(s), wire))
      case Some((n, rest)) =>
        if n > 65536 then Fails(Run(p, Live(s), wire))
        else
          && t == s.(huffman := wire[0] >= 128, left := n, shift := t.shift,
                     state := if s.state == CheckNameLen then ReadNameLen else ReadValueLen)
          && t.left <= Limit(t) && ValidMachine(IntegerDone(p, t).m)
          && Run(p, Live(s), wire) == Then(p, IntegerDone(p, t), rest)
  {
    hide Run, IntegerDone, Valid, ReadInt;
    t := s;
    if wire == [] {
      NothingRead(p, s);
    } else {
      var s0 := s.(huffman := wire[0] >= 128, left := 0, shift := 0,
                   state := if s.state == CheckNameLen then ReadNameLen else ReadValueLen);
      FirstOfString(p, s, s0, wire);
      SameStep(p, s, s0, wire);
      assert Prefix(s0) == 7 && Limit(s0) == 65536;
      t := IntegerIsRead(p, s0, wire);
    }
  }

  lemma NothingRead(p: Tables, s: Inflating)
    requires ValidTables(p) && Valid(s)
    ensures Run(p, Live(s), []) == Ran(Live(s), []) && ReadInt([], 7) == None
  {
  }

  /** A name, up to the state that waits for the value; at the end of the octets the block is not whole. */
  lemma NameIsRead(p: Tables, s: Inflating, wire: Bytes) returns (t: Inflating)
    requires ValidTables(p) && Valid(s) && s.state == CheckNameLen
    ensures match ReadString(p, wire)
      case None => Fails(Run(p, Live(s), wire))
      case Some((v, rest)) =>
        && Valid(t) && t.state == CheckValueLen && SameHeader(s, t) && t.name == v
        && (if rest == [] then Fails(Run(p, Live(s), wire)) else Run(p, Live(s), wire) == Run(p, Live(t), rest))
  {
    hide Run, IntegerDone, Valid, StringDone, ReadInt, Body;
    var s0 := LengthIsRead(p, s, wire);
    t := s;
    if ReadInt(wire, 7).Some? && ReadInt(wire, 7).value.0 <= 65536 {
      var rest := ReadInt(wire, 7).value.1;
      assert s0.opcode == OpNewName by { ValidName(s); }
      var s1 := NameStarted(p, s0);
      assert Run(p, Live(s), wire) == Run(p, Live(s1), rest);
      t := s1.(state := CheckValueLen);
      if s1.left == 0 {
        EmptyBody(p, s1.huffman, rest);
        if rest == [] {
          NothingRead(p, s1);
        } else {
          EmptyNameIsSkipped(p, s1, rest);
        }
        EmptyNameEnds(s1);
      } else {
        var u := BodyIsRead(p, s1, rest);
        if |rest| >= s1.left && Body(p, s1.huffman, rest[..s1.left]).Some? {
          t := NameEnded(p, u);
          NothingRead(p, t);
        }
      }
    }
  }

  lemma EmptyNameEnds(s: Inflating)
    requires Valid(s) && (s.state == ReadName || s.state == ReadNameHuff) && s.left == 0
    ensures Valid(s.(state := CheckValueLen))
  {
  }

  lemma EmptyBody(p: Tables, huffman: bool, rest: Bytes)
    requires ValidTables(p)
    ensures rest[..0] == [] && rest[0..] == rest && Body(p, huffman, rest[..0]) == Some([])
  {
    assert rest[..0] == [];
    Huffman.WalkNothing(p.code, Huffman.At([]));
  }

  /** A value, to the end of its field. */
  lemma ValueIsRead(p: Tables, s: Inflating, wire: Bytes) returns (t: Inflating)
    requires ValidTables(p) && Valid(s) && s.state == CheckValueLen
    ensures match ReadString(p, wire)
      case None => Fails(Run(p, Live(s), wire))
      case Some((v, rest)) =>
        && Valid(t) && Committed(s, NameIn(p, s), v, t)
        && Run(p, Live(s), wire) == Then(p, Ran(Live(t), [Field(NameIn(p, s), v, s.noIndex)]), rest)
  {
    hide Run, Commit, Committed, NameIn, ReadInt, Body, Resolve;
    var s0 := LengthIsRead(p, s, wire);
    t := s;
    if ReadInt(wire, 7).Some? && ReadInt(wire, 7).value.0 <= 65536 {
      var rest := ReadInt(wire, 7).value.1;
      var s1 := StartValue(s0);
      if s0.left == 0 {
        EmptyBody(p, s0.huffman, rest);
        CommitIs(p, s, [], s1);
        t := Commit(p, s1).m.s;
      } else {
        assert Run(p, Live(s), wire) == Run(p, Live(s1), rest);
        var u := BodyIsRead(p, s1, rest);
        if |rest| >= s1.left && Body(p, s1.huffman, rest[..s1.left]).Some? {
          CommitIs(p, s, u.value, u);
          t := Commit(p, u).m.s;
        }
      }
    }
  }

  // ---------------------------------------------------------------- one representation

  /** What reading one representation comes to. */
  ghost predicate ReadsAs(p: Tables, s: Inflating, wire: Bytes, read: Option<(Repr, Bytes)>, t: Inflating)
    requires ValidTables(p) && Valid(s) && (read.Some? ==> ValidRepr(s.table, read.value.0))
  {
    match read
    case None => Fails(Run(p, Live(s), wire))
    case Some((r, rest)) =>
      TookIn(p, s, r, t) && Run(p, Live(s), wire) == Then(p, Ran(Live(t), [Meaning(p, s.table, r)]), rest)
  }

  lemma IndexedIsRead(p: Tables, s: Inflating, wire: Bytes) returns (t: Inflating)
    requires ValidTables(p) && AtRepr(s) && wire != [] && wire[0] >= 128
    ensures ReadsAs(p, s, wire, ReadRepr(p, s.table, wire), t)
  {
    hide Run, Resolve, Valid, Step, IntegerDone, ReadInt, Limit, ReadLiteral;
    var s0 := FirstStepIndexed(p, s, wire[0]);
    SameStep(p, s, s0, wire);
    IndexLimit(s0);
    var s1 := IntegerIsRead(p, s0, wire);
    t := s;
    if ReadInt(wire, 7).Some? && ReadInt(wire, 7).value.0 <= 61 + |s.table| {
      if s1.left == 0 {
        ZeroIndexFails(p, s1, ReadInt(wire, 7).value.1);
      } else {
        t := IndexedDone(p, s1);
      }
    }
  }

  lemma ZeroIndexFails(p: Tables, s: Inflating, rest: Bytes)
    requires ValidTables(p) && s.state == ReadIndex && s.left == 0 <= Limit(s)
    requires ValidMachine(IntegerDone(p, s).m)
    ensures Fails(Then(p, IntegerDone(p, s), rest))
  {
  }

  /** An index whose bits in the first octet are not all zero is not zero. */
  lemma IndexIsPositive(wire: Bytes, prefix: nat)
    requires PrefixInt.IsPrefix(prefix) && wire != [] && PrefixInt.LowBits(wire[0], prefix) > 0
    ensures ReadInt(wire, prefix).Some? ==> ReadInt(wire, prefix).value.0 > 0
  {
    if PrefixInt.LowBits(wire[0], prefix) == PrefixInt.Mask(prefix) {
      PrefixInt.DecodeGrows(PrefixInt.Mask(prefix), 0, wire[1..], prefix);
    }
  }

  lemma ZeroIndexIsRead(wire: Bytes, prefix: nat)
    requires PrefixInt.IsPrefix(prefix) && wire != [] && PrefixInt.LowBits(wire[0], prefix) == 0
    ensures ReadInt(wire, prefix) == Some((0, wire[1..]))
  {
  }

  /** The first octet of a literal, how it is to be indexed and the bits under its prefix. */
  predicate LiteralOctet(b: byte, mode: Indexing) {
    && b < 128 && b / 32 != 1 && (b / 64 == 1 <==> mode == WithIndexing) && (b / 16 == 1 <==> mode == NeverIndexing)
  }

  lemma LiteralBits(b: byte, mode: Indexing)
    requires LiteralOctet(b, mode)
    ensures PrefixInt.LowBits(b, NamePrefix(mode)) == 0 <==> b == FirstOctet(mode)
    ensures b == FirstOctet(mode) <==> b == 0x40 || b == 0 || b == 0x10
  {
  }

  /** What a value behind a name completes. */
  lemma ValueCompletes(p: Tables, s: Inflating, s1: Inflating, r: Repr, wire: Bytes, wire1: Bytes)
    returns (t: Inflating)
    requires ValidTables(p) && AtRepr(s) && Valid(s1) && s1.state == CheckValueLen && wire1 != []
    requires ValidRepr(s.table, r) && !r.Indexed? && LiteralSet(s, r.mode, s1)
    requires if r.NewName? then s1.opcode == OpNewName && s1.name == r.name
             else s1.opcode == OpIndexedName && s1.index == r.index
    requires Run(p, Live(s), wire) == Run(p, Live(s1), wire1)
    ensures match ReadString(p, wire1)
      case None => Fails(Run(p, Live(s), wire))
      case Some((v, rest)) => ReadsAs(p, s, wire, Some((r.(value := v), rest)), t)
  {
    hide Run, ReadString, Resolve, Add;
    t := ValueIsRead(p, s1, wire1);
  }

  lemma NewNameIsRead(p: Tables, s: Inflating, wire: Bytes, mode: Indexing) returns (t: Inflating)
    requires ValidTables(p) && AtRepr(s) && wire != [] && wire[0] == FirstOctet(mode) && LiteralOctet(wire[0], mode)
    ensures ReadsAs(p, s, wire, ReadLiteral(p, s.table, wire, NamePrefix(mode), mode), t)
  {
    LiteralBits(wire[0], mode);
    ZeroIndexIsRead(wire, NamePrefix(mode));
    assert wire == [FirstOctet(mode)] + wire[1..];
    hide *;
    t := NameThenValue(p, s, wire, wire[1..], mode);
    NewNameLiteral(p, s.table, wire, NamePrefix(mode), mode);
  }

  function ReadNewName(p: Tables, s: Bytes, mode: Indexing): Option<(Repr, Bytes)>
    requires ValidTables(p)
  {
    match ReadString(p, s)
    case None => None
    case Some((name, rest)) =>
      match ReadString(p, rest) case None => None case Some((v, rest')) => Some((NewName(name, v, mode), rest'))
  }

  lemma NewNameLiteral(p: Tables, t: seq<Entry>, wire: Bytes, prefix: nat, mode: Indexing)
    requires ValidTables(p) && PrefixInt.IsPrefix(prefix) && wire != [] && ReadInt(wire, prefix) == Some((0, wire[1..]))
    ensures ReadLiteral(p, t, wire, prefix, mode) == ReadNewName(p, wire[1..], mode)
  {
    hide ReadString, ReadInt;
  }

  lemma NameThenValue(p: Tables, s: Inflating, wire: Bytes, tail: Bytes, mode: Indexing) returns (t: Inflating)
    requires ValidTables(p) && AtRepr(s) && wire == [FirstOctet(mode)] + tail
    ensures ReadsAs(p, s, wire, ReadNewName(p, tail, mode), t)
  {
    hide Run, ReadString, Valid, FirstOctet, Meaning, TookIn;
    var s1 := RunNewNameStart(p, s, mode, tail);
    t := NameIsRead(p, s1, tail);
    if ReadString(p, tail).Some? {
      var (name, rest) := ReadString(p, tail).value;
      if rest == [] {
        NothingIsNoString(p);
      } else {
        t := ValueCompletes(p, s, t, NewName(name, [], mode), wire, rest);
      }
    }
  }

  lemma NothingIsNoString(p: Tables)
    requires ValidTables(p)
    ensures ReadString(p, []) == None
  {
  }

  lemma IndexedNameIsRead(p: Tables, s: Inflating, wire: Bytes, mode: Indexing) returns (t: Inflating)
    requires ValidTables(p) && AtRepr(s) && wire != [] && wire[0] != FirstOctet(mode) && LiteralOctet(wire[0], mode)
    ensures ReadsAs(p, s, wire, ReadLiteral(p, s.table, wire, NamePrefix(mode), mode), t)
  {
    hide Run, ReadString, ReadInt, Valid, FirstOctet, Meaning, TookIn;
    var s1 := IndexIsRead(p, s, wire, mode);
    t := s;
    if ReadInt(wire, NamePrefix(mode)).Some? && ReadInt(wire, NamePrefix(mode)).value.0 <= 61 + |s.table| {
      var (i, rest) := ReadInt(wire, NamePrefix(mode)).value;
      if rest == [] {
        NothingRead(p, s1);
        NothingIsNoString(p);
      } else {
        t := ValueCompletes(p, s, s1, IndexedName(i - 1, [], mode), wire, rest);
      }
    }
  }

  /** What reading the index of a name comes to: the state that waits for the value. */
  ghost predicate ReadsName(p: Tables, s: Inflating, wire: Bytes, mode: Indexing, read: Option<(uint32, Bytes)>,
                            t: Inflating)
    requires ValidTables(p) && Valid(s)
  {
    match read
    case None => Fails(Run(p, Live(s), wire))
    case Some((i, rest)) =>
      if i > 61 + |s.table| then Fails(Run(p, Live(s), wire))
      else
        && Valid(t) && t.state == CheckValueLen && LiteralSet(s, mode, t) && t.opcode == OpIndexedName
        && i > 0 && t.index == i - 1 && Run(p, Live(s), wire) == Run(p, Live(t), rest)
  }

  /** The index of a name. */
  lemma IndexIsRead(p: Tables, s: Inflating, wire: Bytes, mode: Indexing) returns (t: Inflating)
    requires ValidTables(p) && AtRepr(s) && wire != [] && wire[0] != FirstOctet(mode) && LiteralOctet(wire[0], mode)
    ensures ReadsName(p, s, wire, mode, ReadInt(wire, NamePrefix(mode)), t)
  {
    LiteralBits(wire[0], mode);
    IndexIsPositive(wire, NamePrefix(mode));
    hide Run, ReadInt, Valid, FirstOctet, Step, IntegerDone, Limit, Prefix;
    var s0 := FirstStepIndexedName(p, s, mode, wire[0]);
    SameStep(p, s, s0, wire);
    IndexLimit(s0);
    t := IntegerIsRead(p, s0, wire);
    if ReadInt(wire, NamePrefix(mode)).Some? && ReadInt(wire, NamePrefix(mode)).value.0 <= 61 + |s.table| {
      var rest := ReadInt(wire, NamePrefix(mode)).value.1;
      t := NameIndexDone(p, t);
      ThenSilent(p, t, rest);
    }
  }

  lemma ThenSilent(p: Tables, t: Inflating, rest: Bytes)
    requires ValidTables(p) && Valid(t)
    ensures Then(p, Ran(Live(t), []), rest) == Run(p, Live(t), rest)
  {
    hide Run;
    assert [] + Run(p, Live(t), rest).out == Run(p, Live(t), rest).out;
  }

  /** A size update has no place between fields. */
  lemma UpdateIsRefused(p: Tables, s: Inflating, wire: Bytes)
    requires ValidTables(p) && Valid(s) && s.state == Opcode && wire != [] && wire[0] / 32 == 1
    ensures Fails(Run(p, Live(s), wire)) && ReadRepr(p, s.table, wire) == None
  {
  }

  /** Whatever octets follow, the machine reads the next field as the format says, or is bound to fail. */
  lemma ReprIsRead(p: Tables, s: Inflating, wire: Bytes) returns (t: Inflating)
    requires ValidTables(p) && AtRepr(s) && wire != [] && (s.state == Opcode || wire[0] / 32 != 1)
    ensures ReadsAs(p, s, wire, ReadRepr(p, s.table, wire), t)
  {
    hide Run, ReadLiteral, TookIn, Meaning, Valid;
    t := s;
    if wire[0] >= 128 {
      t := IndexedIsRead(p, s, wire);
    } else if wire[0] / 32 == 1 {
      UpdateIsRefused(p, s, wire);
    } else {
      var mode := if wire[0] >= 64 then WithIndexing else if wire[0] >= 16 then NeverIndexing else WithoutIndexing;
      if wire[0] == FirstOctet(mode) {
        t := NewNameIsRead(p, s, wire, mode);
      } else {
        t := IndexedNameIsRead(p, s, wire, mode);
      }
    }
  }

  // ---------------------------------------------------------------- whole blocks

  /** The machine has come to the end of a block with this table and these fields. */
  ghost predicate EndsAs(s: Inflating, t: seq<Entry>, max: nat, fields: seq<Field>, r: Ran) {
    && r.m.Live? && MayEnd(r.m.s) && r.m.s.table == t && r.m.s.max == max && r.out == fields
    && r.m.s.settings == s.settings && r.m.s.leastMax == s.leastMax
  }

  lemma {:induction false} FieldsAreRead(p: Tables, s: Inflating, wire: Bytes)
    requires ValidTables(p) && AtRepr(s) && (s.state == Opcode || wire == [] || wire[0] / 32 != 1)
    ensures match ReadFields(p, s.table, s.max, wire)
      case None => Fails(Run(p, Live(s), wire))
      case Some((t, fields)) => EndsAs(s, t, s.max, fields, Run(p, Live(s), wire))
    decreases |wire|
  {
    if wire == [] {
      NothingRead(p, s);
    } else {
      hide Run, ReadRepr, Meaning, Valid, TableAfter;
      var t := ReprIsRead(p, s, wire);
      if ReadRepr(p, s.table, wire).Some? {
        FieldsAreRead(p, t, ReadRepr(p, s.table, wire).value.1);
      }
    }
  }

  /** The size updates in front of a block. */
  lemma {:induction false} UpdatesAreRead(p: Tables, s: Inflating, wire: Bytes) returns (t: Inflating)
    requires ValidTables(p) && Valid(s) && (s.state == Start || s.state == ExpectTableSize)
    requires s.state == ExpectTableSize ==> wire != [] && wire[0] / 32 == 1
    ensures match ReadUpdates(s.table, s.max, Min(s.leastMax, s.settings), s.settings, wire)
      case None => Fails(Run(p, Live(s), wire))
      case Some((table, max, rest)) =>
        && Valid(t) && t.state == Start && t.table == table && t.max == max && t.settings == s.settings
        && t.leastMax == (if wire != [] && wire[0] / 32 == 1 then UINT32_MAX else s.leastMax)
        && (rest == [] || rest[0] / 32 != 1) && Run(p, Live(s), wire) == Run(p, Live(t), rest)
    decreases |wire|
  {
    t := s;
    if wire != [] && wire[0] / 32 == 1 {
      hide Run, ReadInt, Valid, IntegerDone;
      var s0 := UpdateOctet(p, s, wire);
      var s1 := IntegerIsRead(p, s0, wire);
      if ReadInt(wire, 5).Some? && ReadInt(wire, 5).value.0 <= Limit(s0) {
        var rest := ReadInt(wire, 5).value.1;
        var s2 := UpdateDone(p, s1);
        t := UpdatesAreRead(p, s2, rest);
        UpdatesLimit(s2, rest);
      }
    }
  }

  lemma UpdateOctet(p: Tables, s: Inflating, wire: Bytes) returns (t: Inflating)
    requires ValidTables(p) && Valid(s) && (s.state == Start || s.state == ExpectTableSize)
    requires wire != [] && wire[0] / 32 == 1
    ensures t == s.(left := 0, shift := 0, opcode := OpIndexed, state := ReadTableSize) && Valid(t)
    ensures Prefix(t) == 5 && Limit(t) == Min(s.leastMax, s.settings)
    ensures Run(p, Live(s), wire) == Run(p, Live(t), wire)
  {
    t := s.(left := 0, shift := 0, opcode := OpIndexed, state := ReadTableSize);
    assert Step(p, s, wire[0]) == Step(p, t, wire[0]) by { hide IntegerOctet; }
    SameStep(p, s, t, wire);
  }

  lemma UpdateDone(p: Tables, s: Inflating) returns (t: Inflating)
    requires ValidTables(p) && s.state == ReadTableSize && s.left <= Limit(s) && ValidMachine(IntegerDone(p, s).m)
    ensures IntegerDone(p, s) == Ran(Live(t), []) && Valid(t)
    ensures t == s.(leastMax := UINT32_MAX, max := s.left, table := Evict(s.table, s.left), state := Start)
  {
    t := IntegerDone(p, s).m.s;
  }

  /** No number that can be read is above what a settled machine takes as the least size. */
  lemma {:induction false} UpdatesLimit(s: Inflating, wire: Bytes)
    requires s.leastMax == UINT32_MAX
    ensures ReadUpdates(s.table, s.max, Min(s.leastMax, s.settings), s.settings, wire)
         == ReadUpdates(s.table, s.max, s.settings, s.settings, wire)
  {
  }

  /**
   * On every string of octets and from every state between two blocks: the machine accepts exactly the blocks of
   * the format, with the fields they mean and the table they leave. An update clears the least size remembered.
   */
  lemma BlockIsRead(p: Tables, s: Inflating, block: Bytes)
    requires ValidTables(p) && Valid(s) && (s.state == Start || s.state == ExpectTableSize)
    ensures match ReadBlock(p, s, block)
      case None => InflateBlock(p, s, block) == None
      case Some((table, max, fields)) =>
        && InflateBlock(p, s, block).Some?
        && var (t, out) := InflateBlock(p, s, block).value;
           && out == fields && t.table == table && t.max == max && t.settings == s.settings && t.state == Start
           && t.leastMax == if block != [] && block[0] / 32 == 1 then UINT32_MAX else s.leastMax
  {
    if s.state == ExpectTableSize && (block == [] || block[0] / 32 != 1) {
      MissingUpdateIsRefused(p, s, block);
    } else {
      hide Run, Valid, ReadUpdates, ReadFields;
      var t := UpdatesAreRead(p, s, block);
      match ReadUpdates(s.table, s.max, Min(s.leastMax, s.settings), s.settings, block)
      case None =>
      case Some((_, _, rest)) => FieldsAreRead(p, t, rest);
    }
  }

  /** What a deflater in step sends is a block of the format with the fields it was given. */
  lemma DeflatedIsRead(p: Tables, d: Deflating, s: Inflating, nvs: seq<Field>)
    requires ValidTables(p) && InSync(d, s) && AllFit(p, nvs)
    ensures var (d', wire) := DeflateBlock(p, d, nvs);
      ReadBlock(p, s, wire) == Some((d'.table, d'.max, DeliveredAll(p, nvs)))
  {
    SyncIsValid(d, s);
    assert s.state == Start || s.state == ExpectTableSize;
    hide InSync, DeflateBlock, InflateBlock, DeliveredAll, ReadBlock, Valid;
    BlockRoundTrip(p, d, s, nvs);
    BlockIsRead(p, s, DeflateBlock(p, d, nvs).1);
  }
}
