/**
 * The inflater as the original runs it: a loop over the octets at hand that moves its
 * state on by whole integers and whole stretches of string.
 */
module Inflaters {
  import opened Common
  import opened DynamicTable
  import opened Hpack
  import opened HdContext
  import opened InflateMachine
  import opened InflateRounds
  import opened InflateRuns
  import HashIndex
  import HuffmanCodec
  import PrefixInt

  class Inflater {
    const ctx: Context
    const decode: HuffmanCodec.Table
    const huff: HuffmanCodec.Context
    var namebuf: HuffmanCodec.Store
    var valuebuf: HuffmanCodec.Store
    var settings: nat
    var leastMax: nat
    var state: State
    var opcode: Op
    var left: uint32
    var index: nat
    var shift: nat
    var huffman: bool
    var indexRequired: bool
    var noIndex: bool
    /** The node of the code tree `huff` stands at. */
    ghost var walk: Huffman.Node

    /** Objects of the inflater that belong to nothing else. */
    ghost predicate Separate()
      reads this, ctx`Repr
    {
      && ctx in ctx.Repr && this !in ctx.Repr && huff !in ctx.Repr
      && namebuf !in ctx.Repr && valuebuf !in ctx.Repr && namebuf != valuebuf
      && namebuf.mem !in ctx.Repr && valuebuf.mem !in ctx.Repr && namebuf.mem != valuebuf.mem
    }

    /** The string buffers have room for what is still to come, and for a terminator. */
    ghost predicate Roomy()
      reads this, namebuf, namebuf.mem, valuebuf, valuebuf.mem
    {
      && namebuf.Valid() && valuebuf.Valid()
      && (state == ReadName ==> namebuf.last + left < namebuf.mem.Length)
      && (state == ReadNameHuff ==> namebuf.last + 2 * left < namebuf.mem.Length)
      && (state == ReadValue ==> valuebuf.last + left < valuebuf.mem.Length)
      && (state == ReadValueHuff ==> valuebuf.last + 2 * left < valuebuf.mem.Length)
    }

    ghost predicate Fit()
      reads this, ctx, ctx.Repr, huff, namebuf, namebuf.mem, valuebuf, valuebuf.mem
    {
      && Separate() && Roomy() && ctx.Valid() && ctx.index == null && leastMax <= UINT32_MAX
      && HuffmanCodec.Follows(ctx.tables.code, decode) && HuffmanCodec.Stands(decode, huff.fstate, walk)
    }

    /** The inflater as the machine sees it. */
    ghost function Abs(): Inflating
      reads this, ctx, namebuf`text, valuebuf`text
    {
      Inflating(ctx.Table(), ctx.bufsizeMax, settings, leastMax, state, opcode, left, index, shift,
                huffman, indexRequired, noIndex, walk, namebuf.text, valuebuf.text)
    }

    ghost predicate Valid()
      reads this, ctx, ctx.Repr, huff, namebuf, namebuf.mem, valuebuf, valuebuf.mem
    {
      Fit() && (!ctx.bad ==> InflateMachine.Valid(Abs()))
    }

    /** `nghttp2_hd_inflate_init`. */
    constructor (tables: Tables, decode: HuffmanCodec.Table)
      requires ValidTables(tables) && HuffmanCodec.Follows(tables.code, decode)
      ensures Fit() && fresh(ctx) && fresh(ctx.Repr) && ctx.tables == tables && !ctx.bad
      ensures fresh(huff) && fresh(namebuf) && fresh(namebuf.mem) && fresh(valuebuf) && fresh(valuebuf.mem)
      ensures Abs() == InitialInflating()
      ensures fresh(huff) && fresh(namebuf) && fresh(namebuf.mem) && fresh(valuebuf) && fresh(valuebuf.mem)
    {
      var c := new Context(tables, false);
      var h := new HuffmanCodec.Context();
      var n := new HuffmanCodec.Store(0);
      var v := new HuffmanCodec.Store(0);
      ctx, huff, namebuf, valuebuf := c, h, n, v;
      this.decode := decode;
      settings, leastMax, state, opcode := DEFAULT_MAX, UINT32_MAX, Start, NoOp;
      left, index, shift, huffman, indexRequired, noIndex := 0, 0, 0, false, false, false;
      walk := Huffman.At([]);
      HuffmanCodec.InitialStands(tables.code, decode);
    }

    // -------------------------------------------------------------- one state after the other

    /** Another state and opcode, with nothing read of the integer that may come next. */
    method Begin(st: State, op: Op)
      requires Fit() && !ReadsString(st)
      modifies this`state, this`opcode, this`left, this`shift
      ensures Fit() && Abs() == old(Abs()).(state := st, opcode := op, left := 0, shift := 0)
    {
      hide Context.Valid, HashIndex.Abs, HuffmanCodec.Follows, HuffmanCodec.Stands, HuffmanCodec.Store.Valid;
      state, opcode, left, shift := st, op, 0, 0;
    }

    method BeginLiteral(b: byte)
      requires Fit() && b < 128
      modifies this`state, this`opcode, this`left, this`shift, this`indexRequired, this`noIndex
      ensures Fit()
      ensures var named := b == 0x40 || b == 0 || b == 0x10;
        Abs() == old(Abs()).(state := if named then CheckNameLen else ReadIndex,
                             opcode := if named then OpNewName else OpIndexedName,
                             left := 0, shift := 0, indexRequired := b / 64 == 1, noIndex := b / 16 == 1)
    {
      hide Inflater.Fit;
      if b == 0x40 || b == 0 || b == 0x10 {
        Begin(CheckNameLen, OpNewName);
      } else {
        Begin(ReadIndex, OpIndexedName);
      }
      SetFlags(b / 64 % 2 == 1, b / 16 == 1);
    }

    method SetFlags(indexRequired: bool, noIndex: bool)
      requires Fit()
      modifies this`indexRequired, this`noIndex
      ensures Fit() && Abs() == old(Abs()).(indexRequired := indexRequired, noIndex := noIndex)
    {
      hide Context.Valid, HashIndex.Abs, HuffmanCodec.Follows, HuffmanCodec.Stands, HuffmanCodec.Store.Valid;
      this.indexRequired, this.noIndex := indexRequired, noIndex;
    }

    /** EXPECT_TABLE_SIZE, INFLATE_START and OPCODE: what kind of representation begins here. */
    method FirstOctet(b: byte) returns (ok: bool, skip: bool)
      requires Fit() && (state == ExpectTableSize || state == Start || state == Opcode)
      modifies this`state, this`opcode, this`left, this`shift, this`indexRequired, this`noIndex
      ensures Fit()
      ensures match Classified(old(Abs()), b)
        case None => !ok
        case Some(s) => ok && Abs() == s && skip == (s.state == CheckNameLen)
    {
      hide Inflater.Fit;
      if state == ExpectTableSize && b / 32 != 1 {
        return false, false;
      }
      if b / 32 == 1 {
        if state == Opcode {
          return false, false;
        }
        Begin(ReadTableSize, OpIndexed);
      } else if b / 128 == 1 {
        Begin(ReadIndex, OpIndexed);
      } else {
        BeginLiteral(b);
      }
      return true, opcode == OpNewName;
    }

    /** `hd_inflate_read_len`. */
    method ReadLen(s: Bytes, pos: nat, prefix: nat, maxlen: int) returns (read: Option<nat>, fin: bool)
      requires Fit() && ReadsInteger(state)
      requires pos < |s| && PrefixInt.IsPrefix(prefix) && (left == 0 ==> shift == 0)
      modifies this`left, this`shift
      ensures Fit()
      ensures LengthRead(old(Abs()), s, pos, prefix, maxlen, read, fin, Abs())
    {
      hide PrefixInt.Decode, PrefixInt.Consumed, Inflater.Fit;
      var r := PrefixInt.DecodeLength(left, shift, s, pos, prefix);
      if r.read == None || r.value > maxlen {
        SetInteger(left, r.shift);
        return None, false;
      }
      SetInteger(r.value, r.shift);
      return r.read, r.fin;
    }

    method SetInteger(v: uint32, h: nat)
      requires Fit() && ReadsInteger(state)
      modifies this`left, this`shift
      ensures Fit() && Abs() == old(Abs()).(left := v, shift := h)
    {
      hide Context.Valid, HashIndex.Abs, HuffmanCodec.Follows, HuffmanCodec.Stands, HuffmanCodec.Store.Valid;
      left, shift := v, h;
    }

    /** `hd_inflate_set_huffman_encoded` and what follows it in both states that look at a length's first octet. */
    method BeginLength(b: byte, st: State)
      requires Fit() && (st == ReadNameLen || st == ReadValueLen)
      modifies this`huffman, this`state, this`left, this`shift
      ensures Fit() && Abs() == old(Abs()).(huffman := b >= 128, state := st, left := 0, shift := 0)
    {
      hide Context.Valid, HashIndex.Abs, HuffmanCodec.Follows, HuffmanCodec.Stands, HuffmanCodec.Store.Valid;
      huffman := b / 128 % 2 == 1;
      state, left, shift := st, 0, 0;
    }

    /** The end of READ_TABLE_SIZE. */
    method TakeTableSize()
      requires Fit()
      modifies this`leastMax, this`state, ctx.Repr
      ensures Fit() && ctx.Repr == old(ctx.Repr) && ctx.bad == old(ctx.bad)
      ensures Abs() == old(Abs()).(leastMax := UINT32_MAX, max := left, table := Evict(old(ctx.Table()), left),
                                   state := Start)
    {
      hide Context.Owned, Context.Ringed, Context.Indexed, Context.CountedAs, HashIndex.Abs, Evict;
      hide HuffmanCodec.Follows, HuffmanCodec.Stands, HuffmanCodec.Store.Valid;
      leastMax := UINT32_MAX;
      ctx.SetMax(left);
      ctx.ShrinkTableSize();
      state := Start;
    }

    /** `--index` of the integer just read. */
    method TakeIndex(st: State)
      requires Fit() && left > 0 && !ReadsString(st)
      modifies this`index, this`state
      ensures Fit() && Abs() == old(Abs()).(index := left - 1, state := st)
    {
      hide Context.Valid, HashIndex.Abs, HuffmanCodec.Follows, HuffmanCodec.Stands, HuffmanCodec.Store.Valid;
      index, state := left - 1, st;
    }

    /** `nghttp2_hd_huff_decode_context_init`. */
    method BeginHuffman()
      requires Fit()
      modifies this`walk, huff
      ensures Fit() && Abs() == old(Abs()).(walk := Huffman.At([]))
    {
      assert Separate();
      HuffmanCodec.InitialStands(ctx.tables.code, decode);
      hide Context.Valid, HashIndex.Abs, HuffmanCodec.Follows, HuffmanCodec.Stands, HuffmanCodec.Store.Valid;
      huff.Init();
      walk := Huffman.At([]);
    }

    method NewName(st: State, size: nat)
      requires Fit() && ((st == ReadName && left < size) || (st == ReadNameHuff && 2 * left < size))
      modifies this`namebuf, this`state
      ensures Fit() && fresh(namebuf) && fresh(namebuf.mem)
      ensures Abs() == old(Abs()).(state := st, name := [])
    {
      hide Context.Valid, HashIndex.Abs, HuffmanCodec.Follows, HuffmanCodec.Stands;
      namebuf := new HuffmanCodec.Store(size);
      state := st;
    }

    method NewValue(st: State, size: nat)
      requires Fit() && ((st == ReadValue && left < size) || (st == ReadValueHuff && 2 * left < size))
      modifies this`valuebuf, this`state
      ensures Fit() && fresh(valuebuf) && fresh(valuebuf.mem)
      ensures Abs() == old(Abs()).(state := st, value := [])
    {
      hide Context.Valid, HashIndex.Abs, HuffmanCodec.Follows, HuffmanCodec.Stands;
      valuebuf := new HuffmanCodec.Store(size);
      state := st;
    }

    /** A buffer for the name, with twice the room when it is to be decoded. */
    method BeginName()
      requires Fit()
      modifies this`namebuf, this`state, this`walk, huff
      ensures Fit() && fresh(namebuf) && fresh(namebuf.mem)
      ensures Abs() == if huffman then old(Abs()).(state := ReadNameHuff, walk := Huffman.At([]), name := [])
                       else old(Abs()).(state := ReadName, name := [])
    {
      hide Inflater.Fit;
      if huffman {
        BeginHuffman();
        NewName(ReadNameHuff, left * 2 + 1);
      } else {
        NewName(ReadName, left + 1);
      }
    }

    /** A buffer for the value. */
    method BeginValue()
      requires Fit()
      modifies this`valuebuf, this`state, this`walk, huff
      ensures Fit() && fresh(valuebuf) && fresh(valuebuf.mem)
      ensures Abs() == StartValue(old(Abs()))
    {
      hide Inflater.Fit;
      if huffman {
        BeginHuffman();
        NewValue(ReadValueHuff, left * 2 + 1);
      } else {
        NewValue(ReadValue, left + 1);
      }
    }

    /** The name is complete. */
    method EndName()
      requires Fit() && (state == ReadName || state == ReadNameHuff)
      modifies this`state, namebuf.mem
      ensures Fit() && Abs() == old(Abs()).(state := CheckValueLen)
    {
      hide Context.Valid, HashIndex.Abs, HuffmanCodec.Follows, HuffmanCodec.Stands;
      namebuf.Terminate();
      state := CheckValueLen;
    }

    method PutName(s: Bytes, pos: nat, n: nat)
      requires Fit() && state == ReadName && pos + n <= |s| && n <= left
      modifies this`left, namebuf, namebuf.mem
      ensures Fit() && Abs() == old(Abs()).(left := old(left) - n, name := old(namebuf.text) + s[pos..pos + n])
    {
      hide Context.Valid, HashIndex.Abs, HuffmanCodec.Follows, HuffmanCodec.Stands;
      namebuf.PutAll(s, pos, n);
      left := left - n;
    }

    method PutValue(s: Bytes, pos: nat, n: nat)
      requires Fit() && state == ReadValue && pos + n <= |s| && n <= left
      modifies this`left, valuebuf, valuebuf.mem
      ensures Fit() && Abs() == old(Abs()).(left := old(left) - n, value := old(valuebuf.text) + s[pos..pos + n])
    {
      hide Context.Valid, HashIndex.Abs, HuffmanCodec.Follows, HuffmanCodec.Stands;
      valuebuf.PutAll(s, pos, n);
      left := left - n;
    }

    /** `hd_inflate_read`. */
    method Read(s: Bytes, pos: nat) returns (read: nat)
      requires Fit() && (state == ReadName || state == ReadValue) && pos <= |s|
      modifies this`left, namebuf, namebuf.mem, valuebuf, valuebuf.mem
      ensures Fit() && read <= |s| - pos && StringTaken(ctx.tables, old(Abs()), s, pos, read, true, Abs())
    {
      TablesValid();
      hide Inflater.Fit;
      read := Min(|s| - pos, left);
      if state == ReadName {
        PutName(s, pos, read);
      } else {
        PutValue(s, pos, read);
      }
    }

    method DecodeName(s: Bytes, pos: nat, n: nat, final: bool) returns (rv: Status)
      requires Fit() && state == ReadNameHuff && pos + n <= |s| && n <= left
      modifies this`left, this`walk, huff, namebuf, namebuf.mem
      ensures Fit()
      ensures var w := Huffman.Walk(ctx.tables.code, old(walk), Huffman.Unpack(s[pos..pos + n]));
        && Abs() == old(Abs()).(left := old(left) - n, walk := w.node, name := old(namebuf.text) + w.out)
        && rv == if final && !Huffman.Accepting(w.node) then HeaderComp else OK
    {
      assert Separate() && Huffman.WordLengths(ctx.tables.code);
      hide Context.Valid, HashIndex.Abs, HuffmanCodec.Follows, HuffmanCodec.Stands, HuffmanCodec.Store.Valid;
      hide Huffman.Walk, Huffman.Unpack, Huffman.Accepting;
      ghost var w := Huffman.Walk(ctx.tables.code, walk, Huffman.Unpack(s[pos..pos + n]));
      rv := HuffmanCodec.Decode(ctx.tables.code, decode, huff, namebuf, s, pos, n, final, walk);
      left := left - n;
      walk := w.node;
    }

    method DecodeValue(s: Bytes, pos: nat, n: nat, final: bool) returns (rv: Status)
      requires Fit() && state == ReadValueHuff && pos + n <= |s| && n <= left
      modifies this`left, this`walk, huff, valuebuf, valuebuf.mem
      ensures Fit()
      ensures var w := Huffman.Walk(ctx.tables.code, old(walk), Huffman.Unpack(s[pos..pos + n]));
        && Abs() == old(Abs()).(left := old(left) - n, walk := w.node, value := old(valuebuf.text) + w.out)
        && rv == if final && !Huffman.Accepting(w.node) then HeaderComp else OK
    {
      assert Separate() && Huffman.WordLengths(ctx.tables.code);
      hide Context.Valid, HashIndex.Abs, HuffmanCodec.Follows, HuffmanCodec.Stands, HuffmanCodec.Store.Valid;
      hide Huffman.Walk, Huffman.Unpack, Huffman.Accepting;
      ghost var w := Huffman.Walk(ctx.tables.code, walk, Huffman.Unpack(s[pos..pos + n]));
      rv := HuffmanCodec.Decode(ctx.tables.code, decode, huff, valuebuf, s, pos, n, final, walk);
      left := left - n;
      walk := w.node;
    }

    /** `hd_inflate_read_huff`. */
    method ReadHuff(s: Bytes, pos: nat) returns (ok: bool, read: nat)
      requires Fit() && ReadsHuffman(state) && pos <= |s|
      modifies this`left, this`walk, huff, namebuf, namebuf.mem, valuebuf, valuebuf.mem
      ensures Fit() && read <= |s| - pos && StringTaken(ctx.tables, old(Abs()), s, pos, read, ok, Abs())
    {
      TablesValid();
      hide Inflater.Fit, Huffman.Walk, Huffman.Unpack, Huffman.Accepting, StringTaken, ValidTables, Context.Table;
      ghost var a := Abs();
      var fin := |s| - pos >= left;
      read := if fin then left else |s| - pos;
      var rv;
      if state == ReadNameHuff {
        rv := DecodeName(s, pos, read, fin);
      } else {
        rv := DecodeValue(s, pos, read, fin);
      }
      FailureState();
      ok := rv == OK && huff.fstate != HuffmanCodec.FAILURE;
      HuffmanTaken(ctx.tables, a, s, pos, read, ok, Abs());
    }

    /** `nghttp2_hd_huff_decode_failure_state`. */
    lemma FailureState()
      requires Fit()
      ensures huff.fstate == HuffmanCodec.FAILURE <==> walk == Huffman.Dead
    {
    }

    /** The name a literal is committed under. */
    method CommitName() returns (name: Bytes)
      requires Fit() && (opcode != OpNewName ==> index < STATIC_LENGTH + |ctx.Table()|)
      ensures name == if opcode == OpNewName then namebuf.text else Resolve(ctx.tables, ctx.Table(), index).name
    {
      hide Resolve;
      if opcode == OpNewName {
        name := namebuf.mem[..namebuf.last];
      } else {
        var e := ctx.TableGet(index);
        name := e.name;
      }
    }

    method StoreField(name: Bytes, value: Bytes) returns (ghost added: set<object>)
      requires Fit()
      modifies ctx.Repr
      ensures Fit() && ctx.Repr == old(ctx.Repr) + added && fresh(added) && ctx.bad == old(ctx.bad)
      ensures Abs() == old(Abs()).(table := if indexRequired
                                            then Add(old(ctx.Table()), Entry(name, value), ctx.bufsizeMax)
                                            else old(ctx.Table()))
    {
      assert Separate();
      hide HashIndex.Abs, HuffmanCodec.Follows, HuffmanCodec.Stands, HuffmanCodec.Store.Valid;
      hide Context.Owned, Context.Ringed, Context.Indexed, Context.Counted, Token, ValidTables;
      ghost var before := ctx.Repr;
      if indexRequired {
        TablesValid();
        ctx.AddIncremental(name, value, Token(ctx.tables, name), 0);
      }
      added := ctx.Repr - before;
    }

    lemma TablesValid()
      requires Fit()
      ensures ValidTables(ctx.tables)
    {
    }

    /** The value is complete. */
    method EndValue()
      requires Fit() && (state == ReadValue || state == ReadValueHuff)
      modifies this`state, valuebuf.mem
      ensures Fit() && Abs() == old(Abs()).(state := Opcode)
    {
      hide Context.Valid, HashIndex.Abs, HuffmanCodec.Follows, HuffmanCodec.Stands;
      valuebuf.Terminate();
      state := Opcode;
    }

    /** `hd_inflate_commit_newname` and `hd_inflate_commit_indname`. */
    method CommitLiteral() returns (field: Field, ghost added: set<object>)
      requires Fit() && (opcode != OpNewName ==> index < STATIC_LENGTH + |ctx.Table()|)
      requires state == ReadValue || state == ReadValueHuff
      modifies this`state, valuebuf.mem, ctx.Repr
      ensures Fit() && ctx.Repr == old(ctx.Repr) + added && fresh(added) && ctx.bad == old(ctx.bad)
      ensures ValidTables(ctx.tables) && Commit(ctx.tables, old(Abs())) == Ran(Live(Abs()), [field])
    {
      TablesValid();
      assert Separate();
      var name := CommitName();
      var value := ValueText();
      hide Inflater.Fit, Inflater.Separate, Resolve, Add, ValidTables, Context.Table;
      added := StoreField(name, value);
      EndValue();
      field := Field(name, value, noIndex);
    }

    method ValueText() returns (value: Bytes)
      requires Fit()
      ensures value == valuebuf.text
    {
      value := valuebuf.mem[..valuebuf.last];
    }

    /** The objects a call may write to afterwards are those it could write to before, or new. */
    twostate predicate Renewed()
      reads this, ctx`Repr
    {
      && (namebuf == old(namebuf) || fresh(namebuf)) && (namebuf.mem == old(namebuf.mem) || fresh(namebuf.mem))
      && (valuebuf == old(valuebuf) || fresh(valuebuf)) && (valuebuf.mem == old(valuebuf.mem) || fresh(valuebuf.mem))
      && fresh(ctx.Repr - old(ctx.Repr))
    }

    // -------------------------------------------------------------- the rounds of the loop

    ghost function Footprint(): set<object>
      reads this, ctx`Repr
    {
      {this, huff, namebuf, namebuf.mem, valuebuf, valuebuf.mem} + ctx.Repr
    }

    ghost predicate Here(s0: Inflating, input: Bytes, pos: nat, busy: bool)
      reads this, ctx, ctx.Repr, huff, namebuf, namebuf.mem, valuebuf, valuebuf.mem
    {
      Fit() && Reach(ctx.tables, s0, input, pos, busy, Abs())
    }

    ghost predicate There(s0: Inflating, input: Bytes, v: Verdict, pos: nat, busy: bool)
      reads this, ctx, ctx.Repr, huff, namebuf, namebuf.mem, valuebuf, valuebuf.mem
    {
      Fit() && Result(ctx.tables, s0, input, v, pos, busy, Abs())
    }

    /** EXPECT_TABLE_SIZE, INFLATE_START and OPCODE. */
    method RoundOpcode(input: Bytes, pos: nat, ghost s0: Inflating) returns (v: Verdict, next: nat)
      requires Here(s0, input, pos, false) && pos < |input|
      requires state == ExpectTableSize || state == Start || state == Opcode
      modifies this`state, this`opcode, this`left, this`shift, this`indexRequired, this`noIndex
      ensures There(s0, input, v, next, false) && (v == Again || v == Fail) && next >= pos
      ensures v == Again && next == pos ==> ReadsInteger(state)
    {
      OpcodeRound(ctx.tables, s0, input, pos, Abs());
      ClassifiedState(Abs(), input[pos]);
      hide Inflater.Fit, Reach, Classified, Result;
      var ok, skip := FirstOctet(input[pos]);
      if !ok {
        return Fail, pos;
      }
      return Again, if skip then pos + 1 else pos;
    }

    /** An integer, up to its end or the end of the input; `Again` when it is complete. */
    method ReadInteger(input: Bytes, pos: nat, prefix: nat, maxlen: int, ghost s0: Inflating)
      returns (v: Verdict, next: nat)
      requires Here(s0, input, pos, false) && pos < |input| && ReadsInteger(state)
      requires prefix == Prefix(Abs()) && maxlen == Limit(Abs())
      modifies this`left, this`shift
      ensures Fit() && next >= pos && (v == Again || v == AlmostOk || v == Fail)
      ensures v == Again ==> Counted(ctx.tables, s0, input, next, Abs()) && next > pos
      ensures v != Again ==> There(s0, input, v, next, false)
    {
      IntegerFresh(Abs());
      ghost var a := Abs();
      hide Inflater.Fit, Reach, Result, Counted, Prefix, Limit, InflateMachine.Valid, LengthRead;
      var read, fin := ReadLen(input, pos, prefix, maxlen);
      next := match read case None => pos case Some(n) => pos + n;
      IntegerVerdict(ctx.tables, s0, input, pos, a, read, fin, Abs(), next);
      v := if read == None then Fail else if fin then Again else AlmostOk;
    }

    /** READ_TABLE_SIZE. */
    method RoundTableSize(input: Bytes, pos: nat, ghost s0: Inflating) returns (v: Verdict, next: nat)
      requires Here(s0, input, pos, false) && pos < |input| && state == ReadTableSize
      modifies this`left, this`shift, this`leastMax, this`state, ctx.Repr
      ensures There(s0, input, v, next, false) && (v == Again ==> next > pos)
      ensures ctx.Repr == old(ctx.Repr) && ctx.bad == old(ctx.bad)
    {
      v, next := ReadInteger(input, pos, 5, Min(leastMax, settings), s0);
      hide Inflater.Fit, Reach, Counted, Result, Evict, Context.Table;
      if v == Again {
        SizeRound(ctx.tables, s0, input, next, Abs());
        TakeTableSize();
      }
    }

    /** READ_INDEX. */
    method RoundIndex(input: Bytes, pos: nat, ghost s0: Inflating) returns (v: Verdict, next: nat)
      requires Here(s0, input, pos, false) && pos < |input| && state == ReadIndex
      modifies this`left, this`shift, this`index, this`state
      ensures There(s0, input, v, next, false) && (v == Again ==> next > pos)
    {
      var prefixlen := if opcode == OpIndexed then 7 else if indexRequired then 6 else 4;
      var most := MaxIndex();
      hide Inflater.Fit, Reach, Counted, Result;
      v, next := ReadInteger(input, pos, prefixlen, most, s0);
      if v == Again {
        v := AfterIndex(input, next, s0);
      }
    }

    /** The index is complete. */
    method AfterIndex(input: Bytes, next: nat, ghost s0: Inflating) returns (v: Verdict)
      requires Fit() && Counted(ctx.tables, s0, input, next, Abs()) && state == ReadIndex
      modifies this`index, this`state
      ensures There(s0, input, v, next, false)
    {
      if left == 0 {
        IndexZeroRound(ctx.tables, s0, input, next, Abs());
        return Fail;
      }
      if opcode == OpIndexed {
        v := TakeIndexed(input, next, s0);
      } else {
        TakeNameIndex(input, next, s0);
        v := Again;
      }
    }

    method TakeIndexed(input: Bytes, next: nat, ghost s0: Inflating) returns (v: Verdict)
      requires Fit() && Counted(ctx.tables, s0, input, next, Abs()) && state == ReadIndex && left > 0
      requires opcode == OpIndexed
      modifies this`index, this`state
      ensures There(s0, input, v, next, false)
    {
      IndexInRange(s0, input, next);
      IndexedRound(ctx.tables, s0, input, next, Abs());
      hide Inflater.Fit, Counted, Resolve, Result, ValidTables, Context.Table;
      v := CommitIndexed();
    }

    method TakeNameIndex(input: Bytes, next: nat, ghost s0: Inflating)
      requires Fit() && Counted(ctx.tables, s0, input, next, Abs()) && state == ReadIndex && left > 0
      requires opcode != OpIndexed
      modifies this`index, this`state
      ensures There(s0, input, Again, next, false)
    {
      ghost var u := Abs();
      IndexNameRound(ctx.tables, s0, input, next, u);
      hide Inflater.Fit, Counted, Result;
      TakeIndex(CheckValueLen);
      assert Abs() == u.(index := u.left - 1, state := CheckValueLen);
    }

    /** `get_max_index`. */
    method MaxIndex() returns (n: nat)
      requires Fit()
      ensures n == |ctx.Table()| + STATIC_LENGTH
    {
      ctx.RingLength();
      n := ctx.ring.len + STATIC_LENGTH;
    }

    /** The index read never points past the table: `nghttp2_hd_table_get` may be asked for it. */
    lemma IndexInRange(s0: Inflating, input: Bytes, next: nat)
      requires Counted(ctx.tables, s0, input, next, Abs()) && state == ReadIndex && left > 0
      ensures left - 1 < STATIC_LENGTH + |ctx.Table()|
    {
    }

    /** `hd_inflate_commit_indexed`. */
    method CommitIndexed() returns (v: Verdict)
      requires Fit() && 0 < left <= STATIC_LENGTH + |ctx.Table()|
      modifies this`index, this`state
      ensures Fit() && Abs() == old(Abs()).(index := left - 1, state := Opcode) && ValidTables(ctx.tables)
      ensures var e := Resolve(ctx.tables, ctx.Table(), left - 1); v == Emitted(Field(e.name, e.value, false))
    {
      TablesValid();
      var e := Entered(left - 1);
      hide Inflater.Fit, Resolve, ValidTables, Context.Table;
      TakeIndex(Opcode);
      v := Emitted(Field(e.name, e.value, false));
    }

    method Entered(i: nat) returns (e: Entry)
      requires Fit() && i < STATIC_LENGTH + |ctx.Table()|
      ensures ValidTables(ctx.tables) && e == Resolve(ctx.tables, ctx.Table(), i)
    {
      TablesValid();
      hide Resolve, ValidTables;
      e := ctx.TableGet(i);
    }

    /** NEWNAME_READ_NAMELEN. */
    method RoundNameLen(input: Bytes, pos: nat, ghost s0: Inflating) returns (v: Verdict, next: nat)
      requires Here(s0, input, pos, false) && pos < |input| && state == ReadNameLen
      modifies this`left, this`shift, this`namebuf, this`state, this`walk, huff
      ensures There(s0, input, v, next, false) && (v == Again ==> next > pos)
      ensures (namebuf == old(namebuf) || fresh(namebuf)) && (namebuf.mem == old(namebuf.mem) || fresh(namebuf.mem))
    {
      v, next := ReadInteger(input, pos, 7, MAX_NV, s0);
      hide Inflater.Fit, Reach, Counted, Result;
      if v == Again {
        NameLengthRound(ctx.tables, s0, input, next, Abs());
        BeginName();
      }
    }

    /** READ_VALUELEN. */
    method RoundValueLen(input: Bytes, pos: nat, ghost s0: Inflating) returns (v: Verdict, next: nat, busy: bool)
      requires Here(s0, input, pos, false) && pos < |input| && state == ReadValueLen
      modifies this`left, this`shift, this`valuebuf, this`state, this`walk, huff
      ensures There(s0, input, v, next, busy)
      ensures (v == Again ==> next > pos && busy && (state == ReadValue || state == ReadValueHuff))
      ensures (valuebuf == old(valuebuf) || fresh(valuebuf))
      ensures (valuebuf.mem == old(valuebuf.mem) || fresh(valuebuf.mem))
    {
      v, next := ReadInteger(input, pos, 7, MAX_NV, s0);
      busy := v == Again;
      hide Inflater.Fit, Reach, Counted, Result;
      if v == Again {
        ValueLengthRound(ctx.tables, s0, input, next, Abs());
        BeginValue();
      }
    }

    /** NEWNAME_CHECK_NAMELEN, which falls through. */
    method RoundCheckNameLen(input: Bytes, pos: nat, ghost s0: Inflating) returns (v: Verdict, next: nat)
      requires Here(s0, input, pos, false) && pos < |input| && state == CheckNameLen
      modifies this`left, this`shift, this`huffman, this`namebuf, this`state, this`walk, huff
      ensures There(s0, input, v, next, false) && (v == Again ==> next > pos)
      ensures (namebuf == old(namebuf) || fresh(namebuf)) && (namebuf.mem == old(namebuf.mem) || fresh(namebuf.mem))
    {
      LengthRound(ctx.tables, s0, input, pos, Abs());
      hide Inflater.Fit, Reach;
      BeginLength(input[pos], ReadNameLen);
      v, next := RoundNameLen(input, pos, s0);
    }

    /** CHECK_VALUELEN, which falls through. */
    method RoundCheckValueLen(input: Bytes, pos: nat, ghost s0: Inflating) returns (v: Verdict, next: nat, busy: bool)
      requires Here(s0, input, pos, false) && pos < |input| && state == CheckValueLen
      modifies this`left, this`shift, this`huffman, this`valuebuf, this`state, this`walk, huff
      ensures There(s0, input, v, next, busy)
      ensures (v == Again ==> next > pos && busy && (state == ReadValue || state == ReadValueHuff))
      ensures (valuebuf == old(valuebuf) || fresh(valuebuf))
      ensures (valuebuf.mem == old(valuebuf.mem) || fresh(valuebuf.mem))
    {
      LengthRound(ctx.tables, s0, input, pos, Abs());
      hide Inflater.Fit, Reach;
      BeginLength(input[pos], ReadValueLen);
      v, next, busy := RoundValueLen(input, pos, s0);
    }

    /** What both kinds of string read come to. */
    method ReadString(input: Bytes, pos: nat) returns (ok: bool, read: nat)
      requires Fit() && ReadsString(state) && pos <= |input|
      modifies this`left, this`walk, huff, namebuf, namebuf.mem, valuebuf, valuebuf.mem
      ensures Fit() && read <= |input| - pos && StringTaken(ctx.tables, old(Abs()), input, pos, read, ok, Abs())
    {
      hide Inflater.Fit, Inflater.Abs, StringTaken;
      if ReadsHuffman(state) {
        ok, read := ReadHuff(input, pos);
      } else {
        read := Read(input, pos);
        ok := true;
      }
    }

    /** NEWNAME_READ_NAMEHUFF and NEWNAME_READ_NAME. */
    method RoundName(input: Bytes, pos: nat, ghost s0: Inflating) returns (v: Verdict, next: nat)
      requires Here(s0, input, pos, false) && pos < |input| && (state == ReadName || state == ReadNameHuff)
      modifies this`left, this`walk, this`state, huff, namebuf, namebuf.mem, valuebuf, valuebuf.mem
      ensures There(s0, input, v, next, false) && (v == Again ==> next >= pos && state == CheckValueLen)
    {
      ghost var a := Abs();
      hide Inflater.Fit, Reach, StringTaken, Result;
      var ok, read := ReadString(input, pos);
      NameVerdict(ctx.tables, s0, input, pos, a, read, ok, Abs());
      if !ok {
        return Fail, pos;
      }
      if left > 0 {
        return AlmostOk, pos + read;
      }
      EndName();
      return Again, pos + read;
    }

    /** A stretch of a value has been read, up to `next`. */
    ghost predicate Valued(s0: Inflating, input: Bytes, next: nat)
      reads this, ctx, ctx.Repr, huff, namebuf, namebuf.mem, valuebuf, valuebuf.mem
    {
      && Fit() && ValidTables(ctx.tables) && ValueRead(ctx.tables, s0, input, next, Abs())
      && (state == ReadValue || state == ReadValueHuff)
    }

    method ReadValuePart(input: Bytes, pos: nat, busy: bool, ghost s0: Inflating) returns (ok: bool, next: nat)
      requires Here(s0, input, pos, busy) && (busy || pos < |input|) && (state == ReadValue || state == ReadValueHuff)
      modifies this`left, this`walk, huff, namebuf, namebuf.mem, valuebuf, valuebuf.mem
      ensures if ok then Valued(s0, input, next) else There(s0, input, Fail, next, false)
    {
      ghost var a := Abs();
      assert pos <= |input|;
      hide Inflater.Fit, Reach, StringTaken, Result, ValueRead, ValidTables;
      var read: nat;
      ok, read := ReadString(input, pos);
      ValueVerdict(ctx.tables, s0, input, pos, busy, a, read, ok, Abs());
      next := if ok then pos + read else pos;
    }

    /** READ_VALUEHUFF and READ_VALUE. */
    method RoundValue(input: Bytes, pos: nat, busy: bool, ghost s0: Inflating)
      returns (v: Verdict, next: nat, ghost added: set<object>)
      requires Here(s0, input, pos, busy) && (busy || pos < |input|) && (state == ReadValue || state == ReadValueHuff)
      modifies this`left, this`walk, this`state, huff, namebuf, namebuf.mem, valuebuf, valuebuf.mem, ctx.Repr
      ensures There(s0, input, v, next, false) && v != Again
      ensures ctx.Repr == old(ctx.Repr) + added && fresh(added) && ctx.bad == old(ctx.bad)
    {
      var ok;
      ok, next := ReadValuePart(input, pos, busy, s0);
      assert ctx.Repr == old(ctx.Repr) && ctx.bad == old(ctx.bad);
      hide *;
      if !ok {
        return Fail, next, {};
      }
      v, added := AfterValue(input, next, s0);
    }

    /** The stretch of a value has been read. */
    method AfterValue(input: Bytes, next: nat, ghost s0: Inflating) returns (v: Verdict, ghost added: set<object>)
      requires Valued(s0, input, next)
      modifies this`state, valuebuf.mem, ctx.Repr
      ensures There(s0, input, v, next, false) && v != Again
      ensures ctx.Repr == old(ctx.Repr) + added && fresh(added) && ctx.bad == old(ctx.bad)
    {
      hide Inflater.Fit, Result, ValidTables, Commit;
      if left > 0 {
        return AlmostOk, {};
      }
      var field: Field;
      field, added := CommitLiteral();
      v := Emitted(field);
    }

    /** The states before a value, none of which touches the table's storage. */
    method RoundBefore(input: Bytes, pos: nat, ghost s0: Inflating) returns (v: Verdict, next: nat)
      requires Here(s0, input, pos, false) && pos < |input| && !ReadsValuePart(state) && state != ReadTableSize
      modifies this, huff, namebuf, namebuf.mem, valuebuf, valuebuf.mem
      ensures There(s0, input, v, next, false) && valuebuf == old(valuebuf)
      ensures v == Again ==> next > pos || (next == pos && Rank(state) < Rank(old(state)))
      ensures (namebuf == old(namebuf) || fresh(namebuf)) && (namebuf.mem == old(namebuf.mem) || fresh(namebuf.mem))
    {
      hide Inflater.Here, Inflater.There;
      if state == ExpectTableSize || state == Start || state == Opcode {
        v, next := RoundOpcode(input, pos, s0);
      } else if state == ReadIndex {
        v, next := RoundIndex(input, pos, s0);
      } else if state == CheckNameLen {
        v, next := RoundCheckNameLen(input, pos, s0);
      } else if state == ReadNameLen {
        v, next := RoundNameLen(input, pos, s0);
      } else {
        v, next := RoundName(input, pos, s0);
      }
    }

    /** The states at the length of a value. */
    method RoundLength(input: Bytes, pos: nat, ghost s0: Inflating) returns (v: Verdict, next: nat, busy: bool)
      requires Here(s0, input, pos, false) && pos < |input| && (state == CheckValueLen || state == ReadValueLen)
      modifies this`left, this`shift, this`huffman, this`valuebuf, this`state, this`walk, huff
      ensures There(s0, input, v, next, busy)
      ensures v == Again ==> next > pos && (busy ==> state == ReadValue || state == ReadValueHuff)
      ensures (valuebuf == old(valuebuf) || fresh(valuebuf))
      ensures (valuebuf.mem == old(valuebuf.mem) || fresh(valuebuf.mem))
    {
      hide Inflater.Here, Inflater.There;
      if state == CheckValueLen {
        v, next, busy := RoundCheckValueLen(input, pos, s0);
      } else {
        v, next, busy := RoundValueLen(input, pos, s0);
      }
    }

    /** The loop of `nghttp2_hd_inflate_hd_nv`; `Again` when it runs out of input between two rounds. */
    method Loop(input: Bytes, ghost s0: Inflating) returns (v: Verdict, pos: nat)
      requires Here(s0, input, 0, false)
      modifies this, huff, namebuf, namebuf.mem, valuebuf, valuebuf.mem, ctx.Repr
      ensures There(s0, input, v, pos, false) && (v == Again ==> pos == |input|)
      ensures Renewed() && ctx.bad == old(ctx.bad)
    {
      hide Inflater.Here, Inflater.There, Rank;
      pos := 0;
      var busy := false;
      v := Again;
      while pos != |input| || busy
        invariant Here(s0, input, pos, busy) && v == Again && ctx.Repr == old(ctx.Repr) && ctx.bad == old(ctx.bad)
        invariant (namebuf == old(namebuf) || fresh(namebuf)) && (namebuf.mem == old(namebuf.mem) || fresh(namebuf.mem))
        invariant (valuebuf == old(valuebuf) || fresh(valuebuf))
        invariant (valuebuf.mem == old(valuebuf.mem) || fresh(valuebuf.mem))
        decreases |input| - pos, Rank(state)
      {
        HereFacts(s0, input, pos, busy);
        Apart(s0, input, pos, busy);
        if state == ReadValue || state == ReadValueHuff {
          ghost var added: set<object>;
          v, pos, added := RoundValue(input, pos, busy, s0);
          return;
        }
        if state == CheckValueLen || state == ReadValueLen {
          v, pos, busy := RoundLength(input, pos, s0);
        } else if state == ReadTableSize {
          v, pos := RoundTableSize(input, pos, s0);
        } else {
          v, pos := RoundBefore(input, pos, s0);
        }
        if v != Again {
          NotBusy(s0, input, v, pos, busy);
          return;
        }
        AgainIsHere(s0, input, pos, busy);
      }
      AgainIsHere(s0, input, pos, false);
    }

    lemma Apart(s0: Inflating, input: Bytes, pos: nat, busy: bool)
      requires Here(s0, input, pos, busy)
      ensures this !in ctx.Repr && ctx in ctx.Repr
    {
    }

    lemma NotBusy(s0: Inflating, input: Bytes, v: Verdict, pos: nat, busy: bool)
      requires There(s0, input, v, pos, busy) && v != Again
      ensures There(s0, input, v, pos, false)
    {
    }

    lemma AgainIsHere(s0: Inflating, input: Bytes, pos: nat, busy: bool)
      ensures There(s0, input, Again, pos, busy) <==> Here(s0, input, pos, busy)
    {
    }

    lemma HereFacts(s0: Inflating, input: Bytes, pos: nat, busy: bool)
      requires Here(s0, input, pos, busy)
      ensures pos <= |input| && (busy ==> state == ReadValue || state == ReadValueHuff)
      ensures ReadsValuePart(state) ==
        (state == CheckValueLen || state == ReadValueLen || state == ReadValue || state == ReadValueHuff)
    {
    }

    /** The inflater is marked as failed. */
    method Spoil()
      requires Fit()
      modifies ctx`bad
      ensures Fit() && Abs() == old(Abs()) && ctx.bad
    {
      assert Separate();
      hide Context.Valid, HashIndex.Abs, HuffmanCodec.Follows, HuffmanCodec.Stands, HuffmanCodec.Store.Valid;
      ctx.Spoil();
    }

    /** The end of `nghttp2_hd_inflate_hd_nv`. */
    method Finish(input: Bytes, final: bool, v: Verdict, pos: nat, ghost s0: Inflating) returns (r: Inflated)
      requires There(s0, input, v, pos, false) && (v == Again ==> pos == |input|) && !ctx.bad
      modifies ctx`bad
      ensures Fit() && ctx.bad == r.Failed?
      ensures Handled(ctx.tables, s0, input, final, r, Abs())
    {
      CallVerdict(input, final, v, pos, s0);
      ContextOwned();
      hide Inflater.Fit, Handled, Inflater.There;
      r := if v.Emitted? then Consumed(pos, Some(v.field), false)
           else if v == Fail || (final && (v == AlmostOk || (state != Opcode && state != Start))) then Failed
           else Consumed(pos, None, final && v == Again);
      if r == Failed {
        Spoil();
      }
    }

    lemma ContextOwned()
      requires Fit()
      ensures ctx in ctx.Repr
    {
    }

    lemma CallVerdict(input: Bytes, final: bool, v: Verdict, pos: nat, s0: Inflating)
      requires There(s0, input, v, pos, false) && (v == Again ==> pos == |input|)
      ensures Fit()
      ensures var r := if v.Emitted? then Consumed(pos, Some(v.field), false)
                       else if
                         v == Fail || (final && (v == AlmostOk || (state != Opcode && state != Start)))
                       then Failed
                       else Consumed(pos, None, final && v == Again);
        Handled(ctx.tables, s0, input, final, r, Abs())
    {
      hide Inflater.Fit, Handled, Result, Reach;
      match v
      case Again => EndsHere(input, final, s0);
      case AlmostOk => CallStops(ctx.tables, s0, input, final, pos, Abs());
      case Emitted(field) => CallEmits(ctx.tables, s0, input, final, pos, Abs(), field);
      case Fail => CallFails(ctx.tables, s0, input, final, pos, Abs());
    }

    lemma EndsHere(input: Bytes, final: bool, s0: Inflating)
      requires There(s0, input, Again, |input|, false)
      ensures Handled(ctx.tables, s0, input, final,
                      if final && state != Opcode && state != Start then Failed else Consumed(|input|, None, final),
                      Abs())
    {
      hide Inflater.Fit, Handled, Reach;
      CallEnds(ctx.tables, s0, input, final, Abs());
    }

    /** `nghttp2_hd_inflate_hd_nv`. */
    method InflateHdNv(input: Bytes, final: bool) returns (r: Inflated)
      requires Valid()
      modifies this, huff, namebuf, namebuf.mem, valuebuf, valuebuf.mem, ctx.Repr
      ensures Valid() && Renewed() && ctx.bad == r.Failed?
      ensures old(ctx.bad) ==> r == Failed
      ensures !old(ctx.bad) ==> Handled(ctx.tables, old(Abs()), input, final, r, Abs())
    {
      if ctx.bad {
        return Failed;
      }
      ghost var s0 := Abs();
      StartsHere(input);
      hide *;
      var v, pos := Loop(input, s0);
      r := Finish(input, final, v, pos, s0);
      CallIsValid(input, final, r, s0);
    }

    lemma StartsHere(input: Bytes)
      requires Valid() && !ctx.bad
      ensures Here(Abs(), input, 0, false)
    {
      TablesValid();
      ReachStart(ctx.tables, Abs(), input);
      hide Inflater.Fit, Reach;
    }

    lemma CallIsValid(input: Bytes, final: bool, r: Inflated, s0: Inflating)
      requires Fit() && Handled(ctx.tables, s0, input, final, r, Abs()) && ctx.bad == r.Failed?
      ensures Valid()
    {
      hide Inflater.Fit, Run;
    }

    /** `nghttp2_hd_inflate_end_headers`. */
    method EndOfHeaders()
      requires Valid()
      modifies this`state
      ensures Valid() && Abs() == EndHeaders(old(Abs()))
    {
      hide Context.Valid, HashIndex.Abs, HuffmanCodec.Follows, HuffmanCodec.Stands, HuffmanCodec.Store.Valid;
      if !ctx.bad {
        EndKeeps(Abs());
      }
      hide InflateMachine.Valid;
      state := Start;
    }

    /** `nghttp2_hd_inflate_change_table_size`, refused in the middle of a block. */
    method ChangeTableSize(size: nat) returns (rv: Status)
      requires Valid() && size <= UINT32_MAX
      modifies this`settings, this`leastMax, this`state, ctx.Repr
      ensures Valid() && ctx.Repr == old(ctx.Repr) && ctx.bad == old(ctx.bad)
      ensures match ChangeInflateSize(old(Abs()), size)
        case None => rv == InvalidState && Abs() == old(Abs())
        case Some(s) => rv == OK && Abs() == s
    {
      ghost var a := Abs();
      if !ctx.bad {
        ResizeKeeps(a, size);
      }
      hide InflateMachine.Valid;
      if state != ExpectTableSize && state != Start {
        return InvalidState;
      }
      SetSettings(size);
      if ctx.bufsizeMax > size {
        Shrink(size);
      }
      rv := OK;
    }

    method SetSettings(size: nat)
      requires Fit()
      modifies this`settings
      ensures Fit() && Abs() == old(Abs()).(settings := size)
    {
      hide Context.Valid, HashIndex.Abs, HuffmanCodec.Follows, HuffmanCodec.Stands, HuffmanCodec.Store.Valid;
      settings := size;
    }

    /** A smaller table than the peer is known to use has to be acknowledged by it. */
    method Shrink(size: nat)
      requires Fit() && size <= UINT32_MAX && !ReadsString(state)
      modifies this`leastMax, this`state, ctx.Repr
      ensures Fit() && ctx.Repr == old(ctx.Repr) && ctx.bad == old(ctx.bad)
      ensures Abs() == old(Abs()).(state := ExpectTableSize, leastMax := size, max := size,
                                   table := Evict(old(ctx.Table()), size))
    {
      hide Context.Owned, Context.Ringed, Context.Indexed, Context.CountedAs, HashIndex.Abs, Evict;
      hide HuffmanCodec.Follows, HuffmanCodec.Stands, HuffmanCodec.Store.Valid;
      state := ExpectTableSize;
      leastMax := size;
      ctx.SetMax(size);
      ctx.ShrinkTableSize();
    }

    /** The octets before pos are fed and have given these fields. */
    ghost predicate Underway(s0: Inflating, input: Bytes, pos: nat, fields: seq<Field>)
      reads this, ctx, ctx.Repr, huff, namebuf, namebuf.mem, valuebuf, valuebuf.mem
    {
      Valid() && !ctx.bad && Driving(ctx.tables, s0, input, pos, fields, Abs())
    }

    /** The input is used up, or has been rejected. */
    ghost predicate Over(s0: Inflating, input: Bytes, final: bool, ok: bool, fields: seq<Field>)
      reads this, ctx, ctx.Repr, huff, namebuf, namebuf.mem, valuebuf, valuebuf.mem
    {
      Valid() && ctx.bad == !ok && Driven(ctx.tables, s0, input, final, ok, fields, Abs())
    }

    /** What a call has made of the input from pos on. */
    lemma CallMakes(s0: Inflating, input: Bytes, final: bool, pos: nat, fields: seq<Field>, a: Inflating, r: Inflated)
      requires pos <= |input|
      requires Valid() && ctx.bad == r.Failed? && Driving(ctx.tables, s0, input, pos, fields, a)
      requires Handled(ctx.tables, a, input[pos..], final, r, Abs())
      ensures r == Failed ==> Over(s0, input, final, false, fields)
      ensures r != Failed ==> pos + r.n <= |input| && (r.final ==> r.field == None)
      ensures r != Failed && r.field != None ==> r.n > 0 && Underway(s0, input, pos + r.n, fields + [r.field.value])
      ensures r != Failed && r.field == None ==> pos + r.n == |input| && r.final == final && !ctx.bad
      ensures r != Failed && r.field == None ==>
        Driven(ctx.tables, s0, input, final, true, fields, if final then EndHeaders(Abs()) else Abs())
    {
      hide Inflater.Valid, Driving, Driven, Handled, EndHeaders;
      if r == Failed {
        DrivingFails(ctx.tables, s0, input, final, pos, fields, a, Abs());
      } else {
        CallShape(ctx.tables, a, input[pos..], final, r, Abs());
        if r.field == None {
          DrivingEnds(ctx.tables, s0, input, final, pos, fields, a, r.n, Abs());
        } else {
          DrivingEmits(ctx.tables, s0, input, final, pos, fields, a, r.n, r.field.value, Abs());
        }
      }
    }

    /** The call and what is done about the end of the block. */
    method Drive(input: Bytes, pos: nat, final: bool, fields0: seq<Field>, ghost s0: Inflating)
      returns (r: Inflated, fields: seq<Field>)
      requires Underway(s0, input, pos, fields0) && pos <= |input|
      modifies this, huff, namebuf, namebuf.mem, valuebuf, valuebuf.mem, ctx.Repr
      ensures Renewed()
      ensures r == Failed ==> Over(s0, input, final, false, fields)
      ensures r != Failed && r.field != None ==>
        0 < r.n <= |input| - pos && Underway(s0, input, pos + r.n, fields) && !r.final
      ensures r != Failed && r.field == None ==> pos + r.n == |input| && Over(s0, input, final, true, fields)
    {
      ghost var a := Abs();
      hide Inflater.Valid, Driving, Driven, Handled, EndHeaders;
      r := InflateHdNv(input[pos..], final);
      CallMakes(s0, input, final, pos, fields0, a, r);
      fields := fields0;
      if r == Failed {
        return;
      }
      if r.field != None {
        fields := fields + [r.field.value];
      }
      if r.final {
        EndOfHeaders();
      }
    }

    lemma UnderwayStart(input: Bytes)
      requires Valid() && !ctx.bad
      ensures Underway(Abs(), input, 0, [])
    {
      TablesValid();
      DrivingStart(ctx.tables, Abs(), input);
      hide Inflater.Fit, Driving;
    }

    /** The loop a caller drives the inflater with. */
    method Feed(input: Bytes, final: bool, ghost s0: Inflating) returns (ok: bool, fields: seq<Field>)
      requires Underway(s0, input, 0, [])
      modifies this, huff, namebuf, namebuf.mem, valuebuf, valuebuf.mem, ctx.Repr
      ensures Renewed() && Over(s0, input, final, ok, fields)
    {
      hide Inflater.Underway, Inflater.Over;
      fields := [];
      var pos: nat := 0;
      while true
        invariant Renewed() && pos <= |input| && Underway(s0, input, pos, fields)
        decreases |input| - pos
      {
        var r;
        r, fields := Drive(input, pos, final, fields, s0);
        if r == Failed {
          return false, fields;
        }
        pos := pos + r.n;
        if r.final || (r.field == None && pos == |input|) {
          return true, fields;
        }
      }
    }

    /** All fields of the input, collected until it is used up or rejected. */
    method InflateAll(input: Bytes, final: bool) returns (ok: bool, fields: seq<Field>)
      requires Valid()
      modifies this, huff, namebuf, namebuf.mem, valuebuf, valuebuf.mem, ctx.Repr
      ensures Valid() && Renewed() && ctx.bad == !ok
      ensures old(ctx.bad) ==> !ok && fields == []
      ensures !old(ctx.bad) ==> Driven(ctx.tables, old(Abs()), input, final, ok, fields, Abs())
    {
      if ctx.bad {
        return false, [];
      }
      ghost var s0 := Abs();
      UnderwayStart(input);
      hide Inflater.Valid, Driven, Inflater.Abs, Inflater.Underway;
      ok, fields := Feed(input, final, s0);
    }

    /** The chunks before i are fed and have given these fields. */
    ghost predicate Between(s0: Inflating, chunks: seq<Bytes>, i: nat, fields: seq<Field>)
      reads this, ctx, ctx.Repr, huff, namebuf, namebuf.mem, valuebuf, valuebuf.mem
    {
      Valid() && !ctx.bad && ChunksLeft(ctx.tables, s0, chunks, i, fields, Abs())
    }

    lemma BetweenStart(chunks: seq<Bytes>)
      requires Valid() && !ctx.bad
      ensures Between(Abs(), chunks, 0, [])
    {
      TablesValid();
      ChunksStart(ctx.tables, Abs(), chunks);
      hide Inflater.Fit, ChunksLeft;
    }

    lemma ChunkMakes(s0: Inflating, chunks: seq<Bytes>, i: nat, fields: seq<Field>, a: Inflating, ok: bool,
                     fs: seq<Field>)
      requires i < |chunks| && Valid() && ctx.bad == !ok && ChunksLeft(ctx.tables, s0, chunks, i, fields, a)
      requires Driven(ctx.tables, a, chunks[i], i == |chunks| - 1, ok, fs, Abs())
      ensures ok && i + 1 < |chunks| ==> Between(s0, chunks, i + 1, fields + fs)
      ensures !ok || i + 1 == |chunks| ==> Over(s0, Flatten(chunks), true, ok, fields + fs)
    {
      hide Inflater.Valid, ChunksLeft, Driven;
      if i + 1 == |chunks| {
        LastChunk(ctx.tables, s0, chunks, fields, a, ok, fs, Abs());
      } else if ok {
        NextChunk(ctx.tables, s0, chunks, i, fields, a, fs, Abs());
      } else {
        BadChunk(ctx.tables, s0, chunks, i, fields, a, fs, Abs());
      }
    }

    /** One chunk of a block. */
    method FeedChunk(chunks: seq<Bytes>, i: nat, fields0: seq<Field>, ghost s0: Inflating)
      returns (ok: bool, fields: seq<Field>)
      requires i < |chunks| && Between(s0, chunks, i, fields0)
      modifies this, huff, namebuf, namebuf.mem, valuebuf, valuebuf.mem, ctx.Repr
      ensures Renewed()
      ensures ok && i + 1 < |chunks| ==> Between(s0, chunks, i + 1, fields)
      ensures !ok || i + 1 == |chunks| ==> Over(s0, Flatten(chunks), true, ok, fields)
    {
      ghost var a := Abs();
      hide Inflater.Valid, ChunksLeft, Driven, Inflater.Over;
      var fs;
      ok, fs := InflateAll(chunks[i], i == |chunks| - 1);
      ChunkMakes(s0, chunks, i, fields0, a, ok, fs);
      fields := fields0 + fs;
    }

    method FeedChunks(chunks: seq<Bytes>, ghost s0: Inflating) returns (ok: bool, fields: seq<Field>)
      requires chunks != [] && Between(s0, chunks, 0, [])
      modifies this, huff, namebuf, namebuf.mem, valuebuf, valuebuf.mem, ctx.Repr
      ensures Renewed() && Over(s0, Flatten(chunks), true, ok, fields)
    {
      hide Inflater.Between, Inflater.Over, Flatten;
      ok, fields := true, [];
      var i := 0;
      while i < |chunks|
        invariant Renewed() && i <= |chunks| && ok
        invariant if i < |chunks| then Between(s0, chunks, i, fields) else Over(s0, Flatten(chunks), true, ok, fields)
      {
        ok, fields := FeedChunk(chunks, i, fields, s0);
        if !ok {
          return;
        }
        i := i + 1;
      }
    }

    /**
     * A header block handed over in chunks, the last of them marked final: whatever the partition,
     * the fields and the verdict are those of the block in one piece.
     */
    method InflateChunks(chunks: seq<Bytes>) returns (ok: bool, fields: seq<Field>)
      requires Valid() && chunks != []
      modifies this, huff, namebuf, namebuf.mem, valuebuf, valuebuf.mem, ctx.Repr
      ensures Valid() && Renewed() && ctx.bad == !ok
      ensures old(ctx.bad) ==> !ok && fields == []
      ensures !old(ctx.bad) ==> Driven(ctx.tables, old(Abs()), Flatten(chunks), true, ok, fields, Abs())
    {
      if ctx.bad {
        return false, [];
      }
      ghost var s0 := Abs();
      BetweenStart(chunks);
      hide Inflater.Valid, Driven, Inflater.Abs, Inflater.Between, Flatten;
      ok, fields := FeedChunks(chunks, s0);
    }
  }

  /** States that are left without an octet being read rank higher. */
  function Rank(st: State): nat {
    if st == ExpectTableSize || st == Start || st == Opcode then 2
    else if st == ReadName || st == ReadNameHuff then 1
    else 0
  }
}
