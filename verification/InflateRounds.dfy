/**
 * One round of the inflater's loop as a move of the machine: for each state, what is
 * read there leaves the whole run where the machine would be.
 */
module InflateRounds {
  import opened Common
  import opened DynamicTable
  import opened Hpack
  import opened InflateMachine
  import opened InflateRuns
  import PrefixInt
  import Huffman = HuffmanCode

  /** How a round of the inflater's loop ends. */
  datatype Verdict = Again | AlmostOk | Emitted(field: Field) | Fail

  /** What is still to be read from t: right after a value's length the value is due even if it is empty. */
  function RunFrom(p: Tables, s: Inflating, t: Bytes, busy: bool): Ran
    requires ValidTables(p) && Ready(s, busy)
  {
    if busy && s.left == 0 then StringDoneKeeps(p, s); Then(p, Commit(p, s), t) else Run(p, Live(s), t)
  }

  /** The machine may go on from here. */
  predicate Ready(s: Inflating, busy: bool) {
    if busy then InString(s) && ReadsValuePart(s.state) else InflateMachine.Valid(s)
  }

  /** The state in which the first octet of a representation leaves the inflater, before any integer is read. */
  function Classified(s: Inflating, b: byte): Option<Inflating> {
    var clean := s.(left := 0, shift := 0);
    var literal := clean.(indexRequired := b / 64 == 1, noIndex := b / 16 == 1);
    if (s.state == ExpectTableSize && b / 32 != 1) || (s.state == Opcode && b / 32 == 1) then None
    else if b / 32 == 1 then Some(clean.(opcode := OpIndexed, state := ReadTableSize))
    else if b >= 128 then Some(clean.(opcode := OpIndexed, state := ReadIndex))
    else if b == 0x40 || b == 0 || b == 0x10 then Some(literal.(opcode := OpNewName, state := CheckNameLen))
    else Some(literal.(opcode := OpIndexedName, state := ReadIndex))
  }

  /** The octet that only names the kind of representation is read again where it also begins an integer. */
  lemma ClassifiedStep(p: Tables, s: Inflating, t: Bytes)
    requires ValidTables(p) && InflateMachine.Valid(s) && t != []
    requires s.state == ExpectTableSize || s.state == Start || s.state == Opcode
    ensures match Classified(s, t[0])
      case None => Run(p, Live(s), t) == Ran(Broken, [])
      case Some(u) =>
        && InflateMachine.Valid(u) && (u.state == CheckNameLen || (ReadsInteger(u.state) && u.left == 0))
        && Run(p, Live(s), t) == if u.state == CheckNameLen then Run(p, Live(u), t[1..]) else Run(p, Live(u), t)
  {
    hide IntegerOctet, Size, Run;
    match Classified(s, t[0]) {
      case None =>
        assert Step(p, s, t[0]) == Ran(Broken, []);
        FailingStep(p, s, t);
      case Some(u) =>
        if u.state == CheckNameLen {
          assert Step(p, s, t[0]) == Ran(Live(u), []);
          SilentStep(p, s, u, t);
        } else {
          assert Step(p, s, t[0]) == IntegerOctet(p, u, t[0]) == Step(p, u, t[0]);
          SameStep(p, s, u, t);
        }
    }
  }

  lemma FailingStep(p: Tables, s: Inflating, t: Bytes)
    requires ValidTables(p) && InflateMachine.Valid(s) && t != [] && Step(p, s, t[0]) == Ran(Broken, [])
    ensures Run(p, Live(s), t) == Ran(Broken, [])
  {
    hide Step, InflateMachine.Valid;
  }

  // ---------------------------------------------------------------- where a call stands

  /** The run over the whole input is the run from state a over what is left of it. */
  ghost predicate Reach(p: Tables, s0: Inflating, input: Bytes, pos: nat, busy: bool, a: Inflating) {
    && ValidTables(p) && InflateMachine.Valid(s0) && pos <= |input| && (busy ==> pos > 0) && Ready(a, busy)
    && Run(p, Live(s0), input) == RunFrom(p, a, input[pos..], busy)
  }

  /** What a verdict says about the run over the whole input. */
  ghost predicate Result(p: Tables, s0: Inflating, input: Bytes, v: Verdict, pos: nat, busy: bool, a: Inflating) {
    match v
    case Again => Reach(p, s0, input, pos, busy, a)
    case AlmostOk =>
      && ValidTables(p) && InflateMachine.Valid(s0) && InflateMachine.Valid(a) && pos == |input| && !MayEnd(a)
      && Run(p, Live(s0), input) == Ran(Live(a), [])
    case Emitted(f) =>
      && ValidTables(p) && InflateMachine.Valid(s0) && InflateMachine.Valid(a) && 0 < pos <= |input|
      && Run(p, Live(s0), input) == Then(p, Ran(Live(a), [f]), input[pos..])
    case Fail =>
      && ValidTables(p) && InflateMachine.Valid(s0)
      && Run(p, Live(s0), input) == Ran(Broken, [])
  }

  /** An integer has just been completed in state u. */
  ghost predicate Counted(p: Tables, s0: Inflating, input: Bytes, pos: nat, u: Inflating) {
    && ValidTables(p) && InflateMachine.Valid(s0) && 0 < pos <= |input|
    && ReadsInteger(u.state) && InflateMachine.Valid(u.(left := 0, shift := 0)) && u.left <= Limit(u)
    && ValidMachine(IntegerDone(p, u).m)
    && Run(p, Live(s0), input) == Then(p, IntegerDone(p, u), input[pos..])
  }

  lemma OpcodeRound(p: Tables, s0: Inflating, input: Bytes, pos: nat, a: Inflating)
    requires Reach(p, s0, input, pos, false, a) && pos < |input|
    requires a.state == ExpectTableSize || a.state == Start || a.state == Opcode
    ensures match Classified(a, input[pos])
      case None => Result(p, s0, input, Fail, pos, false, a)
      case Some(u) => Result(p, s0, input, Again, if u.state == CheckNameLen then pos + 1 else pos, false, u)
  {
    hide Run, Classified, InflateMachine.Valid;
    ClassifiedStep(p, a, input[pos..]);
    assert input[pos..][1..] == input[pos + 1..];
  }

  lemma DoneIsCounted(p: Tables, s0: Inflating, input: Bytes, pos: nat, a: Inflating, v: uint32, h: nat, c: nat)
    requires Reach(p, s0, input, pos, false, a) && pos < |input| && ReadsInteger(a.state)
    requires v <= Limit(a) && 0 < c <= |input| - pos
    requires ValidMachine(IntegerDone(p, a.(left := v, shift := h)).m)
    requires Run(p, Live(a), input[pos..]) == Then(p, IntegerDone(p, a.(left := v, shift := h)), input[pos..][c..])
    ensures Counted(p, s0, input, pos + c, a.(left := v, shift := h))
  {
    hide Run, IntegerDone, Size, Then;
    assert input[pos..][c..] == input[pos + c..];
  }

  lemma IntegerFails(p: Tables, s0: Inflating, input: Bytes, pos: nat, a: Inflating, next: nat, b: Inflating)
    requires Reach(p, s0, input, pos, false, a) && pos < |input| && ReadsInteger(a.state)
    requires match PrefixInt.Decode(a.left, a.shift, input[pos..], Prefix(a))
      case Overflow => true
      case More(v, _) => v > Limit(a)
      case Done(v, _) => v > Limit(a)
    ensures Result(p, s0, input, Fail, next, false, b)
  {
    RunInteger(p, a, input[pos..]);
    hide Run, PrefixInt.Decode, PrefixInt.Consumed, IntegerDone, Then, InflateMachine.Valid, Limit, Prefix;
  }

  lemma IntegerStops(p: Tables, s0: Inflating, input: Bytes, pos: nat, a: Inflating, v: uint32, h: nat)
    requires Reach(p, s0, input, pos, false, a) && pos < |input| && ReadsInteger(a.state)
    requires PrefixInt.Decode(a.left, a.shift, input[pos..], Prefix(a)) == PrefixInt.More(v, h) && v <= Limit(a)
    ensures Result(p, s0, input, AlmostOk, |input|, false, a.(left := v, shift := h))
  {
    RunInteger(p, a, input[pos..]);
    RunKeeps(p, Live(a), input[pos..]);
    hide Run, PrefixInt.Decode, PrefixInt.Consumed, IntegerDone, Then, InflateMachine.Valid, Limit, Prefix;
  }

  lemma IntegerEnds(p: Tables, s0: Inflating, input: Bytes, pos: nat, a: Inflating, v: uint32, h: nat)
    requires Reach(p, s0, input, pos, false, a) && pos < |input| && ReadsInteger(a.state)
    requires PrefixInt.Decode(a.left, a.shift, input[pos..], Prefix(a)) == PrefixInt.Done(v, h) && v <= Limit(a)
    ensures var c := PrefixInt.Consumed(a.left, a.shift, input[pos..], Prefix(a));
      c > 0 && Counted(p, s0, input, pos + c, a.(left := v, shift := h))
  {
    hide Run, PrefixInt.Decode, PrefixInt.Consumed, IntegerDone, Then, InflateMachine.Valid, Counted, Limit, Prefix;
    RunEnds(p, a, input[pos..], v, h);
    DoneIsCounted(p, s0, input, pos, a, v, h, PrefixInt.Consumed(a.left, a.shift, input[pos..], Prefix(a)));
  }

  lemma RunEnds(p: Tables, a: Inflating, t: Bytes, v: uint32, h: nat)
    requires ValidTables(p) && InflateMachine.Valid(a) && ReadsInteger(a.state) && t != []
    requires PrefixInt.Decode(a.left, a.shift, t, Prefix(a)) == PrefixInt.Done(v, h) && v <= Limit(a)
    ensures ValidMachine(IntegerDone(p, a.(left := v, shift := h)).m)
    ensures Run(p, Live(a), t)
         == Then(p, IntegerDone(p, a.(left := v, shift := h)), t[PrefixInt.Consumed(a.left, a.shift, t, Prefix(a))..])
  {
    hide Run, PrefixInt.Decode, PrefixInt.Consumed, IntegerDone, Then, InflateMachine.Valid, Limit, Prefix;
    IntegerDoneKeeps(p, a, v, h);
    RunInteger(p, a, t);
  }

  /** A completed integer that emits nothing. */
  lemma SilentDone(p: Tables, s0: Inflating, input: Bytes, pos: nat, u: Inflating, w: Inflating)
    requires Counted(p, s0, input, pos, u) && IntegerDone(p, u) == Ran(Live(w), [])
    ensures Reach(p, s0, input, pos, false, w)
  {
    hide Run, IntegerDone, InflateMachine.Valid;
  }

  lemma SizeRound(p: Tables, s0: Inflating, input: Bytes, pos: nat, u: Inflating)
    requires Counted(p, s0, input, pos, u) && u.state == ReadTableSize
    ensures Result(p, s0, input, Again, pos, false,
                  u.(leastMax := UINT32_MAX, max := u.left, table := Evict(u.table, u.left), state := Start))
  {
    hide Run, InflateMachine.Valid, Evict, Then;
    SilentDone(p, s0, input, pos, u,
               u.(leastMax := UINT32_MAX, max := u.left, table := Evict(u.table, u.left), state := Start));
  }

  lemma ThenBroken(p: Tables, out: seq<Field>, t: Bytes)
    requires ValidTables(p)
    ensures Then(p, Ran(Broken, out), t) == Ran(Broken, out)
  {
    assert out + [] == out;
  }

  /** Index zero does not exist. */
  lemma IndexZeroRound(p: Tables, s0: Inflating, input: Bytes, pos: nat, u: Inflating)
    requires Counted(p, s0, input, pos, u) && u.state == ReadIndex && u.left == 0
    ensures Result(p, s0, input, Fail, pos, false, u)
  {
    hide Run, InflateMachine.Valid, Resolve, Then;
    ThenBroken(p, [], input[pos..]);
  }

  lemma IndexedRound(p: Tables, s0: Inflating, input: Bytes, pos: nat, u: Inflating)
    requires Counted(p, s0, input, pos, u) && u.state == ReadIndex && u.left > 0 && u.opcode == OpIndexed
    ensures var e := Resolve(p, u.table, u.left - 1);
      Result(p, s0, input, Emitted(Field(e.name, e.value, false)), pos, false, u.(index := u.left - 1, state := Opcode))
  {
    hide Run, InflateMachine.Valid, Resolve, Then;
  }

  lemma IndexNameRound(p: Tables, s0: Inflating, input: Bytes, pos: nat, u: Inflating)
    requires Counted(p, s0, input, pos, u) && u.state == ReadIndex && u.left > 0 && u.opcode != OpIndexed
    ensures Result(p, s0, input, Again, pos, false, u.(index := u.left - 1, state := CheckValueLen))
  {
    hide Run, InflateMachine.Valid, Resolve, Then;
    SilentDone(p, s0, input, pos, u, u.(index := u.left - 1, state := CheckValueLen));
  }

  lemma NameLengthRound(p: Tables, s0: Inflating, input: Bytes, pos: nat, u: Inflating)
    requires Counted(p, s0, input, pos, u) && u.state == ReadNameLen
    ensures Result(p, s0, input, Again, pos, false,
                  if u.huffman then u.(state := ReadNameHuff, walk := Huffman.At([]), name := [])
                  else u.(state := ReadName, name := []))
  {
    hide Run, InflateMachine.Valid, Then;
    SilentDone(p, s0, input, pos, u,
               if u.huffman then u.(state := ReadNameHuff, walk := Huffman.At([]), name := [])
               else u.(state := ReadName, name := []));
  }

  /** After the length of a value the loop goes round once more whatever is left of the input. */
  lemma ValueLengthRound(p: Tables, s0: Inflating, input: Bytes, pos: nat, u: Inflating)
    requires Counted(p, s0, input, pos, u) && u.state == ReadValueLen
    ensures Result(p, s0, input, Again, pos, true, StartValue(u))
  {
    hide Run, Commit, Size;
    var w := StartValue(u);
    assert Huffman.Accepting(Huffman.At([]));
    assert InString(w);
    if u.left > 0 {
      SilentValue(p, s0, input, pos, u);
    }
  }

  lemma SilentValue(p: Tables, s0: Inflating, input: Bytes, pos: nat, u: Inflating)
    requires Counted(p, s0, input, pos, u) && u.state == ReadValueLen && u.left > 0
    ensures InflateMachine.Valid(StartValue(u)) && Run(p, Live(s0), input) == Run(p, Live(StartValue(u)), input[pos..])
  {
    hide Run, InflateMachine.Valid, StartValue;
  }

  /** The octet that starts a length is read by the state that looks at its top bit and again by the next. */
  lemma LengthRound(p: Tables, s0: Inflating, input: Bytes, pos: nat, a: Inflating)
    requires Reach(p, s0, input, pos, false, a) && pos < |input|
    requires a.state == CheckNameLen || a.state == CheckValueLen
    ensures Reach(p, s0, input, pos, false,
                  a.(huffman := input[pos] >= 128,
                     state := if a.state == CheckNameLen then ReadNameLen else ReadValueLen,
                     left := 0, shift := 0))
  {
    hide Run, IntegerOctet, Size;
    var u := a.(huffman := input[pos] >= 128, state := if a.state == CheckNameLen then ReadNameLen else ReadValueLen,
                left := 0, shift := 0);
    assert Step(p, a, input[pos]) == IntegerOctet(p, u, input[pos]) == Step(p, u, input[pos]);
    SameStep(p, a, u, input[pos..]);
  }

  /** A stretch of a name. */
  lemma NameRound(p: Tables, s0: Inflating, input: Bytes, pos: nat, a: Inflating, k: nat)
    requires Reach(p, s0, input, pos, false, a) && pos < |input| && (a.state == ReadName || a.state == ReadNameHuff)
    requires k == Min(a.left, |input| - pos)
    ensures match Absorb(p, a, input[pos..pos + k])
      case None => Result(p, s0, input, Fail, pos, false, a)
      case Some(u) =>
        if u.left > 0 then Result(p, s0, input, AlmostOk, pos + k, false, u)
        else Reach(p, s0, input, pos + k, false, u.(state := CheckValueLen))
  {
    hide Run, Absorb, InflateMachine.Valid, Commit;
    var t := input[pos..];
    assert t[..k] == input[pos..pos + k] && t[k..] == input[pos + k..];
    NameFacts(p, a, t[..k]);
    if a.left == 0 {
      AbsorbNothing(p, a);
      EmptyNameIsSkipped(p, a, t);
    } else {
      RunString(p, a, t);
      AbsorbKeeps(p, a, t[..k]);
    }
  }

  lemma NameFacts(p: Tables, a: Inflating, t: Bytes)
    requires ValidTables(p) && InflateMachine.Valid(a) && (a.state == ReadName || a.state == ReadNameHuff)
    requires |t| <= a.left
    ensures a.left == 0 ==> InString(a) && t == []
    ensures match Absorb(p, a, t) case None => true case Some(u) => u.state == a.state && u.left == a.left - |t|
  {
    AbsorbShape(p, a, t);
  }

  lemma ValueFacts(p: Tables, a: Inflating, t: Bytes)
    requires ValidTables(p) && InflateMachine.Valid(a) && (a.state == ReadValue || a.state == ReadValueHuff)
    requires |t| <= a.left
    ensures match Absorb(p, a, t) case None => true case Some(u) => u.state == a.state && u.left == a.left - |t|
  {
    AbsorbShape(p, a, t);
  }

  /** A committed literal is emitted, and the run goes on behind it. */
  lemma CommitEmits(p: Tables, s0: Inflating, input: Bytes, pos: nat, u: Inflating)
    requires ValidTables(p) && InflateMachine.Valid(s0) && 0 < pos <= |input| && InString(u) && ReadsValuePart(u.state)
    requires ValidMachine(Commit(p, u).m) && Run(p, Live(s0), input) == Then(p, Commit(p, u), input[pos..])
    ensures var c := Commit(p, u);
      c.m.Live? && |c.out| == 1 && Result(p, s0, input, Emitted(c.out[0]), pos, false, c.m.s)
  {
    hide Run, InflateMachine.Valid, Resolve, Add;
  }

  lemma StillValid(a: Inflating)
    requires InString(a) && a.left > 0
    ensures InflateMachine.Valid(a)
  {
  }

  predicate Indexes(u: Inflating) {
    u.opcode != OpNewName ==> u.index < STATIC_LENGTH + |u.table|
  }

  /** What a value string comes to once k octets of it are read. */
  ghost predicate ValueRead(p: Tables, s0: Inflating, input: Bytes, pos: nat, u: Inflating)
    requires ValidTables(p)
  {
    && Indexes(u)
    && if u.left > 0 then Result(p, s0, input, AlmostOk, pos, false, u)
       else
         var c := Commit(p, u);
         c.m.Live? && |c.out| == 1 && Result(p, s0, input, Emitted(c.out[0]), pos, false, c.m.s)
  }

  /** A value of no octets. */
  lemma EmptyValue(p: Tables, s0: Inflating, input: Bytes, pos: nat, a: Inflating)
    requires Reach(p, s0, input, pos, true, a) && (a.state == ReadValue || a.state == ReadValueHuff) && a.left == 0
    ensures Absorb(p, a, []) == Some(a) && ValueRead(p, s0, input, pos, a)
  {
    hide Run, Absorb, InflateMachine.Valid, Commit, InString, Then;
    AbsorbNothing(p, a);
    StringDoneKeeps(p, a);
    StringIndexes(a);
    CommitEmits(p, s0, input, pos, a);
  }

  /** The input ends right after the length of a value. */
  lemma ValueToCome(p: Tables, s0: Inflating, input: Bytes, a: Inflating)
    requires Reach(p, s0, input, |input|, true, a) && (a.state == ReadValue || a.state == ReadValueHuff) && a.left > 0
    ensures Absorb(p, a, []) == Some(a) && ValueRead(p, s0, input, |input|, a)
  {
    assert input[|input|..] == [];
    assert Run(p, Live(a), []) == Ran(Live(a), []);
    hide Run, Absorb, InflateMachine.Valid, Commit, InString;
    AbsorbNothing(p, a);
    StringIndexes(a);
    StillValid(a);
  }

  /** A stretch of a value. */
  lemma ValueRound(p: Tables, s0: Inflating, input: Bytes, pos: nat, busy: bool, a: Inflating, k: nat)
    requires Reach(p, s0, input, pos, busy, a) && (busy || pos < |input|)
    requires a.state == ReadValue || a.state == ReadValueHuff
    requires k == Min(a.left, |input| - pos)
    ensures match Absorb(p, a, input[pos..pos + k])
      case None => Result(p, s0, input, Fail, pos, false, a)
      case Some(u) => ValueRead(p, s0, input, pos + k, u)
  {
    BusyIfEmpty(p, s0, input, pos, busy, a);
    hide Run, Absorb, InflateMachine.Valid, Commit, InString, ValueRead, Result, Reach;
    if k == 0 {
      assert input[pos..pos + k] == [];
      if a.left == 0 {
        EmptyValue(p, s0, input, pos, a);
      } else {
        ValueToCome(p, s0, input, a);
      }
    } else {
      NotEmpty(p, s0, input, pos, busy, a);
      ValueStretch(p, s0, input, pos, a, k);
    }
  }

  lemma NotEmpty(p: Tables, s0: Inflating, input: Bytes, pos: nat, busy: bool, a: Inflating)
    requires Reach(p, s0, input, pos, busy, a) && (a.state == ReadValue || a.state == ReadValueHuff) && a.left > 0
    ensures ValidTables(p) && InflateMachine.Valid(s0) && InflateMachine.Valid(a)
    ensures Run(p, Live(s0), input) == Run(p, Live(a), input[pos..])
  {
    hide Run;
  }

  lemma BusyIfEmpty(p: Tables, s0: Inflating, input: Bytes, pos: nat, busy: bool, a: Inflating)
    requires Reach(p, s0, input, pos, busy, a) && (a.state == ReadValue || a.state == ReadValueHuff)
    ensures a.left == 0 ==> busy
    ensures pos <= |input|
  {
  }

  lemma StringIndexes(a: Inflating)
    requires InString(a)
    ensures Indexes(a)
  {
  }

  lemma ValueStretch(p: Tables, s0: Inflating, input: Bytes, pos: nat, a: Inflating, k: nat)
    requires ValidTables(p) && InflateMachine.Valid(s0) && InflateMachine.Valid(a) && pos < |input| && a.left > 0
    requires Run(p, Live(s0), input) == Run(p, Live(a), input[pos..])
    requires a.state == ReadValue || a.state == ReadValueHuff
    requires k == Min(a.left, |input| - pos)
    ensures match Absorb(p, a, input[pos..pos + k])
      case None => Result(p, s0, input, Fail, pos, false, a)
      case Some(u) => ValueRead(p, s0, input, pos + k, u)
  {
    hide Run, Absorb, InflateMachine.Valid, Commit, InString;
    var t := input[pos..];
    assert t[..k] == input[pos..pos + k] && t[k..] == input[pos + k..];
    ValueFacts(p, a, t[..k]);
    RunString(p, a, t);
    AbsorbKeeps(p, a, t[..k]);
    match Absorb(p, a, t[..k])
    case None =>
    case Some(u) =>
      StringIndexes(u);
      if u.left == 0 {
        CommitEmits(p, s0, input, pos + k, u);
      }
  }

  lemma ClassifiedState(s: Inflating, b: byte)
    ensures match Classified(s, b) case None => true case Some(u) => u.state == CheckNameLen || ReadsInteger(u.state)
  {
  }

  lemma IntegerFresh(a: Inflating)
    requires Ready(a, false) && ReadsInteger(a.state)
    ensures a.left == 0 ==> a.shift == 0
  {
  }

  /** As much of a string as there is from pos on, k octets, has been taken in. */
  ghost predicate StringTaken(p: Tables, a: Inflating, input: Bytes, pos: nat, k: nat, ok: bool, u: Inflating) {
    && pos <= |input| && k == Min(a.left, |input| - pos) && ValidTables(p)
    && Absorb(p, a, input[pos..pos + k]) == if ok then Some(u) else None
  }

  /** A stretch of Huffman code taken in by the decoder, the last of a string if it completes it. */
  lemma HuffmanTaken(p: Tables, a: Inflating, input: Bytes, pos: nat, k: nat, ok: bool, u: Inflating)
    requires ValidTables(p) && ReadsHuffman(a.state) && pos <= |input| && k == Min(a.left, |input| - pos)
    requires var w := Huffman.Walk(p.code, a.walk, Huffman.Unpack(input[pos..pos + k]));
      && ok == (w.node != Huffman.Dead && (u.left == 0 ==> Huffman.Accepting(w.node)))
      && u == a.(left := a.left - k, walk := w.node,
                 name := if a.state == ReadNameHuff then a.name + w.out else a.name,
                 value := if a.state == ReadNameHuff then a.value else a.value + w.out)
    ensures StringTaken(p, a, input, pos, k, ok, u)
  {
    hide Huffman.Walk, Huffman.Unpack, Huffman.Accepting, ValidTables;
  }

  /** The verdict on a stretch of a name. */
  lemma NameVerdict(p: Tables, s0: Inflating, input: Bytes, pos: nat, a: Inflating, k: nat, ok: bool, u: Inflating)
    requires Reach(p, s0, input, pos, false, a) && pos < |input| && (a.state == ReadName || a.state == ReadNameHuff)
    requires StringTaken(p, a, input, pos, k, ok, u)
    ensures !ok ==> Result(p, s0, input, Fail, pos, false, u)
    ensures ok && u.left > 0 ==> Result(p, s0, input, AlmostOk, pos + k, false, u)
    ensures ok && u.left == 0 ==> Result(p, s0, input, Again, pos + k, false, u.(state := CheckValueLen))
    ensures ok ==> u.state == a.state
  {
    NameRound(p, s0, input, pos, a, k);
    NameFacts(p, a, input[pos..pos + k]);
    hide Absorb, Run, InflateMachine.Valid, Reach;
  }

  /** The verdict on a stretch of a value. */
  lemma ValueVerdict(p: Tables, s0: Inflating, input: Bytes, pos: nat, busy: bool, a: Inflating, k: nat, ok: bool,
                     u: Inflating)
    requires Reach(p, s0, input, pos, busy, a) && (busy || pos < |input|)
    requires a.state == ReadValue || a.state == ReadValueHuff
    requires StringTaken(p, a, input, pos, k, ok, u)
    ensures !ok ==> Result(p, s0, input, Fail, pos, false, u)
    ensures ok ==> ValueRead(p, s0, input, pos + k, u) && u.state == a.state
  {
    ValueRound(p, s0, input, pos, busy, a, k);
    hide Run, InflateMachine.Valid, Reach, ValueRead;
  }

  /** What `hd_inflate_read_len` makes of the octets from pos on. */
  ghost predicate LengthRead(a: Inflating, input: Bytes, pos: nat, prefix: nat, maxlen: int,
                             read: Option<nat>, fin: bool, b: Inflating)
    requires pos <= |input| && PrefixInt.IsPrefix(prefix)
  {
    match PrefixInt.Decode(a.left, a.shift, input[pos..], prefix)
    case Overflow => read == None
    case More(v, h) =>
      if v > maxlen then read == None
      else read == Some(|input| - pos) && !fin && b == a.(left := v, shift := h)
    case Done(v, h) =>
      if v > maxlen then read == None
      else (read == Some(PrefixInt.Consumed(a.left, a.shift, input[pos..], prefix)) && fin
            && b == a.(left := v, shift := h))
  }

  /** The verdict on an integer. */
  lemma IntegerVerdict(p: Tables, s0: Inflating, input: Bytes, pos: nat, a: Inflating,
                       read: Option<nat>, fin: bool, b: Inflating, next: nat)
    requires Reach(p, s0, input, pos, false, a) && pos < |input| && ReadsInteger(a.state)
    requires LengthRead(a, input, pos, Prefix(a), Limit(a), read, fin, b)
    requires next == match read case None => pos case Some(n) => pos + n
    ensures read == None ==> Result(p, s0, input, Fail, next, false, b)
    ensures read != None && fin ==> next > pos && Counted(p, s0, input, next, b)
    ensures read != None && !fin ==> Result(p, s0, input, AlmostOk, next, false, b)
  {
    hide Reach, Counted, Run, Limit, Prefix, PrefixInt.Decode, PrefixInt.Consumed, InflateMachine.Valid, Result;
    match PrefixInt.Decode(a.left, a.shift, input[pos..], Prefix(a)) {
      case Overflow =>
        IntegerFails(p, s0, input, pos, a, next, b);
      case More(v, h) =>
        if v > Limit(a) {
          IntegerFails(p, s0, input, pos, a, next, b);
        } else {
          IntegerStops(p, s0, input, pos, a, v, h);
        }
      case Done(v, h) =>
        if v > Limit(a) {
          IntegerFails(p, s0, input, pos, a, next, b);
        } else {
          IntegerEnds(p, s0, input, pos, a, v, h);
        }
    }
  }

  // ---------------------------------------------------------------- whole calls

  /**
   * What one call of the inflater reports: failure, or octets read, a field if one was completed, and the final
   * flag.
   */
  datatype Inflated = Failed | Consumed(n: nat, field: Option<Field>, final: bool)

  /** The run, and where it ends if nothing may follow, is not acceptable. */
  predicate Rejected(r: Ran, final: bool) {
    r.m.Broken? || (final && !MayEnd(r.m.s))
  }

  /** What a call from state s0 on may report, and the state a it leaves. */
  ghost predicate Handled(p: Tables, s0: Inflating, input: Bytes, final: bool, r: Inflated, a: Inflating) {
    && ValidTables(p) && InflateMachine.Valid(s0)
    && match r
       case Failed => Run(p, Live(s0), input).out == [] && Rejected(Run(p, Live(s0), input), final)
       case Consumed(n, None, f) =>
         && n == |input| && f == final && InflateMachine.Valid(a)
         && Run(p, Live(s0), input) == Ran(Live(a), []) && !Rejected(Ran(Live(a), []), final)
       case Consumed(n, Some(field), f) =>
         && 0 < n <= |input| && !f && InflateMachine.Valid(a)
         && Run(p, Live(s0), input) == Then(p, Ran(Live(a), [field]), input[n..])
  }

  /** The loop begins where the machine is. */
  lemma ReachStart(p: Tables, s0: Inflating, input: Bytes)
    requires ValidTables(p) && InflateMachine.Valid(s0)
    ensures Reach(p, s0, input, 0, false, s0)
  {
    hide Run, InflateMachine.Valid;
    assert input[0..] == input;
  }

  lemma CallFails(p: Tables, s0: Inflating, input: Bytes, final: bool, pos: nat, a: Inflating)
    requires Result(p, s0, input, Fail, pos, false, a)
    ensures Handled(p, s0, input, final, Failed, a)
  {
    hide Run;
  }

  lemma CallEmits(p: Tables, s0: Inflating, input: Bytes, final: bool, pos: nat, a: Inflating, field: Field)
    requires Result(p, s0, input, Emitted(field), pos, false, a)
    ensures Handled(p, s0, input, final, Consumed(pos, Some(field), false), a)
  {
    hide Run;
  }

  /** The input ran out in the middle of something. */
  lemma CallStops(p: Tables, s0: Inflating, input: Bytes, final: bool, pos: nat, a: Inflating)
    requires Result(p, s0, input, AlmostOk, pos, false, a)
    ensures Handled(p, s0, input, final, if final then Failed else Consumed(pos, None, false), a)
  {
    hide Run, InflateMachine.Valid;
  }

  /** The input ran out between two rounds. */
  lemma CallEnds(p: Tables, s0: Inflating, input: Bytes, final: bool, a: Inflating)
    requires Reach(p, s0, input, |input|, false, a)
    ensures Handled(p, s0, input, final, if final && !MayEnd(a) then Failed else Consumed(|input|, None, final), a)
  {
    assert input[|input|..] == [];
    assert Run(p, Live(a), []) == Ran(Live(a), []);
    hide Run, InflateMachine.Valid;
  }

  /** With `fields` emitted and state a reached, the input from pos on is still to be fed. */
  ghost predicate Driving(p: Tables, s0: Inflating, input: Bytes, pos: nat, fields: seq<Field>, a: Inflating) {
    && ValidTables(p) && InflateMachine.Valid(s0) && InflateMachine.Valid(a) && pos <= |input|
    && Run(p, Live(s0), input) == Then(p, Ran(Live(a), fields), input[pos..])
  }

  /** What feeding the whole input comes to: the fields of the run, and its verdict. */
  ghost predicate Driven(p: Tables, s0: Inflating, input: Bytes, final: bool, ok: bool, fields: seq<Field>,
                         a: Inflating) {
    && ValidTables(p) && InflateMachine.Valid(s0)
    && var r := Run(p, Live(s0), input);
    && fields == r.out && ok == !Rejected(r, final)
    && (ok ==> InflateMachine.Valid(a) && a == if final then EndHeaders(r.m.s) else r.m.s)
  }

  lemma DrivingStart(p: Tables, s0: Inflating, input: Bytes)
    requires ValidTables(p) && InflateMachine.Valid(s0)
    ensures Driving(p, s0, input, 0, [], s0)
  {
    hide Run, InflateMachine.Valid;
    assert input[0..] == input;
    assert [] + Run(p, Live(s0), input).out == Run(p, Live(s0), input).out;
  }

  lemma DrivingFails(p: Tables, s0: Inflating, input: Bytes, final: bool, pos: nat, fields: seq<Field>, a: Inflating,
                     b: Inflating)
    requires Driving(p, s0, input, pos, fields, a) && Handled(p, a, input[pos..], final, Failed, b)
    ensures Driven(p, s0, input, final, false, fields, b)
  {
    hide Run, InflateMachine.Valid;
  }

  lemma DrivingEmits(p: Tables, s0: Inflating, input: Bytes, final: bool, pos: nat, fields: seq<Field>, a: Inflating,
                     n: nat, field: Field, b: Inflating)
    requires Driving(p, s0, input, pos, fields, a)
    requires Handled(p, a, input[pos..], final, Consumed(n, Some(field), false), b)
    ensures n > 0 && Driving(p, s0, input, pos + n, fields + [field], b)
  {
    hide Run, InflateMachine.Valid;
    var rest := Run(p, Live(b), input[pos..][n..]);
    assert input[pos..][n..] == input[pos + n..];
    Associative(fields, [field], rest.out);
  }

  lemma DrivingEnds(p: Tables, s0: Inflating, input: Bytes, final: bool, pos: nat, fields: seq<Field>, a: Inflating,
                    n: nat, b: Inflating)
    requires Driving(p, s0, input, pos, fields, a)
    requires Handled(p, a, input[pos..], final, Consumed(n, None, final), b)
    ensures pos + n == |input| && Driven(p, s0, input, final, true, fields, if final then EndHeaders(b) else b)
  {
    hide Run;
  }

  lemma EndKeeps(a: Inflating)
    requires InflateMachine.Valid(a)
    ensures InflateMachine.Valid(EndHeaders(a))
  {
  }

  lemma ResizeKeeps(a: Inflating, size: nat)
    requires InflateMachine.Valid(a)
    ensures match ChangeInflateSize(a, size) case None => true case Some(s) => InflateMachine.Valid(s)
  {
  }

  lemma CallShape(p: Tables, a: Inflating, input: Bytes, final: bool, r: Inflated, b: Inflating)
    requires Handled(p, a, input, final, r, b) && r != Failed
    ensures r.n <= |input| && (r.field == None ==> r.n == |input| && r.final == final) && (r.final ==> r.field == None)
  {
    hide Run, InflateMachine.Valid;
  }

  // ---------------------------------------------------------------- blocks in chunks

  /** With the chunks before i fed, the rest of the block is still to come. */
  ghost predicate ChunksLeft(p: Tables, s0: Inflating, chunks: seq<Bytes>, i: nat, fields: seq<Field>, a: Inflating) {
    && ValidTables(p) && InflateMachine.Valid(s0) && InflateMachine.Valid(a) && i <= |chunks|
    && Run(p, Live(s0), Flatten(chunks)) == Then(p, Ran(Live(a), fields), Flatten(chunks[i..]))
  }

  lemma ChunksStart(p: Tables, s0: Inflating, chunks: seq<Bytes>)
    requires ValidTables(p) && InflateMachine.Valid(s0)
    ensures ChunksLeft(p, s0, chunks, 0, [], s0)
  {
    hide Run, InflateMachine.Valid, Flatten;
    assert chunks[0..] == chunks;
    var r := Run(p, Live(s0), Flatten(chunks));
    assert [] + r.out == r.out;
  }

  /** Feeding a chunk and then more is feeding both: the one fact behind every partition. */
  lemma ChunkAndRest(p: Tables, s0: Inflating, chunks: seq<Bytes>, i: nat, fields: seq<Field>, a: Inflating)
    requires ChunksLeft(p, s0, chunks, i, fields, a) && i < |chunks|
    ensures var r := Run(p, Live(a), chunks[i]);
      ValidMachine(r.m)
      && Run(p, Live(s0), Flatten(chunks)) == Then(p, Ran(r.m, fields + r.out), Flatten(chunks[i + 1..]))
  {
    hide Run, InflateMachine.Valid;
    assert chunks[i..][1..] == chunks[i + 1..];
    var rest := Flatten(chunks[i + 1..]);
    RunAppend(p, Live(a), chunks[i], rest);
    var r := Run(p, Live(a), chunks[i]);
    Associative(fields, r.out, Run(p, r.m, rest).out);
  }

  lemma ThenNothing(p: Tables, one: Ran)
    requires ValidTables(p) && ValidMachine(one.m)
    ensures Then(p, one, []) == one
  {
    assert one.out + [] == one.out;
  }

  lemma NextChunk(p: Tables, s0: Inflating, chunks: seq<Bytes>, i: nat, fields: seq<Field>, a: Inflating,
                  fs: seq<Field>, b: Inflating)
    requires ChunksLeft(p, s0, chunks, i, fields, a) && i + 1 < |chunks|
    requires Driven(p, a, chunks[i], false, true, fs, b)
    ensures ChunksLeft(p, s0, chunks, i + 1, fields + fs, b)
  {
    ChunkAndRest(p, s0, chunks, i, fields, a);
    hide Run, InflateMachine.Valid, Flatten;
  }

  lemma BadChunk(p: Tables, s0: Inflating, chunks: seq<Bytes>, i: nat, fields: seq<Field>, a: Inflating,
                 fs: seq<Field>, b: Inflating)
    requires ChunksLeft(p, s0, chunks, i, fields, a) && i + 1 < |chunks|
    requires Driven(p, a, chunks[i], false, false, fs, b)
    ensures Driven(p, s0, Flatten(chunks), true, false, fields + fs, b)
  {
    hide Run, InflateMachine.Valid, Flatten, Then;
    ChunkAndRest(p, s0, chunks, i, fields, a);
    ThenBroken(p, fields + fs, Flatten(chunks[i + 1..]));
  }

  lemma LastChunk(p: Tables, s0: Inflating, chunks: seq<Bytes>, fields: seq<Field>, a: Inflating,
                  ok: bool, fs: seq<Field>, b: Inflating)
    requires |chunks| > 0 && ChunksLeft(p, s0, chunks, |chunks| - 1, fields, a)
    requires Driven(p, a, chunks[|chunks| - 1], true, ok, fs, b)
    ensures Driven(p, s0, Flatten(chunks), true, ok, fields + fs, b)
  {
    var i := |chunks| - 1;
    assert chunks[i + 1..] == [] && Flatten(chunks[i + 1..]) == [];
    hide Run, InflateMachine.Valid, Flatten, Then;
    ChunkAndRest(p, s0, chunks, i, fields, a);
    ThenNothing(p, Ran(Run(p, Live(a), chunks[i]).m, fields + fs));
  }

  /** What the model calls inflating a block. */
  lemma DrivenIsBlock(p: Tables, s0: Inflating, block: Bytes, ok: bool, fields: seq<Field>, a: Inflating)
    requires Driven(p, s0, block, true, ok, fields, a)
    ensures InflateBlock(p, s0, block) == if ok then Some((a, fields)) else None
  {
    hide Run, InflateMachine.Valid;
  }
}
