/**
 * What the machine does with a whole integer or a whole stretch of string at once.
 * These are the bulk moves the original makes over the octets it is handed.
 */
module InflateRuns {
  import opened Common
  import opened DynamicTable
  import opened Hpack
  import opened InflateMachine
  import PrefixInt
  import Huffman = HuffmanCode

  /** A run that continues on t after one move. */
  function Then(p: Tables, one: Ran, t: Bytes): Ran
    requires ValidTables(p) && ValidMachine(one.m)
  {
    var rest := Run(p, one.m, t);
    Ran(rest.m, one.out + rest.out)
  }

  /** What reading an integer from s comes to. */
  function IntegerRun(p: Tables, s: Inflating, t: Bytes): Ran
    requires ValidTables(p) && Valid(s) && ReadsInteger(s.state)
  {
    match PrefixInt.Decode(s.left, s.shift, t, Prefix(s))
    case Overflow => Ran(Broken, [])
    case More(a, h) => if t != [] && a > Limit(s) then Ran(Broken, []) else Ran(Live(s.(left := a, shift := h)), [])
    case Done(v, h) =>
      if v > Limit(s) then Ran(Broken, [])
      else
        IntegerDoneKeeps(p, s, v, h);
        Then(p, IntegerDone(p, s.(left := v, shift := h)), t[PrefixInt.Consumed(s.left, s.shift, t, Prefix(s))..])
  }

  lemma IntegerDoneKeeps(p: Tables, s: Inflating, v: uint32, h: nat)
    requires ValidTables(p) && Valid(s) && ReadsInteger(s.state) && v <= Limit(s)
    ensures ValidMachine(IntegerDone(p, s.(left := v, shift := h)).m)
  {
    var t := s.(left := v, shift := h);
    if s.state == ReadNameLen {
      NameLengthDoneKeeps(p, t);
    } else if s.state == ReadValueLen {
      ValueLengthDoneKeeps(p, t);
    } else if s.state == ReadIndex {
      IndexDoneKeeps(p, t);
    } else {
      SizeDoneKeeps(p, t);
    }
  }

  /**
   * Reading an integer octet by octet, with the limit tested after every octet, is decoding it
   * in one go and testing the limit once.
   */
  lemma {:induction false} RunInteger(p: Tables, s: Inflating, t: Bytes)
    requires ValidTables(p) && Valid(s) && ReadsInteger(s.state)
    ensures Run(p, Live(s), t) == IntegerRun(p, s, t)
    decreases |t|
  {
    hide IntegerDone, PrefixInt.DecodeGroup;
    if t != [] {
      StepKeeps(p, s, t[0]);
      assert Step(p, s, t[0]) == IntegerOctet(p, s, t[0]);
      match PrefixInt.DecodeOctet(s.left, s.shift, t[0], Prefix(s))
      case Overflow =>
      case Done(v, h) =>
      case More(a, h) =>
        PrefixInt.ResumedIsNotFresh(s.left, s.shift, t[0], Prefix(s));
        var s' := s.(left := a, shift := h);
        assert Prefix(s') == Prefix(s) && Limit(s') == Limit(s);
        if a > Limit(s) {
          PrefixInt.DecodeGrows(a, h, t[1..], Prefix(s));
        } else {
          IntegerRunCons(p, s, t, a, h);
          RunInteger(p, s', t[1..]);
        }
    }
  }

  /** An integer not ended by its first octet is read on from what that octet left. */
  lemma IntegerRunCons(p: Tables, s: Inflating, t: Bytes, a: uint32, h: nat)
    requires ValidTables(p) && Valid(s) && ReadsInteger(s.state) && t != []
    requires PrefixInt.DecodeOctet(s.left, s.shift, t[0], Prefix(s)) == PrefixInt.More(a, h)
    requires 0 < a <= Limit(s)
    ensures Valid(s.(left := a, shift := h))
    ensures IntegerRun(p, s, t) == IntegerRun(p, s.(left := a, shift := h), t[1..])
  {
    hide IntegerDone, PrefixInt.DecodeOctet, Run;
    var s' := s.(left := a, shift := h);
    assert Prefix(s') == Prefix(s) && Limit(s') == Limit(s);
    match PrefixInt.Decode(a, h, t[1..], Prefix(s))
    case Overflow =>
    case More(a', h') =>
      assert s'.(left := a', shift := h') == s.(left := a', shift := h');
    case Done(v, g) =>
      var c := PrefixInt.Consumed(a, h, t[1..], Prefix(s));
      assert PrefixInt.Consumed(s.left, s.shift, t, Prefix(s)) == 1 + c;
      assert t[1..][c..] == t[1 + c..];
      assert s'.(left := v, shift := g) == s.(left := v, shift := g);
  }

  // ---------------------------------------------------------------- strings

  predicate ReadsString(st: State) {
    st == ReadNameHuff || st == ReadName || st == ReadValueHuff || st == ReadValue
  }

  /** Some octets of a string taken in at once: `hd_inflate_read` and `hd_inflate_read_huff`. */
  function Absorb(p: Tables, s: Inflating, t: Bytes): Option<Inflating>
    requires ValidTables(p) && |t| <= s.left
  {
    var s1 := s.(left := s.left - |t|);
    if ReadsHuffman(s.state) then
      var w := Huffman.Walk(p.code, s.walk, Huffman.Unpack(t));
      var s2 := s1.(walk := w.node);
      if w.node.Dead? || (s1.left == 0 && !Huffman.Accepting(w.node)) then None
      else if s.state == ReadNameHuff then Some(s2.(name := s.name + w.out))
      else Some(s2.(value := s.value + w.out))
    else if s.state == ReadName then Some(s1.(name := s.name + t))
    else Some(s1.(value := s.value + t))
  }

  /** What follows the last octet of a string. */
  function StringDone(p: Tables, s: Inflating): Ran
    requires ValidTables(p)
    requires s.opcode != OpNewName ==> s.index < STATIC_LENGTH + |s.table|
  {
    if ReadsNamePart(s.state) then Ran(Live(s.(state := CheckValueLen)), []) else Commit(p, s)
  }

  lemma AbsorbShape(p: Tables, s: Inflating, t: Bytes)
    requires ValidTables(p) && Valid(s) && ReadsString(s.state) && |t| <= s.left
    ensures match Absorb(p, s, t)
      case None => true
      case Some(u) =>
        && u == s.(left := s.left - |t|, walk := u.walk, name := u.name, value := u.value)
        && (ReadsHuffman(s.state) ==> u.walk.At? && (u.left == 0 ==> Huffman.Accepting(u.walk)))
  {
  }

  /** Between the octets of a string everything but the string itself is as in a valid state. */
  predicate InString(s: Inflating) {
    && ReadsString(s.state) && Size(s.table) <= s.max
    && (ReadsNamePart(s.state) ==> s.opcode == OpNewName)
    && (s.opcode != OpNewName ==> s.index < STATIC_LENGTH + |s.table|)
    && (ReadsHuffman(s.state) ==> s.walk.At? && (s.left == 0 ==> Huffman.Accepting(s.walk)))
  }

  lemma StringDoneKeeps(p: Tables, u: Inflating)
    requires ValidTables(p) && InString(u)
    ensures ValidMachine(StringDone(p, u).m)
  {
    if !ReadsNamePart(u.state) {
      CommitKeeps(p, u);
    }
  }

  lemma AbsorbKeeps(p: Tables, s: Inflating, t: Bytes)
    requires ValidTables(p) && Valid(s) && ReadsString(s.state) && |t| <= s.left
    ensures match Absorb(p, s, t)
      case None => true
      case Some(u) => InString(u) && (u.left > 0 ==> Valid(u)) && ValidMachine(StringDone(p, u).m)
  {
    AbsorbShape(p, s, t);
    match Absorb(p, s, t)
    case None =>
    case Some(u) =>
      assert InString(u);
      StringDoneKeeps(p, u);
  }

  function StringRun(p: Tables, s: Inflating, t: Bytes): Ran
    requires ValidTables(p) && Valid(s) && ReadsString(s.state) && s.left > 0
  {
    var k := Min(s.left, |t|);
    AbsorbKeeps(p, s, t[..k]);
    match Absorb(p, s, t[..k])
    case None => Ran(Broken, [])
    case Some(u) => if u.left == 0 then Then(p, StringDone(p, u), t[k..]) else Ran(Live(u), [])
  }

  /** Taking in an octet and then more is taking them in together. */
  lemma AbsorbCons(p: Tables, s: Inflating, t: Bytes)
    requires ValidTables(p) && 0 < |t| <= s.left
    ensures match StringOctet(p, s, t[0])
      case None => Absorb(p, s, t) == None
      case Some(u) => Absorb(p, s, t) == Absorb(p, u, t[1..])
  {
    hide Huffman.Walk, Huffman.ToBits, Huffman.Accepting;
    if ReadsHuffman(s.state) {
      var first := Huffman.ToBits(t[0], 8);
      var w := Huffman.Walk(p.code, s.walk, first);
      Huffman.WalkAppend(p.code, s.walk, first, Huffman.Unpack(t[1..]));
      if w.node.Dead? {
        Huffman.WalkDead(p.code, Huffman.Unpack(t[1..]));
      } else {
        Huffman.WalkNothing(p.code, w.node);
        var v := Huffman.Walk(p.code, w.node, Huffman.Unpack(t[1..]));
        assert s.name + (w.out + v.out) == s.name + w.out + v.out;
        assert s.value + (w.out + v.out) == s.value + w.out + v.out;
      }
    } else {
      assert [t[0]] + t[1..] == t;
      assert s.name + [t[0]] + t[1..] == s.name + t;
      assert s.value + [t[0]] + t[1..] == s.value + t;
    }
  }

  /** Reading a string octet by octet is taking in as much of it as there is at once. */
  lemma {:induction false} RunString(p: Tables, s: Inflating, t: Bytes)
    requires ValidTables(p) && Valid(s) && ReadsString(s.state) && s.left > 0 && t != []
    ensures Run(p, Live(s), t) == StringRun(p, s, t)
    decreases |t|
  {
    var k := Min(s.left, |t|);
    StepKeeps(p, s, t[0]);
    AbsorbCons(p, s, t[..k]);
    AbsorbKeeps(p, s, t[..k]);
    assert t[..k][0] == t[0];
    StringStep(p, s, t[0]);
    match StringOctet(p, s, t[0])
    case None =>
    case Some(u) =>
      assert t[..k][1..] == t[1..k];
      if u.left == 0 {
        assert t[1..k] == [];
        AbsorbNothing(p, u);
      } else {
        SilentStep(p, s, u, t);
        StringRunCons(p, s, u, t);
        if t[1..] != [] {
          RunString(p, u, t[1..]);
        }
      }
  }

  /** A step that emits nothing can be left out of a run. */
  lemma SilentStep(p: Tables, s: Inflating, u: Inflating, t: Bytes)
    requires ValidTables(p) && Valid(s) && Valid(u) && t != []
    requires Step(p, s, t[0]) == Ran(Live(u), [])
    ensures Run(p, Live(s), t) == Run(p, Live(u), t[1..])
  {
    hide Step, Valid;
  }

  lemma StringRunCons(p: Tables, s: Inflating, u: Inflating, t: Bytes)
    requires ValidTables(p) && Valid(s) && ReadsString(s.state) && s.left > 1 && t != []
    requires InString(u) && Valid(u) && u.left == s.left - 1
    requires Absorb(p, s, t[..Min(s.left, |t|)]) == Absorb(p, u, t[1..Min(s.left, |t|)])
    ensures StringRun(p, s, t) == if t[1..] == [] then Ran(Live(u), []) else StringRun(p, u, t[1..])
  {
    hide Absorb, StringDone, Run;
    var k := Min(s.left, |t|);
    if t[1..] == [] {
      assert t[1..k] == [];
      AbsorbNothing(p, u);
    } else {
      assert t[1..][..k - 1] == t[1..k];
      assert t[1..][k - 1..] == t[k..];
    }
  }

  /** Two states that take the same first step run alike. */
  lemma SameStep(p: Tables, s: Inflating, t: Inflating, wire: Bytes)
    requires ValidTables(p) && Valid(s) && Valid(t) && wire != []
    requires Step(p, s, wire[0]) == Step(p, t, wire[0])
    ensures Run(p, Live(s), wire) == Run(p, Live(t), wire)
  {
    hide Step, Valid;
  }

  /** One octet of a string as a step. */
  lemma StringStep(p: Tables, s: Inflating, b: byte)
    requires ValidTables(p) && Valid(s) && ReadsString(s.state) && s.left > 0
    ensures match StringOctet(p, s, b)
      case None => Step(p, s, b) == Ran(Broken, [])
      case Some(u) =>
        && InString(u) && u.state == s.state && u.left == s.left - 1 && (u.left > 0 ==> Valid(u))
        && Step(p, s, b) == if u.left == 0 then StringDone(p, u) else Ran(Live(u), [])
  {
    hide IntegerOctet, FirstOctetOf;
    StringOctetShape(p, s, b);
  }

  lemma AbsorbNothing(p: Tables, u: Inflating)
    requires ValidTables(p) && InString(u)
    ensures Absorb(p, u, []) == Some(u)
  {
    assert u.name + [] == u.name && u.value + [] == u.value;
  }

  /** A name of no octets is over before it starts: the next octet is the value's. */
  lemma EmptyNameIsSkipped(p: Tables, s: Inflating, t: Bytes)
    requires ValidTables(p) && Valid(s) && t != [] && s.left == 0
    requires s.state == ReadName || s.state == ReadNameHuff
    ensures Valid(s.(state := CheckValueLen))
    ensures Run(p, Live(s), t) == Run(p, Live(s.(state := CheckValueLen)), t)
  {
    StepKeeps(p, s, t[0]);
    assert Step(p, s, t[0]) == Step(p, s.(state := CheckValueLen), t[0]);
  }
}
