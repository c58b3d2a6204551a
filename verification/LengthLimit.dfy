/**
 * The one way an exchange can fail: the deflater sends strings of any length, the inflater
 * refuses those coded in more than `NGHTTP2_HD_MAX_NV` octets. An exchange goes through
 * exactly when no such string is sent.
 */
module LengthLimit {
  import opened Common
  import opened DynamicTable
  import opened Hpack
  import opened InflateMachine
  import opened InflateRuns
  import opened Lossless
  import PrefixInt
  import Huffman = HuffmanCode

  predicate EntryFits(p: Tables, e: Entry)
    requires ValidTables(p)
  {
    CodedLength(p, e.name) <= MAX_NV && CodedLength(p, e.value) <= MAX_NV
  }

  predicate EntriesFit(p: Tables, t: seq<Entry>)
    requires ValidTables(p)
  {
    forall i | 0 <= i < |t| :: EntryFits(p, t[i])
  }

  /** A string coded in too many octets is refused once its length is read. */
  lemma RunOverlong(p: Tables, s: Inflating, v: Bytes, rest: Bytes)
    requires ValidTables(p) && Valid(s) && (s.state == CheckNameLen || s.state == CheckValueLen)
    requires MAX_NV < CodedLength(p, v) && |v| <= UINT32_MAX
    ensures Run(p, Live(s), EncodeString(p, v) + rest).m == Broken
  {
    hide Run, IntegerDone, Coded, EncodeString, PrefixInt.Encode, Valid;
    EncodedString(p, v);
    var (octets, huffman) := Coded(p, v);
    var first := if huffman then 0x80 else 0;
    var wire := EncodeString(p, v) + rest;
    var s0 := s.(huffman := huffman, left := 0, shift := 0,
                 state := if s.state == CheckNameLen then ReadNameLen else ReadValueLen);
    FirstOfString(p, s, s0, wire);
    SameStep(p, s, s0, wire);
    Associative(PrefixInt.Encode(first, |octets|, 7), octets, rest);
    PrefixInt.RoundTrip(first, |octets|, 7, octets + rest);
    RunInteger(p, s0, wire);
  }

  /** A literal with such a string is refused, and with it the block. */
  lemma RunOverlongRepr(p: Tables, s: Inflating, r: Repr, rest: Bytes)
    requires ValidTables(p) && AtRepr(s) && ValidRepr(s.table, r) && !r.Indexed?
    requires r.IndexedName? ==> r.index + 1 <= UINT32_MAX
    requires |r.value| <= UINT32_MAX && (r.NewName? ==> |r.name| <= UINT32_MAX)
    requires !Sendable(p, r)
    ensures Run(p, Live(s), EncodeRepr(p, r) + rest).m == Broken
  {
    hide Run, EncodeString, CodedLength, PrefixInt.Encode, Valid;
    var value := EncodeString(p, r.value);
    match r {
      case IndexedName(_, _, _) =>
        var head := PrefixInt.Encode(FirstOctet(r.mode), r.index + 1, NamePrefix(r.mode));
        Associative(head, value, rest);
        var s1 := RunNameIndex(p, s, r, value + rest);
        RunOverlong(p, s1, r.value, rest);
      case NewName(_, _, _) =>
        var name := EncodeString(p, r.name);
        Associative([FirstOctet(r.mode)] + name, value, rest);
        Associative([FirstOctet(r.mode)], name, value + rest);
        var s1 := RunNewNameStart(p, s, r.mode, name + (value + rest));
        if CodedLength(p, r.name) > MAX_NV {
          RunOverlong(p, s1, r.name, value + rest);
        } else {
          EncodedString(p, r.value);
          var s2 := RunName(p, s1, r.name, value + rest);
          RunOverlong(p, s2, r.value, rest);
        }
    }
  }

  /** With tables of fields that fit, the representation picked is refused exactly when the field does not fit. */
  lemma ChoiceFitsIff(p: Tables, d: Deflating, nv: Field)
    requires ValidTables(p) && ValidDeflating(d) && d.max <= UINT32_MAX
    requires EntriesFit(p, p.fixed) && EntriesFit(p, d.table)
    ensures Sendable(p, Choose(p, d, nv)) <==> Fits(p, nv)
    ensures Choose(p, d, nv).Indexed? ==> Fits(p, nv)
    ensures Choose(p, d, nv).IndexedName? ==> Choose(p, d, nv).index + 1 <= UINT32_MAX
  {
    hide CodedLength, Search, Mode;
    LengthBound(d.table);
    ChoiceIsSound(p, d, nv);
    var r := Choose(p, d, nv);
    if !r.NewName? {
      assert EntryFits(p, Resolve(p, d.table, r.index));
    }
  }

  lemma AddedFits(p: Tables, d: Deflating, nv: Field)
    requires ValidTables(p) && EntriesFit(p, d.table) && Fits(p, nv)
    ensures EntriesFit(p, AfterField(p, d, nv).table)
  {
    hide CodedLength, Choose;
  }

  /** The fields of a block are all taken in, or there is one among them that does not fit and the block is refused. */
  lemma {:induction false} FieldsFitOrBreak(p: Tables, d: Deflating, s: Inflating, nvs: seq<Field>)
    requires ValidTables(p) && Agree(d, s) && AllAddressable(nvs)
    requires EntriesFit(p, p.fixed) && EntriesFit(p, d.table)
    ensures AllFit(p, nvs) ==> EntriesFit(p, DeflateFields(p, d, nvs).0.table)
    ensures !AllFit(p, nvs) ==> Run(p, Live(s), DeflateFields(p, d, nvs).1).m == Broken
    decreases |nvs|
  {
    if nvs != [] {
      hide Run, EncodeRepr, Choose, Fits, EntriesFit, Sendable;
      var r := Choose(p, d, nvs[0]);
      var d1 := AfterField(p, d, nvs[0]);
      ChoiceIsSound(p, d, nvs[0]);
      ChoiceFitsIff(p, d, nvs[0]);
      var rest := DeflateFields(p, d1, nvs[1..]).1;
      if Fits(p, nvs[0]) {
        AfterFieldKeeps(p, d, nvs[0]);
        AddedFits(p, d, nvs[0]);
        var s1 := RunRepr(p, s, r, rest);
        FieldsFitOrBreak(p, d1, s1, nvs[1..]);
        FitCons(p, nvs);
      } else {
        ChoiceStrings(p, d, nvs[0]);
        RunOverlongRepr(p, s, r, rest);
      }
    }
  }

  lemma FitCons(p: Tables, nvs: seq<Field>)
    requires ValidTables(p) && nvs != [] && Fits(p, nvs[0])
    ensures AllFit(p, nvs) <==> AllFit(p, nvs[1..])
  {
    hide Fits;
    assert nvs == [nvs[0]] + nvs[1..];
  }

  lemma ChoiceStrings(p: Tables, d: Deflating, nv: Field)
    requires ValidTables(p)
    ensures var r := Choose(p, d, nv);
      (!r.Indexed? ==> r.value == nv.value) && (r.NewName? ==> r.name == nv.name)
  {
  }

  /** A block is accepted exactly when its fields fit, and then nothing that does not fit gets into the tables. */
  lemma BlockAcceptedIff(p: Tables, d: Deflating, s: Inflating, nvs: seq<Field>)
    requires ValidTables(p) && InSync(d, s) && AllAddressable(nvs)
    requires EntriesFit(p, p.fixed) && EntriesFit(p, d.table)
    ensures InflateBlock(p, s, DeflateBlock(p, d, nvs).1).Some? <==> AllFit(p, nvs)
    ensures AllFit(p, nvs) ==> EntriesFit(p, DeflateBlock(p, d, nvs).0.table)
  {
    hide Run, Size, DeflateFields, EncodeUpdates, EntriesFit, AllFit, AllAddressable;
    var fields := DeflateFields(p, Announced(d), nvs);
    var s1 := RunUpdates(p, d, s, fields.1);
    FieldsFitOrBreak(p, Announced(d), s1, nvs);
    if AllFit(p, nvs) {
      BlockRoundTrip(p, d, s, nvs);
    }
  }

  /** Whatever the code, there are fields that do not fit. */
  lemma SomeFieldDoesNotFit(p: Tables) returns (nv: Field)
    requires ValidTables(p)
    ensures Addressable(nv) && !Fits(p, nv) && |nv.name| == |nv.value| == MAX_NV + 1
  {
    var s := Huffman.StubbornString(p.code, MAX_NV + 1);
    nv := Field(s, s, false);
  }

  predicate EventAddressable(e: Event) {
    e.Block? ==> AllAddressable(e.fields)
  }

  predicate AllEventsFit(p: Tables, events: seq<Event>)
    requires ValidTables(p)
  {
    forall i | 0 <= i < |events| :: EventFits(p, events[i])
  }

  /** An exchange from any synchronised state goes through exactly when every block sent fits. */
  lemma {:induction false} ExchangeSucceedsIff(p: Tables, ends: Ends, events: seq<Event>)
    requires ValidTables(p) && InSync(ends.d, ends.s)
    requires EntriesFit(p, p.fixed) && EntriesFit(p, ends.d.table)
    requires forall i | 0 <= i < |events| :: EventAddressable(events[i])
    ensures Exchange(p, ends, events).Some? <==> AllEventsFit(p, events)
    decreases |events|
  {
    SyncIsValid(ends.d, ends.s);
    if events != [] {
      OneEventIff(p, ends, events[0]);
      FirstEvent(p, ends, events);
      hide *;
      if EventFits(p, events[0]) {
        ExchangeSucceedsIff(p, OneEvent(p, ends, events[0]).value, events[1..]);
      }
    }
  }

  lemma FirstEvent(p: Tables, ends: Ends, events: seq<Event>)
    requires ValidTables(p) && Valid(ends.s) && events != []
    ensures AllEventsFit(p, events) <==> EventFits(p, events[0]) && AllEventsFit(p, events[1..])
    ensures match OneEvent(p, ends, events[0])
      case None => Exchange(p, ends, events) == None
      case Some(next) => Valid(next.s) && Exchange(p, ends, events) == Exchange(p, next, events[1..])
  {
    hide OneEvent, Valid, EventFits;
    OneEventKeeps(p, ends, events[0]);
    assert events == [events[0]] + events[1..];
  }

  lemma OneEventIff(p: Tables, ends: Ends, e: Event)
    requires ValidTables(p) && InSync(ends.d, ends.s) && Valid(ends.s)
    requires EntriesFit(p, p.fixed) && EntriesFit(p, ends.d.table) && EventAddressable(e)
    ensures OneEvent(p, ends, e).Some? <==> EventFits(p, e)
    ensures EventFits(p, e) ==> (var next := OneEvent(p, ends, e).value;
      InSync(next.d, next.s) && EntriesFit(p, next.d.table))
  {
    hide DeflateBlock, InflateBlock, InSync, Valid, ChangeInflateSize, AllFit, AllAddressable, Fits;
    match e {
      case Setting(size) =>
        ResizeKeepsSync(ends.d, ends.s, size);
        var evicted := ChangeDeflateSize(ends.d, size).table;
        assert evicted <= ends.d.table;
      case Block(fields) => BlockAcceptedIff(p, ends.d, ends.s, fields);
    }
    if EventFits(p, e) {
      var next := OneEventKeepsSync(p, ends, e);
    }
  }

  /** A connection goes through exactly when no string coded in more than the limit is sent on it. */
  lemma ConnectionSucceedsIff(p: Tables, cap: nat, events: seq<Event>)
    requires ValidTables(p) && EntriesFit(p, p.fixed)
    requires forall i | 0 <= i < |events| :: EventAddressable(events[i])
    ensures Exchange(p, Ends(InitialDeflating(cap), InitialInflating(), []), events).Some? <==> AllEventsFit(p, events)
  {
    hide AllEventsFit, Exchange, EventAddressable, CodedLength;
    InitiallyInSync(cap);
    ExchangeSucceedsIff(p, Ends(InitialDeflating(cap), InitialInflating(), []), events);
  }
}
