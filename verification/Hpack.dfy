/**
 * Header compression as a function: which representation the deflater picks for
 * a field, what that representation means to any reader of the format, and the
 * octets it is sent as (sections 2, 5.2 and 6 of RFC 7541).
 */
module Hpack {
  import opened Common
  import opened DynamicTable
  import PrefixInt
  import Huffman = HuffmanCode

  const STATIC_LENGTH := 61
  const EXTRA_TOKENS := 7

  /** The generated tables: the static entries, the names that only have a token, and the code words. */
  datatype Tables = Tables(fixed: seq<Entry>, extra: seq<Bytes>, code: Huffman.Code)

  predicate ValidTables(p: Tables) {
    |p.fixed| == STATIC_LENGTH && |p.extra| == EXTRA_TOKENS && Huffman.ValidCode(p.code)
  }

  /** A header field; `noIndex` is the NGHTTP2_NV_FLAG_NO_INDEX bit of its flags. */
  datatype Field = Field(name: Bytes, value: Bytes, noIndex: bool)

  /** Lengths the hub's `size_t` can express. */
  predicate Addressable(nv: Field) {
    |nv.name| <= UINT32_MAX && |nv.value| <= UINT32_MAX
  }

  predicate AllAddressable(nvs: seq<Field>) {
    forall i | 0 <= i < |nvs| :: Addressable(nvs[i])
  }

  // ---------------------------------------------------------------- tokens

  const PATH := 3
  const AGE := 20
  const AUTHORIZATION := 22
  const CONTENT_LENGTH := 27
  const COOKIE := 31
  const ETAG := 33
  const IF_MODIFIED_SINCE := 39
  const IF_NONE_MATCH := 40
  const LOCATION := 45
  const SET_COOKIE := 54
  const WWW_AUTHENTICATE := 60

  function NameOf(p: Tables, token: nat): Bytes
    requires ValidTables(p) && token < STATIC_LENGTH + EXTRA_TOKENS
  {
    if token < STATIC_LENGTH then p.fixed[token].name else p.extra[token - STATIC_LENGTH]
  }

  /** `lookup_token`: the first place of the name, or -1. */
  function Token(p: Tables, name: Bytes): (r: int)
    requires ValidTables(p)
    ensures -1 <= r < STATIC_LENGTH + EXTRA_TOKENS
    ensures r >= 0 ==> NameOf(p, r) == name
  {
    TokenFrom(p, name, 0)
  }

  function TokenFrom(p: Tables, name: Bytes, i: nat): (r: int)
    requires ValidTables(p) && i <= STATIC_LENGTH + EXTRA_TOKENS
    ensures -1 <= r < STATIC_LENGTH + EXTRA_TOKENS
    ensures r >= 0 ==> NameOf(p, r) == name
    decreases STATIC_LENGTH + EXTRA_TOKENS - i
  {
    if i == STATIC_LENGTH + EXTRA_TOKENS then -1
    else if NameOf(p, i) == name then i
    else TokenFrom(p, name, i + 1)
  }

  // ---------------------------------------------------------------- searching

  datatype Indexing = WithIndexing | WithoutIndexing | NeverIndexing

  /** `hd_deflate_decide_indexing` and the test before it in `deflate_nv`. */
  function Mode(nv: Field, token: int, max: nat): Indexing {
    if token == AUTHORIZATION || (token == COOKIE && |nv.value| < 20) || nv.noIndex then NeverIndexing
    else if
      || token == PATH || token == AGE || token == CONTENT_LENGTH || token == ETAG
      || token == IF_MODIFIED_SINCE || token == IF_NONE_MATCH || token == LOCATION || token == SET_COOKIE
      || Room(Entry(nv.name, nv.value)) > max * 3 % SIZE_MODULUS / 4
    then WithoutIndexing
    else WithIndexing
  }

  /** `search_result`: an index counted from 0 over static then dynamic entries, or -1. */
  datatype Found = Found(index: int, exact: bool)

  /** The newest entry from i on with this name, or -1. */
  function NewestName(t: seq<Entry>, name: Bytes, i: nat): (r: int)
    requires i <= |t|
    ensures r == -1 || (i <= r < |t| && t[r].name == name)
    decreases |t| - i
  {
    if i == |t| then -1 else if t[i].name == name then i else NewestName(t, name, i + 1)
  }

  /** The newest entry from i on equal to e, or -1. */
  function NewestEqual(t: seq<Entry>, e: Entry, i: nat): (r: int)
    requires i <= |t|
    ensures r == -1 || (i <= r < |t| && t[r] == e)
    decreases |t| - i
  {
    if i == |t| then -1 else if t[i] == e then i else NewestEqual(t, e, i + 1)
  }

  /** The answer of a search of the dynamic table, with its position there. */
  function SearchDynamic(t: seq<Entry>, e: Entry, nameOnly: bool): (r: Found)
    ensures -1 <= r.index < |t|
    ensures r.index >= 0 ==> t[r.index].name == e.name
    ensures r.exact ==> r.index >= 0 && t[r.index] == e && !nameOnly
  {
    var equal := NewestEqual(t, e, 0);
    if !nameOnly && equal >= 0 then Found(equal, true) else Found(NewestName(t, e.name, 0), false)
  }

  lemma {:induction false} NewestNameIsFirst(t: seq<Entry>, name: Bytes, i: nat)
    requires i <= |t|
    ensures var r := NewestName(t, name, i);
      forall k | i <= k < (if r == -1 then |t| else r) :: t[k].name != name
    decreases |t| - i
  {
    if i < |t| && t[i].name != name {
      NewestNameIsFirst(t, name, i + 1);
    }
  }

  lemma {:induction false} NewestEqualIsFirst(t: seq<Entry>, e: Entry, i: nat)
    requires i <= |t|
    ensures var r := NewestEqual(t, e, i);
      forall k | i <= k < (if r == -1 then |t| else r) :: t[k] != e
    decreases |t| - i
  {
    if i < |t| && t[i] != e {
      NewestEqualIsFirst(t, e, i + 1);
    }
  }

  /** A full search gives the newest exact match or else the newest match of the name; a search by name the latter. */
  lemma SearchIsNewest(t: seq<Entry>, e: Entry, nameOnly: bool)
    ensures var r := SearchDynamic(t, e, nameOnly);
      && (r.exact <==> !nameOnly && e in t)
      && (r.exact ==> t[r.index] == e && forall k | 0 <= k < r.index :: t[k] != e)
      && (r.index == -1 <==> forall k | 0 <= k < |t| :: t[k].name != e.name)
      && (!r.exact && r.index >= 0 ==> t[r.index].name == e.name && forall k | 0 <= k < r.index :: t[k].name != e.name)
  {
    hide NewestName, NewestEqual;
    NewestNameIsFirst(t, e.name, 0);
    NewestEqualIsFirst(t, e, 0);
  }

  /** `search_static_table` from entry i of the run of entries sharing the token. */
  function SearchStaticFrom(p: Tables, e: Entry, token: nat, i: nat): (r: Found)
    requires ValidTables(p) && token <= i <= STATIC_LENGTH && token < STATIC_LENGTH
    requires Token(p, e.name) == token
    ensures 0 <= r.index < STATIC_LENGTH && p.fixed[r.index].name == e.name
    ensures r.exact ==> p.fixed[r.index] == e
    decreases STATIC_LENGTH - i
  {
    if i > WWW_AUTHENTICATE || Token(p, p.fixed[i].name) != token then Found(token, false)
    else if p.fixed[i].value == e.value then Found(i, true)
    else SearchStaticFrom(p, e, token, i + 1)
  }

  function SearchStatic(p: Tables, e: Entry, token: nat, nameOnly: bool): (r: Found)
    requires ValidTables(p) && token < STATIC_LENGTH && Token(p, e.name) == token
    ensures 0 <= r.index < STATIC_LENGTH && p.fixed[r.index].name == e.name
    ensures r.exact ==> p.fixed[r.index] == e && !nameOnly
  {
    if nameOnly then Found(token, false) else SearchStaticFrom(p, e, token, token)
  }

  /** The entry behind an index counted from 0. */
  function Resolve(p: Tables, t: seq<Entry>, index: nat): Entry
    requires ValidTables(p) && index < STATIC_LENGTH + |t|
  {
    if index < STATIC_LENGTH then p.fixed[index] else t[index - STATIC_LENGTH]
  }

  /** `search_hd_table`. */
  function Search(p: Tables, t: seq<Entry>, e: Entry, nameOnly: bool): (r: Found)
    requires ValidTables(p)
    ensures -1 <= r.index < STATIC_LENGTH + |t|
    ensures r.index >= 0 ==> Resolve(p, t, r.index).name == e.name
    ensures r.exact ==> r.index >= 0 && Resolve(p, t, r.index) == e && !nameOnly
  {
    var token := Token(p, e.name);
    var found := SearchDynamic(t, e, nameOnly);
    if !found.exact && 0 <= token <= WWW_AUTHENTICATE then SearchStatic(p, e, token, nameOnly)
    else if found.index == -1 then found
    else Found(found.index + STATIC_LENGTH, found.exact)
  }

  /** The octets of a string: coded exactly if that makes it shorter, and its first bit says so. */
  lemma StringIs(p: Tables, s: Bytes)
    requires ValidTables(p)
    ensures var h, e := Huffman.Encode(p.code, s), EncodeString(p, s);
      && (e[0] >= 128 <==> |h| < |s|)
      && e == PrefixInt.Encode(e[0] / 128 * 128, CodedLength(p, s), 7) + if |h| < |s| then h else s
  {
    var h := Huffman.Encode(p.code, s);
    var first := if |h| < |s| then 0x80 else 0;
    assert PrefixInt.HighBits(PrefixInt.Encode(first, Min(|h|, |s|), 7)[0], 7) == first;
  }

  lemma {:induction false} TokenIsFirst(p: Tables, name: Bytes, i: nat)
    requires ValidTables(p) && i <= STATIC_LENGTH + EXTRA_TOKENS
    ensures var r := TokenFrom(p, name, i);
      forall k | i <= k < (if r == -1 then STATIC_LENGTH + EXTRA_TOKENS else r) :: NameOf(p, k) != name
    decreases STATIC_LENGTH + EXTRA_TOKENS - i
  {
    if i < STATIC_LENGTH + EXTRA_TOKENS && NameOf(p, i) != name {
      TokenIsFirst(p, name, i + 1);
    }
  }

  /** The static entries of a name stand together. */
  predicate Grouped(p: Tables)
    requires ValidTables(p)
  {
    forall i, j, k | 0 <= i < j < k < STATIC_LENGTH && p.fixed[i].name == p.fixed[k].name ::
      p.fixed[j].name == p.fixed[i].name
  }

  lemma {:induction false} StaticRun(p: Tables, e: Entry, token: nat, i: nat)
    requires ValidTables(p) && Grouped(p) && token <= i <= STATIC_LENGTH && token < STATIC_LENGTH
    requires Token(p, e.name) == token
    requires forall k | 0 <= k < i :: p.fixed[k] != e
    ensures SearchStaticFrom(p, e, token, i).exact <==> e in p.fixed
    decreases STATIC_LENGTH - i
  {
    hide TokenFrom;
    if i <= WWW_AUTHENTICATE && Token(p, p.fixed[i].name) == token {
      if p.fixed[i].value != e.value {
        StaticRun(p, e, token, i + 1);
      } else {
        assert p.fixed[i] == e;
      }
    } else if i <= WWW_AUTHENTICATE {
      assert p.fixed[i].name != e.name == p.fixed[token].name && token < i;
    }
  }

  /**
   * With the static entries of a name together, the search of both tables overlooks nothing: it is exact
   * if the entry is in either table, and finds no name only if neither has it.
   */
  lemma SearchOverlooksNothing(p: Tables, t: seq<Entry>, e: Entry, nameOnly: bool)
    requires ValidTables(p) && Grouped(p)
    ensures var r := Search(p, t, e, nameOnly);
      && (r.exact <==> !nameOnly && (e in t || e in p.fixed))
      && (r.index == -1 <==>
            && (forall k | 0 <= k < |t| :: t[k].name != e.name)
            && (forall k | 0 <= k < STATIC_LENGTH :: p.fixed[k].name != e.name))
  {
    hide SearchDynamic, TokenFrom, SearchStaticFrom, Grouped;
    SearchIsNewest(t, e, nameOnly);
    TokenIsFirst(p, e.name, 0);
    var token := Token(p, e.name);
    forall k | 0 <= k < (if 0 <= token < STATIC_LENGTH then token else STATIC_LENGTH)
      ensures p.fixed[k].name != e.name
    {
      assert NameOf(p, k) == p.fixed[k].name;
    }
    if 0 <= token < STATIC_LENGTH {
      assert NameOf(p, token) == p.fixed[token].name;
      StaticRun(p, e, token, token);
    }
  }

  /**
   * Which of several entries is taken: an equal one of the dynamic table, the newest; then an equal static one;
   * then the first static one of the name; then the newest dynamic one of the name.
   */
  lemma SearchPrefers(p: Tables, t: seq<Entry>, e: Entry, nameOnly: bool)
    requires ValidTables(p) && Grouped(p)
    ensures var r := Search(p, t, e, nameOnly);
      var hasName := exists k :: 0 <= k < STATIC_LENGTH && p.fixed[k].name == e.name;
      if !nameOnly && e in t then
        r.index >= 61 && t[r.index - 61] == e && forall k | 0 <= k < r.index - 61 :: t[k] != e
      else if !nameOnly && e in p.fixed then 0 <= r.index < 61 && p.fixed[r.index] == e
      else if hasName then
        && 0 <= r.index < 61 && p.fixed[r.index].name == e.name
        && forall k | 0 <= k < r.index :: p.fixed[k].name != e.name
      else
        r.index >= 61 ==> t[r.index - 61].name == e.name && forall k | 0 <= k < r.index - 61 :: t[k].name != e.name
  {
    hide SearchDynamic, TokenFrom, SearchStaticFrom, Grouped;
    SearchIsNewest(t, e, nameOnly);
    TokenIsFirst(p, e.name, 0);
    var token := Token(p, e.name);
    forall k | 0 <= k < (if 0 <= token < STATIC_LENGTH then token else STATIC_LENGTH)
      ensures p.fixed[k].name != e.name
    {
      assert NameOf(p, k) == p.fixed[k].name;
    }
    if 0 <= token < STATIC_LENGTH {
      assert NameOf(p, token) == p.fixed[token].name;
      StaticRun(p, e, token, token);
      NotExactIsToken(p, e, token, token);
    }
  }

  lemma {:induction false} NotExactIsToken(p: Tables, e: Entry, token: nat, i: nat)
    requires ValidTables(p) && token <= i <= STATIC_LENGTH && token < STATIC_LENGTH && Token(p, e.name) == token
    ensures var r := SearchStaticFrom(p, e, token, i); !r.exact ==> r.index == token
    decreases STATIC_LENGTH - i
  {
    hide TokenFrom;
    if i <= WWW_AUTHENTICATE {
      NotExactIsToken(p, e, token, i + 1);
    }
  }

  // ---------------------------------------------------------------- representations

  /** The instructions of a header block; indices count from 0. */
  datatype Repr =
    | Indexed(index: nat)
    | IndexedName(index: nat, value: Bytes, mode: Indexing)
    | NewName(name: Bytes, value: Bytes, mode: Indexing)

  /** A representation refers to entries that exist. */
  predicate ValidRepr(t: seq<Entry>, r: Repr) {
    r.NewName? || r.index < STATIC_LENGTH + |t|
  }

  /** The entry a representation spells out. */
  function Spelled(p: Tables, t: seq<Entry>, r: Repr): Entry
    requires ValidTables(p) && ValidRepr(t, r)
  {
    match r
    case Indexed(i) => Resolve(p, t, i)
    case IndexedName(i, value, _) => Entry(Resolve(p, t, i).name, value)
    case NewName(name, value, _) => Entry(name, value)
  }

  /** The field a reader gets; only literals sent never-indexed carry the flag on. */
  function Meaning(p: Tables, t: seq<Entry>, r: Repr): Field
    requires ValidTables(p) && ValidRepr(t, r)
  {
    var e := Spelled(p, t, r);
    Field(e.name, e.value, !r.Indexed? && r.mode == NeverIndexing)
  }

  /** The dynamic table after a reader has taken in the representation. */
  function TableAfter(p: Tables, t: seq<Entry>, max: nat, r: Repr): seq<Entry>
    requires ValidTables(p) && ValidRepr(t, r)
  {
    if !r.Indexed? && r.mode == WithIndexing then Add(t, Spelled(p, t, r), max) else t
  }

  /** `pack_first_byte`. */
  function FirstOctet(mode: Indexing): byte {
    match mode case WithIndexing => 0x40 case WithoutIndexing => 0 case NeverIndexing => 0x10
  }

  /** `emit_string`: Huffman coded exactly when that is shorter. */
  function EncodeString(p: Tables, s: Bytes): Bytes
    requires ValidTables(p)
  {
    var h := Huffman.Encode(p.code, s);
    if |h| < |s| then PrefixInt.Encode(0x80, |h|, 7) + h else PrefixInt.Encode(0, |s|, 7) + s
  }

  /** The number of octets a string takes on the wire after its length. */
  function CodedLength(p: Tables, s: Bytes): nat
    requires ValidTables(p)
  {
    Min(|Huffman.Encode(p.code, s)|, |s|)
  }

  function NamePrefix(mode: Indexing): nat {
    if mode == WithIndexing then 6 else 4
  }

  function EncodeRepr(p: Tables, r: Repr): Bytes
    requires ValidTables(p)
  {
    match r
    case Indexed(i) => PrefixInt.Encode(0x80, i + 1, 7)
    case IndexedName(i, value, mode) =>
      PrefixInt.Encode(FirstOctet(mode), i + 1, NamePrefix(mode)) + EncodeString(p, value)
    case NewName(name, value, mode) =>
      [FirstOctet(mode)] + EncodeString(p, name) + EncodeString(p, value)
  }

  /** `emit_table_size`. */
  function EncodeTableSize(n: nat): Bytes {
    PrefixInt.Encode(0x20, n, 5)
  }

  // ---------------------------------------------------------------- the deflater

  /**
   * The deflater between calls: the table and its size limit, the most it will ever use,
   * the least limit since the last block, and whether the peer has yet to be told.
   */
  datatype Deflating = Deflating(table: seq<Entry>, max: nat, cap: nat, leastMax: nat, notify: bool)

  const DEFAULT_MAX := 4096

  /** `nghttp2_hd_deflate_init2`. */
  function InitialDeflating(cap: nat): Deflating {
    if cap < DEFAULT_MAX then Deflating([], cap, cap, UINT32_MAX, true)
    else Deflating([], DEFAULT_MAX, cap, UINT32_MAX, false)
  }

  /** `nghttp2_hd_deflate_change_table_size`. */
  function ChangeDeflateSize(d: Deflating, size: nat): Deflating {
    var next := Min(size, d.cap);
    Deflating(Evict(d.table, next), next, d.cap, Min(d.leastMax, next), true)
  }

  /** The representation `deflate_nv` picks. */
  function Choose(p: Tables, d: Deflating, nv: Field): Repr
    requires ValidTables(p)
  {
    var mode := Mode(nv, Token(p, nv.name), d.max);
    var found := Search(p, d.table, Entry(nv.name, nv.value), mode == NeverIndexing);
    if found.exact then Indexed(found.index)
    else if found.index == -1 then NewName(nv.name, nv.value, mode)
    else IndexedName(found.index, nv.value, mode)
  }

  /** The deflater after `deflate_nv`. */
  function AfterField(p: Tables, d: Deflating, nv: Field): Deflating
    requires ValidTables(p)
  {
    var r := Choose(p, d, nv);
    if !r.Indexed? && r.mode == WithIndexing then d.(table := Add(d.table, Entry(nv.name, nv.value), d.max)) else d
  }

  /** Nothing is sent to be indexed that would only empty the table: the new entry is always stored, and in front. */
  lemma IndexedEntryStays(p: Tables, d: Deflating, nv: Field)
    requires ValidTables(p) && !Choose(p, d, nv).Indexed? && Choose(p, d, nv).mode == WithIndexing
    ensures var e := Entry(nv.name, nv.value);
      4 * Room(e) <= 3 * d.max && AfterField(p, d, nv).table == [e] + Evict(d.table, d.max - Room(e))
  {
    hide Search, Token, Evict;
  }

  // ---------------------------------------------------------------- what is indexed

  /** The octets of a text. */
  function Ascii(text: string): Bytes {
    seq(|text|, i requires 0 <= i < |text| => text[i] as int % 0x100)
  }

  /** What is relied on of the shipped names: each of the names tested for is the first of its token. */
  predicate Names(p: Tables)
    requires ValidTables(p)
  {
    && Token(p, Ascii(":path")) == PATH && Token(p, Ascii("age")) == AGE
    && Token(p, Ascii("authorization")) == AUTHORIZATION && Token(p, Ascii("content-length")) == CONTENT_LENGTH
    && Token(p, Ascii("cookie")) == COOKIE && Token(p, Ascii("etag")) == ETAG
    && Token(p, Ascii("if-modified-since")) == IF_MODIFIED_SINCE && Token(p, Ascii("if-none-match")) == IF_NONE_MATCH
    && Token(p, Ascii("location")) == LOCATION && Token(p, Ascii("set-cookie")) == SET_COOKIE
  }

  /** The fields that are secret: so marked, credentials, or cookies short enough to be guessed. */
  predicate Secret(nv: Field) {
    nv.noIndex || nv.name == Ascii("authorization") || (nv.name == Ascii("cookie") && |nv.value| < 20)
  }

  /** The names whose values are seldom sent twice. */
  predicate Volatile(name: Bytes) {
    || name == Ascii(":path") || name == Ascii("age") || name == Ascii("content-length") || name == Ascii("etag")
    || name == Ascii("if-modified-since") || name == Ascii("if-none-match")
    || name == Ascii("location") || name == Ascii("set-cookie")
  }

  /** Fields worth an entry: neither secret nor volatile, and no larger than three quarters of the table. */
  predicate WorthAnEntry(nv: Field, max: nat) {
    && !Secret(nv) && !Volatile(nv.name)
    && 4 * (32 + |nv.name| + |nv.value|) <= max * 3 % 0x1_0000_0000
  }

  /** Only a name's own token is its token. */
  lemma TokenTells(p: Tables, name: Bytes, other: Bytes)
    requires ValidTables(p) && Token(p, other) >= 0
    ensures Token(p, name) == Token(p, other) <==> name == other
  {
  }

  lemma TokensTell(p: Tables, name: Bytes)
    requires ValidTables(p) && Names(p)
    ensures Token(p, name) == AUTHORIZATION <==> name == Ascii("authorization")
    ensures Token(p, name) == COOKIE <==> name == Ascii("cookie")
    ensures Token(p, name) in {PATH, AGE, CONTENT_LENGTH, ETAG, IF_MODIFIED_SINCE, IF_NONE_MATCH, LOCATION, SET_COOKIE}
      <==> Volatile(name)
  {
    hide Token, Ascii;
    TokenTells(p, name, Ascii(":path"));
    TokenTells(p, name, Ascii("age"));
    TokenTells(p, name, Ascii("authorization"));
    TokenTells(p, name, Ascii("content-length"));
    TokenTells(p, name, Ascii("cookie"));
    TokenTells(p, name, Ascii("etag"));
    TokenTells(p, name, Ascii("if-modified-since"));
    TokenTells(p, name, Ascii("if-none-match"));
    TokenTells(p, name, Ascii("location"));
    TokenTells(p, name, Ascii("set-cookie"));
  }

  /**
   * Every field's representation: one index exactly if a table holds the field and it is not secret; a whole
   * literal exactly if no table holds the name, or otherwise a literal behind an index; and the literal's kind.
   */
  lemma ChoiceIs(p: Tables, d: Deflating, nv: Field)
    requires ValidTables(p) && Grouped(p) && Names(p)
    ensures var e := Entry(nv.name, nv.value);
      var r := Choose(p, d, nv);
      && (r.Indexed? <==> !Secret(nv) && (e in d.table || e in p.fixed))
      && (r.NewName? <==>
            && (forall k | 0 <= k < |d.table| :: d.table[k].name != e.name)
            && (forall k | 0 <= k < STATIC_LENGTH :: p.fixed[k].name != e.name))
      && (!r.Indexed? ==>
            && (r.mode == NeverIndexing <==> Secret(nv))
            && (r.mode == WithIndexing <==> WorthAnEntry(nv, d.max)))
  {
    hide Token, Ascii, Search, Grouped, Names;
    TokensTell(p, nv.name);
    hide Volatile;
    SearchOverlooksNothing(p, d.table, Entry(nv.name, nv.value), Secret(nv));
  }

  /** The receiver is to see secret fields marked, and only those. */
  lemma DeliveredIs(p: Tables, nv: Field)
    requires ValidTables(p) && Names(p)
    ensures Delivered(p, nv) == Field(nv.name, nv.value, Secret(nv))
  {
    hide Token, Ascii, Names;
    TokensTell(p, nv.name);
  }

  /** A field no table holds is stored, in front, exactly if it is worth an entry; otherwise the table stays. */
  lemma StoredIff(p: Tables, d: Deflating, nv: Field)
    requires ValidTables(p) && Grouped(p) && Names(p)
    requires Entry(nv.name, nv.value) !in d.table && Entry(nv.name, nv.value) !in p.fixed
    ensures var e, t := Entry(nv.name, nv.value), AfterField(p, d, nv).table;
      && (t != [] && t[0] == e <==> WorthAnEntry(nv, d.max))
      && (!WorthAnEntry(nv, d.max) ==> t == d.table)
  {
    var e := Entry(nv.name, nv.value);
    hide *;
    ChoiceIs(p, d, nv);
    AfterChoice(p, d, nv);
    AddIs(d.table, e, d.max, 0);
    WorthFits(nv, d.max);
  }

  lemma AfterChoice(p: Tables, d: Deflating, nv: Field)
    requires ValidTables(p)
    ensures var r := Choose(p, d, nv);
      AfterField(p, d, nv).table ==
        if !r.Indexed? && r.mode == WithIndexing then Add(d.table, Entry(nv.name, nv.value), d.max) else d.table
  {
    hide Choose;
  }

  lemma WorthFits(nv: Field, max: nat)
    ensures WorthAnEntry(nv, max) ==> Room(Entry(nv.name, nv.value)) <= max && !Secret(nv)
  {
    hide Secret, Volatile;
  }

  /** Sent again at once, such a field is the single octet of the newest entry's index, and nothing changes. */
  lemma SecondTimeIsOneOctet(p: Tables, d: Deflating, nv: Field)
    requires ValidTables(p) && Grouped(p) && Names(p)
    requires Entry(nv.name, nv.value) !in d.table && Entry(nv.name, nv.value) !in p.fixed
    ensures WorthAnEntry(nv, d.max) ==> var d' := AfterField(p, d, nv);
      && Choose(p, d', nv) == Indexed(STATIC_LENGTH) && AfterField(p, d', nv) == d'
      && DeflateFields(p, d, [nv, nv]) == (d', EncodeRepr(p, Choose(p, d, nv)) + [0xBE])
  {
    var d' := AfterField(p, d, nv);
    hide *;
    StoredIff(p, d, nv);
    WorthFits(nv, d.max);
    if WorthAnEntry(nv, d.max) {
      NewestIsFirst(p, d', nv);
      TwoFields(p, d, nv, nv);
    }
  }

  lemma TwoFields(p: Tables, d: Deflating, a: Field, b: Field)
    requires ValidTables(p)
    ensures var d1 := AfterField(p, d, a);
      DeflateFields(p, d, [a, b])
        == (AfterField(p, d1, b), EncodeRepr(p, Choose(p, d, a)) + EncodeRepr(p, Choose(p, d1, b)))
  {
    hide AfterField, Choose, EncodeRepr;
    var d1 := AfterField(p, d, a);
    assert [a, b][1..] == [b] && [b][1..] == [];
    var one := EncodeRepr(p, Choose(p, d1, b));
    assert one + [] == one;
    assert DeflateFields(p, AfterField(p, d1, b), []) == (AfterField(p, d1, b), []);
    assert DeflateFields(p, d1, [b]) == (AfterField(p, d1, b), one);
  }

  /** An entry in front of the table and not in the static one is found there. */
  lemma NewestIsFirst(p: Tables, d: Deflating, nv: Field)
    requires ValidTables(p) && Grouped(p) && Names(p) && d.table != [] && d.table[0] == Entry(nv.name, nv.value)
    requires !Secret(nv) && Entry(nv.name, nv.value) !in p.fixed
    ensures Choose(p, d, nv) == Indexed(STATIC_LENGTH) && AfterField(p, d, nv) == d
    ensures EncodeRepr(p, Choose(p, d, nv)) == [0xBE]
  {
    hide Token, Ascii, Grouped, Names;
    TokensTell(p, nv.name);
    hide Volatile;
    assert NewestEqual(d.table, d.table[0], 0) == 0;
  }

  // ---------------------------------------------------------------- soundness

  /** Whether a field goes out as one no intermediary may index. */
  predicate SentNeverIndexed(p: Tables, nv: Field)
    requires ValidTables(p)
  {
    var token := Token(p, nv.name);
    token == AUTHORIZATION || (token == COOKIE && |nv.value| < 20) || nv.noIndex
  }

  /** The field as the receiver is to see it. */
  function Delivered(p: Tables, nv: Field): Field
    requires ValidTables(p)
  {
    nv.(noIndex := SentNeverIndexed(p, nv))
  }

  /**
   * Every choice is sound: read against the table before the field, the chosen representation
   * means that field, and leaves the reader with the deflater's own new table.
   */
  lemma ChoiceIsSound(p: Tables, d: Deflating, nv: Field)
    requires ValidTables(p)
    ensures ValidRepr(d.table, Choose(p, d, nv))
    ensures Meaning(p, d.table, Choose(p, d, nv)) == Delivered(p, nv)
    ensures TableAfter(p, d.table, d.max, Choose(p, d, nv)) == AfterField(p, d, nv).table
  {
    var mode := Mode(nv, Token(p, nv.name), d.max);
    var e := Entry(nv.name, nv.value);
    var found := Search(p, d.table, e, mode == NeverIndexing);
    assert mode == NeverIndexing <==> SentNeverIndexed(p, nv);
    if found.index >= 0 {
      assert Resolve(p, d.table, found.index).name == nv.name;
    }
  }

  function DeflateFields(p: Tables, d: Deflating, nvs: seq<Field>): (r: (Deflating, Bytes))
    requires ValidTables(p)
    decreases |nvs|
  {
    if nvs == [] then (d, [])
    else
      var rest := DeflateFields(p, AfterField(p, d, nvs[0]), nvs[1..]);
      (rest.0, EncodeRepr(p, Choose(p, d, nvs[0])) + rest.1)
  }

  /** The size updates a block opens with: the least limit passed through, then the current one. */
  function SizeUpdates(d: Deflating): seq<nat> {
    if !d.notify then [] else if d.max > d.leastMax then [d.leastMax, d.max] else [d.max]
  }

  function EncodeUpdates(sizes: seq<nat>): Bytes {
    if sizes == [] then [] else EncodeTableSize(sizes[0]) + EncodeUpdates(sizes[1..])
  }

  function Announced(d: Deflating): Deflating {
    if d.notify then d.(notify := false, leastMax := UINT32_MAX) else d
  }

  /** `nghttp2_hd_deflate_hd_bufs` when the output has room. */
  function DeflateBlock(p: Tables, d: Deflating, nvs: seq<Field>): (Deflating, Bytes)
    requires ValidTables(p)
  {
    var r := DeflateFields(p, Announced(d), nvs);
    (r.0, EncodeUpdates(SizeUpdates(d)) + r.1)
  }

  /** What every deflater state reachable from the initial one keeps. */
  predicate ValidDeflating(d: Deflating) {
    Size(d.table) <= d.max <= d.cap
  }

  lemma {:induction false} DeflateFieldsKeeps(p: Tables, d: Deflating, nvs: seq<Field>)
    requires ValidTables(p) && ValidDeflating(d)
    ensures var d' := DeflateFields(p, d, nvs).0;
      && ValidDeflating(d')
      && d' == d.(table := d'.table)
    decreases |nvs|
  {
    if nvs != [] {
      AddFits(d.table, Entry(nvs[0].name, nvs[0].value), d.max);
      DeflateFieldsKeeps(p, AfterField(p, d, nvs[0]), nvs[1..]);
    }
  }
}
