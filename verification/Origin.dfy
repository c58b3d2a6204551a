/**
 * The payload of the ORIGIN frame (section 2.1 of RFC 8336): packed into a chunk, and
 * unpacked in two passes, one that checks and counts and one that copies.
 */
module Origin {
  import opened Common
  import opened BufChain
  import Frames

  const MAX_ORIGIN := 0xFFFF

  /** `nghttp2_put_uint16be`. */
  function PutUint16(n: nat): (r: Bytes)
    requires n <= MAX_ORIGIN
    ensures |r| == 2
  {
    [n / 0x100, n % 0x100]
  }

  /** `nghttp2_get_uint16` at place i. */
  function GetUint16(s: Bytes, i: nat): (n: nat)
    requires i + 2 <= |s|
    ensures n <= MAX_ORIGIN
  {
    var high: int := s[i];
    high * 0x100 + s[i + 1]
  }

  /** One entry; the length field is the low 16 bits of the length. */
  function Encode(o: Bytes): Bytes {
    PutUint16(|o| % 0x1_0000) + o
  }

  function EncodeAll(os: seq<Bytes>): Bytes {
    if os == [] then [] else Encode(os[0]) + EncodeAll(os[1..])
  }

  function NonEmpty(os: seq<Bytes>): seq<Bytes> {
    if os == [] then [] else (if os[0] == [] then [] else [os[0]]) + NonEmpty(os[1..])
  }

  /** The origins of the payload from place i on, empty ones left out; `None` when an entry is cut short. */
  function Decode(s: Bytes, i: nat): Option<seq<Bytes>>
    requires i <= |s|
    decreases |s| - i
  {
    if i == |s| then Some([])
    else if |s| - i < 2 || GetUint16(s, i) > |s| - i - 2 then None
    else
      var n := GetUint16(s, i);
      match Decode(s, i + 2 + n)
      case None => None
      case Some(os) => Some((if n == 0 then [] else [s[i + 2..i + 2 + n]]) + os)
  }

  /** Entries short enough for their length fields, one after the other and nothing else. */
  ghost predicate WellFormed(s: Bytes, i: nat)
    requires i <= |s|
  {
    exists os: seq<Bytes> :: AllShort(os) && s[i..] == EncodeAll(os)
  }

  predicate AllShort(os: seq<Bytes>) {
    forall k | 0 <= k < |os| :: |os[k]| <= MAX_ORIGIN
  }

  lemma GetPut(n: nat, rest: Bytes)
    requires n <= MAX_ORIGIN
    ensures GetUint16(PutUint16(n) + rest, 0) == n
  {
  }

  lemma GetShift(s: Bytes, i: nat)
    requires i + 2 <= |s|
    ensures GetUint16(s, i) == GetUint16(s[i..], 0)
    ensures s[i..i + 2] == PutUint16(GetUint16(s, i))
  {
  }

  /** Section 2.1 of RFC 8336: sixteen bits of length, the high octet first, then the origin. */
  lemma EntryLayout(o: Bytes)
    requires |o| <= 65535
    ensures var s: seq<int> := Encode(o); s[0] * 256 + s[1] == |o| && Encode(o)[2..] == o
  {
    assert |o| % 0x1_0000 == |o|;
  }

  /** Decoding undoes encoding, but for the empty origins. */
  lemma {:induction false} DecodeEncoded(s: Bytes, i: nat, os: seq<Bytes>)
    requires i <= |s| && AllShort(os) && s[i..] == EncodeAll(os)
    ensures Decode(s, i) == Some(NonEmpty(os))
    decreases |os|
  {
    if os == [] {
      assert |s[i..]| == 0;
    } else {
      hide PutUint16, GetUint16;
      var o, rest := os[0], EncodeAll(os[1..]);
      assert s[i..] == PutUint16(|o|) + (o + rest) by { Associative(PutUint16(|o|), o, rest); }
      GetPut(|o|, o + rest);
      GetShift(s, i);
      Pieces(s, i, PutUint16(|o|), o, rest);
      DecodeEncoded(s, i + 2 + |o|, os[1..]);
    }
  }

  lemma Pieces(s: Bytes, i: nat, a: Bytes, o: Bytes, rest: Bytes)
    requires i <= |s| && |a| == 2 && s[i..] == a + (o + rest)
    ensures i + 2 + |o| <= |s| && s[i + 2..i + 2 + |o|] == o && s[i + 2 + |o|..] == rest
  {
    assert s[i + 2 + |o|..] == s[i..][2 + |o|..];
    assert s[i + 2..i + 2 + |o|] == s[i..][2..2 + |o|];
  }

  lemma ShortMore(o: Bytes, os: seq<Bytes>)
    ensures AllShort([o] + os) <==> |o| <= MAX_ORIGIN && AllShort(os)
  {
    if AllShort([o] + os) {
      assert ([o] + os)[0] == o && forall k | 0 <= k < |os| :: os[k] == ([o] + os)[k + 1];
    }
  }

  lemma Cut(s: Bytes, i: nat, n: nat)
    requires i + 2 + n <= |s|
    ensures s[i..] == s[i..i + 2] + s[i + 2..i + 2 + n] + s[i + 2 + n..]
  {
  }

  /** What can be decoded is well formed. */
  lemma {:induction false} DecodedIsWellFormed(s: Bytes, i: nat) returns (os: seq<Bytes>)
    requires i <= |s| && Decode(s, i).Some?
    ensures AllShort(os) && s[i..] == EncodeAll(os)
    decreases |s| - i
  {
    if i == |s| {
      os := [];
    } else {
      var n := GetUint16(s, i);
      var rest := DecodedIsWellFormed(s, i + 2 + n);
      hide GetUint16, PutUint16, AllShort, EncodeAll;
      os := [s[i + 2..i + 2 + n]] + rest;
      ShortMore(s[i + 2..i + 2 + n], rest);
      Rebuild(s, i, n, rest);
    }
  }

  lemma Rebuild(s: Bytes, i: nat, n: nat, rest: seq<Bytes>)
    requires i + 2 + n <= |s| && n == GetUint16(s, i) && s[i + 2 + n..] == EncodeAll(rest)
    ensures s[i..] == EncodeAll([s[i + 2..i + 2 + n]] + rest)
  {
    hide GetUint16, PutUint16;
    var o := s[i + 2..i + 2 + n];
    GetShift(s, i);
    Cut(s, i, n);
    assert ([o] + rest)[0] == o && ([o] + rest)[1..] == rest;
  }

  /** A payload is accepted exactly when it is well formed. */
  lemma AcceptedIsWellFormed(s: Bytes)
    ensures Decode(s, 0).Some? <==> WellFormed(s, 0)
  {
    if Decode(s, 0).Some? {
      var os := DecodedIsWellFormed(s, 0);
    }
    if WellFormed(s, 0) {
      var os :| AllShort(os) && s[0..] == EncodeAll(os);
      DecodeEncoded(s, 0, os);
    }
  }

  lemma {:induction false} DecodedAreShort(s: Bytes, i: nat)
    requires i <= |s|
    ensures Decode(s, i).Some? ==> AllShort(Decode(s, i).value)
    decreases |s| - i
  {
    if i < |s| && |s| - i >= 2 && GetUint16(s, i) <= |s| - i - 2 {
      DecodedAreShort(s, i + 2 + GetUint16(s, i));
    }
  }

  lemma {:induction false} NonEmptyKeepsLong(os: seq<Bytes>)
    ensures AllShort(NonEmpty(os)) <==> AllShort(os)
  {
    if os != [] {
      NonEmptyKeepsLong(os[1..]);
      hide AllShort;
      ShortMore(os[0], os[1..]);
      assert os == [os[0]] + os[1..];
      if os[0] == [] {
        assert [] + NonEmpty(os[1..]) == NonEmpty(os[1..]);
      } else {
        ShortMore(os[0], NonEmpty(os[1..]));
      }
    }
  }

  /** A list comes back, without its empty origins, exactly when every origin fits its length field. */
  lemma RoundTrip(os: seq<Bytes>)
    ensures Decode(EncodeAll(os), 0) == Some(NonEmpty(os)) <==> AllShort(os)
  {
    var s := EncodeAll(os);
    assert s[0..] == s;
    if AllShort(os) {
      DecodeEncoded(s, 0, os);
    } else {
      DecodedAreShort(s, 0);
      NonEmptyKeepsLong(os);
    }
  }

  // ---------------------------------------------------------------- unpacking

  /** The origins as they are stored, each with a terminator. */
  function Layout(os: seq<Bytes>): Bytes {
    if os == [] then [] else os[0] + [0] + Layout(os[1..])
  }

  lemma {:induction false} LayoutMore(os: seq<Bytes>, o: Bytes)
    ensures Layout(os + [o]) == Layout(os) + o + [0]
  {
    if os == [] {
      assert os + [o] == [o] && [o][1..] == [];
    } else {
      assert (os + [o])[1..] == os[1..] + [o];
      LayoutMore(os[1..], o);
      Associative(os[0] + [0], Layout(os[1..]), o);
      Associative(os[0] + [0], Layout(os[1..]) + o, [0]);
    }
  }

  /** `nghttp2_origin_entry`: where an origin is stored and how long it is. */
  datatype OriginEntry = OriginEntry(start: nat, len: nat)

  /** With the origins `done` read before place i, the rest is still to come. */
  ghost predicate Reading(s: Bytes, i: nat, done: seq<Bytes>) {
    && i <= |s|
    && Decode(s, 0) == match Decode(s, i) case None => None case Some(os) => Some(done + os)
  }

  lemma ReadingStart(s: Bytes)
    ensures Reading(s, 0, [])
  {
    match Decode(s, 0)
    case None =>
    case Some(os) => assert [] + os == os;
  }

  lemma ReadingMore(s: Bytes, i: nat, done: seq<Bytes>)
    requires Reading(s, i, done) && i < |s| && |s| - i >= 2 && GetUint16(s, i) <= |s| - i - 2
    ensures var n := GetUint16(s, i);
      Reading(s, i + 2 + n, if n == 0 then done else done + [s[i + 2..i + 2 + n]])
  {
    hide GetUint16;
    var n := GetUint16(s, i);
    match Decode(s, i + 2 + n)
    case None =>
    case Some(os) =>
      if n == 0 {
        assert [] + os == os;
      } else {
        Associative(done, [s[i + 2..i + 2 + n]], os);
      }
  }

  /** The first pass of `nghttp2_frame_unpack_origin_payload`: how many origins, and how much room they take. */
  method Count(s: Bytes) returns (rv: Status, nov: nat, len: nat)
    ensures rv == if Decode(s, 0).Some? then OK else FrameSizeError
    ensures rv == OK ==> nov == |Decode(s, 0).value| && len == |Layout(Decode(s, 0).value)|
  {
    hide GetUint16;
    var p: nat := 0;
    nov, len := 0, 0;
    ghost var done: seq<Bytes> := [];
    ReadingStart(s);
    while p != |s|
      invariant Reading(s, p, done) && nov == |done| && len == |Layout(done)|
      decreases |s| - p
    {
      if |s| - p < 2 {
        return FrameSizeError, nov, len;
      }
      var originlen := GetUint16(s, p);
      if originlen <= |s| - p - 2 {
        ReadingMore(s, p, done);
      }
      p := p + 2;
      if originlen == 0 {
        continue;
      }
      if originlen > |s| - p {
        return FrameSizeError, nov, len;
      }
      LayoutMore(done, s[p..p + originlen]);
      done := done + [s[p..p + originlen]];
      p := p + originlen;
      len := len + originlen + 1;
      nov := nov + 1;
    }
    assert done + [] == done;
    rv := OK;
  }

  lemma {:induction false} LayoutAppend(a: seq<Bytes>, b: seq<Bytes>)
    ensures Layout(a + b) == Layout(a) + Layout(b)
  {
    if a == [] {
      assert a + b == b;
    } else {
      assert (a + b)[1..] == a[1..] + b;
      LayoutAppend(a[1..], b);
      Associative(a[0] + [0], Layout(a[1..]), Layout(b));
    }
  }

  lemma LayoutOne(o: Bytes)
    ensures Layout([o]) == o + [0]
  {
    assert [o][1..] == [];
  }

  /** Where origin k lies among those stored, and that a terminator follows it. */
  lemma LayoutAt(os: seq<Bytes>, k: nat)
    requires k < |os|
    ensures var start := |Layout(os[..k])|;
      && start + |os[k]| < |Layout(os)|
      && Layout(os)[start..start + |os[k]|] == os[k] && Layout(os)[start + |os[k]|] == 0
  {
    hide Layout;
    assert os == os[..k] + ([os[k]] + os[k + 1..]);
    LayoutAppend(os[..k], [os[k]] + os[k + 1..]);
    LayoutAppend([os[k]], os[k + 1..]);
    LayoutOne(os[k]);
  }

  /** One origin and its terminator into the block. */
  method Store(data: array<byte>, dst: nat, s: Bytes, p: nat, n: nat)
    requires p + n <= |s| && dst + n + 1 <= data.Length
    modifies data
    ensures data[..dst + n + 1] == old(data[..dst]) + s[p..p + n] + [0]
  {
    forall k | 0 <= k < n {
      data[dst + k] := s[p + k];
    }
    data[dst + n] := 0;
  }

  /** The entries written so far. */
  ghost predicate Listed(ov: seq<OriginEntry>, k: nat, os: seq<Bytes>)
    requires k <= |os| && k <= |ov|
  {
    forall j | 0 <= j < k :: ov[j] == OriginEntry(|Layout(os[..j])|, |os[j]|)
  }

  /** The second pass: the origins copied one after the other, into exactly the room that was counted. */
  method Copy(s: Bytes, ov: array<OriginEntry>, data: array<byte>, ghost os: seq<Bytes>)
    requires Decode(s, 0) == Some(os) && ov.Length == |os| && data.Length == |Layout(os)|
    modifies ov, data
    ensures data[..] == Layout(os) && Listed(ov[..], |os|, os)
  {
    hide GetUint16, Layout, Decode;
    var p: nat, k: nat, dst: nat := 0, 0, 0;
    CopyStart(s);
    while p != |s|
      invariant k <= |os| && Reading(s, p, os[..k]) && dst == |Layout(os[..k])| <= data.Length
      invariant data[..dst] == Layout(os[..k]) && Listed(ov[..], k, os)
      decreases |s| - p
    {
      NextOrigin(s, p, os, k);
      var originlen := GetUint16(s, p);
      p := p + 2;
      if originlen == 0 {
        continue;
      }
      ov[k] := OriginEntry(dst, originlen);
      Store(data, dst, s, p, originlen);
      dst := dst + originlen + 1;
      p := p + originlen;
      k := k + 1;
    }
    AllRead(s, os, k);
  }

  lemma CopyStart(s: Bytes)
    ensures Reading(s, 0, []) && Layout([]) == []
  {
    ReadingStart(s);
  }

  /** The payload having been accepted, the next entry is whole and, unless empty, the next of the list. */
  lemma NextOrigin(s: Bytes, p: nat, os: seq<Bytes>, k: nat)
    requires Decode(s, 0) == Some(os) && k <= |os| && Reading(s, p, os[..k]) && p < |s|
    ensures |s| - p >= 2 && GetUint16(s, p) <= |s| - p - 2
    ensures var n := GetUint16(s, p);
      && (n == 0 ==> Reading(s, p + 2, os[..k]))
      && (n > 0 ==> k < |os| && os[k] == s[p + 2..p + 2 + n] && Reading(s, p + 2 + n, os[..k + 1])
                    && Layout(os[..k + 1]) == Layout(os[..k]) + os[k] + [0]
                    && |Layout(os[..k + 1])| <= |Layout(os)|)
  {
    hide GetUint16, Layout;
    ReadingMore(s, p, os[..k]);
    var n := GetUint16(s, p);
    if n > 0 {
      var o := s[p + 2..p + 2 + n];
      var rest := Decode(s, p + 2 + n).value;
      assert os == os[..k] + ([o] + rest);
      assert os[k] == o && os[..k + 1] == os[..k] + [o] && os == os[..k + 1] + os[k + 1..];
      LayoutMore(os[..k], o);
      LayoutAppend(os[..k + 1], os[k + 1..]);
    }
  }

  lemma AllRead(s: Bytes, os: seq<Bytes>, k: nat)
    requires Decode(s, 0) == Some(os) && k <= |os| && Reading(s, |s|, os[..k])
    ensures k == |os| && os[..k] == os
  {
    assert Decode(s, |s|) == Some([]);
    assert os[..k] + [] == os[..k];
  }

  /** `nghttp2_frame_unpack_origin_payload`. */
  method Unpack(s: Bytes) returns (rv: Status, ov: array<OriginEntry>, data: array<byte>)
    ensures rv == if Decode(s, 0).Some? then OK else FrameSizeError
    ensures rv == OK ==>
      var os := Decode(s, 0).value;
      && ov.Length == |os| && data.Length == |Layout(os)| && data[..] == Layout(os) && Listed(ov[..], |os|, os)
    ensures fresh(ov) && fresh(data)
  {
    hide Decode, Layout, Listed;
    var nov, len: nat;
    rv, nov, len := Count(s);
    if rv != OK {
      nov, len := 0, 0;
    }
    ov := new OriginEntry[nov](_ => OriginEntry(0, 0));
    data := new byte[len](_ => 0);
    if rv == OK {
      Copy(s, ov, data, Decode(s, 0).value);
    }
  }

  // ---------------------------------------------------------------- packing

  lemma {:induction false} EncodeAllMore(os: seq<Bytes>, o: Bytes)
    ensures EncodeAll(os + [o]) == EncodeAll(os) + Encode(o)
  {
    hide Encode;
    if os == [] {
      assert os + [o] == [o] && [o][1..] == [];
    } else {
      assert (os + [o])[1..] == os[1..] + [o];
      EncodeAllMore(os[1..], o);
      Associative(Encode(os[0]), EncodeAll(os[1..]), Encode(o));
    }
  }

  lemma {:induction false} EncodeAllAppend(a: seq<Bytes>, b: seq<Bytes>)
    ensures EncodeAll(a + b) == EncodeAll(a) + EncodeAll(b)
  {
    hide Encode;
    if a == [] {
      assert a + b == b;
    } else {
      assert (a + b)[1..] == a[1..] + b;
      EncodeAllAppend(a[1..], b);
      Associative(Encode(a[0]), EncodeAll(a[1..]), EncodeAll(b));
    }
  }

  /** One entry more fits wherever the whole list does. */
  lemma EntryFits(os: seq<Bytes>, i: nat)
    requires i < |os|
    ensures EncodeAll(os[..i + 1]) == EncodeAll(os[..i]) + PutUint16(|os[i]| % 0x1_0000) + os[i]
    ensures |EncodeAll(os[..i + 1])| == |EncodeAll(os[..i])| + 2 + |os[i]| <= |EncodeAll(os)|
  {
    hide EncodeAll, PutUint16;
    assert os[..i + 1] == os[..i] + [os[i]] && os == os[..i + 1] + os[i + 1..];
    EncodeAllMore(os[..i], os[i]);
    EncodeAllAppend(os[..i + 1], os[i + 1..]);
    Associative(EncodeAll(os[..i]), PutUint16(|os[i]| % 0x1_0000), os[i]);
  }

  /** The frame header goes in front of the still empty first chunk. */
  method PutHeader(bufs: Bufs, hd: Frames.FrameHd)
    requires Frames.Fresh(bufs)
    modifies bufs.Repr
    ensures bufs.Valid() && bufs.Repr == old(bufs.Repr) && bufs.Contents() == Frames.PackHd(hd)
    ensures bufs.CurAvail() == bufs.chunkLength - bufs.offset
  {
    bufs.ChunkFacts(0);
    Frames.FreshFacts(bufs);
    Frames.FrontText(bufs.parts,
                     Part(bufs.offset - Frames.FRAME_HDLEN, Frames.PackHd(hd) + [], bufs.chunkLength - bufs.offset),
                     Frames.PackHd(hd));
    hide Bufs.Valid, Text, Frames.PackHd;
    bufs.PutFront(bufs.head, 0, Frames.PackHd(hd));
    bufs.AvailIsFree();
  }

  /** One entry behind what the chunk holds. */
  method PackOne(bufs: Bufs, o: Bytes)
    requires bufs.Valid() && bufs.CurAvail() >= 2 + |o|
    modifies bufs.Repr
    ensures bufs.Valid() && bufs.Repr == old(bufs.Repr)
    ensures bufs.Contents() == old(bufs.Contents()) + PutUint16(|o| % 0x1_0000) + o
    ensures bufs.CurAvail() == old(bufs.CurAvail()) - 2 - |o|
  {
    bufs.CurOwned();
    hide Bufs.Valid, Bufs.Contents, PutUint16;
    var length := PutUint16(|o| % 0x1_0000);
    assert length[0..2] == length && o[0..|o|] == o;
    bufs.Append(length, 0, 2);
    bufs.CurOwned();
    bufs.Append(o, 0, |o|);
  }

  /** The loop of `nghttp2_frame_pack_origin`. */
  method PackAll(bufs: Bufs, os: seq<Bytes>)
    requires bufs.Valid() && bufs.CurAvail() >= |EncodeAll(os)|
    modifies bufs.Repr
    ensures bufs.Valid() && bufs.Repr == old(bufs.Repr)
    ensures bufs.Contents() == old(bufs.Contents()) + EncodeAll(os)
  {
    ghost var before, avail := bufs.Contents(), bufs.CurAvail();
    assert os[..0] == [] && EncodeAll([]) == [] && before + [] == before && os[..|os|] == os;
    hide Bufs.Valid, Bufs.Contents, PutUint16, EncodeAll;
    for i := 0 to |os|
      invariant bufs.Valid() && bufs.Repr == old(bufs.Repr)
      invariant bufs.Contents() == before + EncodeAll(os[..i]) && bufs.CurAvail() == avail - |EncodeAll(os[..i])|
    {
      EntryFits(os, i);
      PackOne(bufs, os[i]);
      Associative(before, EncodeAll(os[..i]), PutUint16(|os[i]| % 0x1_0000));
      Associative(before, EncodeAll(os[..i]) + PutUint16(|os[i]| % 0x1_0000), os[i]);
    }
  }

  /** `nghttp2_frame_pack_origin`: nothing is written unless the whole payload fits the first chunk. */
  method Pack(bufs: Bufs, hd: Frames.FrameHd, os: seq<Bytes>) returns (rv: Status)
    requires Frames.Fresh(bufs) && hd.length == |EncodeAll(os)|
    modifies bufs.Repr
    ensures bufs.Valid() && rv == if hd.length <= bufs.chunkLength - bufs.offset then OK else FrameSizeError
    ensures bufs.Contents() == if rv == OK then Frames.PackHd(hd) + EncodeAll(os) else []
  {
    Frames.FreshFacts(bufs);
    bufs.AvailIsFree();
    hide Bufs.Valid, Bufs.Contents, EncodeAll, Frames.PackHd, Frames.Fresh;
    if bufs.CurAvail() < hd.length {
      return FrameSizeError;
    }
    PutHeader(bufs, hd);
    PackAll(bufs, os);
    rv := OK;
  }
}
