/**
 * The Huffman code of section 5.2 of RFC 7541 over any prefix-free code with the
 * shape the original's generated table has, and the decoding walk over its tree.
 */
module HuffmanCode {
  import opened Common

  type Bits = seq<bool>

  /** The low k bits of n, most significant first. */
  function ToBits(n: nat, k: nat): (r: Bits)
    ensures |r| == k
  {
    if k == 0 then [] else ToBits(n / 2, k - 1) + [n % 2 == 1]
  }

  function FromBits(b: Bits): (n: nat)
    ensures n < Pow2(|b|)
  {
    if b == [] then 0
    else 2 * FromBits(b[..|b| - 1]) + (if b[|b| - 1] then 1 else 0)
  }

  lemma {:induction false} FromToBits(n: nat, k: nat)
    requires n < Pow2(k)
    ensures FromBits(ToBits(n, k)) == n
  {
    if k > 0 {
      FromToBits(n / 2, k - 1);
      assert ToBits(n, k)[..k - 1] == ToBits(n / 2, k - 1);
    }
  }

  lemma {:induction false} ToFromBits(b: Bits)
    ensures ToBits(FromBits(b), |b|) == b
  {
    if b != [] {
      var h := b[..|b| - 1];
      ToFromBits(h);
      assert FromBits(b) / 2 == FromBits(h);
      assert b == h + [b[|b| - 1]];
    }
  }

  /** The octet whose bits are b. */
  function ToOctet(b: Bits): byte
    requires |b| == 8
  {
    assert Pow2(8) == 0x100;
    FromBits(b)
  }

  /** The bits of a string of octets. */
  function Unpack(s: Bytes): (r: Bits)
    ensures |r| == 8 * |s|
  {
    if s == [] then [] else ToBits(s[0], 8) + Unpack(s[1..])
  }

  /** The octets whose bits are b. */
  function Pack(b: Bits): (r: Bytes)
    requires |b| % 8 == 0
    ensures |r| == |b| / 8
  {
    if b == [] then [] else [ToOctet(b[..8])] + Pack(b[8..])
  }

  lemma {:induction false} UnpackPack(b: Bits)
    requires |b| % 8 == 0
    ensures Unpack(Pack(b)) == b
  {
    if b != [] {
      UnpackPack(b[8..]);
      ToFromBits(b[..8]);
      assert Pack(b)[1..] == Pack(b[8..]);
      assert b == b[..8] + b[8..];
    }
  }

  lemma {:induction false} UnpackAppend(s: Bytes, t: Bytes)
    ensures Unpack(s + t) == Unpack(s) + Unpack(t)
  {
    if s == [] {
      assert s + t == t;
    } else {
      assert (s + t)[1..] == s[1..] + t;
      UnpackAppend(s[1..], t);
    }
  }

  function Ones(k: nat): (r: Bits)
    ensures |r| == k
    ensures forall i | 0 <= i < k :: r[i]
  {
    seq(k, _ => true)
  }

  /** The code word of every octet, and of EOS at index 256. */
  type Code = seq<Bits>

  const EOS := 256

  predicate WordLengths(c: Code) {
    |c| == 257 && forall i | 0 <= i <= EOS :: 5 <= |c[i]| <= 30
  }

  predicate Begins(c: Code, i: nat, j: nat)
    requires i < |c| && j < |c|
  {
    c[i] <= c[j]
  }

  predicate PrefixFree(c: Code) {
    forall i: nat, j: nat {:trigger Begins(c, i, j)} | i < |c| && j < |c| && i != j :: !Begins(c, i, j)
  }

  /** What decoding relies on: word lengths, no word a prefix of another, EOS all ones. */
  predicate ValidCode(c: Code) {
    WordLengths(c) && PrefixFree(c) && c[EOS] == Ones(30)
  }

  function EncodeBits(c: Code, s: Bytes): Bits
    requires |c| == 257
  {
    if s == [] then [] else c[s[0]] + EncodeBits(c, s[1..])
  }

  /** How many padding bits bring n bits to an octet boundary. */
  function PadLength(n: nat): (r: nat)
    ensures r < 8 && (n + r) % 8 == 0
  {
    (8 - n % 8) % 8
  }

  /** The encoded string: the words in order, padded with the leading bits of EOS. */
  function Encode(c: Code, s: Bytes): (r: Bytes)
    requires |c| == 257
    ensures |r| == (|EncodeBits(c, s)| + 7) / 8
  {
    var b := EncodeBits(c, s);
    Pack(b + Ones(PadLength(|b|)))
  }

  lemma {:induction false} EncodeBitsAppend(c: Code, s: Bytes, t: Bytes)
    requires |c| == 257
    ensures EncodeBits(c, s + t) == EncodeBits(c, s) + EncodeBits(c, t)
  {
    if s == [] {
      assert s + t == t;
    } else {
      assert (s + t)[1..] == s[1..] + t;
      EncodeBitsAppend(c, s[1..], t);
    }
  }

  // ---------------------------------------------------------------- strings that do not get shorter

  /** Different numbers below m are at most m. */
  lemma {:induction false} Pigeonhole(s: seq<nat>, m: nat)
    requires forall i | 0 <= i < |s| :: s[i] < m
    requires forall i, j | 0 <= i < j < |s| :: s[i] != s[j]
    ensures |s| <= m
  {
    if s != [] {
      assert s[0] < m;
      if k :| 0 <= k < |s| && s[k] == m - 1 {
        Pigeonhole(s[..k] + s[k + 1..], m - 1);
      } else {
        Pigeonhole(s, m - 1);
      }
    }
  }

  /** A word of at most seven bits, filled up on the right. */
  function Filled(w: Bits): (r: Bits)
    requires |w| <= 7
    ensures |r| == 7 && w <= r
  {
    w + seq(7 - |w|, _ => false)
  }

  lemma FilledAlike(a: Bits, b: Bits)
    requires |a| <= |b| <= 7
    ensures FromBits(Filled(a)) == FromBits(Filled(b)) ==> a <= b
  {
    ToFromBits(Filled(a));
    ToFromBits(Filled(b));
    assert Filled(a)[..|a|] == a && Filled(b)[..|a|] == b[..|a|];
  }

  /** A prefix-free code cannot give every octet fewer than eight bits. */
  lemma SomeWordIsLong(c: Code) returns (x: byte)
    requires ValidCode(c)
    ensures |c[x]| >= 8
  {
    if i :| 0 <= i < EOS && |c[i]| >= 8 {
      x := i;
    } else {
      hide FromBits, Filled;
      var s := seq(EOS, i requires 0 <= i < EOS => FromBits(Filled(c[i])));
      assert Pow2(7) == 128;
      forall i, j | 0 <= i < j < |s| ensures s[i] != s[j] {
        assert !Begins(c, i, j) && !Begins(c, j, i);
        if |c[i]| <= |c[j]| {
          FilledAlike(c[i], c[j]);
        } else {
          FilledAlike(c[j], c[i]);
        }
      }
      Pigeonhole(s, 128);
      assert false;
    }
  }

  function Copies(x: byte, n: nat): (r: Bytes)
    ensures |r| == n
  {
    seq(n, _ => x)
  }

  lemma {:induction false} CopiesBits(c: Code, x: byte, n: nat)
    requires |c| == 257 && |c[x]| >= 8
    ensures |EncodeBits(c, Copies(x, n))| >= 8 * n
  {
    if n > 0 {
      assert Copies(x, n)[1..] == Copies(x, n - 1);
      CopiesBits(c, x, n - 1);
    }
  }

  /** Whatever the code, there are strings of every length that coding does not shorten. */
  lemma StubbornString(c: Code, n: nat) returns (s: Bytes)
    requires ValidCode(c)
    ensures |s| == n && |Encode(c, s)| >= n
  {
    var x := SomeWordIsLong(c);
    s := Copies(x, n);
    CopiesBits(c, x, n);
  }

  // ---------------------------------------------------------------- the walk

  /** Where a walk over the code tree stands: at the inner node reached by `path`, or lost. */
  datatype Node = At(path: Bits) | Dead

  datatype Walked = Walked(node: Node, out: Bytes)

  /** The symbol whose word is p, looking from i on. */
  function SymbolOf(c: Code, p: Bits, i: nat): (r: Option<byte>)
    requires |c| == 257 && i <= EOS
    ensures r.Some? ==> c[r.value] == p
    ensures r.None? ==> forall k | i <= k < EOS :: c[k] != p
    decreases EOS - i
  {
    if i == EOS then None
    else if c[i] == p then Some(i)
    else SymbolOf(c, p, i + 1)
  }

  /** p leads to an inner node: some word continues it. */
  predicate IsInner(c: Code, p: Bits) {
    exists i | 0 <= i < |c| :: p < c[i]
  }

  function WalkBit(c: Code, n: Node, b: bool): Walked
    requires |c| == 257
  {
    if n.Dead? then Walked(Dead, [])
    else
      var p := n.path + [b];
      match SymbolOf(c, p, 0)
      case Some(sym) => Walked(At([]), [sym])
      case None => if IsInner(c, p) then Walked(At(p), []) else Walked(Dead, [])
  }

  /** The walk over b from n: the node reached and the symbols met on the way. */
  function Walk(c: Code, n: Node, b: Bits): Walked
    requires |c| == 257
    decreases |b|
  {
    if b == [] then Walked(n, [])
    else
      var w := WalkBit(c, n, b[0]);
      var r := Walk(c, w.node, b[1..]);
      Walked(r.node, w.out + r.out)
  }

  /** The end of a string may be padded by fewer than eight ones and nothing else. */
  predicate Accepting(n: Node) {
    n.At? && |n.path| < 8 && n.path == Ones(|n.path|)
  }

  lemma {:induction false} WalkAppend(c: Code, n: Node, a: Bits, b: Bits)
    requires |c| == 257
    ensures Walk(c, n, a + b).node == Walk(c, Walk(c, n, a).node, b).node
    ensures Walk(c, n, a + b).out == Walk(c, n, a).out + Walk(c, Walk(c, n, a).node, b).out
    decreases |a|
  {
    hide WalkBit;
    if a == [] {
      assert a + b == b;
    } else {
      assert (a + b)[1..] == a[1..] + b;
      WalkAppend(c, WalkBit(c, n, a[0]).node, a[1..], b);
    }
  }

  lemma WalkNothing(c: Code, n: Node)
    requires |c| == 257
    ensures Walk(c, n, []) == Walked(n, [])
  {
  }

  lemma {:induction false} WalkDead(c: Code, b: Bits)
    requires |c| == 257
    ensures Walk(c, Dead, b) == Walked(Dead, [])
  {
    if b != [] {
      WalkDead(c, b[1..]);
    }
  }

  /** Part of a word is the word of no symbol. */
  lemma ProperPrefixIsNoWord(c: Code, w: nat, k: nat)
    requires ValidCode(c) && w <= EOS && k < |c[w]|
    ensures SymbolOf(c, c[w][..k], 0) == None && IsInner(c, c[w][..k])
  {
    var p := c[w][..k];
    match SymbolOf(c, p, 0) {
      case None =>
      case Some(sym) =>
        assert Begins(c, sym, w);
    }
    assert p < c[w];
  }

  /** From k bits into a word, the walk follows the word to its `m`-th bit without emitting. */
  lemma {:induction false} WalkInside(c: Code, w: nat, k: nat, m: nat)
    requires ValidCode(c) && w <= EOS && k <= m < |c[w]|
    ensures Walk(c, At(c[w][..k]), c[w][k..m]) == Walked(At(c[w][..m]), [])
    decreases m - k
  {
    hide SymbolOf, IsInner;
    if k < m {
      assert c[w][..k] + [c[w][k]] == c[w][..k + 1];
      ProperPrefixIsNoWord(c, w, k + 1);
      assert c[w][k..m][1..] == c[w][k + 1..m];
      WalkInside(c, w, k + 1, m);
    }
  }

  lemma WalkWord(c: Code, sym: byte)
    requires ValidCode(c)
    ensures Walk(c, At([]), c[sym]) == Walked(At([]), [sym])
  {
    var word := c[sym];
    var last := |word| - 1;
    WalkInside(c, sym, 0, last);
    assert word[..0] == [] && word[0..last] == word[..last];
    assert word == word[..last] + [word[last]];
    WalkAppend(c, At([]), word[..last], [word[last]]);
    var found := SymbolOf(c, word, 0);
    if found.Some? && found.value != sym {
      assert Begins(c, found.value, sym);
    }
    assert found == Some(sym);
    assert WalkBit(c, At(word[..last]), word[last]) == Walked(At([]), [sym]);
  }

  lemma {:induction false} WalkEncoded(c: Code, s: Bytes)
    requires ValidCode(c)
    ensures Walk(c, At([]), EncodeBits(c, s)) == Walked(At([]), s)
  {
    if s != [] {
      WalkWord(c, s[0]);
      WalkEncoded(c, s[1..]);
      WalkAppend(c, At([]), c[s[0]], EncodeBits(c, s[1..]));
      assert s == [s[0]] + s[1..];
    }
  }

  /** The words of s and then k ones, walked from the root. */
  lemma WalkPadded(c: Code, s: Bytes, k: nat)
    requires ValidCode(c) && k < 8
    ensures Walk(c, At([]), EncodeBits(c, s) + Ones(k)) == Walked(At(Ones(k)), s)
  {
    WalkEncoded(c, s);
    WalkAppend(c, At([]), EncodeBits(c, s), Ones(k));
    WalkInside(c, EOS, 0, k);
    assert c[EOS][..0] == [] && c[EOS][0..k] == Ones(k) == c[EOS][..k];
  }

  /** Decoding an encoded string gives the string back and ends in an accepting node. */
  lemma DecodeEncoded(c: Code, s: Bytes)
    requires ValidCode(c)
    ensures Walk(c, At([]), Unpack(Encode(c, s))).out == s
    ensures Accepting(Walk(c, At([]), Unpack(Encode(c, s))).node)
  {
    var b := EncodeBits(c, s);
    UnpackPack(b + Ones(PadLength(|b|)));
    WalkPadded(c, s, PadLength(|b|));
  }

  // ---------------------------------------------------------------- what is sent and what is accepted

  /** The bits of an octet, the most significant first. */
  lemma OctetBits(b: byte)
    ensures ToBits(b, 8) == [b / 128 % 2 == 1, b / 64 % 2 == 1, b / 32 % 2 == 1, b / 16 % 2 == 1,
                             b / 8 % 2 == 1, b / 4 % 2 == 1, b / 2 % 2 == 1, b % 2 == 1]
  {
    ToBitsSplit(b, 4, 4);
    ShiftFour(b);
    FourBits(b);
    FourBits(b / 16);
    assert b / 16 / 8 == b / 128 && b / 16 / 4 == b / 64 && b / 16 / 2 == b / 32;
  }

  /** The octets sent are the words in order and then ones, as few as fill the last octet. */
  lemma EncodedIs(c: Code, s: Bytes)
    requires ValidCode(c)
    ensures var pad := 8 * |Encode(c, s)| - |EncodeBits(c, s)|;
      0 <= pad < 8 && Unpack(Encode(c, s)) == EncodeBits(c, s) + Ones(pad)
  {
    var b := EncodeBits(c, s);
    UnpackPack(b + Ones(PadLength(|b|)));
  }

  /** A walk that is not lost has spelt the words of the symbols it met and the path it is on. */
  lemma {:induction false} WalkSpells(c: Code, p: Bits, b: Bits)
    requires |c| == 257
    ensures var w := Walk(c, At(p), b); w.node.At? ==> p + b == EncodeBits(c, w.out) + w.node.path
    decreases |b|
  {
    if b != [] {
      var p' := p + [b[0]];
      var one := WalkBit(c, At(p), b[0]);
      assert p + b == p' + b[1..];
      if one.node.Dead? {
        WalkDead(c, b[1..]);
      } else {
        WalkSpells(c, one.node.path, b[1..]);
        var rest := Walk(c, one.node, b[1..]);
        if one.out != [] {
          var sym := one.out[0];
          assert [sym] + rest.out == one.out + rest.out && ([sym] + rest.out)[1..] == rest.out;
          assert [] + b[1..] == b[1..];
          Associative(c[sym], EncodeBits(c, rest.out), if rest.node.At? then rest.node.path else []);
        } else {
          assert [] + rest.out == rest.out;
        }
      }
    }
  }

  /** The decoder accepts exactly the words of a string followed by fewer than eight ones, and gives that string. */
  lemma AcceptedIff(c: Code, b: Bits, s: Bytes)
    requires ValidCode(c)
    ensures var w := Walk(c, At([]), b);
      Accepting(w.node) && w.out == s <==> exists k: nat :: k < 8 && b == EncodeBits(c, s) + Ones(k)
  {
    var w := Walk(c, At([]), b);
    if Accepting(w.node) && w.out == s {
      WalkSpells(c, [], b);
      assert [] + b == b;
      assert b == EncodeBits(c, s) + Ones(|w.node.path|);
    }
    forall k: nat | k < 8 && b == EncodeBits(c, s) + Ones(k) ensures Accepting(w.node) && w.out == s {
      WalkPadded(c, s, k);
    }
  }

  // ---------------------------------------------------------------- how much comes out

  /** No symbol can be completed while fewer than five bits lie on the path. */
  lemma {:induction false} TooShortForASymbol(c: Code, n: Node, b: Bits)
    requires WordLengths(c)
    requires n.At? ==> |n.path| + |b| < 5
    ensures Walk(c, n, b).out == []
    decreases |b|
  {
    if b != [] {
      assert n.At? ==> SymbolOf(c, n.path + [b[0]], 0) == None;
      TooShortForASymbol(c, WalkBit(c, n, b[0]).node, b[1..]);
    }
  }

  /** At most one symbol per four bits. */
  lemma {:induction false} OnePerNibble(c: Code, n: Node, b: Bits)
    requires WordLengths(c) && |b| <= 4
    ensures |Walk(c, n, b).out| <= 1
    decreases |b|
  {
    if b != [] {
      var w := WalkBit(c, n, b[0]);
      if w.out == [] {
        OnePerNibble(c, w.node, b[1..]);
      } else {
        TooShortForASymbol(c, w.node, b[1..]);
      }
    }
  }

  lemma FourBits(n: nat)
    ensures ToBits(n, 4) == [n / 8 % 2 == 1, n / 4 % 2 == 1, n / 2 % 2 == 1, n % 2 == 1]
  {
    assert ToBits(n, 1) == [n % 2 == 1];
    assert ToBits(n, 2) == [n / 2 % 2 == 1, n % 2 == 1] by { assert ToBits(n / 2, 1) == [n / 2 % 2 == 1]; }
    assert ToBits(n / 4, 2) == [n / 8 % 2 == 1, n / 4 % 2 == 1] by {
      assert n / 4 / 2 == n / 8;
      assert ToBits(n / 8, 1) == [n / 8 % 2 == 1];
    }
    ToBitsSplit(n, 2, 2);
    assert n / 2 / 2 == n / 4;
  }

  /** `n >> m`, one place at a time. */
  function Shift(n: nat, m: nat): nat {
    if m == 0 then n else Shift(n / 2, m - 1)
  }

  lemma {:induction false} ToBitsSplit(n: nat, k: nat, m: nat)
    ensures ToBits(n, k + m) == ToBits(Shift(n, m), k) + ToBits(n, m)
  {
    if m > 0 {
      ToBitsSplit(n / 2, k, m - 1);
      assert k + m - 1 == k + (m - 1);
    }
  }

  lemma ShiftFour(n: nat)
    ensures Shift(n, 4) == n / 16
  {
    assert n / 2 / 2 == n / 4 && n / 4 / 2 == n / 8 && n / 8 / 2 == n / 16;
    assert Shift(n / 8, 1) == Shift(n / 16, 0) == n / 16;
    assert Shift(n / 4, 2) == Shift(n / 8, 1);
    assert Shift(n / 2, 3) == Shift(n / 4, 2);
  }

  lemma DropHigh(q: nat, r: nat, m: nat)
    requires m == 1 || m == 2 || m == 4 || m == 8
    ensures (16 * q + r) / m % 2 == r / m % 2
  {
    if m == 2 {
      assert (16 * q + r) / 2 == 8 * q + r / 2;
    } else if m == 4 {
      assert (16 * q + r) / 4 == 4 * q + r / 4;
    } else if m == 8 {
      assert (16 * q + r) / 8 == 2 * q + r / 8;
    }
  }

  lemma LowFour(n: nat)
    ensures n % 16 % 2 == n % 2 && n % 16 / 2 % 2 == n / 2 % 2
    ensures n % 16 / 4 % 2 == n / 4 % 2 && n % 16 / 8 % 2 == n / 8 % 2
  {
    var q, r := n / 16, n % 16;
    DropHigh(q, r, 1);
    DropHigh(q, r, 2);
    DropHigh(q, r, 4);
    DropHigh(q, r, 8);
  }

  /** The two half octets of an octet, one after the other. */
  lemma OctetIsTwoNibbles(b: byte)
    ensures ToBits(b, 8) == ToBits(b / 16, 4) + ToBits(b % 16, 4)
  {
    ToBitsSplit(b, 4, 4);
    ShiftFour(b);
    FourBits(b);
    FourBits(b % 16);
    LowFour(b);
  }

  lemma WalkOctet(c: Code, n: Node, b: byte)
    requires WordLengths(c)
    ensures var first := Walk(c, n, ToBits(b / 16, 4));
            var second := Walk(c, first.node, ToBits(b % 16, 4));
            && Walk(c, n, ToBits(b, 8)).node == second.node
            && Walk(c, n, ToBits(b, 8)).out == first.out + second.out
            && |first.out| <= 1 && |second.out| <= 1
  {
    OctetIsTwoNibbles(b);
    var first := Walk(c, n, ToBits(b / 16, 4));
    WalkAppend(c, n, ToBits(b / 16, 4), ToBits(b % 16, 4));
    OnePerNibble(c, n, ToBits(b / 16, 4));
    OnePerNibble(c, first.node, ToBits(b % 16, 4));
  }

  /** Twice the octets read is always room enough for the symbols written. */
  lemma {:induction false} TwoPerOctet(c: Code, n: Node, s: Bytes)
    requires WordLengths(c)
    ensures |Walk(c, n, Unpack(s)).out| <= 2 * |s|
    decreases |s|
  {
    if s != [] {
      WalkOctet(c, n, s[0]);
      WalkAppend(c, n, ToBits(s[0], 8), Unpack(s[1..]));
      TwoPerOctet(c, Walk(c, n, ToBits(s[0], 8)).node, s[1..]);
    }
  }
}
