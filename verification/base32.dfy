/**
  Base 32 encoding with the standard alphabet and `=` padding (section 6 of
  RFC 4648), as Go's `base32.StdEncoding.EncodeToString` produces it: the input
  is read as one big-endian bit string, cut into 5-bit groups (the last one
  filled up with zero bits), each group written as one alphabet symbol, and the
  text padded with `=` to a multiple of 8 characters.

  The decoder is the inverse the encoding is judged against.
 */
module Base32 {
  import opened Wrappers

  type byte = b: int | 0 <= b < 256

  /** The encoding alphabet, value 0 first. */
  const Alphabet: string := "ABCDEFGHIJKLMNOPQRSTUVWXYZ234567"

  const PadChar: char := '='

  function Pow2(n: nat): (r: nat)
    ensures r >= 1
  {
    if n == 0 then 1 else 2 * Pow2(n - 1)
  }

  /** The `w` low-order bits of `v`, most significant first. */
  function Bits(v: nat, w: nat): (r: seq<bool>)
    ensures |r| == w
  {
    if w == 0 then [] else Bits(v / 2, w - 1) + [v % 2 == 1]
  }

  /** The number a big-endian bit string denotes. */
  function Value(bits: seq<bool>): (v: nat)
    ensures v < Pow2(|bits|)
  {
    if |bits| == 0 then 0
    else 2 * Value(bits[..|bits| - 1]) + (if bits[|bits| - 1] then 1 else 0)
  }

  lemma {:induction false} ValueOfBits(v: nat, w: nat)
    requires v < Pow2(w)
    ensures Value(Bits(v, w)) == v
  {
    if w > 0 {
      var b := Bits(v, w);
      assert b[..w - 1] == Bits(v / 2, w - 1);
      ValueOfBits(v / 2, w - 1);
    }
  }

  lemma {:induction false} BitsOfValue(bits: seq<bool>)
    ensures Bits(Value(bits), |bits|) == bits
  {
    if |bits| > 0 {
      var init := bits[..|bits| - 1];
      BitsOfValue(init);
      assert Value(bits) / 2 == Value(init);
      assert bits == init + [bits[|bits| - 1]];
    }
  }

  /** Concatenation of a sequence of sequences. */
  function Join<T>(xss: seq<seq<T>>): (r: seq<T>)
  {
    if |xss| == 0 then [] else xss[0] + Join(xss[1..])
  }

  /** Consecutive groups of `w` elements; a shorter remainder is dropped. */
  function Group<T>(xs: seq<T>, w: nat): (r: seq<seq<T>>)
    requires w > 0
    ensures forall i :: 0 <= i < |r| ==> |r[i]| == w
    decreases |xs|
  {
    if |xs| < w then [] else [xs[..w]] + Group(xs[w..], w)
  }

  predicate Uniform<T>(xss: seq<seq<T>>, w: nat) {
    forall i :: 0 <= i < |xss| ==> |xss[i]| == w
  }

  /** Grouping `k` groups' worth of elements and joining the groups gives them back. */
  lemma {:induction false} JoinGroup<T>(xs: seq<T>, w: nat, k: nat)
    requires w > 0 && |xs| == w * k
    ensures Join(Group(xs, w)) == xs
    decreases k
  {
    if k > 0 {
      assert |xs[w..]| == w * (k - 1);
      JoinGroup(xs[w..], w, k - 1);
      assert xs == xs[..w] + xs[w..];
    }
  }

  /** Joining groups of width `w` and regrouping, whatever shorter tail follows, gives the groups back. */
  lemma {:induction false} GroupJoin<T>(xss: seq<seq<T>>, tail: seq<T>, w: nat)
    requires w > 0 && Uniform(xss, w) && |tail| < w
    ensures Group(Join(xss) + tail, w) == xss
  {
    if |xss| > 0 {
      var rest := Join(xss[1..]) + tail;
      assert Join(xss) + tail == xss[0] + rest;
      assert (xss[0] + rest)[..w] == xss[0];
      assert (xss[0] + rest)[w..] == rest;
      GroupJoin(xss[1..], tail, w);
    }
  }

  lemma {:induction false} JoinLength<T>(xss: seq<seq<T>>, w: nat)
    requires Uniform(xss, w)
    ensures |Join(xss)| == w * |xss|
  {
    if |xss| > 0 {
      JoinLength(xss[1..], w);
    }
  }

  lemma {:induction false} GroupLength<T>(xs: seq<T>, w: nat, k: nat)
    requires w > 0 && w * k <= |xs| < w * k + w
    ensures |Group(xs, w)| == k
    decreases k
  {
    if k > 0 {
      assert w * (k - 1) <= |xs[w..]| < w * (k - 1) + w;
      GroupLength(xs[w..], w, k - 1);
    } else {
      assert |xs| < w;
    }
  }

  /** The encoded length of `n` bytes, padding included, is Go's `EncodedLen`. */
  lemma EncodedLength(n: nat)
    ensures SymbolCount(n) + (8 - SymbolCount(n) % 8) % 8 == (n + 4) / 5 * 8
  {
    var q, r := n / 5, n % 5;
    assert n == 5 * q + r;
    assert SymbolCount(n) == 8 * q + (8 * r + 4) / 5;
    if r == 0 {
      assert (n + 4) / 5 == q;
    } else {
      assert (n + 4) / 5 == q + 1;
    }
  }

  /** The symbol for a 5-bit value. */
  function Symbol(v: nat): (c: char)
    requires v < 32
    ensures c == Alphabet[v]
  {
    if v < 26 then ('A' as int + v) as char else ('2' as int + v - 26) as char
  }

  predicate IsSymbol(c: char) {
    'A' <= c <= 'Z' || '2' <= c <= '7'
  }

  /** The 5-bit value of an alphabet symbol. */
  function SymbolValue(c: char): (v: nat)
    requires IsSymbol(c)
    ensures v < 32 && Symbol(v) == c
  {
    if 'A' <= c <= 'Z' then c as int - 'A' as int else c as int - '2' as int + 26
  }

  /** The bits of a byte string, eight per byte, most significant first. */
  function ByteBits(data: seq<byte>): (r: seq<bool>)
    ensures |r| == 8 * |data|
  {
    var octets := seq(|data|, i requires 0 <= i < |data| => Bits(data[i], 8));
    JoinLength(octets, 8);
    Join(octets)
  }

  function Zeros(n: nat): (r: seq<bool>)
    ensures |r| == n
  {
    seq(n, _ => false)
  }

  function Padding(n: nat): (r: string)
    ensures |r| == n && forall i :: 0 <= i < n ==> r[i] == PadChar
  {
    seq(n, _ => PadChar)
  }

  /** Number of symbols that carry the bits of `n` bytes: ceil(8n / 5). */
  function SymbolCount(n: nat): nat {
    (8 * n + 4) / 5
  }

  /** The symbols of the encoding before padding. */
  function EncodeBody(data: seq<byte>): (body: string)
    ensures |body| == SymbolCount(|data|)
  {
    var bits := ByteBits(data);
    var k := SymbolCount(|data|);
    var padded := bits + Zeros(5 * k - |bits|);
    var quintets := Group(padded, 5);
    GroupLength(padded, 5, k);
    seq(|quintets|, i requires 0 <= i < |quintets| => Symbol(Value(quintets[i])))
  }

  /** `base32.StdEncoding.EncodeToString`. */
  function Encode(data: seq<byte>): (s: string)
    ensures |s| == (|data| + 4) / 5 * 8
    ensures forall i :: 0 <= i < |s| ==> IsSymbol(s[i]) || s[i] == PadChar
  {
    var body := EncodeBody(data);
    EncodedLength(|data|);
    body + Padding((8 - |body| % 8) % 8)
  }

  /** Number of `=` at the end of `s`. */
  function TrailingPads(s: string): (p: nat)
    ensures p <= |s|
  {
    if |s| > 0 && s[|s| - 1] == PadChar then 1 + TrailingPads(s[..|s| - 1]) else 0
  }

  predicate AllSymbols(s: string) {
    forall i :: 0 <= i < |s| ==> IsSymbol(s[i])
  }

  /** The bits that a run of symbols stands for, five per symbol. */
  function SymbolBits(body: string): seq<bool>
    requires AllSymbols(body)
  {
    Join(seq(|body|, i requires 0 <= i < |body| => Bits(SymbolValue(body[i]), 5)))
  }

  /** The bytes a bit string spells out, eight bits each; fewer than eight trailing bits are dropped. */
  function BitsToBytes(bits: seq<bool>): seq<byte>
  {
    var octets := Group(bits, 8);
    seq(|octets|, i requires 0 <= i < |octets| => Value(octets[i]))
  }

  /**
    Decoding: the text must come in blocks of 8 characters, end with a legal amount
    of padding (a final block carries 2, 4, 5, 7 or 8 symbols), and otherwise hold
    only alphabet symbols; the bits of the symbols are read back as bytes and the
    fill bits of the last group are dropped.
   */
  function Decode(s: string): Option<seq<byte>>
  {
    var p := TrailingPads(s);
    var body := s[..|s| - p];
    if |s| % 8 != 0 || p !in {0, 1, 3, 4, 6} then None
    else if !AllSymbols(body) then None
    else Some(BitsToBytes(SymbolBits(body)))
  }

  lemma SymbolInjective(v: nat)
    requires v < 32
    ensures IsSymbol(Symbol(v)) && SymbolValue(Symbol(v)) == v
  {
  }

  /** A final block of the encoding carries 2, 4, 5, 7 or 8 symbols. */
  lemma PadAmount(n: nat)
    ensures (8 - SymbolCount(n) % 8) % 8 in {0, 1, 3, 4, 6}
    ensures 0 <= 5 * SymbolCount(n) - 8 * n < 5
    ensures (SymbolCount(n) + (8 - SymbolCount(n) % 8) % 8) % 8 == 0
  {
    var q, r := n / 5, n % 5;
    assert n == 5 * q + r;
    assert SymbolCount(n) == 8 * q + (8 * r + 4) / 5;
  }

  lemma {:induction false} TrailingPadsOf(body: string, p: nat)
    requires forall i :: 0 <= i < |body| ==> body[i] != PadChar
    ensures TrailingPads(body + Padding(p)) == p
  {
    if p > 0 {
      var s := body + Padding(p);
      assert s[..|s| - 1] == body + Padding(p - 1);
      TrailingPadsOf(body, p - 1);
    } else {
      assert body + Padding(0) == body;
      if |body| > 0 {
        assert body[|body| - 1] != PadChar;
      }
    }
  }

  /** The symbols of the encoding spell out the input's bits, filled up with zero bits to a whole symbol. */
  lemma EncodeBodyBits(data: seq<byte>)
    ensures AllSymbols(EncodeBody(data))
    ensures SymbolBits(EncodeBody(data)) == ByteBits(data) + Zeros(5 * SymbolCount(|data|) - 8 * |data|)
  {
    var bits := ByteBits(data);
    var k := SymbolCount(|data|);
    PadAmount(|data|);
    var padded := bits + Zeros(5 * k - |bits|);
    var quintets := Group(padded, 5);
    GroupLength(padded, 5, k);
    var body := EncodeBody(data);
    forall i | 0 <= i < |body|
      ensures IsSymbol(body[i]) && Bits(SymbolValue(body[i]), 5) == quintets[i]
    {
      SymbolInjective(Value(quintets[i]));
      BitsOfValue(quintets[i]);
    }
    assert seq(|body|, i requires 0 <= i < |body| => Bits(SymbolValue(body[i]), 5)) == quintets;
    JoinGroup(padded, 5, k);
  }

  /** Reading the bytes back out of their bits, whatever fewer-than-8 fill bits follow. */
  lemma BytesOfBits(data: seq<byte>, fill: seq<bool>)
    requires |fill| < 8
    ensures BitsToBytes(ByteBits(data) + fill) == data
  {
    var bytes := seq(|data|, i requires 0 <= i < |data| => Bits(data[i], 8));
    GroupJoin(bytes, fill, 8);
    var octets := Group(ByteBits(data) + fill, 8);
    assert octets == bytes;
    forall i | 0 <= i < |data|
      ensures Value(octets[i]) == data[i]
    {
      ValueOfBits(data[i], 8);
    }
  }

  /** Decoding a well-formed text: the bits of its symbols, read back as bytes. */
  lemma DecodeWellFormed(body: string, p: nat)
    requires AllSymbols(body)
    requires p in {0, 1, 3, 4, 6} && (|body| + p) % 8 == 0
    ensures Decode(body + Padding(p)) == Some(BitsToBytes(SymbolBits(body)))
  {
    var s := body + Padding(p);
    TrailingPadsOf(body, p);
    assert s[..|s| - p] == body;
  }

  /** Decoding undoes encoding, for every byte string. */
  lemma DecodeEncode(data: seq<byte>)
    ensures Decode(Encode(data)) == Some(data)
  {
    var body := EncodeBody(data);
    var p := (8 - |body| % 8) % 8;
    EncodeBodyBits(data);
    PadAmount(|data|);
    DecodeWellFormed(body, p);
    assert Encode(data) == body + Padding(p);
    BytesOfBits(data, Zeros(5 * SymbolCount(|data|) - 8 * |data|));
  }

  /** One step of `Value`: appending a bit doubles the value and adds the bit. */
  lemma ValuePrefix(bits: seq<bool>, init: seq<bool>, v: nat)
    requires |bits| > 0 && bits[..|bits| - 1] == init && Value(init) == v
    ensures Value(bits) == 2 * v + (if bits[|bits| - 1] then 1 else 0)
  {
  }

  /** The first test vector of section 10 of RFC 4648: "f" encodes to `MY======`. */
  lemma EncodeKnownAnswer()
    ensures Encode([0x66]) == "MY======"
  {
    var octet := [false, true, true, false, false, true, true, false];
    assert Bits(0x66, 8) == octet;
    var octets := seq(1, i requires 0 <= i < 1 => Bits([0x66][i], 8));
    assert octets == [octet];
    assert Join(octets) == octet;
    assert ByteBits([0x66]) == octet;
    var q0, q1 := [false, true, true, false, false], [true, true, false, false, false];
    var padded := octet + Zeros(2);
    assert padded == q0 + q1;
    assert Group(q1, 5) == [q1] by {
      assert q1[..5] == q1 && q1[5..] == [];
      assert Group<bool>([], 5) == [];
    }
    assert Group(padded, 5) == [q0, q1] by {
      assert padded[..5] == q0 && padded[5..] == q1;
    }
    assert Value(q0) == 12 by {
      ValuePrefix([false], [], 0);
      ValuePrefix([false, true], [false], 0);
      ValuePrefix([false, true, true], [false, true], 1);
      ValuePrefix([false, true, true, false], [false, true, true], 3);
      ValuePrefix(q0, [false, true, true, false], 6);
    }
    assert Value(q1) == 24 by {
      ValuePrefix([true], [], 0);
      ValuePrefix([true, true], [true], 1);
      ValuePrefix([true, true, false], [true, true], 3);
      ValuePrefix([true, true, false, false], [true, true, false], 6);
      ValuePrefix(q1, [true, true, false, false], 12);
    }
    assert EncodeBody([0x66]) == "MY";
    assert Padding(6) == "======";
  }

  /** A 20-byte input (a SHA-1 digest) encodes to exactly 32 alphabet symbols and no padding. */
  lemma DigestEncoding(digest: seq<byte>)
    requires |digest| == 20
    ensures |Encode(digest)| == 32
    ensures forall i :: 0 <= i < 32 ==> IsSymbol(Encode(digest)[i])
  {
    assert |EncodeBody(digest)| == 32;
  }
}
