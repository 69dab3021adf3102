/**
 * checksum (scapi_ping.c): the Internet checksum of an ICMP echo packet, the one's
 * complement of the one's-complement sum of its 16-bit words (section 1 of RFC 1071).
 *
 * The packet is a byte sequence and the host's byte order a parameter: the code reads
 * the words through an unsigned short pointer, so their values depend on it. The
 * 32-bit accumulator, its wrap-around, both folds and the 16-bit truncation of the
 * complement are written out.
 */
module PingChecksum {

  const Two16: nat := 0x1_0000
  const Two32: nat := 0x1_0000_0000
  /** The modulus of one's-complement arithmetic on 16-bit words. */
  const M: nat := 0xFFFF

  type Byte = x: int | 0 <= x < 256
  type U16 = x: int | 0 <= x < 0x1_0000

  datatype ByteOrder = Little | Big

  /** The value *(unsigned short *) reads from two bytes lying b0, b1 in memory. */
  function HostWord(b0: Byte, b1: Byte, order: ByteOrder): (r: U16)
    ensures order == Big ==> r / 256 == b0 && r % 256 == b1
    ensures order == Little ==> r / 256 == b1 && r % 256 == b0
  {
    if order == Big then b0 * 256 + b1 else b1 * 256 + b0
  }

  /** The two bytes a 16-bit value occupies in memory, first byte first. */
  function HostBytes(w: U16, order: ByteOrder): (r: seq<Byte>)
    ensures |r| == 2 && HostWord(r[0], r[1], order) == w
  {
    if order == Big then [w / 256, w % 256] else [w % 256, w / 256]
  }

  /** A 16-bit word read in network byte order (most significant byte first). */
  function NetWord(b0: Byte, b1: Byte): U16 {
    HostWord(b0, b1, Big)
  }

  /**
   * The words the loop adds: every pair of bytes as the host reads it, then a final odd
   * byte. As written (fixed = false) the odd byte is added as its own value; fixed, it
   * is read like a word whose second byte is zero. The contract gives the length only;
   * the words themselves are related to RFC 1071 by BigEndianWords and LittleEndianWords.
   */
  function HostWords(bytes: seq<Byte>, order: ByteOrder, fixed: bool): (r: seq<U16>)
    ensures |r| == (|bytes| + 1) / 2
    decreases |bytes|
  {
    if |bytes| > 1 then [HostWord(bytes[0], bytes[1], order)] + HostWords(bytes[2..], order, fixed)
    else if |bytes| == 1 then [if fixed then HostWord(bytes[0], 0, order) else bytes[0]]
    else []
  }

  /** The words of section 1 of RFC 1071: network order, an odd byte padded with zero. Its contract is the length only. */
  function NetWords(bytes: seq<Byte>): (r: seq<U16>)
    ensures |r| == (|bytes| + 1) / 2
    decreases |bytes|
  {
    if |bytes| > 1 then [NetWord(bytes[0], bytes[1])] + NetWords(bytes[2..])
    else if |bytes| == 1 then [NetWord(bytes[0], 0)]
    else []
  }

  /**
   * The loop `sum += *buf++` on an unsigned int: each addition wraps modulo 2^32. The
   * contract is the bound only; AccumulateTotal relates it to Total.
   */
  function Accumulate(ws: seq<U16>, sum: nat): (r: nat)
    requires sum < Two32
    ensures r < Two32
  {
    if ws == [] then sum else Accumulate(ws[1..], (sum + ws[0]) % Two32)
  }

  /**
   * The two folds: the high half added to the low half, then the carry of that added
   * once more; the low 16 bits of the result.
   */
  function Fold(sum: nat): (r: U16)
    requires sum < Two32
  {
    var f1 := sum / Two16 + sum % Two16;
    var f2 := (f1 + f1 / Two16) % Two32;
    f2 % Two16
  }

  /** checksum(b, len) for the len = |bytes| bytes at b: the complement, truncated to 16 bits. */
  function Checksum(bytes: seq<Byte>, order: ByteOrder, fixed: bool): (r: U16)
    ensures bytes == [] ==> r == M
  {
    M - Fold(Accumulate(HostWords(bytes, order, fixed), 0))
  }

  // ---------------------------------------------------------------- reference

  /** The plain sum of the words; the contract is a bound only. */
  function Total(ws: seq<U16>): (r: nat)
    ensures r <= M * |ws|
  {
    if ws == [] then 0 else ws[0] + Total(ws[1..])
  }

  /** One's-complement addition of two 16-bit words: the carry out is added back in. */
  function OcAdd(a: U16, b: U16): (r: U16)
    ensures r % M == (a + b) % M
    ensures r == 0 <==> a + b == 0
  {
    if a + b >= Two16 then a + b - M else a + b
  }

  /** The one's-complement sum of the words, added one by one. */
  function OnesSum(ws: seq<U16>): U16 {
    if ws == [] then 0 else OcAdd(ws[0], OnesSum(ws[1..]))
  }

  /** The checksum of section 1 of RFC 1071, as a value in network byte order. */
  function RfcChecksum(bytes: seq<Byte>): U16 {
    M - OnesSum(NetWords(bytes))
  }

  /**
   * The canonical one's-complement value of a sum: zero only for zero, otherwise the
   * representative of its class modulo 0xFFFF in [1, 0xFFFF].
   */
  function EndAround(t: nat): (r: U16)
    ensures r % M == t % M && (r == 0 <==> t == 0)
  {
    if t == 0 then 0 else (t - 1) % M + 1
  }

  /** A byte swap of a 16-bit word. */
  function Swap(w: U16): (r: U16)
    ensures r / 256 == w % 256 && r % 256 == w / 256
  {
    (w % 256) * 256 + w / 256
  }

  function SwapAll(ws: seq<U16>): (r: seq<U16>)
    ensures |r| == |ws| && forall k :: 0 <= k < |ws| ==> r[k] == Swap(ws[k])
  {
    if ws == [] then [] else [Swap(ws[0])] + SwapAll(ws[1..])
  }

  // ---------------------------------------------------------------- arithmetic

  /** Two 16-bit values of the same class modulo 0xFFFF, zero together, are equal. */
  lemma Canonical(v: U16, t: nat)
    requires v % M == t % M && (v == 0 <==> t == 0)
    ensures v == EndAround(t)
  {
    var e := EndAround(t);
    if t != 0 {
      assert 1 <= v && 1 <= e && v % M == e % M;
    }
  }

  /** Adding a multiple of 0xFFFF does not change the class. */
  lemma ModShift(k: nat, x: nat)
    ensures (M * k + x) % M == x % M
  {
  }

  /** The two folds give the canonical one's-complement value of the accumulator. */
  lemma FoldEndAround(sum: nat)
    requires sum < Two32
    ensures Fold(sum) == EndAround(sum)
  {
    var h := sum / Two16;
    var l := sum % Two16;
    var f1 := h + l;
    assert sum == M * h + f1;
    ModShift(h, f1);
    assert f1 <= 2 * M;
    var f := Fold(sum);
    if f1 < Two16 {
      assert f == f1;
    } else {
      assert f == f1 - M;
      ModShift(1, f1 - M);
    }
    Canonical(f, sum);
  }

  /** Without a wrap, the accumulator is the plain sum of the words. */
  lemma {:induction false} AccumulateTotal(ws: seq<U16>, sum: nat)
    requires sum + Total(ws) < Two32
    ensures Accumulate(ws, sum) == sum + Total(ws)
  {
    if ws != [] {
      AccumulateTotal(ws[1..], sum + ws[0]);
    }
  }

  /** Adding word by word in one's complement gives the canonical value of the total. */
  lemma {:induction false} OnesSumTotal(ws: seq<U16>)
    ensures OnesSum(ws) == EndAround(Total(ws))
  {
    if ws != [] {
      OnesSumTotal(ws[1..]);
      var t := Total(ws[1..]);
      var v := OcAdd(ws[0], EndAround(t));
      assert v % M == (ws[0] + EndAround(t)) % M;
      ModAdd(ws[0], EndAround(t), t);
      Canonical(v, ws[0] + t);
    }
  }

  /** Replacing a summand by one of the same class keeps the class of the sum. */
  lemma ModAdd(a: nat, b: nat, c: nat)
    requires b % M == c % M
    ensures (a + b) % M == (a + c) % M
  {
    var q := b / M;
    var p := c / M;
    assert b == M * q + b % M;
    assert c == M * p + c % M;
    ModShift(q, a + b % M);
    ModShift(p, a + c % M);
  }

  // ---------------------------------------------------------------- properties

  /** An empty packet sums to zero, whose complement is 0xFFFF. */
  lemma EmptyIsAllOnes(order: ByteOrder, fixed: bool)
    ensures Checksum([], order, fixed) == 0xFFFF
  {
  }

  /**
   * Below 131074 bytes the accumulator cannot wrap, and the two folds give exactly the
   * one's-complement sum of the words: the result is its complement.
   */
  lemma ChecksumIsOnesComplement(bytes: seq<Byte>, order: ByteOrder, fixed: bool)
    requires |bytes| < 131074
    ensures Checksum(bytes, order, fixed) == M - OnesSum(HostWords(bytes, order, fixed))
  {
    var ws := HostWords(bytes, order, fixed);
    assert |ws| <= 65537;
    assert Total(ws) < Two32;
    AccumulateTotal(ws, 0);
    FoldEndAround(Total(ws));
    OnesSumTotal(ws);
  }

  /** The plain sum does not depend on the order of two blocks of words. */
  lemma {:induction false} TotalAppend(a: seq<U16>, b: seq<U16>)
    ensures Total(a + b) == Total(a) + Total(b)
  {
    if a != [] {
      assert (a + b)[1..] == a[1..] + b;
      TotalAppend(a[1..], b);
    } else {
      assert a + b == b;
    }
  }

  /** The words of a packet split at an even offset are the words of the two parts. */
  lemma {:induction false} HostWordsAppend(a: seq<Byte>, b: seq<Byte>, order: ByteOrder, fixed: bool)
    requires |a| % 2 == 0
    ensures HostWords(a + b, order, fixed) == HostWords(a, order, fixed) + HostWords(b, order, fixed)
    decreases |a|
  {
    if a != [] {
      assert (a + b)[2..] == a[2..] + b;
      HostWordsAppend(a[2..], b, order, fixed);
    } else {
      assert a + b == b;
    }
  }

  /**
   * The order of the words does not matter (section 2(A) of RFC 1071): exchanging two
   * blocks that each hold whole words leaves the checksum unchanged.
   */
  lemma WordOrderIndependent(a: seq<Byte>, b: seq<Byte>, order: ByteOrder, fixed: bool)
    requires |a| % 2 == 0 && |b| % 2 == 0 && |a| + |b| < 131074
    ensures Checksum(a + b, order, fixed) == Checksum(b + a, order, fixed)
  {
    var wa := HostWords(a, order, fixed);
    var wb := HostWords(b, order, fixed);
    HostWordsAppend(a, b, order, fixed);
    HostWordsAppend(b, a, order, fixed);
    ChecksumIsOnesComplement(a + b, order, fixed);
    ChecksumIsOnesComplement(b + a, order, fixed);
    OnesSumTotal(wa + wb);
    OnesSumTotal(wb + wa);
    TotalAppend(wa, wb);
    TotalAppend(wb, wa);
  }

  /** The sum of the byte-swapped words is 256 times smaller modulo 0xFFFF. */
  lemma {:induction false} SwapTotal(ws: seq<U16>)
    ensures (256 * Total(SwapAll(ws))) % M == Total(ws) % M
    ensures Total(SwapAll(ws)) == 0 <==> Total(ws) == 0
  {
    if ws != [] {
      SwapTotal(ws[1..]);
      var w := ws[0];
      var s := Total(SwapAll(ws[1..]));
      assert SwapAll(ws)[1..] == SwapAll(ws[1..]);
      assert 256 * Swap(w) == M * (w % 256) + w by {
        assert w == (w / 256) * 256 + w % 256;
      }
      assert 256 * Total(SwapAll(ws)) == M * (w % 256) + w + 256 * s;
      ModShift(w % 256, w + 256 * s);
      ModAdd(w, 256 * s, Total(ws[1..]));
    }
  }

  /**
   * The one's-complement sum commutes with swapping the bytes of every word (section
   * 2(B) of RFC 1071).
   */
  lemma OnesSumSwap(ws: seq<U16>)
    ensures OnesSum(SwapAll(ws)) == Swap(OnesSum(ws))
  {
    var t := Total(ws);
    var ts := Total(SwapAll(ws));
    OnesSumTotal(ws);
    OnesSumTotal(SwapAll(ws));
    SwapTotal(ws);
    var e := EndAround(t);
    var v := Swap(e);
    assert 256 * v == M * (e % 256) + e by {
      assert e == (e / 256) * 256 + e % 256;
    }
    ModShift(e % 256, e);
    assert (256 * v) % M == t % M by {
      assert e % M == t % M;
    }
    // v and ts are both 256^-1 times t modulo 0xFFFF, as 256 is invertible (256 * 256 = 65536 = M + 1).
    ScaleBack(v, ts, t);
    Canonical(v, ts);
  }

  /** Multiplying by 256 is invertible modulo 0xFFFF, its inverse being 256. */
  lemma ScaleBack(v: nat, s: nat, t: nat)
    requires (256 * v) % M == t % M && (256 * s) % M == t % M
    ensures v % M == s % M
  {
    ModMul(256 * v, t, 256);
    ModMul(256 * s, t, 256);
    assert 256 * (256 * v) == M * v + v;
    assert 256 * (256 * s) == M * s + s;
    ModShift(v, v);
    ModShift(s, s);
  }

  /** Classes modulo 0xFFFF are kept by multiplication. */
  lemma ModMul(a: nat, b: nat, c: nat)
    requires a % M == b % M
    ensures (c * a) % M == (c * b) % M
  {
    var q := a / M;
    var p := b / M;
    var r := a % M;
    assert a == M * q + r && b == M * p + r;
    assert c * a == M * (c * q) + c * r;
    assert c * b == M * (c * p) + c * r;
    ModShift(c * q, c * r);
    ModShift(c * p, c * r);
  }

  /** Complementing commutes with swapping bytes. */
  lemma SwapComplement(x: U16)
    ensures Swap(M - x) == M - Swap(x)
  {
  }

  /** Corrected, a big-endian host reads exactly the words of RFC 1071, padding included. */
  lemma {:induction false} BigEndianWords(bytes: seq<Byte>)
    ensures HostWords(bytes, Big, true) == NetWords(bytes)
    decreases |bytes|
  {
    if |bytes| > 1 {
      BigEndianWords(bytes[2..]);
    }
  }

  /** Corrected, a little-endian host reads the RFC 1071 words byte-swapped. */
  lemma {:induction false} LittleEndianWords(bytes: seq<Byte>)
    ensures HostWords(bytes, Little, true) == SwapAll(NetWords(bytes))
    decreases |bytes|
  {
    if |bytes| > 1 {
      LittleEndianWords(bytes[2..]);
      assert SwapAll(NetWords(bytes))[1..] == SwapAll(NetWords(bytes[2..]));
    }
  }

  /**
   * With the odd byte read as the first byte of a word, the checksum stored in host
   * order is the RFC 1071 checksum in network order, on either host.
   */
  lemma FixedMatchesRfc(bytes: seq<Byte>, order: ByteOrder)
    requires |bytes| < 131074
    ensures HostBytes(Checksum(bytes, order, true), order) == HostBytes(RfcChecksum(bytes), Big)
  {
    ChecksumIsOnesComplement(bytes, order, true);
    var c := RfcChecksum(bytes);
    if order == Big {
      BigEndianWords(bytes);
    } else {
      LittleEndianWords(bytes);
      OnesSumSwap(NetWords(bytes));
      SwapComplement(OnesSum(NetWords(bytes)));
      assert Checksum(bytes, order, true) == Swap(c);
    }
  }

  /** On a little-endian host the odd byte as written is already where it belongs. */
  lemma LittleEndianOddByteSame(bytes: seq<Byte>)
    ensures Checksum(bytes, Little, false) == Checksum(bytes, Little, true)
  {
    assert HostWords(bytes, Little, false) == HostWords(bytes, Little, true) by {
      OddByteWords(bytes);
    }
  }

  lemma {:induction false} OddByteWords(bytes: seq<Byte>)
    ensures HostWords(bytes, Little, false) == HostWords(bytes, Little, true)
    decreases |bytes|
  {
    if |bytes| > 1 {
      OddByteWords(bytes[2..]);
    }
  }

  /**
   * As written, a big-endian host adds an odd last byte as the low byte of a word: the
   * one-byte packet 0x01 gets 0xFFFE where RFC 1071 gives 0xFEFF.
   */
  lemma BigEndianOddByteWrong()
    ensures Checksum([1], Big, false) == 0xFFFE
    ensures RfcChecksum([1]) == 0xFEFF
    ensures HostBytes(Checksum([1], Big, false), Big) != HostBytes(RfcChecksum([1]), Big)
  {
    assert HostWords([1], Big, false) == [1];
    assert Accumulate([1], 0) == 1;
    assert NetWords([1]) == [256];
    assert OnesSum([256]) == 256;
  }
}
