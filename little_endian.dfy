/** The in-memory byte layout of a 64-bit word on a little-endian host (what
    the driver hands out when it views `&value` as a `char*`), and the
    client-side meaning of a received byte prefix as a number. */
module LittleEndian {

  type byte = bv8
  type u64 = bv64

  /** Bytes in one generated word, and the most a single read delivers. */
  const WORD_BYTES: nat := 8

  /** The first n bytes of v in memory order, least significant first. */
  function EncodeN(v: u64, n: nat): (bs: seq<byte>)
    ensures |bs| == n
    decreases n
  {
    if n == 0 then [] else [(v & 0xFF) as byte] + EncodeN(v >> 8, n - 1)
  }

  /** The eight bytes of v as they lie in memory on a little-endian host. */
  function Encode(v: u64): (bs: seq<byte>)
    ensures |bs| == WORD_BYTES
  {
    EncodeN(v, WORD_BYTES)
  }

  /** The word whose low bytes are bs, least significant first, and whose
      remaining bytes are zero (Horner's rule in base 256, on bit-vectors). */
  function Decode(bs: seq<byte>): u64
  {
    if |bs| == 0 then 0 else (bs[0] as u64) | (Decode(bs[1..]) << 8)
  }

  /** 256^n. */
  function Pow256(n: nat): (p: nat)
    ensures p > 0
  {
    if n == 0 then 1 else 256 * Pow256(n - 1)
  }

  /** The mask of the low n bytes of a word (all ones from n = 8 on). */
  function LowMask(n: nat): u64
  {
    if n == 0 then 0 else (LowMask(n - 1) << 8) | 0xFF
  }

  /** The byte b moved to byte position j of a word. */
  function Lift(b: byte, j: nat): u64
  {
    if j == 0 then b as u64 else Lift(b, j - 1) << 8
  }

  function Zeros(n: nat): (z: seq<byte>)
    ensures |z| == n
  {
    seq(n, _ => 0)
  }

  /** bs extended with zero bytes to a full word. */
  function Pad(bs: seq<byte>): (p: seq<byte>)
    requires |bs| <= WORD_BYTES
    ensures |p| == WORD_BYTES
  {
    bs + Zeros(WORD_BYTES - |bs|)
  }

  // ---------------------------------------------------------------------
  // Bit-level facts about single words. Each is stated as an implication
  // with no precondition so that a caller's proof obligation stays a matter
  // of rewriting.

  lemma MaskStep(v: u64, m: u64)
    ensures (v & 0xFF) | (((v >> 8) & m) << 8) == v & ((m << 8) | 0xFF)
  {
  }

  lemma AgreeSplit(x: u64, y: u64, m: u64)
    ensures x & ((m << 8) | 0xFF) == y & ((m << 8) | 0xFF) ==>
      (x & 0xFF) as byte == (y & 0xFF) as byte && (x >> 8) & m == (y >> 8) & m
  {
  }

  lemma MaskAndStep(m: u64, mm: u64)
    ensures ((m << 8) | 0xFF) & ((mm << 8) | 0xFF) == ((m & mm) << 8) | 0xFF
  {
  }

  lemma HornerShift(b: byte, d: u64, m: u64)
    ensures (((b as u64) | (d << 8)) & 0xFF) as byte == b
    ensures 0x00FF_FFFF_FFFF_FFFF & m == m ==> (((b as u64) | (d << 8)) >> 8) & m == d & m
  {
  }

  lemma HornerMask(b: byte, d: u64, m: u64)
    ensures d & m == d ==> ((b as u64) | (d << 8)) & ((m << 8) | 0xFF) == (b as u64) | (d << 8)
  {
  }

  // ---------------------------------------------------------------------
  // One unfolding of each recursive definition.

  lemma DecodeHead(bs: seq<byte>)
    requires |bs| > 0
    ensures Decode(bs) == (bs[0] as u64) | (Decode(bs[1..]) << 8)
  {
  }

  lemma EncodeNCons(v: u64, n: nat)
    requires n > 0
    ensures EncodeN(v, n) == [(v & 0xFF) as byte] + EncodeN(v >> 8, n - 1)
  {
  }

  lemma LowMaskHead(n: nat)
    requires n > 0
    ensures LowMask(n) == (LowMask(n - 1) << 8) | 0xFF
  {
  }

  lemma LowMaskSeven()
    ensures LowMask(7) == 0x00FF_FFFF_FFFF_FFFF
  {
  }

  lemma LowMaskEight()
    ensures LowMask(WORD_BYTES) == 0xFFFF_FFFF_FFFF_FFFF
  {
  }

  // ---------------------------------------------------------------------
  // Masks.

  /** A mask of fewer bytes is contained in a mask of more bytes. */
  lemma {:induction false} LowMaskNested(j: nat, i: nat)
    requires j <= i
    ensures LowMask(i) & LowMask(j) == LowMask(j)
    decreases j
  {
    if j > 0 {
      LowMaskHead(i);
      LowMaskHead(j);
      LowMaskNested(j - 1, i - 1);
      MaskAndStep(LowMask(i - 1), LowMask(j - 1));
    }
  }

  /** Below eight bytes a mask leaves the top byte clear. */
  lemma LowMaskBelowTop(j: nat)
    requires j < WORD_BYTES
    ensures 0x00FF_FFFF_FFFF_FFFF & LowMask(j) == LowMask(j)
  {
    LowMaskSeven();
    LowMaskNested(j, 7);
  }

  // ---------------------------------------------------------------------
  // The numeric value of a mask: LowMask(n) is 2^(8n) - 1. It is checked
  // one length at a time, where both sides are constants: converting a
  // symbolic 64-bit value to an integer is expensive for the verifier, so
  // each length gets its own small lemma and LowMaskValue dispatches on n.

  lemma LowMaskValue0(n: nat)
    requires n == 0
    ensures LowMask(n) as int == Pow256(n) - 1
  {
    assert LowMask(0) == 0;
  }

  lemma LowMaskValue1(n: nat)
    requires n == 1
    ensures LowMask(n) as int == Pow256(n) - 1
  {
    assert LowMask(1) == 0xFF;
  }

  lemma LowMaskValue2(n: nat)
    requires n == 2
    ensures LowMask(n) as int == Pow256(n) - 1
  {
    assert LowMask(2) == 0xFFFF;
  }

  lemma LowMaskValue3(n: nat)
    requires n == 3
    ensures LowMask(n) as int == Pow256(n) - 1
  {
    assert LowMask(3) == 0xFF_FFFF;
  }

  lemma LowMaskValue4(n: nat)
    requires n == 4
    ensures LowMask(n) as int == Pow256(n) - 1
  {
    assert LowMask(4) == 0xFFFF_FFFF;
  }

  lemma LowMaskValue5(n: nat)
    requires n == 5
    ensures LowMask(n) as int == Pow256(n) - 1
  {
    assert LowMask(5) == 0xFF_FFFF_FFFF;
  }

  lemma LowMaskValue6(n: nat)
    requires n == 6
    ensures LowMask(n) as int == Pow256(n) - 1
  {
    assert LowMask(6) == 0xFFFF_FFFF_FFFF;
  }

  lemma LowMaskValue7(n: nat)
    requires n == 7
    ensures LowMask(n) as int == Pow256(n) - 1
  {
    assert LowMask(7) == 0xFF_FFFF_FFFF_FFFF;
  }

  lemma LowMaskValue8(n: nat)
    requires n == 8
    ensures LowMask(n) as int == Pow256(n) - 1
  {
    assert LowMask(8) == 0xFFFF_FFFF_FFFF_FFFF;
  }

  /** LowMask(n) is 2^(8n) - 1, so `v & LowMask(n)` is v mod 2^(8n). */
  lemma LowMaskValue(n: nat)
    requires n <= WORD_BYTES
    ensures LowMask(n) as int == Pow256(n) - 1
  {
    match n
    case 0 => LowMaskValue0(n);
    case 1 => LowMaskValue1(n);
    case 2 => LowMaskValue2(n);
    case 3 => LowMaskValue3(n);
    case 4 => LowMaskValue4(n);
    case 5 => LowMaskValue5(n);
    case 6 => LowMaskValue6(n);
    case 7 => LowMaskValue7(n);
    case _ => LowMaskValue8(n);
  }

  // ---------------------------------------------------------------------
  // Encoding followed by decoding.

  lemma DecodeEncodeHead(v: u64, n: nat)
    requires n > 0
    ensures Decode(EncodeN(v, n)) == (v & 0xFF) | (Decode(EncodeN(v >> 8, n - 1)) << 8)
  {
    EncodeNCons(v, n);
    DecodeHead(EncodeN(v, n));
  }

  lemma {:induction false} DecodeEncodeN(v: u64, n: nat)
    ensures Decode(EncodeN(v, n)) == v & LowMask(n)
    decreases n
  {
    if n > 0 {
      DecodeEncodeHead(v, n);
      DecodeEncodeN(v >> 8, n - 1);
      LowMaskHead(n);
      MaskStep(v, LowMask(n - 1));
    }
  }

  /** The first n bytes of a longer encoding are the n-byte encoding. */
  lemma {:induction false} EncodeNPrefix(v: u64, n: nat, k: nat)
    requires n <= k
    ensures EncodeN(v, k)[..n] == EncodeN(v, n)
    decreases n
  {
    if n > 0 {
      EncodeNCons(v, n);
      EncodeNCons(v, k);
      EncodeNPrefix(v >> 8, n - 1, k - 1);
      assert EncodeN(v, k)[..n] == [EncodeN(v, k)[0]] + EncodeN(v, k)[1..][..n - 1];
    }
  }

  /** Round trip: reassembling the first n bytes of a word's encoding gives
      the word reduced to its low n bytes, that is v mod 2^(8n)
      (LowMaskValue). */
  lemma DecodeEncodePrefix(v: u64, n: nat)
    requires n <= WORD_BYTES
    ensures Decode(Encode(v)[..n]) == v & LowMask(n)
  {
    EncodeNPrefix(v, n, WORD_BYTES);
    DecodeEncodeN(v, n);
  }

  /** Round trip: all eight bytes give the word back. */
  lemma DecodeEncode(v: u64)
    ensures Decode(Encode(v)) == v
  {
    DecodeEncodeN(v, WORD_BYTES);
    LowMaskEight();
  }

  /** A word is determined by its eight bytes. */
  lemma EncodeInjective(x: u64, y: u64)
    ensures Encode(x) == Encode(y) ==> x == y
  {
    DecodeEncode(x);
    DecodeEncode(y);
  }

  // ---------------------------------------------------------------------
  // Decoding followed by encoding.

  lemma AgreeStep(x: u64, y: u64, n: nat)
    requires n > 0
    ensures x & LowMask(n) == y & LowMask(n) ==>
      (x & 0xFF) as byte == (y & 0xFF) as byte && (x >> 8) & LowMask(n - 1) == (y >> 8) & LowMask(n - 1)
  {
    LowMaskHead(n);
    AgreeSplit(x, y, LowMask(n - 1));
  }

  /** Two words with the same low n bytes have the same n-byte encoding. */
  lemma {:induction false} EncodeAgree(x: u64, y: u64, n: nat)
    ensures x & LowMask(n) == y & LowMask(n) ==> EncodeN(x, n) == EncodeN(y, n)
    decreases n
  {
    if n > 0 {
      AgreeStep(x, y, n);
      EncodeNCons(x, n);
      EncodeNCons(y, n);
      EncodeAgree(x >> 8, y >> 8, n - 1);
    }
  }

  lemma {:induction false} EncodeZero(n: nat)
    ensures EncodeN(0, n) == Zeros(n)
  {
    if n > 0 {
      EncodeZero(n - 1);
    }
  }

  lemma HornerTail(b: byte, d: u64, j: nat)
    requires j < WORD_BYTES
    ensures EncodeN(((b as u64) | (d << 8)) >> 8, j) == EncodeN(d, j)
  {
    LowMaskBelowTop(j);
    HornerShift(b, d, LowMask(j));
    EncodeAgree(((b as u64) | (d << 8)) >> 8, d, j);
  }

  lemma EncodeHorner(b: byte, d: u64, k: nat)
    requires 0 < k <= WORD_BYTES
    ensures EncodeN((b as u64) | (d << 8), k) == [b] + EncodeN(d, k - 1)
  {
    EncodeNCons((b as u64) | (d << 8), k);
    HornerTail(b, d, k - 1);
    HornerShift(b, d, 0);
  }

  lemma EncodeDecodeCons(bs: seq<byte>, k: nat)
    requires 0 < |bs| <= k <= WORD_BYTES
    ensures EncodeN(Decode(bs), k) == [bs[0]] + EncodeN(Decode(bs[1..]), k - 1)
  {
    DecodeHead(bs);
    EncodeHorner(bs[0], Decode(bs[1..]), k);
  }

  lemma {:induction false} EncodeDecodeN(bs: seq<byte>, k: nat)
    requires |bs| <= k <= WORD_BYTES
    ensures EncodeN(Decode(bs), k) == bs + Zeros(k - |bs|)
  {
    if |bs| == 0 {
      EncodeZero(k);
    } else {
      EncodeDecodeCons(bs, k);
      EncodeDecodeN(bs[1..], k - 1);
      assert bs == [bs[0]] + bs[1..];
    }
  }

  /** Reassembly is little-endian: byte i of bs lands in byte i of the result
      (bits 8i .. 8i+7), and every byte at or beyond |bs| is zero. */
  lemma EncodeDecode(bs: seq<byte>)
    requires |bs| <= WORD_BYTES
    ensures Encode(Decode(bs)) == Pad(bs)
    ensures forall i :: 0 <= i < |bs| ==> Encode(Decode(bs))[i] == bs[i]
    ensures forall i :: |bs| <= i < WORD_BYTES ==> Encode(Decode(bs))[i] == 0
  {
    EncodeDecodeN(bs, WORD_BYTES);
  }

  /** Byte sequences of the same length that reassemble to the same word are
      equal. */
  lemma DecodeInjective(a: seq<byte>, b: seq<byte>)
    requires |a| == |b| <= WORD_BYTES
    ensures Decode(a) == Decode(b) ==> a == b
  {
    EncodeDecode(a);
    EncodeDecode(b);
    assert Pad(a)[..|a|] == a;
    assert Pad(b)[..|b|] == b;
  }

  /** Zero bytes after the first |bs| do not change the reassembled word. */
  lemma DecodePad(bs: seq<byte>)
    requires |bs| <= WORD_BYTES
    ensures Decode(Pad(bs)) == Decode(bs)
  {
    EncodeDecode(bs);
    DecodeEncode(Decode(bs));
  }

  // ---------------------------------------------------------------------
  // The size of a reassembled word.

  lemma MaskedBelow(x: u64, m: u64)
    ensures x & m == x ==> x <= m
  {
  }

  lemma AndBelow(x: u64, m: u64)
    ensures x & m <= m
  {
  }

  lemma AndZero(x: u64)
    ensures x & LowMask(0) == 0
  {
  }

  lemma AndOnes(x: u64)
    ensures x & 0xFFFF_FFFF_FFFF_FFFF == x
  {
  }

  lemma {:induction false} DecodeMasked(bs: seq<byte>)
    ensures Decode(bs) & LowMask(|bs|) == Decode(bs)
  {
    if |bs| > 0 {
      DecodeHead(bs);
      LowMaskHead(|bs|);
      DecodeMasked(bs[1..]);
      HornerMask(bs[0], Decode(bs[1..]), LowMask(|bs| - 1));
    }
  }

  /** n bytes never set a bit at or above byte n: the reassembled word is at
      most LowMask(n) = 2^(8n) - 1, so below 2^(8n). */
  lemma DecodeBound(bs: seq<byte>)
    ensures Decode(bs) & LowMask(|bs|) == Decode(bs)
    ensures Decode(bs) <= LowMask(|bs|)
  {
    DecodeMasked(bs);
    MaskedBelow(Decode(bs), LowMask(|bs|));
  }

  // ---------------------------------------------------------------------
  // The shape of the client's loop: or-ing in one byte at the next position.

  lemma {:induction false} LiftIsShift(b: byte, j: nat)
    requires j < WORD_BYTES
    ensures Lift(b, j) == (b as u64) << (8 * j)
  {
    if j > 0 {
      LiftIsShift(b, j - 1);
    }
  }

  lemma SnocStep(h: u64, d: u64, l: u64)
    ensures h | ((d | l) << 8) == (h | (d << 8)) | (l << 8)
  {
  }

  lemma LiftHead(b: byte, j: nat)
    requires j > 0
    ensures Lift(b, j) == Lift(b, j - 1) << 8
  {
  }

  lemma {:induction false} DecodeSnocLift(s: seq<byte>, b: byte)
    ensures Decode(s + [b]) == Decode(s) | Lift(b, |s|)
  {
    if |s| > 0 {
      var t := s + [b];
      assert t[0] == s[0] && t[1..] == s[1..] + [b];
      DecodeHead(t);
      DecodeHead(s);
      DecodeSnocLift(s[1..], b);
      LiftHead(b, |s|);
      SnocStep(s[0] as u64, Decode(s[1..]), Lift(b, |s| - 1));
    }
  }
}
