/**
 * Byte-level encodings used by the SHA256 class: the big-endian load of a
 * schedule word from four message bytes, the big-endian 64-bit length
 * field appended by finalize, and the fixed-width lowercase hexadecimal
 * rendering of a hash word. Each encoding comes with its decoder and a
 * round-trip lemma.
 */
module ByteEncoding {

  const TWO_32: nat := 0x1_0000_0000
  const TWO_64: nat := 0x1_0000_0000_0000_0000

  // ---------------------------------------------------------------------
  // 32-bit words from bytes
  // ---------------------------------------------------------------------

  /**
   * `(b0 << 24) | (b1 << 16) | (b2 << 8) | b3`: each byte is widened to 32
   * bits before it is shifted, so the load is unsigned and big-endian.
   */
  function LoadWord(b0: bv8, b1: bv8, b2: bv8, b3: bv8): bv32
  {
    (b0 as bv32 << 24) | (b1 as bv32 << 16) | (b2 as bv32 << 8) | (b3 as bv32)
  }

  /** The four bytes of a word, most significant first. */
  function WordBytes(w: bv32): (r: seq<bv8>)
    ensures |r| == 4
  {
    [(w >> 24) as bv8, ((w >> 16) & 0xFF) as bv8, ((w >> 8) & 0xFF) as bv8, (w & 0xFF) as bv8]
  }

  /** Loading the bytes of a word gives the word back. */
  lemma LoadWordBytes(w: bv32)
    ensures LoadWord(WordBytes(w)[0], WordBytes(w)[1], WordBytes(w)[2], WordBytes(w)[3]) == w
  {
  }

  /** Splitting a loaded word gives the four bytes back, first byte first. */
  lemma WordBytesLoad(b0: bv8, b1: bv8, b2: bv8, b3: bv8)
    ensures WordBytes(LoadWord(b0, b1, b2, b3)) == [b0, b1, b2, b3]
  {
  }

  // ---------------------------------------------------------------------
  // The 64-bit length field
  // ---------------------------------------------------------------------

  /** `x >> (8 * i)` on an unsigned integer: i divisions by 256. */
  function ShiftRightBytes(x: nat, i: nat): nat
  {
    if i == 0 then x else ShiftRightBytes(x / 256, i - 1)
  }

  /** `static_cast<uint8_t>((x >> (i * 8)) & 0xFF)`: byte i, counted from the least significant. */
  function ByteAt(x: nat, i: nat): bv8
  {
    (ShiftRightBytes(x, i) % 256) as bv8
  }

  /** The eight bytes finalize appends, for i from 7 down to 0. */
  function LengthBytes(x: nat): (r: seq<bv8>)
    ensures |r| == 8
  {
    seq(8, k requires 0 <= k < 8 => ByteAt(x, 7 - k))
  }

  /** The unsigned integer a byte string denotes, most significant byte first. */
  function FromBigEndian(s: seq<bv8>): nat
  {
    if s == [] then 0 else FromBigEndian(s[..|s| - 1]) * 256 + s[|s| - 1] as nat
  }

  /** The n-byte big-endian encoding of x, built from its last byte backwards. */
  function ToBigEndian(x: nat, n: nat): (r: seq<bv8>)
    ensures |r| == n
  {
    if n == 0 then [] else ToBigEndian(x / 256, n - 1) + [(x % 256) as bv8]
  }

  function Pow256(n: nat): (r: nat)
    ensures r > 0
  {
    if n == 0 then 1 else 256 * Pow256(n - 1)
  }

  lemma SmallByteRoundTrip(x: nat)
    requires x < 256
    ensures (x as bv8) as nat == x
  {
    assert x as bv8 as bv16 == x as bv16;
  }

  lemma ByteRoundTrip(x: nat)
    ensures ((x % 256) as bv8) as nat == x % 256
  {
    SmallByteRoundTrip(x % 256);
  }

  lemma DivBound(x: nat, d: nat, p: nat)
    requires d > 0 && x < d * p
    ensures x / d < p
  {
  }

  lemma {:induction false} ToBigEndianRoundTrip(x: nat, n: nat)
    requires x < Pow256(n)
    ensures FromBigEndian(ToBigEndian(x, n)) == x
  {
    if n > 0 {
      var r := ToBigEndian(x, n);
      assert r[..n - 1] == ToBigEndian(x / 256, n - 1);
      assert r[n - 1] == (x % 256) as bv8;
      assert x / 256 < Pow256(n - 1) by {
        DivBound(x, 256, Pow256(n - 1));
      }
      ToBigEndianRoundTrip(x / 256, n - 1);
      ByteRoundTrip(x);
      var q, b := x / 256, x % 256;
      assert FromBigEndian(r) == FromBigEndian(r[..n - 1]) * 256 + r[n - 1] as nat;
      assert FromBigEndian(r) == q * 256 + b;
      assert x == q * 256 + b;
    }
  }

  /** Position n-1-i of the n-byte encoding holds byte i of x. */
  lemma {:induction false} ToBigEndianByteAt(x: nat, n: nat, i: nat)
    requires i < n
    ensures ToBigEndian(x, n)[n - 1 - i] == ByteAt(x, i)
  {
    if i > 0 {
      ToBigEndianByteAt(x / 256, n - 1, i - 1);
    }
  }

  lemma LengthBytesIsBigEndian(x: nat)
    ensures LengthBytes(x) == ToBigEndian(x, 8)
  {
    forall k | 0 <= k < 8
      ensures LengthBytes(x)[k] == ToBigEndian(x, 8)[k]
    {
      ToBigEndianByteAt(x, 8, 7 - k);
    }
  }

  /**
   * The length field is the big-endian encoding of the counter: decoding
   * the eight appended bytes gives back every 64-bit value.
   */
  lemma LengthBytesRoundTrip(x: nat)
    requires x < TWO_64
    ensures FromBigEndian(LengthBytes(x)) == x
  {
    LengthBytesIsBigEndian(x);
    assert Pow256(8) == TWO_64;
    ToBigEndianRoundTrip(x, 8);
  }

  // ---------------------------------------------------------------------
  // Hexadecimal rendering: `hex << setw(8) << setfill('0') << word`
  // ---------------------------------------------------------------------

  /** The digits `std::hex` writes: 0-9 then lowercase a-f. */
  predicate IsLowerHex(c: char)
  {
    '0' <= c <= '9' || 'a' <= c <= 'f'
  }

  function HexDigit(d: nat): (c: char)
    requires d < 16
    ensures IsLowerHex(c)
  {
    if d < 10 then ('0' as int + d) as char else ('a' as int + d - 10) as char
  }

  /** The value of a lowercase hexadecimal digit; `HexDigit` and `DigitValue` are inverse. */
  function DigitValue(c: char): (d: nat)
    requires IsLowerHex(c)
    ensures d < 16 && HexDigit(d) == c
  {
    if '0' <= c <= '9' then c as int - '0' as int else c as int - 'a' as int + 10
  }

  lemma DigitValueOfHexDigit(d: nat)
    requires d < 16
    ensures DigitValue(HexDigit(d)) == d
  {
  }

  /** What the hex manipulator prints for n: its digits without leading zeros ("0" for 0). */
  function ToHex(n: nat): (s: string)
    ensures |s| >= 1
    ensures AllHex(s)
  {
    if n < 16 then [HexDigit(n)] else ToHex(n / 16) + [HexDigit(n % 16)]
  }

  /** n copies of one character. */
  function Fill(n: nat, c: char): (r: string)
    ensures |r| == n && forall j :: 0 <= j < n ==> r[j] == c
  {
    seq(n, _ => c)
  }

  /** What `setw(width)` with `setfill(fill)` does: pad on the left up to the width, never cut. */
  function PadLeft(s: string, width: nat, fill: char): (r: string)
    ensures |r| == if |s| >= width then |s| else width
  {
    if |s| >= width then s else Fill(width - |s|, fill) + s
  }

  /** One hash word as the stream writes it. */
  function HexWord(w: bv32): string
  {
    PadLeft(ToHex(w as nat), 8, '0')
  }

  /** The words written one after another, word 0 first. */
  function HexWords(words: seq<bv32>): (s: string)
    ensures |s| == 8 * |words|
  {
    if words == [] then ""
    else
      HexWordLength(words[|words| - 1]);
      HexWords(words[..|words| - 1]) + HexWord(words[|words| - 1])
  }

  predicate AllHex(s: string)
  {
    forall j :: 0 <= j < |s| ==> IsLowerHex(s[j])
  }

  /** The value a string of lowercase hexadecimal digits denotes. */
  function FromHex(s: string): nat
    requires AllHex(s)
  {
    if s == [] then 0 else FromHex(s[..|s| - 1]) * 16 + DigitValue(s[|s| - 1])
  }

  function Pow16(n: nat): (r: nat)
    ensures r > 0
  {
    if n == 0 then 1 else 16 * Pow16(n - 1)
  }

  lemma {:induction false} ToHexLength(n: nat, k: nat)
    requires 1 <= k && n < Pow16(k)
    ensures |ToHex(n)| <= k
  {
    if n >= 16 {
      assert k >= 2;
      ToHexLength(n / 16, k - 1);
    }
  }

  lemma {:induction false} ToHexRoundTrip(n: nat)
    ensures FromHex(ToHex(n)) == n
  {
    var s := ToHex(n);
    DigitValueOfHexDigit(n % 16);
    if n >= 16 {
      assert s[..|s| - 1] == ToHex(n / 16);
      assert s[|s| - 1] == HexDigit(n % 16);
      ToHexRoundTrip(n / 16);
      assert FromHex(s) == FromHex(ToHex(n / 16)) * 16 + n % 16;
    } else {
      assert s == [HexDigit(n)];
    }
  }

  lemma AllHexConcat(a: string, b: string)
    requires AllHex(a) && AllHex(b)
    ensures AllHex(a + b)
  {
    forall j | 0 <= j < |a + b|
      ensures IsLowerHex((a + b)[j])
    {
      if j >= |a| {
        assert (a + b)[j] == b[j - |a|];
      }
    }
  }

  lemma {:induction false} FromHexZeros(z: nat)
    ensures AllHex(Fill(z, '0'))
    ensures FromHex(Fill(z, '0')) == 0
  {
    if z > 0 {
      assert Fill(z, '0')[..z - 1] == Fill(z - 1, '0');
      FromHexZeros(z - 1);
    }
  }

  /** Leading zeros do not change the value of a hexadecimal string. */
  lemma {:induction false} FromHexLeadingZeros(z: nat, s: string)
    requires AllHex(s)
    ensures AllHex(Fill(z, '0') + s)
    ensures FromHex(Fill(z, '0') + s) == FromHex(s)
  {
    FromHexZeros(z);
    AllHexConcat(Fill(z, '0'), s);
    var t := Fill(z, '0') + s;
    if s == [] {
      assert t == Fill(z, '0');
    } else {
      var front := s[..|s| - 1];
      assert AllHex(front);
      assert t[..|t| - 1] == Fill(z, '0') + front;
      assert t[|t| - 1] == s[|s| - 1];
      FromHexLeadingZeros(z, front);
    }
  }

  /** Every word is written as exactly eight digits, as setw(8) promises for a 32-bit value. */
  lemma HexWordLength(w: bv32)
    ensures |HexWord(w)| == 8
  {
    assert Pow16(8) == TWO_32;
    ToHexLength(w as nat, 8);
  }

  /**
   * The eight characters written for a word are lowercase hexadecimal
   * digits and read back as that word: the rendering loses nothing.
   */
  lemma HexWordRoundTrip(w: bv32)
    ensures |HexWord(w)| == 8
    ensures AllHex(HexWord(w))
    ensures FromHex(HexWord(w)) == w as nat
  {
    HexWordLength(w);
    var digits := ToHex(w as nat);
    var z := 8 - |digits|;
    assert HexWord(w) == Fill(z, '0') + digits;
    ToHexRoundTrip(w as nat);
    FromHexLeadingZeros(z, digits);
  }

  /** Word i of the list occupies characters 8i .. 8i+8 of the rendering. */
  lemma {:induction false} HexWordsAt(words: seq<bv32>, i: nat)
    requires i < |words|
    ensures |HexWords(words)| == 8 * |words|
    ensures HexWords(words)[8 * i .. 8 * i + 8] == HexWord(words[i])
  {
    var n := |words|;
    var front := words[..n - 1];
    var head, last := HexWords(front), HexWord(words[n - 1]);
    assert HexWords(words) == head + last;
    if i < n - 1 {
      HexWordsAt(front, i);
      assert (head + last)[8 * i .. 8 * i + 8] == head[8 * i .. 8 * i + 8];
    } else {
      assert 8 * i == |head|;
      assert (head + last)[8 * i .. 8 * i + 8] == last;
    }
  }

  /** The rendering of a list of words is all lowercase hexadecimal. */
  lemma {:induction false} HexWordsAllHex(words: seq<bv32>)
    ensures AllHex(HexWords(words))
  {
    if words != [] {
      var n := |words|;
      HexWordsAllHex(words[..n - 1]);
      HexWordRoundTrip(words[n - 1]);
      AllHexConcat(HexWords(words[..n - 1]), HexWord(words[n - 1]));
    }
  }

  /**
   * The rendering of a list of words is all lowercase hexadecimal, eight
   * characters per word in order, each group reading back as its word.
   */
  lemma HexWordsShape(words: seq<bv32>)
    ensures |HexWords(words)| == 8 * |words|
    ensures AllHex(HexWords(words))
    ensures forall i :: 0 <= i < |words| ==>
      HexWords(words)[8 * i .. 8 * i + 8] == HexWord(words[i]) &&
      FromHex(HexWord(words[i])) == words[i] as nat
  {
    var d := HexWords(words);
    forall i | 0 <= i < |words|
      ensures d[8 * i .. 8 * i + 8] == HexWord(words[i]) && FromHex(HexWord(words[i])) == words[i] as nat
    {
      HexWordsAt(words, i);
      HexWordRoundTrip(words[i]);
    }
    HexWordsAllHex(words);
  }
}
