/** Byte buffers as Node's `Buffer` presents them: sequences of integers in
    0..255, read and written as unsigned 16-bit fields, and single bytes
    rendered as two upper-case hexadecimal digits. */
module Bytes {
  import opened Text

  type byte = x: int | 0 <= x < 256

  /** `buf.readUInt16LE(off)`. */
  function U16LE(data: seq<byte>, off: nat): (v: nat)
    requires off + 2 <= |data|
    ensures v < 65536
  {
    data[off] as int + 256 * data[off + 1] as int
  }

  /** `buf.readUInt16BE(off)`. */
  function U16BE(data: seq<byte>, off: nat): (v: nat)
    requires off + 2 <= |data|
    ensures v < 65536
  {
    256 * data[off] as int + data[off + 1] as int
  }

  /** The two bytes `buf.writeUInt16BE(v, off)` stores, most significant first. */
  function U16BEBytes(v: nat): (bs: seq<byte>)
    requires v < 65536
    ensures |bs| == 2 && 256 * bs[0] as int + bs[1] as int == v
  {
    [v / 256, v % 256]
  }

  /** The two bytes `buf.writeUInt16LE(v, off)` stores, least significant first. */
  function U16LEBytes(v: nat): (bs: seq<byte>)
    requires v < 65536
    ensures |bs| == 2 && bs[0] as int + 256 * bs[1] as int == v
  {
    [v % 256, v / 256]
  }

  /** The conversion a typed-array element store applies to an integer
      (ToUint8): reduction modulo 256 into 0..255. */
  function ToUint8(x: int): (b: byte)
    ensures 0 <= x < 256 ==> b == x
    ensures (b - x) % 256 == 0
  {
    x % 256
  }

  const Two32: nat := 0x1_0000_0000

  /** ToUint32, as `DataView.setUint32` applies it: reduction modulo 2^32. */
  function ToUint32(x: int): (w: nat)
    ensures w < Two32
    ensures 0 <= x < Two32 ==> w == x
    ensures (w - x) % Two32 == 0
  {
    x % Two32
  }

  /** The four bytes `view.setUint32(0, w, false)` stores, most significant first. */
  function U32BEBytes(w: nat): (bs: seq<byte>)
    requires w < Two32
    ensures |bs| == 4
    ensures ((bs[0] as int * 256 + bs[1] as int) * 256 + bs[2] as int) * 256 + bs[3] as int == w
  {
    var q1 := w / 256;
    var q2 := q1 / 256;
    [q2 / 256, q2 % 256, q1 % 256, w % 256]
  }

  function LowerHexDigit(d: nat): (c: char)
    requires d < 16
    ensures IsHexDigit(c) && HexDigitValue(c) == d
  {
    if d < 10 then ('0' as int + d) as char else ('a' as int + d - 10) as char
  }

  /** `n.toString(16)`: lower-case hexadecimal without leading zeros. */
  function NatToHex(n: nat): (s: string)
    ensures |s| >= 1 && AllHexDigits(s)
  {
    if n < 16 then [LowerHexDigit(n)] else NatToHex(n / 16) + [LowerHexDigit(n % 16)]
  }

  /** `s.padStart(width, '0')`. */
  function PadStartZero(s: string, width: nat): (t: string)
    ensures |t| == if |s| >= width then |s| else width
  {
    if |s| >= width then s else seq(width - |s|, _ => '0') + s
  }

  /** `byte.toString(16).padStart(2, '0').toUpperCase()`. */
  function Hex2(b: byte): string {
    Upper(PadStartZero(NatToHex(b), 2))
  }

  predicate IsUpperHexDigit(c: char) {
    '0' <= c <= '9' || 'A' <= c <= 'F'
  }

  /** Every byte renders as exactly two upper-case hexadecimal digits whose
      value is the byte. */
  lemma Hex2Shape(b: byte)
    ensures |Hex2(b)| == 2
    ensures IsUpperHexDigit(Hex2(b)[0]) && IsUpperHexDigit(Hex2(b)[1])
    ensures AllHexDigits(Hex2(b)) && HexNumber(Hex2(b)) == b
  {
    Hex2Lower(b);
    UpperDigitPair(b / 16, b % 16);
  }

  /** Before upper-casing, a byte is its two lower-case digits. */
  lemma Hex2Lower(b: byte)
    ensures PadStartZero(NatToHex(b), 2) == [LowerHexDigit(b / 16), LowerHexDigit(b % 16)]
  {
    if b < 16 {
      assert NatToHex(b) == [LowerHexDigit(b)];
    } else {
      assert NatToHex(b / 16) == [LowerHexDigit(b / 16)];
    }
  }

  /** Two lower-case digits, upper-cased, read back as their value. */
  lemma UpperDigitPair(hi: nat, lo: nat)
    requires hi < 16 && lo < 16
    ensures var h := Upper([LowerHexDigit(hi), LowerHexDigit(lo)]);
      |h| == 2 && IsUpperHexDigit(h[0]) && IsUpperHexDigit(h[1])
      && AllHexDigits(h) && HexNumber(h) == 16 * hi + lo
  {
    var h := Upper([LowerHexDigit(hi), LowerHexDigit(lo)]);
    UpperDigit(hi);
    UpperDigit(lo);
    assert h[..1] == [h[0]];
  }

  lemma UpperDigit(d: nat)
    requires d < 16
    ensures IsUpperHexDigit(UpperChar(LowerHexDigit(d)))
    ensures IsHexDigit(UpperChar(LowerHexDigit(d))) && HexDigitValue(UpperChar(LowerHexDigit(d))) == d
  {
  }
}
