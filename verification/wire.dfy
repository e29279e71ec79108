/** The byte-level building blocks of the format: bytes, the int32 length
    fields written by `BitConverter`, and the text encodings of field names. */
module Wire {

  type byte = x: int | 0 <= x < 256

  const Two32: int := 0x1_0000_0000
  const MaxInt32: int := 0x7FFF_FFFF

  predicate IsInt32(n: int) {
    -0x8000_0000 <= n <= MaxInt32
  }

  function Pow256(k: nat): (p: nat)
    ensures p >= 1
  {
    if k == 0 then 1 else 256 * Pow256(k - 1)
  }

  /** The `k` low-order bytes of `u`, least significant first. */
  function LittleEndian(u: nat, k: nat): (r: seq<byte>)
    ensures |r| == k
  {
    if k == 0 then [] else [u % 256] + LittleEndian(u / 256, k - 1)
  }

  /** The unsigned number whose little-endian image is `b`. */
  function FromLittleEndian(b: seq<byte>): (u: nat)
    ensures u < Pow256(|b|)
  {
    if b == [] then 0 else b[0] + 256 * FromLittleEndian(b[1..])
  }

  lemma {:induction false} LittleEndianRoundTrip(u: nat, k: nat)
    requires u < Pow256(k)
    ensures FromLittleEndian(LittleEndian(u, k)) == u
  {
    if k > 0 {
      LittleEndianRoundTrip(u / 256, k - 1);
      assert LittleEndian(u, k)[1..] == LittleEndian(u / 256, k - 1);
    }
  }

  /** `BitConverter.GetBytes(int)` on a little-endian host: the two's
      complement image of `n`, which is reduced modulo 2^32. */
  function Int32Bytes(n: int): (r: seq<byte>)
    ensures |r| == 4
    ensures FromLittleEndian(r) == n % Two32
  {
    assert Pow256(4) == Two32;
    LittleEndianRoundTrip(n % Two32, 4);
    LittleEndian(n % Two32, 4)
  }

  /** `BitConverter.ToInt32` on the first four bytes of `b`. */
  function ReadInt32(b: seq<byte>): (n: int)
    requires |b| >= 4
    ensures IsInt32(n) && n % Two32 == FromLittleEndian(b[..4])
  {
    var u := FromLittleEndian(b[..4]);
    assert Pow256(4) == Two32;
    if u > MaxInt32 then u - Two32 else u
  }

  lemma Int32RoundTrip(n: int)
    requires IsInt32(n)
    ensures ReadInt32(Int32Bytes(n)) == n
  {
    assert Pow256(4) == Two32;
    LittleEndianRoundTrip(n % Two32, 4);
    assert Int32Bytes(n)[..4] == Int32Bytes(n);
  }

  /** Reading a length field only looks at its own four bytes. */
  lemma ReadInt32Prefix(n: int, rest: seq<byte>)
    requires IsInt32(n)
    ensures ReadInt32(Int32Bytes(n) + rest) == n
  {
    Int32RoundTrip(n);
    assert (Int32Bytes(n) + rest)[..4] == Int32Bytes(n) == Int32Bytes(n)[..4];
  }

  /** `Encoding.UTF8` applied to one Unicode scalar value. */
  function Utf8Char(c: char): (r: seq<byte>)
    ensures 1 <= |r| <= 4
    ensures |r| == 1 <==> c as int < 0x80
    ensures |r| == 4 <==> c as int >= 0x1_0000
  {
    var cp := c as int;
    if cp < 0x80 then [cp]
    else if cp < 0x800 then [0xC0 + cp / 64, 0x80 + cp % 64]
    else if cp < 0x1_0000 then [0xE0 + cp / 0x1000, 0x80 + (cp / 64) % 64, 0x80 + cp % 64]
    else [0xF0 + cp / 0x4_0000, 0x80 + (cp / 0x1000) % 64, 0x80 + (cp / 64) % 64, 0x80 + cp % 64]
  }

  /** `Encoding.UTF8.GetBytes(s)`. */
  function Utf8(s: string): (r: seq<byte>)
    ensures |s| <= |r| <= 4 * |s|
  {
    if s == [] then [] else Utf8Char(s[0]) + Utf8(s[1..])
  }

  /** `String.Length`: the number of UTF-16 code units, two for a character
      outside the Basic Multilingual Plane. */
  function Utf16Length(s: string): (n: nat)
    ensures |s| <= n <= 2 * |s|
  {
    if s == [] then 0 else (if s[0] as int >= 0x1_0000 then 2 else 1) + Utf16Length(s[1..])
  }

  predicate IsAscii(s: string) {
    forall i :: 0 <= i < |s| ==> s[i] as int < 0x80
  }

  /** For an ASCII name the character count, the UTF-16 length and the
      UTF-8 byte count coincide, and each byte is the character's code. */
  lemma {:induction false} AsciiLengths(s: string)
    requires IsAscii(s)
    ensures Utf16Length(s) == |Utf8(s)| == |s|
    ensures forall i :: 0 <= i < |s| ==> Utf8(s)[i] == s[i] as int
  {
    if s != [] {
      assert IsAscii(s[1..]) by {
        forall i | 0 <= i < |s[1..]| ensures s[1..][i] as int < 0x80 {
          assert s[1..][i] == s[i + 1];
        }
      }
      AsciiLengths(s[1..]);
      forall i | 0 <= i < |s| ensures Utf8(s)[i] == s[i] as int {
        if i > 0 {
          assert Utf8(s)[i] == Utf8(s[1..])[i - 1];
          assert s[1..][i - 1] == s[i];
        }
      }
    }
  }

  /** Distinct ASCII names have distinct UTF-8 images, so a frame's name
      bytes identify one field. */
  lemma AsciiUtf8Injective(a: string, b: string)
    requires IsAscii(a) && IsAscii(b)
    requires Utf8(a) == Utf8(b)
    ensures a == b
  {
    AsciiLengths(a);
    AsciiLengths(b);
    assert |a| == |b|;
    forall i | 0 <= i < |a| ensures a[i] == b[i] {
      assert a[i] as int == Utf8(a)[i] == Utf8(b)[i] == b[i] as int;
    }
  }

  /** A name outside ASCII: its length prefix counts one code unit while
      its UTF-8 image has two bytes. */
  lemma NonAsciiNameLengthMismatch()
    ensures Utf16Length("é") == 1
    ensures Utf8("é") == [0xC3, 0xA9]
  {
  }
}
