/**
 The rendering of a digest as text: every byte is formatted with `{:x}` and the
 pieces are joined with no separator (src/main.rs:135). `{:x}` prints lowercase
 hexadecimal WITHOUT zero padding, so a byte below 16 becomes one character.
 */
module Hex {
  import opened Io

  /** A character `{:x}` can produce: a digit or a lowercase letter up to `f`. */
  predicate IsHexDigit(c: char)
  {
    '0' <= c <= '9' || 'a' <= c <= 'f'
  }

  /** The lowercase hexadecimal digit for a value below 16. */
  function Digit(n: nat): (c: char)
    requires n < 16
    ensures IsHexDigit(c)
  {
    if n < 10 then ('0' as int + n) as char else ('a' as int + n - 10) as char
  }

  /** The value of a lowercase hexadecimal digit; the inverse of `Digit` in both directions. */
  function DigitValue(c: char): (n: nat)
    requires IsHexDigit(c)
    ensures n < 16 && Digit(n) == c
    ensures forall m :: 0 <= m < 16 && Digit(m) == c ==> m == n
  {
    if '0' <= c <= '9' then c as int - '0' as int else c as int - 'a' as int + 10
  }

  /** One byte under `{:x}`: one digit below 16, two digits otherwise, never padded. */
  function ByteHex(b: byte): (s: string)
    ensures |s| == (if b < 16 then 1 else 2)
    ensures forall i :: 0 <= i < |s| ==> IsHexDigit(s[i])
    ensures s[0] != '0' || b == 0
  {
    if b < 16 then [Digit(b)] else [Digit(b / 16), Digit(b % 16)]
  }

  /** The number a string of lowercase hexadecimal digits denotes (most significant first). */
  function ParseHex(s: string): nat
    requires forall i :: 0 <= i < |s| ==> IsHexDigit(s[i])
  {
    if s == [] then 0 else ParseHex(s[..|s| - 1]) * 16 + DigitValue(s[|s| - 1])
  }

  /** One byte's rendering alone determines the byte: `ByteHex` is injective. */
  lemma {:induction false} ByteHexRoundTrip(b: byte)
    ensures ParseHex(ByteHex(b)) == b
  {
    var s := ByteHex(b);
    if b < 16 {
      assert s[..0] == [];
    } else {
      assert s[..1] == [Digit(b / 16)];
      assert s[..1][..0] == [];
      assert ParseHex(s[..1]) == b / 16;
      assert DigitValue(s[1]) == b % 16;
      assert ParseHex(s) == (b / 16) * 16 + b % 16;
    }
  }

  /** The fingerprint of a digest: each byte rendered by `ByteHex`, joined with no separator. */
  function HexDigest(d: seq<byte>): (s: string)
    ensures forall i :: 0 <= i < |s| ==> IsHexDigit(s[i])
  {
    if d == [] then "" else ByteHex(d[0]) + HexDigest(d[1..])
  }

  /** Joining distributes over concatenation of the byte sequence. */
  lemma {:induction false} HexDigestAppend(a: seq<byte>, b: seq<byte>)
    ensures HexDigest(a + b) == HexDigest(a) + HexDigest(b)
  {
    if a == [] {
      assert a + b == b;
    } else {
      assert (a + b)[1..] == a[1..] + b;
      HexDigestAppend(a[1..], b);
    }
  }

  /** Each byte gives one or two characters, so the length lies between |d| and 2|d|. */
  lemma {:induction false} HexDigestLength(d: seq<byte>)
    ensures |d| <= |HexDigest(d)| <= 2 * |d|
    ensures |HexDigest(d)| == 2 * |d| <==> forall i :: 0 <= i < |d| ==> d[i] >= 16
  {
    if d != [] {
      HexDigestLength(d[1..]);
      assert forall i :: 1 <= i < |d| ==> d[i] == d[1..][i - 1];
    }
  }

  /** A 32-byte SHA-256 digest renders to 32 to 64 characters. */
  lemma Sha256FingerprintLength(d: seq<byte>)
    requires |d| == 32
    ensures 32 <= |HexDigest(d)| <= 64
  {
    HexDigestLength(d);
  }

  /** The rendering is not injective: `[0x1, 0x23]` and `[0x12, 0x3]` both give "123". */
  lemma HexDigestCollision()
    ensures HexDigest([0x1, 0x23]) == HexDigest([0x12, 0x3]) == "123"
  {
    assert [0x1, 0x23][1..] == [0x23];
    assert [0x12, 0x3][1..] == [0x3];
  }

  /** Hence two different 32-byte digests can give the same fingerprint. */
  lemma {:induction false} DigestsCanShareFingerprint()
    ensures exists a: seq<byte>, b: seq<byte> ::
      |a| == |b| == 32 && a != b && HexDigest(a) == HexDigest(b)
  {
    var pad: seq<byte> := seq(30, _ => 0x10);
    var a: seq<byte> := [0x1, 0x23] + pad;
    var b: seq<byte> := [0x12, 0x3] + pad;
    HexDigestAppend([0x1, 0x23], pad);
    HexDigestAppend([0x12, 0x3], pad);
    HexDigestCollision();
    assert a[0] != b[0];
  }
}
