/**
 * UTF-8 as `TextEncoder.encode` produces it (RFC 3629): one to four bytes per
 * Unicode scalar value, the shortest form.
 */
module Utf8 {
  import opened Base64

  /** The bytes of one scalar value. */
  function EncodeChar(c: char): (b: seq<uint8>)
    ensures 1 <= |b| <= 4
    ensures |b| == 1 <==> (c as int) < 0x80
  {
    var n := c as int;
    if n < 0x80 then [n as uint8]
    else if n < 0x800 then [(0xC0 + n / 64) as uint8, (0x80 + n % 64) as uint8]
    else if n < 0x10000 then
      [(0xE0 + n / 4096) as uint8, (0x80 + n / 64 % 64) as uint8, (0x80 + n % 64) as uint8]
    else
      [(0xF0 + n / 262144) as uint8, (0x80 + n / 4096 % 64) as uint8,
       (0x80 + n / 64 % 64) as uint8, (0x80 + n % 64) as uint8]
  }

  function Encode(s: string): seq<uint8>
  {
    if s == [] then [] else EncodeChar(s[0]) + Encode(s[1..])
  }

  /** The byte order mark U+FEFF. */
  const Bom: char := '\U{FEFF}'

  /** What `TextDecoder.decode` with its default `ignoreBOM: false` does to
      the decoded text: one leading byte order mark is dropped. */
  function StripBom(s: string): string {
    if s != [] && s[0] == Bom then s[1..] else s
  }

  /** `StripBom` keeps a suffix, one char shorter exactly when the text starts with U+FEFF. */
  lemma StripBomSuffix(s: string)
    ensures var r := StripBom(s); |s| - 1 <= |r| <= |s| && r == s[|s| - |r|..]
    ensures |StripBom(s)| < |s| <==> s != [] && s[0] == Bom
  {
  }

  predicate IsAscii(s: string) {
    forall i | 0 <= i < |s| :: (s[i] as int) < 0x80
  }

  /** Each char takes one to four bytes. */
  lemma {:induction false} EncodeLength(s: string)
    ensures |s| <= |Encode(s)| <= 4 * |s|
    ensures |Encode(s)| == |s| <==> IsAscii(s)
    decreases |s|
  {
    if s != [] {
      EncodeLength(s[1..]);
      assert IsAscii(s) <==> (s[0] as int) < 0x80 && IsAscii(s[1..]) by {
        if (s[0] as int) < 0x80 && IsAscii(s[1..]) {
          forall i | 0 <= i < |s| ensures (s[i] as int) < 0x80 {
            if i > 0 { assert s[i] == s[1..][i - 1]; }
          }
        }
      }
    }
  }

  /** An ASCII string encodes to its own character codes, one byte each. */
  lemma {:induction false} EncodeAscii(s: string)
    requires IsAscii(s)
    ensures |Encode(s)| == |s|
    ensures forall i | 0 <= i < |s| :: Encode(s)[i] as int == s[i] as int
    decreases |s|
  {
    if s != [] {
      assert IsAscii(s[1..]) by {
        forall i | 0 <= i < |s[1..]| ensures (s[1..][i] as int) < 0x80 {
          assert s[1..][i] == s[i + 1];
        }
      }
      EncodeAscii(s[1..]);
      assert Encode(s) == [s[0] as int as uint8] + Encode(s[1..]);
    }
  }

  /** An ASCII string encodes to exactly the bytes of its character codes. */
  lemma AsciiBytes(s: string, b: seq<uint8>)
    requires IsAscii(s) && |b| == |s|
    requires forall i | 0 <= i < |s| :: b[i] as int == s[i] as int
    ensures Encode(s) == b
  {
    EncodeAscii(s);
  }
}
