/**
 * Base64 as the browser provides it to `encodeBase64` / `decodeBase64`:
 * `btoa` encodes a "binary string" (one char per byte) with the alphabet and
 * padding of section 4 of RFC 4648, and `atob` decodes with the WHATWG
 * "forgiving-base64 decode" algorithm (ASCII whitespace removed, padding
 * optional, leftover bits of a partial quantum discarded).
 */
module Base64 {
  import opened Wrappers

  newtype uint8 = x: int | 0 <= x < 256

  /** A 6-bit value, the index of one base64 character. */
  type sextet = x: int | 0 <= x < 64

  /** Table 1 of RFC 4648: A-Z, a-z, 0-9, '+', '/'. */
  function CharOf(v: sextet): (c: char)
    ensures c != '=' && InAlphabet(c)
  {
    if v < 26 then (65 + v) as char
    else if v < 52 then (97 + v - 26) as char
    else if v < 62 then (48 + v - 52) as char
    else if v == 62 then '+'
    else '/'
  }

  /** The inverse of `CharOf`; `None` for characters outside the alphabet. */
  function IndexOf(c: char): Option<sextet> {
    if 'A' <= c <= 'Z' then Some(c as int - 65)
    else if 'a' <= c <= 'z' then Some(c as int - 97 + 26)
    else if '0' <= c <= '9' then Some(c as int - 48 + 52)
    else if c == '+' then Some(62)
    else if c == '/' then Some(63)
    else None
  }

  lemma IndexOfCharOf(v: sextet)
    ensures IndexOf(CharOf(v)) == Some(v)
  {
  }

  predicate InAlphabet(c: char) {
    IndexOf(c).Some?
  }

  /** The code of every char of a binary string is below 256. */
  predicate IsBinary(s: string) {
    forall i | 0 <= i < |s| :: s[i] as int < 256
  }

  /** The binary string of a byte sequence: `String.fromCharCode` per byte. */
  function BinaryString(b: seq<uint8>): (s: string)
    ensures |s| == |b|
  {
    seq(|b|, i requires 0 <= i < |b| => b[i] as int as char)
  }

  /** The bytes of a binary string: `charCodeAt` per char. */
  function Codes(s: string): (b: seq<uint8>)
    requires IsBinary(s)
    ensures |b| == |s|
    ensures forall i | 0 <= i < |s| :: b[i] as int == s[i] as int
  {
    seq(|s|, i requires 0 <= i < |s| => s[i] as int as uint8)
  }

  /** One byte becomes one char with code below 256, and back, in order. */
  lemma BinaryStringRoundTrip(b: seq<uint8>, s: string)
    ensures IsBinary(BinaryString(b)) && Codes(BinaryString(b)) == b
    ensures IsBinary(s) ==> BinaryString(Codes(s)) == s
  {
    assert IsBinary(BinaryString(b));
    assert Codes(BinaryString(b)) == b;
    if IsBinary(s) {
      assert BinaryString(Codes(s)) == s;
    }
  }

  // ---------------------------------------------------------------- encoding

  /** The four 6-bit groups of the 24 bits `x y z`, most significant first. */
  function Sextet0(x: uint8): sextet { x as int / 4 }
  function Sextet1(x: uint8, y: uint8): sextet { x as int % 4 * 16 + y as int / 16 }
  function Sextet2(y: uint8, z: uint8): sextet { y as int % 16 * 4 + z as int / 64 }
  function Sextet3(z: uint8): sextet { z as int % 64 }

  /** The three bytes of the 24 bits `a b c d`, most significant first. */
  function Byte0(a: sextet, b: sextet): uint8 { (a as int * 4 + b as int / 16) as uint8 }
  function Byte1(b: sextet, c: sextet): uint8 { (b as int % 16 * 16 + c as int / 4) as uint8 }
  function Byte2(c: sextet, d: sextet): uint8 { (c as int % 4 * 64 + d as int) as uint8 }

  /** Splitting 24 bits into sextets and joining them again gives the bytes back. */
  lemma GroupRoundTrip(x: uint8, y: uint8, z: uint8)
    ensures Byte0(Sextet0(x), Sextet1(x, y)) == x
    ensures Byte1(Sextet1(x, y), Sextet2(y, z)) == y
    ensures Byte2(Sextet2(y, z), Sextet3(z)) == z
  {
  }

  /** The four chars of the 24 bits `x y z`. */
  function Quad(x: uint8, y: uint8, z: uint8): (q: string)
    ensures |q| == 4 && forall i | 0 <= i < 4 :: InAlphabet(q[i])
  {
    [CharOf(Sextet0(x)), CharOf(Sextet1(x, y)), CharOf(Sextet2(y, z)), CharOf(Sextet3(z))]
  }

  /** Section 4 of RFC 4648, with padding: every 3 bytes become 4 chars; a
      final 1 or 2 bytes, completed with zero bits, become the first 2 or 3
      chars of their group followed by "==" or "=". */
  function Encode(b: seq<uint8>): (s: string)
    ensures |s| == 4 * ((|b| + 2) / 3)
    ensures forall i | 0 <= i < |s| :: InAlphabet(s[i]) || s[i] == '='
    decreases |b|
  {
    if |b| == 0 then ""
    else if |b| == 1 then Quad(b[0], 0, 0)[..2] + "=="
    else if |b| == 2 then Quad(b[0], b[1], 0)[..3] + "="
    else Quad(b[0], b[1], b[2]) + Encode(b[3..])
  }

  /** `s` ends with the padding of `n` bytes: "==" when `n % 3 == 1`, "="
      when `n % 3 == 2`, none when `n % 3 == 0`. */
  predicate PaddedFor(s: string, n: nat)
    requires |s| >= 2
  {
    && (s[|s| - 1] == '=' <==> n % 3 != 0)
    && (s[|s| - 2] == '=' <==> n % 3 == 1)
  }

  /** The padding of a final group of 1, 2 or 3 bytes. */
  lemma EncodePaddingFinal(b: seq<uint8>)
    requires 1 <= |b| <= 3
    ensures |Encode(b)| == 4 && PaddedFor(Encode(b), |b|)
  {
    if |b| == 3 {
      assert Encode(b) == Quad(b[0], b[1], b[2]) by {
        assert Encode(b[3..]) == [];
      }
    }
  }

  /** A full group in front keeps the padding of what follows. */
  lemma PaddedForCons(q: string, rest: string, n: nat)
    requires |rest| >= 2 && PaddedFor(rest, n)
    ensures PaddedFor(q + rest, n + 3)
  {
    var s := q + rest;
    assert s[|s| - 1] == rest[|rest| - 1] && s[|s| - 2] == rest[|rest| - 2];
  }

  /** `Encode` ends with the padding of the number of bytes it encodes. */
  lemma {:induction false} EncodePadding(b: seq<uint8>)
    requires |b| > 0
    ensures |Encode(b)| >= 4 && PaddedFor(Encode(b), |b|)
    decreases |b|
  {
    if |b| <= 3 {
      EncodePaddingFinal(b);
    } else {
      EncodePadding(b[3..]);
      PaddedForCons(Quad(b[0], b[1], b[2]), Encode(b[3..]), |b| - 3);
    }
  }

  /** `btoa`: fails (InvalidCharacterError) on a char whose code is 256 or more. */
  function Btoa(binary: string): (r: Option<string>)
    ensures r.Some? <==> IsBinary(binary)
  {
    if IsBinary(binary) then Some(Encode(Codes(binary))) else None
  }

  // ---------------------------------------------------------------- decoding

  predicate IsAsciiWhitespace(c: char) {
    c == '\t' || c == '\n' || c == '\U{C}' || c == '\r' || c == ' '
  }

  function RemoveWhitespace(s: string): (t: string)
    ensures |t| <= |s|
  {
    if s == [] then []
    else if IsAsciiWhitespace(s[0]) then RemoveWhitespace(s[1..])
    else [s[0]] + RemoveWhitespace(s[1..])
  }

  /** Step 2 of forgiving-base64 decode, on the last four chars of a string
      whose length is a multiple of 4: drop one or two trailing '='. */
  function StripPadding(q: string): (t: string)
    requires |q| == 4
    ensures 2 <= |t| <= 4 && t == q[..|t|]
  {
    if q[2] == '=' && q[3] == '=' then q[..2]
    else if q[3] == '=' then q[..3]
    else q
  }

  /** Step 4 of forgiving-base64 decode, one char at a time: the alphabet
      value of each char of `t`, or `None` at a char outside the alphabet. */
  function Sextets(t: string): Option<seq<sextet>>
    decreases |t|
  {
    if t == [] then Some([])
    else
      match IndexOf(t[0])
      case None => None
      case Some(v) =>
        match Sextets(t[1..])
        case None => None
        case Some(vs) => Some([v] + vs)
  }

  /** The bytes of 2, 3 or 4 sextets: 12, 18 or 24 bits give 1, 2 or 3
      bytes, the 4 or 2 leftover bits dropped. */
  function Join(v: seq<sextet>): seq<uint8> {
    if |v| < 2 then []
    else if |v| == 2 then [Byte0(v[0], v[1])]
    else if |v| == 3 then [Byte0(v[0], v[1]), Byte1(v[1], v[2])]
    else [Byte0(v[0], v[1]), Byte1(v[1], v[2]), Byte2(v[2], v[3])]
  }

  /** Step 7 of forgiving-base64 decode for one quantum of 2, 3 or 4 chars. */
  function DecodeQuantum(t: string): Option<seq<uint8>>
    requires 2 <= |t| <= 4
  {
    match Sextets(t)
    case None => None
    case Some(v) => Some(Join(v))
  }

  /** The chars of the first quantum of `s`: its first four, or all of
      them when fewer remain; the padding is stripped when exactly four
      remain. */
  function FirstQuantum(s: string): (t: string)
    requires |s| >= 2
    ensures 2 <= |t| <= 4
  {
    if |s| < 4 then s
    else if |s| == 4 then StripPadding(s)
    else s[..4]
  }

  /** Steps 2 to 7 of forgiving-base64 decode on a whitespace-free string,
      one quantum of four chars at a time: only the last quantum may carry
      padding, and it is stripped only when the length is a multiple of 4;
      a length of 1 modulo 4 fails (step 3). */
  function DecodeQuanta(s: string): (r: Option<seq<uint8>>)
    decreases |s|
  {
    if |s| == 0 then Some([])
    else if |s| == 1 then None
    else
      match DecodeQuantum(FirstQuantum(s))
      case None => None
      case Some(q) =>
        if |s| <= 4 then Some(q)
        else
          match DecodeQuanta(s[4..])
          case None => None
          case Some(rest) => Some(q + rest)
  }

  /** `atob`: the forgiving-base64 decode of `data`, as a binary string;
      `None` where `atob` throws InvalidCharacterError. */
  function Atob(data: string): (r: Option<string>)
    ensures r.Some? ==> IsBinary(r.value)
  {
    match DecodeQuanta(RemoveWhitespace(data))
    case None => None
    case Some(b) => Some(BinaryString(b))
  }

  /** `Uint8Array.from` over `charCodeAt`: each code stored modulo 256. */
  function Uint8ArrayFrom(binary: string): (b: seq<uint8>)
    ensures |b| == |binary|
  {
    seq(|binary|, i requires 0 <= i < |binary| => (binary[i] as int % 256) as uint8)
  }

  /** The bytes `decodeBase64` yields: `atob`, then the char codes. */
  function DecodeBytes(str: string): Option<seq<uint8>> {
    match Atob(str)
    case None => None
    case Some(binary) => Some(Uint8ArrayFrom(binary))
  }

  // ---------------------------------------------------------------- round trip

  /** A string whose length is 1 modulo 4 never decodes (step 3). */
  lemma {:induction false} DecodeQuantaLength(s: string)
    requires |s| % 4 == 1
    ensures DecodeQuanta(s) == None
    decreases |s|
  {
    if |s| > 4 {
      DecodeQuantaLength(s[4..]);
    }
  }

  /** `Sextets` succeeds exactly on strings of alphabet chars, and then
      gives each char's value in order. */
  lemma {:induction false} SextetsLookup(t: string)
    ensures Sextets(t).Some? <==> forall i | 0 <= i < |t| :: InAlphabet(t[i])
    ensures Sextets(t).Some? ==>
      |Sextets(t).value| == |t| && forall i | 0 <= i < |t| :: IndexOf(t[i]) == Some(Sextets(t).value[i])
    decreases |t|
  {
    if t != [] {
      SextetsLookup(t[1..]);
      if IndexOf(t[0]).Some? && Sextets(t[1..]).Some? {
        var vs := Sextets(t[1..]).value;
        assert Sextets(t).value == [IndexOf(t[0]).value] + vs;
        forall i | 0 <= i < |t|
          ensures IndexOf(t[i]) == Some(Sextets(t).value[i])
        {
          if i > 0 {
            assert t[i] == t[1..][i - 1];
          }
        }
      } else if IndexOf(t[0]).Some? {
        var i :| 0 <= i < |t[1..]| && !InAlphabet(t[1..][i]);
        assert t[i + 1] == t[1..][i];
      }
    }
  }

  /** A quantum fails exactly when one of its chars is outside the alphabet. */
  lemma DecodeQuantumFails(t: string)
    requires 2 <= |t| <= 4
    ensures DecodeQuantum(t).Some? <==> forall i | 0 <= i < |t| :: InAlphabet(t[i])
  {
    SextetsLookup(t);
  }

  /** A quantum of alphabet chars decodes to the bytes their values join to. */
  lemma DecodeQuantumValues(t: string, v: seq<sextet>)
    requires 2 <= |t| <= 4 && |v| == |t|
    requires forall i | 0 <= i < |t| :: IndexOf(t[i]) == Some(v[i])
    ensures DecodeQuantum(t) == Some(Join(v)) && |Join(v)| == |t| - 1
  {
    SextetsLookup(t);
    assert Sextets(t).value == v;
  }

  /** The sextets of 1, 2 or 3 bytes, completed with zero bits, join back to them. */
  lemma JoinOne(x: uint8)
    ensures Join([Sextet0(x), Sextet1(x, 0)]) == [x]
  {
    GroupRoundTrip(x, 0, 0);
  }

  lemma JoinTwo(x: uint8, y: uint8)
    ensures Join([Sextet0(x), Sextet1(x, y), Sextet2(y, 0)]) == [x, y]
  {
    GroupRoundTrip(x, y, 0);
  }

  lemma JoinThree(x: uint8, y: uint8, z: uint8)
    ensures Join([Sextet0(x), Sextet1(x, y), Sextet2(y, z), Sextet3(z)]) == [x, y, z]
  {
    GroupRoundTrip(x, y, z);
  }

  /** The quantum of 1, 2 or 3 bytes decodes back to them. */
  lemma DecodeQuantumOne(x: uint8)
    ensures DecodeQuantum(Quad(x, 0, 0)[..2]) == Some([x])
  {
    var v := [Sextet0(x), Sextet1(x, 0)];
    IndexOfCharOf(v[0]);
    IndexOfCharOf(v[1]);
    DecodeQuantumValues(Quad(x, 0, 0)[..2], v);
    JoinOne(x);
  }

  lemma DecodeQuantumTwo(x: uint8, y: uint8)
    ensures DecodeQuantum(Quad(x, y, 0)[..3]) == Some([x, y])
  {
    var v := [Sextet0(x), Sextet1(x, y), Sextet2(y, 0)];
    IndexOfCharOf(v[0]);
    IndexOfCharOf(v[1]);
    IndexOfCharOf(v[2]);
    DecodeQuantumValues(Quad(x, y, 0)[..3], v);
    JoinTwo(x, y);
  }

  lemma DecodeQuantumThree(x: uint8, y: uint8, z: uint8)
    ensures DecodeQuantum(Quad(x, y, z)) == Some([x, y, z])
  {
    var v := [Sextet0(x), Sextet1(x, y), Sextet2(y, z), Sextet3(z)];
    IndexOfCharOf(v[0]);
    IndexOfCharOf(v[1]);
    IndexOfCharOf(v[2]);
    IndexOfCharOf(v[3]);
    DecodeQuantumValues(Quad(x, y, z), v);
    JoinThree(x, y, z);
  }

  /** A last group of four alphabet chars, or of two or three followed by
      padding, decodes as the quantum without its padding. */
  lemma DecodeQuantaLast(q: string)
    requires |q| == 4 && forall i | 0 <= i < 4 :: InAlphabet(q[i])
    ensures DecodeQuanta(q[..2] + "==") == DecodeQuantum(q[..2])
    ensures DecodeQuanta(q[..3] + "=") == DecodeQuantum(q[..3])
    ensures DecodeQuanta(q) == DecodeQuantum(q)
  {
    assert StripPadding(q[..2] + "==") == q[..2];
    assert StripPadding(q[..3] + "=") == q[..3];
  }

  /** A full group followed by more chars decodes group by group. */
  lemma DecodeQuantaCons(q: string, rest: string, d: seq<uint8>, tail: seq<uint8>)
    requires |q| == 4 && |rest| > 0
    requires DecodeQuantum(q) == Some(d) && DecodeQuanta(rest) == Some(tail)
    ensures DecodeQuanta(q + rest) == Some(d + tail)
  {
    assert (q + rest)[..4] == q;
    assert (q + rest)[4..] == rest;
  }

  lemma SplitThree(b: seq<uint8>)
    requires |b| >= 3
    ensures b == [b[0], b[1], b[2]] + b[3..]
  {
    assert b[..3] == [b[0], b[1], b[2]];
    assert b == b[..3] + b[3..];
  }

  /** A final group of 1, 2 or 3 bytes decodes back to them. */
  lemma DecodeQuantaOne(x: uint8)
    ensures DecodeQuanta(Encode([x])) == Some([x])
  {
    DecodeQuantumOne(x);
    DecodeQuantaLast(Quad(x, 0, 0));
  }

  lemma DecodeQuantaTwo(x: uint8, y: uint8)
    ensures DecodeQuanta(Encode([x, y])) == Some([x, y])
  {
    DecodeQuantumTwo(x, y);
    DecodeQuantaLast(Quad(x, y, 0));
  }

  lemma DecodeQuantaThree(x: uint8, y: uint8, z: uint8)
    ensures DecodeQuanta(Encode([x, y, z])) == Some([x, y, z])
  {
    assert Encode([x, y, z]) == Quad(x, y, z) by {
      assert [x, y, z][3..] == [];
    }
    DecodeQuantumThree(x, y, z);
    DecodeQuantaLast(Quad(x, y, z));
  }

  lemma ShortElements(b: seq<uint8>)
    requires 1 <= |b| <= 3
    ensures |b| == 1 ==> b == [b[0]]
    ensures |b| == 2 ==> b == [b[0], b[1]]
    ensures |b| == 3 ==> b == [b[0], b[1], b[2]]
  {
  }

  lemma DecodeQuantaFinal(b: seq<uint8>)
    requires 1 <= |b| <= 3
    ensures DecodeQuanta(Encode(b)) == Some(b)
  {
    ShortElements(b);
    if |b| == 1 {
      DecodeQuantaOne(b[0]);
    } else if |b| == 2 {
      DecodeQuantaTwo(b[0], b[1]);
    } else {
      DecodeQuantaThree(b[0], b[1], b[2]);
    }
  }

  /** Decoding the RFC 4648 encoding of `b` gives `b`. */
  lemma {:induction false} DecodeQuantaEncode(b: seq<uint8>)
    ensures DecodeQuanta(Encode(b)) == Some(b)
    decreases |b|
  {
    if 1 <= |b| <= 3 {
      DecodeQuantaFinal(b);
    } else if |b| > 3 {
      SplitThree(b);
      DecodeQuantumThree(b[0], b[1], b[2]);
      DecodeQuantaEncode(b[3..]);
      DecodeQuantaCons(Quad(b[0], b[1], b[2]), Encode(b[3..]), [b[0], b[1], b[2]], b[3..]);
    }
  }

  lemma {:induction false} RemoveWhitespaceId(s: string)
    requires forall i | 0 <= i < |s| :: InAlphabet(s[i]) || s[i] == '='
    ensures RemoveWhitespace(s) == s
    decreases |s|
  {
    if s != [] {
      assert !IsAsciiWhitespace(s[0]);
      RemoveWhitespaceId(s[1..]);
      assert s == [s[0]] + s[1..];
    }
  }

  /** `atob` undoes `Encode`: RFC 4648 output decodes to the bytes it came from. */
  lemma AtobEncode(b: seq<uint8>)
    ensures Atob(Encode(b)) == Some(BinaryString(b))
  {
    RemoveWhitespaceId(Encode(b));
    DecodeQuantaEncode(b);
  }

  lemma Uint8ArrayFromBinary(b: seq<uint8>)
    ensures Uint8ArrayFrom(BinaryString(b)) == b
  {
  }

  /** The round trip `decodeBase64(encodeBase64(b)) == b`. */
  lemma DecodeEncode(b: seq<uint8>)
    ensures DecodeBytes(Encode(b)) == Some(b)
  {
    AtobEncode(b);
    Uint8ArrayFromBinary(b);
  }

  /** Distinct byte strings have distinct encodings. */
  lemma EncodeInjective(a: seq<uint8>, b: seq<uint8>)
    ensures Encode(a) == Encode(b) <==> a == b
  {
    DecodeEncode(a);
    DecodeEncode(b);
  }
}
