/**
 * The text and the progress of the room's countdown ring: the remaining
 * seconds shown as `m:ss`, `--:--` while unknown, and the share of the
 * total time already elapsed.
 */
module Timer {
  import opened Wrappers

  /** JavaScript's `%`: the remainder takes the sign of the dividend. */
  function JsRem(a: int, b: int): (r: int)
    requires b > 0
    ensures a >= 0 ==> 0 <= r < b
    ensures a < 0 ==> -b < r <= 0
  {
    if a >= 0 then a % b else -((-a) % b)
  }

  /** `Math.floor(a / b)` on integers: Dafny's division rounds down for a positive divisor. */
  function FloorDiv(a: int, b: int): (q: int)
    requires b > 0
    ensures q * b <= a < q * b + b
  {
    a / b
  }

  function DigitChar(d: int): (c: char)
    requires 0 <= d < 10
    ensures IsDigit(c)
  {
    (48 + d) as char
  }

  predicate IsDigit(c: char) {
    '0' <= c <= '9'
  }

  function DigitValue(c: char): (d: int)
    requires IsDigit(c)
    ensures 0 <= d < 10
  {
    c as int - 48
  }

  /** The decimal digits of a natural number, no leading zero. */
  function NatString(n: nat): (s: string)
    ensures |s| >= 1
    ensures forall i | 0 <= i < |s| :: IsDigit(s[i])
    decreases n
  {
    if n < 10 then [DigitChar(n)] else NatString(n / 10) + [DigitChar(n % 10)]
  }

  /** `Number.prototype.toString()` of an integer. */
  function IntString(n: int): string {
    if n >= 0 then NatString(n) else "-" + NatString(-n)
  }

  /** `padStart(width, "0")`. */
  function PadStart(s: string, width: nat): (r: string)
    ensures |r| == if |s| >= width then |s| else width
    ensures r[|r| - |s|..] == s
    ensures forall i | 0 <= i < |r| - |s| :: r[i] == '0'
  {
    if |s| >= width then s else seq(width - |s|, _ => '0') + s
  }

  /** `formatTime`: minutes, a colon, and the seconds padded to two digits. */
  function FormatTime(seconds: Option<int>): string {
    match seconds
    case None => "--:--"
    case Some(s) =>
      var mins := FloorDiv(s, 60);
      var secs := JsRem(s, 60);
      IntString(mins) + ":" + PadStart(IntString(secs), 2)
  }

  /** The placeholder `--:--` is shown exactly while the remaining time is
      unknown: no count of seconds, negative or not, formats to it. */
  lemma FormatTimeNull(seconds: Option<int>)
    ensures FormatTime(seconds) == "--:--" <==> seconds.None?
  {
    if seconds.Some? {
      var s := seconds.value;
      var q := FloorDiv(s, 60);
      var r := FormatTime(seconds);
      assert r == IntString(q) + ":" + PadStart(IntString(JsRem(s, 60)), 2);
      if q >= 0 {
        var n := NatString(q);
        assert r[0] == n[0] && IsDigit(n[0]);
      } else {
        var n := NatString(-q);
        assert r[1] == n[0] && IsDigit(n[0]);
      }
    }
  }

  /** The value of a string of decimal digits. */
  function ParseNat(s: string): (n: nat)
    requires forall i | 0 <= i < |s| :: IsDigit(s[i])
    decreases |s|
  {
    if s == [] then 0 else ParseNat(s[..|s| - 1]) * 10 + DigitValue(s[|s| - 1])
  }

  /** Reading `m:ss` back as a number of seconds. */
  function ParseTime(t: string): Option<int> {
    if |t| >= 4 && t[|t| - 3] == ':' && forall i | 0 <= i < |t| && i != |t| - 3 :: IsDigit(t[i])
    then Some(ParseNat(t[..|t| - 3]) * 60 + ParseNat(t[|t| - 2..]))
    else None
  }

  /** Reading back the decimal digits of `n` gives `n`. */
  lemma {:induction false} ParseNatString(n: nat)
    ensures ParseNat(NatString(n)) == n
    decreases n
  {
    if n >= 10 {
      var s := NatString(n);
      assert s[..|s| - 1] == NatString(n / 10);
      ParseNatString(n / 10);
    }
  }

  /** For a non-negative count, minutes and seconds split it: `m * 60 + r == s`, `0 <= r < 60`. */
  lemma MinutesSeconds(s: int)
    requires s >= 0
    ensures FloorDiv(s, 60) * 60 + JsRem(s, 60) == s && 0 <= JsRem(s, 60) < 60
  {
  }

  /** The seconds after the colon are exactly two digits, zero-padded. */
  lemma TwoDigitSeconds(r: nat)
    requires r < 60
    ensures PadStart(IntString(r), 2) == [DigitChar(r / 10), DigitChar(r % 10)]
  {
    if r < 10 {
      assert IntString(r) == [DigitChar(r)];
      PadOne(DigitChar(r));
      assert r / 10 == 0 && r % 10 == r;
    } else {
      NatStringTwo(r);
      PadTwo(IntString(r));
    }
  }

  /** A one-digit string gains one leading '0'. */
  lemma PadOne(c: char)
    ensures PadStart([c], 2) == ['0', c]
  {
    assert PadStart([c], 2) == ['0'] + [c];
  }

  /** A two-digit string is not padded. */
  lemma PadTwo(t: string)
    requires |t| == 2
    ensures PadStart(t, 2) == t
  {
  }

  /** A number from 10 to 99 prints as its tens digit and its units digit. */
  lemma NatStringTwo(r: nat)
    requires 10 <= r < 100
    ensures NatString(r) == [DigitChar(r / 10), DigitChar(r % 10)]
  {
    assert NatString(r / 10) == [DigitChar(r / 10)];
  }

  /** Two digits read back as their value. */
  lemma ParseTwoDigits(r: nat)
    requires r < 60
    ensures ParseNat([DigitChar(r / 10), DigitChar(r % 10)]) == r
  {
    var t := [DigitChar(r / 10), DigitChar(r % 10)];
    assert ParseNat(t[..1]) == r / 10 by {
      assert t[..1][..0] == [];
      assert ParseNat(t[..1]) == ParseNat([]) * 10 + DigitValue(t[0]);
    }
    assert ParseNat(t) == ParseNat(t[..1]) * 10 + DigitValue(t[1]);
  }

  /** A digit string, a colon and two digits read back as minutes and seconds. */
  lemma ParseTimeOf(head: string, tail: string)
    requires |head| >= 1 && |tail| == 2
    requires forall i | 0 <= i < |head| :: IsDigit(head[i])
    requires forall i | 0 <= i < |tail| :: IsDigit(tail[i])
    ensures ParseTime(head + ":" + tail) == Some(ParseNat(head) * 60 + ParseNat(tail))
  {
    var t := head + ":" + tail;
    assert t[..|t| - 3] == head;
    assert t[|t| - 2..] == tail;
    forall i | 0 <= i < |t| && i != |t| - 3
      ensures IsDigit(t[i])
    {
      if i < |head| {
        assert t[i] == head[i];
      } else {
        assert t[i] == tail[i - |head| - 1];
      }
    }
  }

  /** For a non-negative count, `formatTime` gives the minutes' digits, a
      colon and the two digits of the seconds. */
  lemma FormatTimeParts(s: int)
    requires s >= 0
    ensures FormatTime(Some(s)) == NatString(s / 60) + ":" + [DigitChar(s % 60 / 10), DigitChar(s % 60 % 10)]
  {
    var m, r := s / 60, s % 60;
    assert FloorDiv(s, 60) == m && JsRem(s, 60) == r;
    assert IntString(m) == NatString(m);
    TwoDigitSeconds(r);
    assert FormatTime(Some(s)) == IntString(m) + ":" + PadStart(IntString(r), 2);
  }

  /** Minutes' digits, a colon and two digits of seconds read back as `m * 60 + r`. */
  lemma ParseParts(m: nat, r: nat)
    requires r < 60
    ensures ParseTime(NatString(m) + ":" + [DigitChar(r / 10), DigitChar(r % 10)]) == Some(m * 60 + r)
  {
    ParseTimeOf(NatString(m), [DigitChar(r / 10), DigitChar(r % 10)]);
    ParseNatString(m);
    ParseTwoDigits(r);
  }

  /** `formatTime` of a non-negative count reads back as that count. */
  lemma ParseFormatTime(s: int)
    requires s >= 0
    ensures ParseTime(FormatTime(Some(s))) == Some(s)
  {
    var m, r := s / 60, s % 60;
    var text := NatString(m) + ":" + [DigitChar(r / 10), DigitChar(r % 10)];
    FormatTimeParts(s);
    ParseParts(m, r);
    assert ParseTime(text) == Some(m * 60 + r);
    assert m * 60 + r == s;
  }

  /** The elapsed share of the total time, in percent; 0 while the remaining
      time is unknown or the total is 0. */
  function Percentage(timeRemaining: Option<int>, totalTime: int): (p: real)
    ensures timeRemaining.None? || totalTime == 0 ==> p == 0.0
  {
    if timeRemaining.None? || totalTime == 0 then 0.0
    else (totalTime - timeRemaining.value) as real / totalTime as real * 100.0
  }

  /** With a remaining time between 0 and a positive total, the share is between 0 and 100. */
  lemma PercentageBounds(timeRemaining: int, totalTime: int)
    requires 0 <= timeRemaining <= totalTime && totalTime > 0
    ensures 0.0 <= Percentage(Some(timeRemaining), totalTime) <= 100.0
  {
    var f := (totalTime - timeRemaining) as real / totalTime as real;
    assert 0.0 <= f <= 1.0;
  }
}
