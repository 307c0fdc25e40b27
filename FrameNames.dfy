/**
 * Frame file names `frame_{idx:04d}.jpg`, written by extract_frames.py and
 * looked up by make_score_video.py, and the decimal digits inside them.
 */
module FrameNames {

  predicate IsDigit(ch: char)
  {
    '0' <= ch <= '9'
  }

  predicate AllDigits(s: string)
  {
    forall k :: 0 <= k < |s| ==> IsDigit(s[k])
  }

  function DigitChar(d: nat): (ch: char)
    requires d < 10
    ensures IsDigit(ch)
  {
    (48 + d) as char
  }

  function DigitValue(ch: char): (d: nat)
    requires IsDigit(ch)
    ensures d < 10
  {
    ch as int - 48
  }

  /** The decimal digits of v, without leading zeros (Python's str(v)). */
  function Decimal(v: nat): (s: string)
    ensures |s| >= 1 && AllDigits(s)
  {
    if v < 10 then [DigitChar(v)] else Decimal(v / 10) + [DigitChar(v % 10)]
  }

  function Zeros(k: nat): (s: string)
    ensures |s| == k && AllDigits(s)
  {
    if k == 0 then [] else Zeros(k - 1) + ['0']
  }

  /** The digits of v, padded on the left with zeros to at least `width` characters. */
  function ZeroPad(v: nat, width: nat): (s: string)
    ensures |s| >= width && AllDigits(s)
  {
    var d := Decimal(v);
    (if |d| < width then Zeros(width - |d|) else []) + d
  }

  /** Python's format(idx, "04d"): four characters at least, the zeros going after a minus sign. */
  function Format04(idx: int): string
  {
    if idx >= 0 then ZeroPad(idx, 4) else "-" + ZeroPad(-idx, 3)
  }

  /** The file name of frame idx: f"frame_{idx:04d}.jpg". */
  function FrameName(idx: int): string
  {
    "frame_" + Format04(idx) + ".jpg"
  }

  /** Python's int() of a string of decimal digits. */
  function DigitsValue(s: string): nat
    requires AllDigits(s)
  {
    if s == [] then 0 else DigitsValue(s[..|s| - 1]) * 10 + DigitValue(s[|s| - 1])
  }

  /** Reading back the digits of v gives v. */
  lemma {:induction false} DecimalValue(v: nat)
    ensures DigitsValue(Decimal(v)) == v
  {
    if v >= 10 {
      DecimalValue(v / 10);
      var s := Decimal(v);
      assert s[..|s| - 1] == Decimal(v / 10);
    }
  }

  /** Leading zeros do not change the value of a digit string. */
  lemma {:induction false} LeadingZerosValue(k: nat, s: string)
    requires AllDigits(s)
    ensures DigitsValue(Zeros(k) + s) == DigitsValue(s)
    decreases |s|, k
  {
    if s == [] {
      if k > 0 {
        assert Zeros(k) + s == Zeros(k - 1) + ['0'];
        LeadingZerosValue(k - 1, s);
        assert Zeros(k - 1) + s == Zeros(k - 1);
      }
    } else {
      var t := Zeros(k) + s;
      assert t[..|t| - 1] == Zeros(k) + s[..|s| - 1];
      LeadingZerosValue(k, s[..|s| - 1]);
    }
  }

  /** Reading back a zero-padded number gives the number. */
  lemma ZeroPadValue(v: nat, width: nat)
    ensures DigitsValue(ZeroPad(v, width)) == v
  {
    var d := Decimal(v);
    DecimalValue(v);
    if |d| < width {
      LeadingZerosValue(width - |d|, d);
    } else {
      assert ZeroPad(v, width) == d;
    }
  }

  /** The integer a `{:d}`-formatted string stands for: an optional minus sign, then digits. */
  function SignedValue(s: string): int
  {
    if s != [] && s[0] == '-' && AllDigits(s[1..]) then -(DigitsValue(s[1..]) as int)
    else if AllDigits(s) then DigitsValue(s)
    else 0
  }

  function Pow10(k: nat): (p: nat)
    ensures p >= 1
  {
    if k == 0 then 1 else 10 * Pow10(k - 1)
  }

  /** A number below 10^k has at most k digits. */
  lemma {:induction false} DecimalWidth(v: nat, k: nat)
    requires k >= 1 && v < Pow10(k)
    ensures |Decimal(v)| <= k
  {
    if v >= 10 {
      assert Pow10(1) == 10;
      DecimalWidth(v / 10, k - 1);
    }
  }

  /**
   * format(idx, "04d") reads back as idx, takes at least four characters,
   * and exactly four for 0 <= idx < 10000.
   */
  lemma Format04RoundTrip(idx: int)
    ensures SignedValue(Format04(idx)) == idx
    ensures |Format04(idx)| >= 4
    ensures 0 <= idx < 10000 ==> |Format04(idx)| == 4
  {
    var s := Format04(idx);
    if idx >= 0 {
      ZeroPadValue(idx, 4);
      assert IsDigit(s[0]);
      if idx < 10000 {
        assert Pow10(4) == 10000;
        DecimalWidth(idx, 4);
      }
    } else {
      assert s[1..] == ZeroPad(-idx, 3);
      ZeroPadValue(-idx, 3);
    }
  }

  /** Different frames get different file names, so no saved file overwrites another. */
  lemma FrameNameInjective(a: int, b: int)
    requires FrameName(a) == FrameName(b)
    ensures a == b
  {
    var na, nb := FrameName(a), FrameName(b);
    assert na[6..|na| - 4] == Format04(a);
    assert nb[6..|nb| - 4] == Format04(b);
    Format04RoundTrip(a);
    Format04RoundTrip(b);
  }
}
