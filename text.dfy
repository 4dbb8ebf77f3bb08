/**
 * The string operations the editor relies on: String.prototype.trim (which
 * decides whether there is anything to save), the decimal rendering of an
 * integer, String.prototype.padStart, and the "M:SS" timer label.
 */
module Text {
  import opened Wrappers

  /**
   * The code points String.prototype.trim removes: ECMAScript's WhiteSpace
   * (tab, vertical tab, form feed, ZERO WIDTH NO-BREAK SPACE and the Unicode
   * space separators) and LineTerminator (LF, CR, LINE SEPARATOR,
   * PARAGRAPH SEPARATOR).
   */
  predicate IsWhitespace(c: char)
  {
    || c == '\t' || c == '\n' || c == '\U{000B}' || c == '\U{000C}' || c == '\r'
    || c == ' ' || c == '\U{00A0}' || c == '\U{1680}' || ('\U{2000}' <= c <= '\U{200A}')
    || c == '\U{2028}' || c == '\U{2029}' || c == '\U{202F}' || c == '\U{205F}'
    || c == '\U{3000}' || c == '\U{FEFF}'
  }

  /** Every character of `s` is whitespace (the empty string included). */
  predicate IsBlank(s: string)
  {
    forall i :: 0 <= i < |s| ==> IsWhitespace(s[i])
  }

  /** String.prototype.trimStart: drops the leading whitespace. */
  function TrimStart(s: string): string
  {
    if s != [] && IsWhitespace(s[0]) then TrimStart(s[1..]) else s
  }

  /** String.prototype.trimEnd: drops the trailing whitespace. */
  function TrimEnd(s: string): string
  {
    if s != [] && IsWhitespace(s[|s| - 1]) then TrimEnd(s[..|s| - 1]) else s
  }

  /** String.prototype.trim: what is left neither starts nor ends with white space. */
  function Trim(s: string): (r: string)
    ensures |r| <= |s|
    ensures r == [] || (!IsWhitespace(r[0]) && !IsWhitespace(r[|r| - 1]))
  {
    var t := TrimStart(s);
    TrimStartShape(s);
    TrimEndShape(t);
    TrimEnd(t)
  }

  /** What trimStart leaves is a suffix that starts with a non-whitespace character; what it drops is blank. */
  lemma {:induction false} TrimStartShape(s: string)
    ensures var r := TrimStart(s);
            && |r| <= |s| && r == s[|s| - |r|..]
            && IsBlank(s[..|s| - |r|])
            && (r == [] || !IsWhitespace(r[0]))
  {
    if s != [] && IsWhitespace(s[0]) {
      TrimStartShape(s[1..]);
      var r := TrimStart(s);
      assert s[1..][..|s| - 1 - |r|] == s[1..|s| - |r|];
      assert s[..|s| - |r|] == [s[0]] + s[1..|s| - |r|];
    }
  }

  /** What trimEnd leaves is a prefix that ends with a non-whitespace character; what it drops is blank. */
  lemma {:induction false} TrimEndShape(s: string)
    ensures var r := TrimEnd(s);
            && |r| <= |s| && r == s[..|r|]
            && IsBlank(s[|r|..])
            && (r == [] || !IsWhitespace(r[|r| - 1]))
  {
    if s != [] && IsWhitespace(s[|s| - 1]) {
      TrimEndShape(s[..|s| - 1]);
      var r := TrimEnd(s);
      assert s[..|s| - 1][|r|..] == s[|r|..|s| - 1];
      assert s[|r|..] == s[|r|..|s| - 1] + [s[|s| - 1]];
    }
  }

  /** `text.trim()` is falsy exactly when the text is blank. */
  lemma TrimEmptyIffBlank(s: string)
    ensures Trim(s) == "" <==> IsBlank(s)
  {
    var t := TrimStart(s);
    TrimStartShape(s);
    TrimEndShape(t);
    if Trim(s) == "" {
      assert IsBlank(t) by {
        assert t[0..] == t;
      }
      assert s == s[..|s| - |t|] + t;
    } else if IsBlank(s) {
      if t != [] {
        assert false;
      }
    }
  }

  // ---------------------------------------------------------------------
  // Decimal numbers
  // ---------------------------------------------------------------------

  predicate IsDigit(c: char)
  {
    '0' <= c <= '9'
  }

  predicate AllDigits(s: string)
  {
    forall i :: 0 <= i < |s| ==> IsDigit(s[i])
  }

  function DigitChar(d: int): (c: char)
    requires 0 <= d < 10
    ensures IsDigit(c)
  {
    ('0' as int + d) as char
  }

  /** The value of a string of decimal digits, leading zeros allowed. */
  function ParseDigits(s: string): nat
    requires AllDigits(s)
  {
    if s == [] then 0 else 10 * ParseDigits(s[..|s| - 1]) + (s[|s| - 1] as int - '0' as int)
  }

  /** Number.prototype.toString() of a non-negative integer: its digits, without leading zeros. */
  function NatToString(n: nat): (s: string)
    ensures |s| >= 1 && AllDigits(s)
    ensures s[0] == '0' ==> n == 0 && s == "0"
  {
    if n < 10 then [DigitChar(n)] else NatToString(n / 10) + [DigitChar(n % 10)]
  }

  /** Number.prototype.toString() of an integer. */
  function IntToString(n: int): (s: string)
    ensures |s| >= 1
    ensures n < 0 <==> s[0] == '-'
    ensures n >= 0 ==> AllDigits(s) && ParseDigits(s) == n
  {
    if n < 0 then "-" + NatToString(-n)
    else
      ParseNatToString(n);
      NatToString(n)
  }

  /** Reading back the digits gives the number. */
  lemma {:induction false} ParseNatToString(n: nat)
    ensures ParseDigits(NatToString(n)) == n
  {
    if n >= 10 {
      var s := NatToString(n);
      ParseNatToString(n / 10);
      assert s[..|s| - 1] == NatToString(n / 10);
    }
  }

  /** A leading zero does not change the value. */
  lemma {:induction false} ParseLeadingZero(s: string)
    requires AllDigits(s)
    ensures AllDigits("0" + s) && ParseDigits("0" + s) == ParseDigits(s)
  {
    var z := "0" + s;
    if s != [] {
      assert z[..|z| - 1] == "0" + s[..|s| - 1];
      ParseLeadingZero(s[..|s| - 1]);
    }
  }

  /** The remainder of JavaScript's `%`, which takes the sign of the dividend. */
  function TruncatedRemainder(a: int, b: int): (r: int)
    requires b > 0
    ensures -b < r < b
    ensures a >= 0 ==> r == a % b
    ensures a < 0 ==> r <= 0
  {
    if a >= 0 then a % b else -((-a) % b)
  }

  /** String.prototype.padStart with a one-character filler. */
  function PadStart(s: string, len: nat, fill: char): (r: string)
    ensures |r| == if |s| >= len then |s| else len
    ensures r[|r| - |s|..] == s
    ensures forall i :: 0 <= i < |r| - |s| ==> r[i] == fill
    decreases len - |s|
  {
    if |s| >= len then s else PadStart([fill] + s, len, fill)
  }

  // ---------------------------------------------------------------------
  // The timer label
  // ---------------------------------------------------------------------

  /** formatTime: `${Math.floor(seconds / 60)}:${(seconds % 60).toString().padStart(2, "0")}`. */
  function FormatTime(seconds: int): (r: string)
    ensures seconds >= 0 ==> r == NatToString(seconds / 60) + ":" + SecondsField(seconds)
    ensures seconds < 0 ==> |r| > 0 && r[0] == '-'
  {
    var minutes := IntToString(seconds / 60);
    var field := PadStart(IntToString(TruncatedRemainder(seconds, 60)), 2, '0');
    assert seconds >= 0 ==> minutes == NatToString(seconds / 60) && field == SecondsField(seconds);
    minutes + ":" + field
  }

  /** Reads an "M:SS" label back as a number of seconds. */
  function ParseTime(s: string): (r: Option<nat>)
  {
    if |s| >= 4 && s[|s| - 3] == ':' && AllDigits(s[..|s| - 3]) && AllDigits(s[|s| - 2..]) then
      Some(60 * ParseDigits(s[..|s| - 3]) + ParseDigits(s[|s| - 2..]))
    else None
  }

  /** The seconds field of a label: the remainder in two digits. */
  function SecondsField(n: nat): (f: string)
  {
    PadStart(NatToString(n % 60), 2, '0')
  }

  /** The seconds field is two digits that read back as n % 60. */
  lemma SecondsFieldDigits(n: nat)
    ensures |SecondsField(n)| == 2 && AllDigits(SecondsField(n)) && ParseDigits(SecondsField(n)) == n % 60
  {
    var secs := NatToString(n % 60);
    ParseNatToString(n % 60);
    if |secs| == 1 {
      assert SecondsField(n) == "0" + secs;
      ParseLeadingZero(secs);
    }
  }

  /** ParseTime splits a label at its colon and reads the two fields back as a number of seconds. */
  lemma ParseTimeOfFields(minutes: string, seconds: string, n: nat)
    requires |minutes| >= 1 && AllDigits(minutes) && ParseDigits(minutes) == n / 60
    requires |seconds| == 2 && AllDigits(seconds) && ParseDigits(seconds) == n % 60
    ensures ParseTime(minutes + ":" + seconds) == Some(n)
  {
    var s := minutes + ":" + seconds;
    assert s[..|s| - 3] == minutes;
    assert s[|s| - 2..] == seconds;
  }

  /** The label reads back as the number of seconds it renders. */
  lemma FormatTimeRoundTrip(n: nat)
    ensures ParseTime(FormatTime(n)) == Some(n)
  {
    var minutes := NatToString(n / 60);
    var seconds := SecondsField(n);
    SecondsFieldDigits(n);
    ParseNatToString(n / 60);
    ParseTimeOfFields(minutes, seconds, n);
  }
}
