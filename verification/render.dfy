/** The text line the timer callback prints into the 64-byte `kernel_buffer`:
    a UTC timestamp and the temperature, written with `scnprintf`. The broken-down
    time is an input. */
module Render {
  import opened CTypes
  import opened CString
  import opened Decimal
  import Transfer

  /** The wall-clock time of a tick, as `struct tm` and the nanosecond part of `struct timespec64` hold it. */
  datatype Stamp = Stamp(tmYear: int, tmMon: int, tmMday: int, tmHour: int, tmMin: int, tmSec: int, tvNsec: int)

  /** Field ranges of a calendar time in years 0 to 9999. */
  predicate ValidStamp(t: Stamp) {
    && 0 <= t.tmYear + 1900 <= 9999
    && 0 <= t.tmMon <= 11
    && 1 <= t.tmMday <= 31
    && 0 <= t.tmHour <= 23
    && 0 <= t.tmMin <= 59
    && 0 <= t.tmSec <= 60
    && 0 <= t.tvNsec < 1_000_000_000
  }

  /** `scnprintf(buf, size, ...)`: the formatted text, cut to fit `size - 1` characters. */
  function Scnprintf(size: nat, s: seq<char>): (r: seq<char>)
    requires size >= 1
    ensures |r| < size && |r| <= |s| && r == s[..|r|]
    ensures |s| < size ==> r == s
    ensures |s| >= size ==> |r| == size - 1
  {
    s[..Min(|s|, size - 1)]
  }

  /** `%03d.%dC` of `temp/1000` and `temp%1000`, with C's truncating division. */
  function TempField(temp: int): seq<char> {
    FormatInt(CDiv(temp, 1000), 3) + "." + FormatInt(CMod(temp, 1000), 0) + "C"
  }

  /** `%04ld-%02d-%02d %02d:%02d:%02d.%03ld` of the broken-down time. */
  function StampText(t: Stamp): seq<char> {
    FormatInt(t.tmYear + 1900, 4) + "-" + FormatInt(t.tmMon + 1, 2) + "-" + FormatInt(t.tmMday, 2)
    + " " + FormatInt(t.tmHour, 2) + ":" + FormatInt(t.tmMin, 2) + ":" + FormatInt(t.tmSec, 2)
    + "." + FormatInt(CDiv(t.tvNsec, 1_000_000), 3)
  }

  /** The whole line: `<stamp> UTC temp = %03d.%dC\n`. */
  function Line(t: Stamp, temp: int): seq<char> {
    StampText(t) + " UTC temp = " + TempField(temp) + "\n"
  }

  /** A non-negative field below 10^width is printed in exactly `width` characters. */
  lemma FixedWidth(n: int, width: nat)
    requires 1 <= width && 0 <= n < Pow10(width)
    ensures |FormatInt(n, width)| == width
  {
    DecLength(n, width);
  }

  /** A value of magnitude below 10^k takes at most k digits and a sign. */
  lemma SignedLengthBound(n: int, k: nat)
    requires 1 <= k && -(Pow10(k) as int) < n < Pow10(k)
    ensures SignedLength(n) <= k + 1
  {
    if n < 0 {
      DecLength(-n, k);
    } else {
      DecLength(n, k);
    }
  }

  /** The timestamp of a calendar time in range always takes 23 characters. */
  lemma StampLength(t: Stamp)
    requires ValidStamp(t)
    ensures |StampText(t)| == 23
  {
    assert Pow10(2) == 100 && Pow10(3) == 1000 && Pow10(4) == 10000;
    FixedWidth(t.tmYear + 1900, 4);
    FixedWidth(t.tmMon + 1, 2);
    FixedWidth(t.tmMday, 2);
    FixedWidth(t.tmHour, 2);
    FixedWidth(t.tmMin, 2);
    FixedWidth(t.tmSec, 2);
    FixedWidth(CDiv(t.tvNsec, 1_000_000), 3);
    StampJoinLength(FormatInt(t.tmYear + 1900, 4), FormatInt(t.tmMon + 1, 2), FormatInt(t.tmMday, 2),
                    FormatInt(t.tmHour, 2), FormatInt(t.tmMin, 2), FormatInt(t.tmSec, 2),
                    FormatInt(CDiv(t.tvNsec, 1_000_000), 3));
  }

  lemma StampJoinLength(y: seq<char>, mo: seq<char>, d: seq<char>, h: seq<char>, mi: seq<char>, se: seq<char>, ms: seq<char>)
    requires |y| == 4 && |mo| == 2 && |d| == 2 && |h| == 2 && |mi| == 2 && |se| == 2 && |ms| == 3
    ensures |y + "-" + mo + "-" + d + " " + h + ":" + mi + ":" + se + "." + ms| == 23
  {
  }

  /** The temperature field of a 32-bit temperature takes at most 14 characters. */
  lemma TempFieldLength(temp: int32)
    ensures |TempField(temp)| <= 14
  {
    assert Pow10(3) == 1000;
    assert Pow10(7) == 10_000_000;
    SignedLengthBound(CDiv(temp, 1000), 7);
    SignedLengthBound(CMod(temp, 1000), 3);
  }

  /** Digits are never the terminator. */
  lemma DigitsNoNul(s: seq<char>)
    requires AllDigits(s)
    ensures NUL !in s
  {
  }

  /** A printed integer holds only digits and a sign. */
  lemma NoNulInField(n: int, width: nat)
    ensures NUL !in FormatInt(n, width)
  {
    var r := FormatInt(n, width);
    if n >= 0 {
      DigitsNoNul(r);
    } else {
      DigitsNoNul(r[1..]);
      assert r == [r[0]] + r[1..];
    }
  }

  lemma StampNoNul(t: Stamp)
    ensures NUL !in StampText(t)
  {
    NoNulInField(t.tmYear + 1900, 4);
    NoNulInField(t.tmMon + 1, 2);
    NoNulInField(t.tmMday, 2);
    NoNulInField(t.tmHour, 2);
    NoNulInField(t.tmMin, 2);
    NoNulInField(t.tmSec, 2);
    NoNulInField(CDiv(t.tvNsec, 1_000_000), 3);
    NoNulStampJoin(FormatInt(t.tmYear + 1900, 4), FormatInt(t.tmMon + 1, 2), FormatInt(t.tmMday, 2),
                   FormatInt(t.tmHour, 2), FormatInt(t.tmMin, 2), FormatInt(t.tmSec, 2),
                   FormatInt(CDiv(t.tvNsec, 1_000_000), 3));
  }

  lemma NoNulStampJoin(y: seq<char>, mo: seq<char>, d: seq<char>, h: seq<char>, mi: seq<char>, se: seq<char>, ms: seq<char>)
    requires NUL !in y && NUL !in mo && NUL !in d && NUL !in h && NUL !in mi && NUL !in se && NUL !in ms
    ensures NUL !in y + "-" + mo + "-" + d + " " + h + ":" + mi + ":" + se + "." + ms
  {
  }

  lemma TempFieldNoNul(temp: int)
    ensures NUL !in TempField(temp)
  {
    NoNulInField(CDiv(temp, 1000), 3);
    NoNulInField(CMod(temp, 1000), 0);
  }

  lemma LineNoNul(t: Stamp, temp: int)
    ensures NUL !in Line(t, temp)
  {
    StampNoNul(t);
    TempFieldNoNul(temp);
    NoNulJoin(StampText(t), TempField(temp));
  }

  lemma NoNulJoin(a: seq<char>, b: seq<char>)
    requires NUL !in a && NUL !in b
    ensures NUL !in a + " UTC temp = " + b + "\n"
  {
    var tag := " UTC temp = ";
    assert forall i :: 0 <= i < |tag| ==> tag[i] != NUL;
  }

  /** With a calendar time in range, any 32-bit temperature gives a line of at
      most 50 characters, so `scnprintf` never cuts it. */
  lemma LineFits(t: Stamp, temp: int32)
    requires ValidStamp(t)
    ensures |Line(t, temp)| <= 50
    ensures Scnprintf(Transfer.BUF_SIZE, Line(t, temp)) == Line(t, temp)
    ensures NUL !in Line(t, temp)
  {
    StampLength(t);
    TempFieldLength(temp);
    LineNoNul(t, temp);
  }

  /** What `scnprintf` leaves in `kernel_buffer` before the terminator: the line,
      cut to 63 characters (which never happens for a calendar time in range). */
  function Printed(t: Stamp, temp: int): (r: seq<char>)
    ensures NUL !in r && |r| < Transfer.BUF_SIZE
    ensures ValidStamp(t) && INT32_MIN <= temp <= INT32_MAX ==> r == Line(t, temp)
    ensures r == Scnprintf(Transfer.BUF_SIZE, Line(t, temp))
  {
    var line := Line(t, temp);
    LineNoNul(t, temp);
    LineFitsWhenValid(t, temp);
    var r := Scnprintf(Transfer.BUF_SIZE, line);
    NoNulPrefix(line, |r|);
    r
  }

  lemma LineFitsWhenValid(t: Stamp, temp: int)
    ensures ValidStamp(t) && INT32_MIN <= temp <= INT32_MAX ==> |Line(t, temp)| < Transfer.BUF_SIZE
  {
    if ValidStamp(t) && INT32_MIN <= temp <= INT32_MAX {
      LineFits(t, temp);
    }
  }

  lemma NoNulPrefix(s: seq<char>, k: nat)
    requires NUL !in s && k <= |s|
    ensures NUL !in s[..k]
  {
    assert forall i :: 0 <= i < k ==> s[..k][i] == s[i];
  }

  /** How a reader takes a `<whole>.<fraction>C` field as a decimal number of
      degrees, in milli-degrees: the fraction's digits are tenths, hundredths
      and thousandths. None when the text is not of that shape. */
  function ReadMilli(s: seq<char>): Option<int> {
    if |s| > 0 && s[0] == '-' then
      match ReadUnsignedMilli(s[1..])
      case Some(v) => Some(-v)
      case None => None
    else ReadUnsignedMilli(s)
  }

  function ReadUnsignedMilli(s: seq<char>): Option<int> {
    var k := IndexOf(s, '.');
    if k == |s| || k == 0 || !AllDigits(s[..k]) then None
    else
      match ReadFraction(s[k + 1..])
      case Some(v) => Some(DigitsValue(s[..k]) * 1000 + v)
      case None => None
  }

  /** The text after the dot: one to three digits, then the unit, read as
      milli-degrees. */
  function ReadFraction(rest: seq<char>): Option<int> {
    if |rest| < 2 || rest[|rest| - 1] != 'C' then None
    else
      var frac := rest[..|rest| - 1];
      if |frac| > 3 || !AllDigits(frac) then None
      else Some(DigitsValue(frac) * Pow10(3 - |frac|))
  }

  /** As written, the fraction is printed without zero padding: 25050 mC is
      shown as "025.50C", which reads as 25.5 degrees (25500 mC), and a negative
      reading such as -25050 mC is shown as "-25.-50C", which is not a number. */
  lemma TempFieldMisread()
    ensures TempField(25050) == "025.50C"
    ensures ReadMilli(TempField(25050)) == Some(25500)
    ensures TempField(-25050) == "-25.-50C"
    ensures ReadMilli(TempField(-25050)) == None
  {
    PositiveFieldText();
    PositiveFieldReading();
    NegativeFieldText();
    NegativeFieldReading();
  }

  /** For a non-negative temperature the printed field reads back as the
      temperature exactly when the fraction is zero or has three digits: a
      fraction below 100 loses its leading zeros and is read ten or a hundred
      times too large. */
  lemma TempFieldReadsBackIff(temp: int)
    requires temp >= 0
    ensures ReadMilli(TempField(temp)) == Some(temp) <==> CMod(temp, 1000) == 0 || CMod(temp, 1000) >= 100
  {
    var q, m := CDiv(temp, 1000), CMod(temp, 1000);
    var w, f := FormatInt(q, 3), FormatInt(m, 0);
    TempFieldParts(temp);
    assert 1 <= |w| && AllDigits(w) && DigitsValue(w) == q;
    assert AllDigits(f) && DigitsValue(f) == m && |f| == |Dec(m)|;
    FractionReadsBack(temp, q, m, f);
    FieldReadingOf(w, f, q, m);
  }

  /** The temperature field is the whole part, a dot, the fraction and `C`. */
  lemma TempFieldParts(temp: int)
    ensures TempField(temp) == FormatInt(CDiv(temp, 1000), 3) + "." + (FormatInt(CMod(temp, 1000), 0) + "C")
  {
    var w, f := FormatInt(CDiv(temp, 1000), 3), FormatInt(CMod(temp, 1000), 0);
    assert TempField(temp) == w + "." + f + "C";
    JoinAssoc(w + ".", f, "C");
  }

  lemma JoinAssoc(a: seq<char>, b: seq<char>, c: seq<char>)
    ensures a + b + c == a + (b + c)
  {
  }

  /** The digits `f` of the fraction `m` of `temp`, read as tenths, hundredths
      or thousandths after the whole part `q`, give back `temp` exactly when
      `m` has no leading zero to lose. */
  lemma FractionReadsBack(temp: int, q: nat, m: nat, f: seq<char>)
    requires temp == q * 1000 + m && m < 1000
    requires AllDigits(f) && DigitsValue(f) == m && |f| == |Dec(m)|
    ensures 1 <= |f| <= 3
    ensures q * 1000 + m * Pow10(3 - |f|) == temp <==> m == 0 || m >= 100
  {
    assert 1 <= |f| <= 3 by {
      assert Pow10(3) == 1000;
      DecLength(m, 3);
    }
    FractionScale(m, |f|);
    ScaledFraction(temp, q, m, m * Pow10(3 - |f|));
  }

  /** The reading `q * 1000 + x` is `temp` exactly when the fraction read is `m`. */
  lemma ScaledFraction(temp: int, q: nat, m: nat, x: int)
    requires temp == q * 1000 + m
    ensures q * 1000 + x == temp <==> x == m
  {
  }

  /** `<w>.<f>C` with one to three fraction digits reads as `w` degrees and
      `f` tenths, hundredths or thousandths. */
  lemma FieldReading(w: seq<char>, f: seq<char>)
    requires 1 <= |w| && AllDigits(w) && 1 <= |f| <= 3 && AllDigits(f)
    ensures ReadMilli(w + "." + (f + "C")) == Some(DigitsValue(w) * 1000 + DigitsValue(f) * Pow10(3 - |f|))
  {
    assert (w + "." + (f + "C"))[0] == w[0];
    ReadField(w, f);
  }

  /** `FieldReading` with the values of the digit strings named. */
  lemma FieldReadingOf(w: seq<char>, f: seq<char>, a: nat, b: nat)
    requires 1 <= |w| && AllDigits(w) && 1 <= |f| <= 3 && AllDigits(f)
    requires DigitsValue(w) == a && DigitsValue(f) == b
    ensures ReadMilli(w + "." + (f + "C")) == Some(a * 1000 + b * Pow10(3 - |f|))
  {
    FieldReading(w, f);
  }

  /** The reading of `<w>.<f>C` with digit strings `w` and `f`: `f` is taken
      as tenths, hundredths and thousandths. */
  lemma ReadField(w: seq<char>, f: seq<char>)
    requires 1 <= |w| && AllDigits(w) && 1 <= |f|
    ensures ReadUnsignedMilli(w + "." + (f + "C"))
         == if |f| <= 3 && AllDigits(f) then Some(DigitsValue(w) * 1000 + DigitsValue(f) * Pow10(3 - |f|)) else None
  {
    var s := w + "." + (f + "C");
    FieldParts(w, f);
    ReadParts(s, w, f);
  }

  /** Where the dot and the digit strings sit in `<w>.<f>C`. */
  lemma FieldParts(w: seq<char>, f: seq<char>)
    requires AllDigits(w)
    ensures var s := w + "." + (f + "C");
            IndexOf(s, '.') == |w| && s[..|w|] == w && s[|w| + 1..] == f + "C"
  {
    var rest := f + "C";
    var s := w + "." + rest;
    DotAfterDigits(w, rest);
    assert s[..|w|] == w;
    assert s[|w| + 1..] == rest;
  }

  /** `ReadUnsignedMilli` taken step by step once the dot is located: `s` is
      the digits `w`, the dot, then `f` and the unit. */
  lemma ReadParts(s: seq<char>, w: seq<char>, f: seq<char>)
    requires 1 <= |w| && AllDigits(w) && 1 <= |f|
    requires |w| < |s| && IndexOf(s, '.') == |w| && s[..|w|] == w && s[|w| + 1..] == f + "C"
    ensures ReadUnsignedMilli(s)
         == if |f| <= 3 && AllDigits(f) then Some(DigitsValue(w) * 1000 + DigitsValue(f) * Pow10(3 - |f|)) else None
  {
    var k := IndexOf(s, '.');
    assert k != |s| && k != 0 && s[..k] == w && s[k + 1..] == f + "C";
    FractionParts(f);
  }

  /** The reading of `<f>C`: `f` as tenths, hundredths and thousandths. */
  lemma FractionParts(f: seq<char>)
    requires 1 <= |f|
    ensures ReadFraction(f + "C") == if |f| <= 3 && AllDigits(f) then Some(DigitsValue(f) * Pow10(3 - |f|)) else None
  {
    var rest := f + "C";
    assert rest[..|rest| - 1] == f;
  }

  /** Scaling a fraction of `len` digits up to thousandths keeps its value
      exactly when it is zero or already has three digits. */
  lemma FractionScale(m: nat, len: nat)
    requires 1 <= len <= 3 && m < 1000 && len == |Dec(m)|
    ensures m * Pow10(3 - len) == m <==> m == 0 || m >= 100
  {
    assert Pow10(2) == 100 && Pow10(3) == 1000;
    if m >= 100 {
      DecLengthAtLeast(m, 2);
    } else if m > 0 {
      DecLength(m, 2);
      assert Pow10(3 - len) >= 10;
    }
  }

  /** A negative temperature with a non-zero fraction prints a minus sign after
      the dot, and the field does not read as a number at all. */
  lemma NegativeFieldUnreadable(temp: int)
    requires temp < 0 && CMod(temp, 1000) != 0
    ensures ReadMilli(TempField(temp)) == None
  {
    var w := FormatInt(CDiv(temp, 1000), 3);
    var f := FormatInt(CMod(temp, 1000), 0);
    assert TempField(temp) == w + "." + (f + "C");
    assert 1 <= |f| && !IsDigit(f[0]);
    assert (|w| >= 2 && w[0] == '-' && AllDigits(w[1..])) || (1 <= |w| && AllDigits(w)) by {
      if CDiv(temp, 1000) >= 0 {
        assert 1 <= |w| && AllDigits(w);
      }
    }
    FieldUnreadable(w, f);
  }

  /** A field whose fraction does not start with a digit does not read,
      whether or not its whole part carries a minus sign. */
  lemma FieldUnreadable(w: seq<char>, f: seq<char>)
    requires (|w| >= 2 && w[0] == '-' && AllDigits(w[1..])) || (1 <= |w| && AllDigits(w))
    requires 1 <= |f| && !IsDigit(f[0])
    ensures ReadMilli(w + "." + (f + "C")) == None
  {
    if |w| >= 2 && w[0] == '-' && AllDigits(w[1..]) {
      MinusWholeUnreadable(w, f);
    } else {
      DigitWholeUnreadable(w, f);
    }
  }

  /** `-<digits>.<f>C` with `f` not starting with a digit does not read. */
  lemma MinusWholeUnreadable(w: seq<char>, f: seq<char>)
    requires |w| >= 2 && w[0] == '-' && AllDigits(w[1..])
    requires 1 <= |f| && !IsDigit(f[0])
    ensures ReadMilli(w + "." + (f + "C")) == None
  {
    var v := w[1..];
    assert w + "." + (f + "C") == ['-'] + (v + "." + (f + "C"));
    UnreadableFraction(v, f);
    ReadMilliSigned(v + "." + (f + "C"));
  }

  /** `<digits>.<f>C` with `f` not starting with a digit does not read. */
  lemma DigitWholeUnreadable(w: seq<char>, f: seq<char>)
    requires 1 <= |w| && AllDigits(w)
    requires 1 <= |f| && !IsDigit(f[0])
    ensures ReadMilli(w + "." + (f + "C")) == None
  {
    UnreadableFraction(w, f);
    ReadMilliUnsigned(w + "." + (f + "C"));
  }

  /** A leading minus negates the reading of the rest. */
  lemma ReadMilliSigned(t: seq<char>)
    ensures ReadUnsignedMilli(t) == None ==> ReadMilli(['-'] + t) == None
  {
    assert (['-'] + t)[1..] == t;
  }

  /** Without a leading minus the reading is the unsigned one. */
  lemma ReadMilliUnsigned(t: seq<char>)
    requires |t| > 0 && IsDigit(t[0])
    ensures ReadMilli(t) == ReadUnsignedMilli(t)
  {
  }

  /** A fraction that does not start with a digit makes the field unreadable. */
  lemma UnreadableFraction(w: seq<char>, f: seq<char>)
    requires 1 <= |w| && AllDigits(w) && 1 <= |f| && !IsDigit(f[0])
    ensures ReadUnsignedMilli(w + "." + (f + "C")) == None
    ensures IsDigit((w + "." + (f + "C"))[0])
  {
    ReadField(w, f);
  }

  lemma TwoDigits(n: nat)
    requires 10 <= n < 100
    ensures Dec(n) == [DigitChar(n / 10), DigitChar(n % 10)]
  {
  }

  lemma PositiveFieldText()
    ensures TempField(25050) == "025.50C"
  {
    TwoDigits(25);
    TwoDigits(50);
    assert CDiv(25050, 1000) == 25 && CMod(25050, 1000) == 50;
    assert FormatInt(25, 3) == Zeros(1) + Dec(25) == "025";
    assert FormatInt(50, 0) == "50";
  }

  lemma NegativeFieldText()
    ensures TempField(-25050) == "-25.-50C"
  {
    TwoDigits(25);
    TwoDigits(50);
    assert CDiv(-25050, 1000) == -25 && CMod(-25050, 1000) == -50;
    assert FormatInt(-25, 3) == ['-'] + Dec(25) == "-25";
    assert FormatInt(-50, 0) == ['-'] + Dec(50) == "-50";
  }

  lemma PositiveFieldReading()
    ensures ReadMilli("025.50C") == Some(25500)
  {
    var s := "025.50C";
    IndexOfAt(s, '.', 3);
    assert s[..3] == "025" && s[4..] == "50C";
    assert "025"[..2] == "02";
    assert "02"[..1] == "0";
    assert DigitsValue("025") == 25;
    assert "50C"[..2] == "50" && "50"[..1] == "5";
    assert DigitsValue("50") == 50;
  }

  lemma NegativeFieldReading()
    ensures ReadMilli("-25.-50C") == None
  {
    var s := "25.-50C";
    assert "-25.-50C"[1..] == s;
    IndexOfAt(s, '.', 2);
    assert s[3..] == "-50C";
    assert !IsDigit("-50C"[..3][0]);
  }

  /** The field as evidently intended: sign, whole degrees padded to three digits,
      and the fraction padded to three digits (`%03d.%03d` of the magnitude). */
  function TempFieldFixed(temp: int): seq<char> {
    var u := if temp < 0 then -temp else temp;
    (if temp < 0 then "-" else "") + UnsignedField(u)
  }

  function UnsignedField(u: nat): seq<char> {
    FormatInt(u / 1000, 3) + "." + FormatInt(u % 1000, 3) + "C"
  }

  /** The `c` in `s` at index `k` with none before it is the first. */
  lemma IndexOfAt(s: seq<char>, c: char, k: nat)
    requires k < |s| && s[k] == c && c !in s[..k]
    ensures IndexOf(s, c) == k
  {
  }

  /** In digits, then a dot, the first dot is right after the digits. */
  lemma DotAfterDigits(w: seq<char>, rest: seq<char>)
    requires AllDigits(w)
    ensures IndexOf(w + "." + rest, '.') == |w|
  {
    var s := w + "." + rest;
    assert s[..|w|] == w;
    assert '.' !in w by {
      forall i | 0 <= i < |w|
        ensures w[i] != '.'
      {
        assert IsDigit(w[i]);
      }
    }
    IndexOfAt(s, '.', |w|);
  }

  lemma UnsignedFieldReads(u: nat)
    ensures ReadUnsignedMilli(UnsignedField(u)) == Some(u)
    ensures |UnsignedField(u)| > 0 && IsDigit(UnsignedField(u)[0])
  {
    var w := FormatInt(u / 1000, 3);
    var f := FormatInt(u % 1000, 3);
    var s := UnsignedField(u);
    assert Pow10(3) == 1000 && Pow10(0) == 1;
    FixedWidth(u % 1000, 3);
    assert s == w + "." + (f + "C");
    ReadField(w, f);
    assert (w + "." + (f + "C"))[0] == w[0];
  }

  /** The corrected field reads back as exactly the temperature, for every temperature. */
  lemma TempFieldFixedRoundTrip(temp: int)
    ensures ReadMilli(TempFieldFixed(temp)) == Some(temp)
  {
    var u := if temp < 0 then -temp else temp;
    UnsignedFieldReads(u);
    if temp < 0 {
      assert TempFieldFixed(temp)[1..] == UnsignedField(u);
    } else {
      assert TempFieldFixed(temp) == UnsignedField(u);
    }
  }
}
