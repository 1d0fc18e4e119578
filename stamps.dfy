// The text forms main.js builds for dates and times: Number.toString,
// String.padStart, the '-'/':' joins of logInteraction and the completion
// handler, Date.toISOString's date part, and JavaScript's `<` on strings,
// which compares UTF-16 code units left to right.

module Stamps {
  import opened Calendar

  predicate IsDigit(c: char) {
    '0' <= c <= '9'
  }

  function Digit(n: nat): (c: char)
    requires n < 10
    ensures IsDigit(c)
  {
    ('0' as int + n) as char
  }

  function DigitValue(c: char): int {
    c as int - '0' as int
  }

  predicate AllDigits(s: string) {
    forall i :: 0 <= i < |s| ==> IsDigit(s[i])
  }

  /** The value of a decimal digit string, read left to right. */
  function ParseNat(s: string): (n: int)
    ensures AllDigits(s) ==> n >= 0
  {
    if s == [] then 0 else 10 * ParseNat(s[..|s| - 1]) + DigitValue(s[|s| - 1])
  }

  function Pow10(k: nat): nat {
    if k == 0 then 1 else 10 * Pow10(k - 1)
  }

  /** Number.prototype.toString() of a non-negative integer. */
  function NatToString(n: nat): (s: string)
    ensures 1 <= |s| && AllDigits(s)
    ensures ParseNat(s) == n
    ensures s[0] == '0' ==> n == 0
  {
    if n < 10 then [Digit(n)] else NatToString(n / 10) + [Digit(n % 10)]
  }

  /** Number.prototype.toString() of any integer. */
  function IntToString(n: int): string {
    if n < 0 then "-" + NatToString(-n) else NatToString(n)
  }

  /** String.prototype.padStart(len, fill) with a one-character fill. */
  function PadStart(s: string, len: nat, fill: char): (r: string)
    ensures |r| == if |s| >= len then |s| else len
    ensures r[|r| - |s|..] == s
    ensures forall i :: 0 <= i < |r| - |s| ==> r[i] == fill
  {
    if |s| >= len then s else seq(len - |s|, _ => fill) + s
  }

  /** n.toString().padStart(2, '0'). */
  function Pad2(n: nat): string {
    PadStart(NatToString(n), 2, '0')
  }

  /** The local date builder: [getFullYear(), month, day].join('-'). */
  function LocalDateText(d: Date): string {
    IntToString(d.year) + "-" + Pad2(d.month) + "-" + Pad2(d.day)
  }

  /** toISOString().split('T')[0]: a four-digit year, or a signed six-digit
      one outside 0..9999, then the padded month and day. */
  function IsoDateText(d: Date): string {
    var year :=
      if 0 <= d.year <= 9999 then PadStart(NatToString(d.year), 4, '0')
      else (if d.year < 0 then "-" else "+") + PadStart(NatToString(if d.year < 0 then -d.year else d.year), 6, '0');
    year + "-" + Pad2(d.month) + "-" + Pad2(d.day)
  }

  /** The time builder: [hours, minutes, seconds].join(':'). */
  function TimeText(t: Seconds): string {
    Pad2(t / 3600) + ":" + Pad2(t / 60 % 60) + ":" + Pad2(t % 60)
  }

  /** A date and a time of day: one row of last_updates. */
  datatype Stamp = Stamp(date: Date, time: Seconds)

  /** The text logInteraction stores: date, a space, then the time. */
  function StampText(s: Stamp): string {
    LocalDateText(s.date) + " " + TimeText(s.time)
  }

  /** JavaScript's `a < b` on strings. */
  predicate LexLess(a: string, b: string) {
    if a == [] then b != []
    else if b == [] then false
    else if a[0] != b[0] then a[0] < b[0]
    else LexLess(a[1..], b[1..])
  }

  /** The shape HH:MM:SS with two-digit fields. */
  predicate IsTimeForm(s: string) {
    |s| == 8 && s[2] == ':' && s[5] == ':'
    && IsDigit(s[0]) && IsDigit(s[1]) && IsDigit(s[3]) && IsDigit(s[4])
    && IsDigit(s[6]) && IsDigit(s[7])
  }

  /** The shape YYYY-MM-DD with a four-digit year and two-digit fields. */
  predicate IsDateForm(s: string) {
    |s| == 10 && s[4] == '-' && s[7] == '-'
    && AllDigits(s[..4]) && AllDigits(s[5..7]) && AllDigits(s[8..])
  }

  /** The shape 'YYYY-MM-DD HH:MM:SS' of a stored interaction stamp. */
  predicate IsStampForm(s: string) {
    |s| == 19 && IsDateForm(s[..10]) && s[10] == ' ' && IsTimeForm(s[11..])
  }

  /** Reads HH:MM:SS back as seconds after midnight. */
  function ParseTime(s: string): int
    requires |s| == 8
  {
    3600 * ParseNat(s[0..2]) + 60 * ParseNat(s[3..5]) + ParseNat(s[6..8])
  }

  /** Reads YYYY-MM-DD back as a (year, month, day) triple. */
  function ParseDate(s: string): CivilDate
    requires IsDateForm(s)
  {
    CivilDate(ParseNat(s[..4]), ParseNat(s[5..7]), ParseNat(s[8..]))
  }

  // ---------------------------------------------------------------------
  // Lemmas

  lemma ParseNatSnoc(s: string, c: char)
    ensures ParseNat(s + [c]) == 10 * ParseNat(s) + DigitValue(c)
  {
    assert (s + [c])[..|s|] == s;
  }

  lemma {:induction false} ParseNatBound(s: string)
    requires AllDigits(s)
    ensures 0 <= ParseNat(s) < Pow10(|s|)
  {
    if s != [] {
      ParseNatBound(s[..|s| - 1]);
    }
  }

  /** The leading digit of a digit string weighs 10^(length - 1). */
  lemma {:induction false} ParseNatFront(s: string)
    requires |s| >= 1
    ensures ParseNat(s) == DigitValue(s[0]) * Pow10(|s| - 1) + ParseNat(s[1..])
  {
    if |s| > 1 {
      var init, tail := s[..|s| - 1], s[1..];
      var d0, last := DigitValue(s[0]), DigitValue(s[|s| - 1]);
      var p := Pow10(|s| - 2);
      ParseNatFront(init);
      assert init[0] == s[0];
      var a := ParseNat(init[1..]);
      assert ParseNat(init) == d0 * p + a;
      assert ParseNat(tail) == 10 * a + last by {
        assert tail[..|tail| - 1] == init[1..];
        assert tail[|tail| - 1] == s[|s| - 1];
      }
      assert ParseNat(s) == 10 * ParseNat(init) + last;
      assert Pow10(|s| - 1) == 10 * p;
      ShiftDigit(d0, p);
    }
  }

  lemma ShiftDigit(d: int, p: int)
    ensures 10 * (d * p) == d * (10 * p)
  {
  }

  /** A smaller leading digit outweighs any tail. */
  lemma LeadingDigitDominates(da: int, db: int, ra: int, rb: int, p: int)
    requires 0 <= da < db && 0 <= ra < p && 0 <= rb < p
    ensures da * p + ra < db * p + rb
  {
    var k := db - da - 1;
    assert k * p >= 0;
    assert db * p == da * p + k * p + p;
  }

  lemma {:induction false} LexLessIrreflexive(s: string)
    ensures !LexLess(s, s)
  {
    if s != [] {
      LexLessIrreflexive(s[1..]);
    }
  }

  /** On digit strings of one length, `<` is numeric order. */
  lemma {:induction false} DigitsOrder(a: string, b: string)
    requires |a| == |b| && AllDigits(a) && AllDigits(b)
    ensures LexLess(a, b) <==> ParseNat(a) < ParseNat(b)
    ensures a == b <==> ParseNat(a) == ParseNat(b)
  {
    if a != [] {
      var ta, tb := a[1..], b[1..];
      assert AllDigits(ta) && AllDigits(tb);
      ParseNatFront(a);
      ParseNatFront(b);
      ParseNatBound(ta);
      ParseNatBound(tb);
      DigitsOrder(ta, tb);
      var p := Pow10(|a| - 1);
      var da, db := DigitValue(a[0]), DigitValue(b[0]);
      assert 0 <= da && 0 <= db;
      if da < db {
        LeadingDigitDominates(da, db, ParseNat(ta), ParseNat(tb), p);
      } else if db < da {
        LeadingDigitDominates(db, da, ParseNat(tb), ParseNat(ta), p);
        LexLessIrreflexive(a);
      } else {
        assert a[0] == b[0];
        assert a == [a[0]] + ta && b == [b[0]] + tb;
        LexLessIrreflexive(a);
      }
    } else {
      LexLessIrreflexive(a);
    }
  }

  /** Comparing two concatenations whose first parts have one length. */
  lemma {:induction false} LexLessAppend(a1: string, a2: string, b1: string, b2: string)
    requires |a1| == |b1|
    ensures LexLess(a1 + a2, b1 + b2) <==> LexLess(a1, b1) || (a1 == b1 && LexLess(a2, b2))
  {
    if a1 != [] {
      assert (a1 + a2)[1..] == a1[1..] + a2;
      assert (b1 + b2)[1..] == b1[1..] + b2;
      LexLessAppend(a1[1..], a2, b1[1..], b2);
      if a1[0] == b1[0] && a1[1..] == b1[1..] {
        assert a1 == b1;
      }
    } else {
      assert a1 + a2 == a2 && b1 + b2 == b2;
    }
  }

  /** A field below 100 is printed as exactly two digits. */
  lemma Pad2Digits(n: nat)
    requires n < 100
    ensures |Pad2(n)| == 2 && AllDigits(Pad2(n)) && ParseNat(Pad2(n)) == n
  {
    var s := NatToString(n);
    if n < 10 {
      assert Pad2(n) == ['0'] + s;
      ParseNatSnoc(['0'], s[0]);
      assert ['0'] + s == ['0'] + [s[0]];
    } else {
      assert |NatToString(n / 10)| == 1;
    }
  }

  /** A four-digit year is printed as exactly four digits. */
  lemma FourDigitYear(y: nat)
    requires 1000 <= y <= 9999
    ensures |NatToString(y)| == 4
  {
    var y1 := y / 10;
    var y2 := y1 / 10;
    assert |NatToString(y2 / 10)| == 1;
    assert |NatToString(y2)| == 2;
    assert |NatToString(y1)| == 3;
  }

  lemma Pad2Order(a: nat, b: nat)
    requires a < 100 && b < 100
    ensures LexLess(Pad2(a), Pad2(b)) <==> a < b
    ensures Pad2(a) == Pad2(b) <==> a == b
  {
    Pad2Digits(a);
    Pad2Digits(b);
    DigitsOrder(Pad2(a), Pad2(b));
  }

  lemma TimeFields(t: Seconds)
    ensures t / 3600 < 24 && t / 60 % 60 < 60 && t % 60 < 60
    ensures t == 3600 * (t / 3600) + 60 * (t / 60 % 60) + t % 60
  {
  }

  /** Where the fields of a two-digit-field stamp sit in its text. */
  lemma JoinedFields(x: string, y: string, z: string, sep: char)
    requires |x| == 2 && |y| == 2 && |z| == 2
    ensures var t := x + [sep] + y + [sep] + z;
      |t| == 8 && t[0..2] == x && t[2] == sep && t[3..5] == y && t[5] == sep && t[6..8] == z
  {
  }

  lemma DateFields(y: string, m: string, d: string)
    requires |y| == 4 && |m| == 2 && |d| == 2
    ensures var t := y + "-" + m + "-" + d;
      |t| == 10 && t[..4] == y && t[4] == '-' && t[5..7] == m && t[7] == '-' && t[8..] == d
  {
  }

  /** Time stamps have the form HH:MM:SS and read back as the time they print. */
  lemma TimeTextRoundTrip(t: Seconds)
    ensures IsTimeForm(TimeText(t))
    ensures ParseTime(TimeText(t)) == t
  {
    var h, m, s := t / 3600, t / 60 % 60, t % 60;
    TimeFields(t);
    Pad2Digits(h);
    Pad2Digits(m);
    Pad2Digits(s);
    JoinedFields(Pad2(h), Pad2(m), Pad2(s), ':');
    assert TimeText(t) == Pad2(h) + [':'] + Pad2(m) + [':'] + Pad2(s);
  }

  /** Three fields joined by one separator compare field by field when the
      first two fields of both sides have matching lengths. */
  lemma FieldsOrder(a1: string, a2: string, a3: string, b1: string, b2: string, b3: string, sep: string)
    requires |a1| == |b1| && |a2| == |b2|
    ensures LexLess(a1 + sep + a2 + sep + a3, b1 + sep + b2 + sep + b3) <==>
            LexLess(a1, b1) || (a1 == b1 && (LexLess(a2, b2) || (a2 == b2 && LexLess(a3, b3))))
  {
    assert a1 + sep + a2 + sep + a3 == a1 + (sep + (a2 + (sep + a3)));
    assert b1 + sep + b2 + sep + b3 == b1 + (sep + (b2 + (sep + b3)));
    LexLessIrreflexive(sep);
    LexLessAppend(a1, sep + (a2 + (sep + a3)), b1, sep + (b2 + (sep + b3)));
    LexLessAppend(sep, a2 + (sep + a3), sep, b2 + (sep + b3));
    LexLessAppend(a2, sep + a3, b2, sep + b3);
    LexLessAppend(sep, a3, sep, b3);
  }

  lemma TimeTupleOrder(a: Seconds, b: Seconds)
    ensures a < b <==>
      a / 3600 < b / 3600 || (a / 3600 == b / 3600 &&
        (a / 60 % 60 < b / 60 % 60 || (a / 60 % 60 == b / 60 % 60 && a % 60 < b % 60)))
  {
    TimeFields(a);
    TimeFields(b);
  }

  /** For time stamps, string order is chronological order: the comparison
      with '23:59:59' in checkLastUpdate compares times of day. */
  lemma TimeTextOrder(a: Seconds, b: Seconds)
    ensures LexLess(TimeText(a), TimeText(b)) <==> a < b
  {
    TimeFields(a);
    TimeFields(b);
    var ha, ma, sa := a / 3600, a / 60 % 60, a % 60;
    var hb, mb, sb := b / 3600, b / 60 % 60, b % 60;
    Pad2Order(ha, hb);
    Pad2Order(ma, mb);
    Pad2Order(sa, sb);
    Pad2Digits(ha); Pad2Digits(hb);
    Pad2Digits(ma); Pad2Digits(mb);
    FieldsOrder(Pad2(ha), Pad2(ma), Pad2(sa), Pad2(hb), Pad2(mb), Pad2(sb), ":");
    TimeTupleOrder(a, b);
  }

  /** A two-digit number is printed as its tens digit and its units digit,
      with no padding. */
  lemma TwoDigitText(n: nat)
    requires 10 <= n < 100
    ensures Pad2(n) == [Digit(n / 10), Digit(n % 10)]
  {
    assert NatToString(n / 10) == [Digit(n / 10)];
  }

  /** A time whose hours, minutes and seconds all have two digits prints
      digit by digit. */
  lemma TimeTextDigits(t: Seconds, h: nat, m: nat, s: nat)
    requires 10 <= h < 24 && 10 <= m < 60 && 10 <= s < 60
    requires t == 3600 * h + 60 * m + s
    ensures TimeText(t) == [Digit(h / 10), Digit(h % 10), ':', Digit(m / 10), Digit(m % 10), ':', Digit(s / 10), Digit(s % 10)]
  {
    FieldsOfTime(t, h, m, s);
    TwoDigitText(h);
    TwoDigitText(m);
    TwoDigitText(s);
    DisplayJoin(Digit(h / 10), Digit(h % 10), Digit(m / 10), Digit(m % 10), Digit(s / 10), Digit(s % 10), ':');
  }

  /** The fields TimeText prints are the ones the time was made of. */
  lemma FieldsOfTime(t: Seconds, h: nat, m: nat, s: nat)
    requires h < 24 && m < 60 && s < 60 && t == 3600 * h + 60 * m + s
    ensures t / 3600 == h && t / 60 % 60 == m && t % 60 == s
  {
    assert t / 60 == 60 * h + m;
  }

  lemma DisplayJoin(a: char, b: char, c: char, d: char, e: char, f: char, sep: char)
    ensures [a, b] + [sep] + [c, d] + [sep] + [e, f] == [a, b, sep, c, d, sep, e, f]
  {
  }

  /** The end-of-day sentinel the rollover writes: 86399 seconds after
      midnight prints as 23:59:59. */
  lemma EndOfDayText(t: Seconds)
    requires t == 86399
    ensures TimeText(t) == "23:59:59"
  {
    TimeTextDigits(t, 23, 59, 59);
  }

  /** Date stamps of four-digit years have the form YYYY-MM-DD and read back
      as the date they print. */
  lemma DateTextRoundTrip(d: Date)
    requires 1000 <= d.year <= 9999
    ensures IsDateForm(LocalDateText(d))
    ensures ParseDate(LocalDateText(d)) == d
  {
    FourDigitYear(d.year);
    Pad2Digits(d.month);
    Pad2Digits(d.day);
    var y := NatToString(d.year);
    assert LocalDateText(d) == y + "-" + Pad2(d.month) + "-" + Pad2(d.day);
    DateFields(y, Pad2(d.month), Pad2(d.day));
  }

  lemma StampFields(date: string, time: string)
    requires |date| == 10 && |time| == 8
    ensures var t := date + " " + time;
      |t| == 19 && t[..10] == date && t[10] == ' ' && t[11..] == time
  {
  }

  /** Interaction stamps of four-digit years have the form
      'YYYY-MM-DD HH:MM:SS', and their date and time parts read back as the
      stamp's date and time under this module's ParseDate and ParseTime.
      That JavaScript's Date parser reads the text the same way is assumed,
      not proved. */
  lemma StampTextRoundTrip(s: Stamp)
    requires 1000 <= s.date.year <= 9999
    ensures var t := StampText(s);
      IsStampForm(t) && ParseDate(t[..10]) == s.date && ParseTime(t[11..]) == s.time
  {
    DateTextRoundTrip(s.date);
    TimeTextRoundTrip(s.time);
    StampFields(LocalDateText(s.date), TimeText(s.time));
  }

  /** For four-digit years toISOString's date part and the local builder
      print a date identically. */
  lemma IsoMatchesLocal(d: Date)
    requires 1000 <= d.year <= 9999
    ensures IsoDateText(d) == LocalDateText(d)
  {
    FourDigitYear(d.year);
  }

  /** For four-digit years the text order of date stamps (what ORDER BY date
      compares) is calendar order. */
  lemma DateTextOrder(a: Date, b: Date)
    requires 1000 <= a.year <= 9999 && 1000 <= b.year <= 9999
    ensures LexLess(LocalDateText(a), LocalDateText(b)) <==> Before(a, b)
  {
    FourDigitYear(a.year);
    FourDigitYear(b.year);
    var ya, yb := NatToString(a.year), NatToString(b.year);
    DigitsOrder(ya, yb);
    Pad2Order(a.month, b.month);
    Pad2Order(a.day, b.day);
    Pad2Digits(a.month); Pad2Digits(b.month);
    FieldsOrder(ya, Pad2(a.month), Pad2(a.day), yb, Pad2(b.month), Pad2(b.day), "-");
  }
}
