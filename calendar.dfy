/**
 * Calendar date-times and their two text forms: the packed 14-digit
 * "YYYYMMDDHHMMSS" the sensor emits and the relay parses, and the
 * "YYYY-MM-DD HH:MM:SS" rendering Python gives a `datetime`.
 */
module Calendar {
  import opened Wrappers
  import opened Decimal

  datatype DateTime = DateTime(year: nat, month: nat, day: nat, hour: nat, minute: nat, second: nat)

  predicate IsLeap(y: nat)
  {
    y % 4 == 0 && (y % 100 != 0 || y % 400 == 0)
  }

  function DaysInMonth(y: nat, m: nat): (n: nat)
    requires 1 <= m <= 12
    ensures 28 <= n <= 31
    ensures n == 29 <==> m == 2 && IsLeap(y)
  {
    if m == 2 then (if IsLeap(y) then 29 else 28)
    else if m == 4 || m == 6 || m == 9 || m == 11 then 30
    else 31
  }

  /** What Python's `datetime` constructor accepts (years 1 to 9999, no leap seconds). */
  predicate Valid(t: DateTime)
  {
    && 1 <= t.year <= 9999
    && 1 <= t.month <= 12
    && 1 <= t.day <= DaysInMonth(t.year, t.month)
    && t.hour < 24 && t.minute < 60 && t.second < 60
  }

  /** The packed text "%04d%02d%02d%02d%02d%02d" of the six fields. */
  function CompactText(t: DateTime): string
  {
    Pad(t.year, 4) + Pad(t.month, 2) + Pad(t.day, 2) + Pad(t.hour, 2) + Pad(t.minute, 2) + Pad(t.second, 2)
  }

  /**
   * `datetime.strptime(s, "%Y%m%d%H%M%S")` on a string of exactly 14 digits;
   * `None` stands for the `ValueError` it raises. On 14 digits the format's
   * regular expression can only split the string into 4+2+2+2+2+2 digits, so
   * acceptance is the calendar check of the six fields.
   */
  function ParseCompact(s: string): (r: Option<DateTime>)
    ensures r.Some? ==> Valid(r.value) && CompactText(r.value) == s
  {
    if |s| == 14 && AllDigits(s) then
      var t := DateTime(Value(s[0..4]), Value(s[4..6]), Value(s[6..8]),
                        Value(s[8..10]), Value(s[10..12]), Value(s[12..14]));
      if Valid(t) then
        CompactFields(s);
        Some(t)
      else None
    else None
  }

  lemma CompactFields(s: string)
    requires |s| == 14 && AllDigits(s)
    ensures CompactText(DateTime(Value(s[0..4]), Value(s[4..6]), Value(s[6..8]),
                                 Value(s[8..10]), Value(s[10..12]), Value(s[12..14]))) == s
  {
    PadValue(s[0..4]); PadValue(s[4..6]); PadValue(s[6..8]);
    PadValue(s[8..10]); PadValue(s[10..12]); PadValue(s[12..14]);
    CompactJoin(s);
  }

  /** A 14-character string is its six fields put back together. */
  lemma CompactJoin(s: string)
    requires |s| == 14
    ensures s == s[0..4] + s[4..6] + s[6..8] + s[8..10] + s[10..12] + s[12..14]
  {
    assert s[0..4] + s[4..6] == s[0..6];
    assert s[0..6] + s[6..8] == s[0..8];
    assert s[0..8] + s[8..10] == s[0..10];
    assert s[0..10] + s[10..12] == s[0..12];
    assert s[0..12] + s[12..14] == s;
  }

  /** The six fields of the packed text are where a 14-character reader looks for them. */
  lemma CompactSplit(a: string, b: string, c: string, d: string, e: string, f: string)
    requires |a| == 4 && |b| == 2 && |c| == 2 && |d| == 2 && |e| == 2 && |f| == 2
    ensures var s := a + b + c + d + e + f;
      && |s| == 14
      && s[0..4] == a && s[4..6] == b && s[6..8] == c
      && s[8..10] == d && s[10..12] == e && s[12..14] == f
  {
  }

  /** `str(dt)` of a `datetime` without microseconds: "%04d-%02d-%02d %02d:%02d:%02d". */
  function Render(t: DateTime): string
  {
    Pad(t.year, 4) + "-" + Pad(t.month, 2) + "-" + Pad(t.day, 2) + " "
    + Pad(t.hour, 2) + ":" + Pad(t.minute, 2) + ":" + Pad(t.second, 2)
  }

  predicate IsoShaped(s: string)
  {
    && |s| == 19
    && s[4] == '-' && s[7] == '-' && s[10] == ' ' && s[13] == ':' && s[16] == ':'
    && AllDigits(s[0..4]) && AllDigits(s[5..7]) && AllDigits(s[8..10])
    && AllDigits(s[11..13]) && AllDigits(s[14..16]) && AllDigits(s[17..19])
  }

  /** `datetime.strptime(s, "%Y-%m-%d %H:%M:%S")` on the 19-character form; `None` for `ValueError`. */
  function ParseIso(s: string): (r: Option<DateTime>)
    ensures r.Some? ==> Valid(r.value) && Render(r.value) == s
  {
    if IsoShaped(s) then
      var t := DateTime(Value(s[0..4]), Value(s[5..7]), Value(s[8..10]),
                        Value(s[11..13]), Value(s[14..16]), Value(s[17..19]));
      if Valid(t) then
        PadValue(s[0..4]); PadValue(s[5..7]); PadValue(s[8..10]);
        PadValue(s[11..13]); PadValue(s[14..16]); PadValue(s[17..19]);
        IsoJoin(s);
        Some(t)
      else None
    else None
  }

  /** A 19-character string with the separators in place is its six fields put back together. */
  lemma IsoJoin(s: string)
    requires |s| == 19
    requires s[4] == '-' && s[7] == '-' && s[10] == ' ' && s[13] == ':' && s[16] == ':'
    ensures s == s[0..4] + "-" + s[5..7] + "-" + s[8..10] + " " + s[11..13] + ":" + s[14..16] + ":" + s[17..19]
  {
    assert s[0..4] + "-" == s[0..5];
    assert s[0..5] + s[5..7] + "-" == s[0..8];
    assert s[0..8] + s[8..10] + " " == s[0..11];
    assert s[0..11] + s[11..13] + ":" == s[0..14];
    assert s[0..14] + s[14..16] + ":" == s[0..17];
    assert s[0..17] + s[17..19] == s;
  }

  /** The six fields and five separators of the rendered text are where a 19-character reader looks for them. */
  lemma IsoSplit(a: string, b: string, c: string, d: string, e: string, f: string)
    requires |a| == 4 && |b| == 2 && |c| == 2 && |d| == 2 && |e| == 2 && |f| == 2
    ensures var s := a + "-" + b + "-" + c + " " + d + ":" + e + ":" + f;
      && |s| == 19
      && s[4] == '-' && s[7] == '-' && s[10] == ' ' && s[13] == ':' && s[16] == ':'
      && s[0..4] == a && s[5..7] == b && s[8..10] == c
      && s[11..13] == d && s[14..16] == e && s[17..19] == f
  {
    var s := a + "-" + b + "-" + c + " " + d + ":" + e + ":" + f;
    assert s[0..4] == a;
    assert s[5..7] == b;
    assert s[8..10] == c;
    assert s[11..13] == d;
    assert s[14..16] == e;
    assert s[17..19] == f;
  }

  /** Reading a fixed-width digit field and printing it back with the same width is the identity. */
  lemma {:induction false} PadValue(x: string)
    requires AllDigits(x) && |x| >= 1
    ensures Pad(Value(x), |x|) == x
  {
    if x[0] != '0' {
      ShowValue(x);
    } else if |x| == 1 {
      assert x == "0";
    } else {
      var x' := x[1..];
      assert x == "0" + x';
      ZeroValue(x');
      PadValue(x');
      ZeroFillCons(Show(Value(x')), |x'|);
    }
  }

  /** A leading zero does not change the value. */
  lemma ZeroValue(x: string)
    requires AllDigits(x)
    ensures AllDigits("0" + x) && Value("0" + x) == Value(x)
  {
    ValueAppend("0", x);
    assert Value("0") == 0 by { assert "0"[..0] == []; }
  }

  /** One more column of width is one more zero in front. */
  lemma ZeroFillCons(d: string, w: nat)
    requires AllDigits(d) && |d| <= w
    ensures ZeroFill(d, w + 1) == "0" + ZeroFill(d, w)
  {
    var k := w - |d|;
    ZerosCons(k);
    assert ZeroFill(d, w + 1) == Zeros(k + 1) + d;
    if k == 0 {
      assert Zeros(k) + d == d;
    } else {
      assert ZeroFill(d, w) == Zeros(k) + d;
    }
  }

  lemma ZerosCons(k: nat)
    ensures Zeros(k + 1) == "0" + Zeros(k)
  {
  }

  /** The packed text of a valid date-time is 14 digits and parses back to it. */
  lemma CompactRoundTrip(t: DateTime)
    requires Valid(t)
    ensures |CompactText(t)| == 14
    ensures ParseCompact(CompactText(t)) == Some(t)
  {
    FieldTexts(t);
    CompactSplit(Pad(t.year, 4), Pad(t.month, 2), Pad(t.day, 2), Pad(t.hour, 2), Pad(t.minute, 2), Pad(t.second, 2));
    var s := CompactText(t);
    assert AllDigits(s);
  }

  /** The rendered text of a valid date-time has the 19-character shape and parses back to it. */
  lemma RenderRoundTrip(t: DateTime)
    requires Valid(t)
    ensures IsoShaped(Render(t))
    ensures ParseIso(Render(t)) == Some(t)
  {
    FieldTexts(t);
    IsoSplit(Pad(t.year, 4), Pad(t.month, 2), Pad(t.day, 2), Pad(t.hour, 2), Pad(t.minute, 2), Pad(t.second, 2));
  }

  lemma FieldTexts(t: DateTime)
    requires Valid(t)
    ensures |Pad(t.year, 4)| == 4 && |Pad(t.month, 2)| == 2 && |Pad(t.day, 2)| == 2
    ensures |Pad(t.hour, 2)| == 2 && |Pad(t.minute, 2)| == 2 && |Pad(t.second, 2)| == 2
    ensures Value(Pad(t.year, 4)) == t.year && Value(Pad(t.month, 2)) == t.month
    ensures Value(Pad(t.day, 2)) == t.day && Value(Pad(t.hour, 2)) == t.hour
    ensures Value(Pad(t.minute, 2)) == t.minute && Value(Pad(t.second, 2)) == t.second
  {
    assert Pow10(2) == 100 && Pow10(4) == 10000;
    PadLength(t.year, 4); PadLength(t.month, 2); PadLength(t.day, 2);
    PadLength(t.hour, 2); PadLength(t.minute, 2); PadLength(t.second, 2);
    ValuePad(t.year, 4); ValuePad(t.month, 2); ValuePad(t.day, 2);
    ValuePad(t.hour, 2); ValuePad(t.minute, 2); ValuePad(t.second, 2);
  }

  function DaysBeforeYear(y: nat): nat
    requires y >= 1
  {
    var p := y - 1;
    365 * p + p / 4 - p / 100 + p / 400
  }

  function DaysBeforeMonth(y: nat, m: nat): nat
    requires 1 <= m <= 12
  {
    if m == 1 then 0 else DaysBeforeMonth(y, m - 1) + DaysInMonth(y, m - 1)
  }

  /** Seconds since 0001-01-01 00:00:00 in the proleptic Gregorian calendar (naive, no time zone). */
  function Seconds(t: DateTime): nat
    requires Valid(t)
  {
    var days := DaysBeforeYear(t.year) + DaysBeforeMonth(t.year, t.month) + t.day - 1;
    days * 86400 + t.hour * 3600 + t.minute * 60 + t.second
  }
}
