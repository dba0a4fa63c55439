/** The SQLite timestamp adapter and converter of
    src_py/hat/util/sqlite3.py. The adapter writes a datetime as
    `YYYY-MM-DD HH:MM:SS[.ffffff][+HH:MM|-HH:MM]` (Python's
    `isoformat(" ")`); the converter reads such text back, with an optional
    fixed UTC offset. The converter's input bytes are read as the
    characters of the same codes. */
module Sqlite3 {
  import opened Wrappers
  import opened Strings
  import opened Calendar

  /** Every way the converter fails raises ValueError: a failed unpacking,
      a failed `int`, an offset of a day or more, or a field the `datetime`
      constructor rejects. */
  datatype ValueError = ValueError

  /** A datetime and its fixed UTC offset in minutes, None when naive. */
  datatype Timestamp = Timestamp(dt: DateTime, offset: Option<int>)

  /** `datetime.timezone` accepts offsets strictly inside one day. */
  predicate ValidOffset(offset: Option<int>) {
    offset.Some? ==> -1440 < offset.value < 1440
  }

  predicate ValidTimestamp(ts: Timestamp) {
    Valid(ts.dt) && ValidOffset(ts.offset)
  }

  // ---------------------------------------------------------------------
  // The adapter

  function DatePart(dt: DateTime): string
    requires Valid(dt)
  {
    Join([PadNat(dt.year, 4), PadNat(dt.month, 2), PadNat(dt.day, 2)], '-')
  }

  function Clock(dt: DateTime): string
    requires Valid(dt)
  {
    Join([PadNat(dt.hour, 2), PadNat(dt.minute, 2), PadNat(dt.second, 2)], ':')
  }

  /** The clock, followed by six digits of microseconds unless they are 0. */
  function TimePart(dt: DateTime): string
    requires Valid(dt)
  {
    if dt.microsecond != 0 then Join([Clock(dt), PadNat(dt.microsecond, 6)], '.') else Clock(dt)
  }

  /** `+HH:MM` or `-HH:MM`; an offset of zero is written with '+'. */
  function Zone(offset: Option<int>): string {
    match offset
    case None => ""
    case Some(off) =>
      var a := if off < 0 then -off else off;
      [if off < 0 then '-' else '+'] + Join([PadNat(a / 60, 2), PadNat(a % 60, 2)], ':')
  }

  /** `sqlite3_adapt_datetime`: `val.isoformat(" ")`. */
  function Adapt(ts: Timestamp): (s: string)
    requires ValidTimestamp(ts)
    ensures |s| == 19 + (if ts.dt.microsecond != 0 then 7 else 0) + (if ts.offset.Some? then 6 else 0)
    ensures s[10] == ' ' && s[..10] == DatePart(ts.dt)
  {
    FieldWidths(ts);
    Join3(PadNat(ts.dt.year, 4), PadNat(ts.dt.month, 2), PadNat(ts.dt.day, 2), '-');
    Join3(PadNat(ts.dt.hour, 2), PadNat(ts.dt.minute, 2), PadNat(ts.dt.second, 2), ':');
    Join2(Clock(ts.dt), PadNat(ts.dt.microsecond, 6), '.');
    Join2(DatePart(ts.dt), TimePart(ts.dt) + Zone(ts.offset), ' ');
    Join([DatePart(ts.dt), TimePart(ts.dt) + Zone(ts.offset)], ' ')
  }

  lemma FieldWidths(ts: Timestamp)
    requires ValidTimestamp(ts)
    ensures |PadNat(ts.dt.year, 4)| == 4 && |PadNat(ts.dt.microsecond, 6)| == 6
    ensures |PadNat(ts.dt.month, 2)| == 2 && |PadNat(ts.dt.day, 2)| == 2
    ensures |PadNat(ts.dt.hour, 2)| == 2 && |PadNat(ts.dt.minute, 2)| == 2 && |PadNat(ts.dt.second, 2)| == 2
    ensures |Zone(ts.offset)| == if ts.offset.Some? then 6 else 0
  {
    assert Pow10(4) == 10000 && Pow10(6) == 1000000;
    PadNatWidth(ts.dt.year, 4);
    PadNatWidth(ts.dt.microsecond, 6);
    TwoDigits(ts.dt.month);
    TwoDigits(ts.dt.day);
    TwoDigits(ts.dt.hour);
    TwoDigits(ts.dt.minute);
    TwoDigits(ts.dt.second);
    ZoneWidth(ts.offset);
  }

  lemma TwoDigits(n: nat)
    requires n < 100
    ensures |PadNat(n, 2)| == 2
  {
    assert Pow10(2) == 100;
    PadNatWidth(n, 2);
  }

  /** A zone is a sign and `HH:MM`. */
  lemma ZoneWidth(offset: Option<int>)
    requires ValidOffset(offset)
    ensures |Zone(offset)| == if offset.Some? then 6 else 0
  {
    if offset.Some? {
      var off := offset.value;
      var a := if off < 0 then -off else off;
      TwoDigits(a / 60);
      TwoDigits(a % 60);
      Join2(PadNat(a / 60, 2), PadNat(a % 60, 2), ':');
    }
  }

  // ---------------------------------------------------------------------
  // The converter

  /** `int` on one field, read as a plain string of decimal digits. */
  function Int(s: string): (r: Result<nat, ValueError>)
    ensures r.Ok? <==> ParseNat(s).Some?
    ensures r.Ok? ==> r.value == ParseNat(s).value
  {
    match ParseNat(s)
    case Some(v) => Ok(v)
    case None => Err(ValueError)
  }

  function IntAll(parts: seq<string>): (r: Result<seq<nat>, ValueError>)
    ensures r.Ok? ==> |r.value| == |parts|
    ensures r.Ok? ==> forall i :: 0 <= i < |parts| ==> ParseNat(parts[i]) == Some(r.value[i])
  {
    if parts == [] then Ok([])
    else
      var x :- Int(parts[0]);
      var rest :- IntAll(parts[1..]);
      assert forall i :: 1 <= i < |parts| ==> parts[i] == parts[1..][i - 1];
      Ok([x] + rest)
  }

  /** `a, b, ... = map(int, s.split(sep))` with `n` targets. */
  function Ints(s: string, sep: char, n: nat): (r: Result<seq<nat>, ValueError>)
    ensures r.Ok? ==> |Split(s, sep)| == n && |r.value| == n
    ensures r.Ok? ==> forall i :: 0 <= i < n ==> ParseNat(Split(s, sep)[i]) == Some(r.value[i])
  {
    var parts := Split(s, sep);
    if |parts| != n then Err(ValueError) else IntAll(parts)
  }

  /** The sign and the two pieces that lines 27-34 cut the time-and-zone
      text into; `tzsign` is left unset in the naive case and is 1 here. */
  datatype ZoneSplit = ZoneSplit(sign: int, timepart: string, tzpart: Option<string>)

  function SplitZone(s: string): (r: Result<ZoneSplit, ValueError>)
    ensures r.Ok? ==> (r.value.tzpart.None? <==> '+' !in s && '-' !in s)
    ensures r.Ok? && '+' in s ==> r.value.sign == 1 && s == r.value.timepart + ['+'] + r.value.tzpart.value
    ensures r.Ok? && '+' !in s && '-' in s ==> r.value.sign == -1 && s == r.value.timepart + ['-'] + r.value.tzpart.value
    ensures r.Ok? && r.value.tzpart.None? ==> r.value.timepart == s
  {
    if '+' in s then
      var p := Split(s, '+');
      if |p| != 2 then Err(ValueError)
      else
        JoinSplit(s, '+');
        assert p[1..] == [p[1]];
        Ok(ZoneSplit(1, p[0], Some(p[1])))
    else if '-' in s then
      var p := Split(s, '-');
      if |p| != 2 then Err(ValueError)
      else
        JoinSplit(s, '-');
        assert p[1..] == [p[1]];
        Ok(ZoneSplit(-1, p[0], Some(p[1])))
    else Ok(ZoneSplit(1, s, None))
  }

  /** `'{:0<6.6}'.format(f)`: the first six characters of `f`, padded on
      the right with '0' to six. */
  function FormatFraction(f: string): (r: string)
    ensures |r| == 6
    ensures forall i :: 0 <= i < 6 ==> r[i] == if i < |f| then f[i] else '0'
  {
    if |f| >= 6 then f[..6] else f + Zeros(6 - |f|)
  }

  /** Lines 38-41: the fraction counts only when the time splits on '.'
      into exactly two pieces; otherwise the microseconds are 0. */
  function Microseconds(timeFull: seq<string>): (r: Result<nat, ValueError>)
    requires |timeFull| >= 1
    ensures r.Ok? ==> r.value < 1000000
    ensures |timeFull| != 2 ==> r == Ok(0)
  {
    if |timeFull| == 2 then
      var us :- Int(FormatFraction(timeFull[1]));
      SixDigitsBound(FormatFraction(timeFull[1]));
      Ok(us)
    else Ok(0)
  }

  /** Six digits are worth less than a million. */
  lemma SixDigitsBound(d: string)
    requires |d| == 6
    ensures ParseNat(d).Some? ==> ParseNat(d).value < 1000000
  {
    if ParseNat(d).Some? {
      DigitsBound(d);
      assert Pow10(6) == 1000000;
    }
  }

  lemma {:induction false} DigitsBound(s: string)
    requires AllDigits(s)
    ensures DigitsValue(s) < Pow10(|s|)
  {
    if s != [] {
      DigitsBound(s[..|s| - 1]);
    }
  }

  /** Lines 42-47: a non-empty zone text is `HH:MM` and gives
      `sign * (HH * 60 + MM)` minutes, which `timezone` accepts only
      strictly inside one day; no zone text or an empty one gives a naive
      timestamp. */
  function Offset(sign: int, tzpart: Option<string>): (r: Result<Option<int>, ValueError>)
    ensures r.Ok? ==> ValidOffset(r.value)
    ensures tzpart.None? || tzpart.value == [] ==> r == Ok(None)
    ensures r.Ok? && r.value.Some? && sign == 1 ==> r.value.value >= 0
    ensures r.Ok? && r.value.Some? && sign == -1 ==> r.value.value <= 0
  {
    if tzpart.None? || tzpart.value == [] then Ok(None)
    else
      var hm :- Ints(tzpart.value, ':', 2);
      var off := sign * (hm[0] * 60 + hm[1]);
      SignTimes(sign, hm[0] * 60 + hm[1]);
      if -1440 < off < 1440 then Ok(Some(off)) else Err(ValueError)
  }

  lemma SignTimes(sign: int, mins: int)
    ensures sign == 1 ==> sign * mins == mins
    ensures sign == -1 ==> sign * mins == -mins
  {
  }

  /** `sqlite3_convert_timestamp`. */
  function Convert(val: string): (r: Result<Timestamp, ValueError>)
    ensures r.Ok? ==> ValidTimestamp(r.value) && |Split(val, ' ')| == 2
    ensures r.Ok? ==> var zone := Split(val, ' ')[1];
      ('+' !in zone && '-' !in zone ==> r.value.offset.None?) &&
      (r.value.offset.Some? && r.value.offset.value > 0 ==> '+' in zone) &&
      (r.value.offset.Some? && r.value.offset.value < 0 ==> '+' !in zone && '-' in zone)
  {
    var halves := Split(val, ' ');
    if |halves| != 2 then Err(ValueError)
    else
      var zone :- SplitZone(halves[1]);
      var date :- Ints(halves[0], '-', 3);
      var timeFull := Split(zone.timepart, '.');
      var hms :- Ints(timeFull[0], ':', 3);
      var us :- Microseconds(timeFull);
      var offset :- Offset(zone.sign, zone.tzpart);
      var dt := DateTime(date[0], date[1], date[2], hms[0], hms[1], hms[2], us);
      if Valid(dt) then Ok(Timestamp(dt, offset)) else Err(ValueError)
  }

  // ---------------------------------------------------------------------
  // Round trip

  lemma DigitsPlain(s: string)
    requires AllDigits(s)
    ensures ' ' !in s && '-' !in s && '+' !in s && ':' !in s && '.' !in s
  {
    DigitsExclude(s, ' ');
    DigitsExclude(s, '-');
    DigitsExclude(s, '+');
    DigitsExclude(s, ':');
    DigitsExclude(s, '.');
  }

  lemma {:induction false} IntAllOf(parts: seq<string>, vals: seq<nat>)
    requires |parts| == |vals|
    requires forall i :: 0 <= i < |parts| ==> ParseNat(parts[i]) == Some(vals[i])
    ensures IntAll(parts) == Ok(vals)
  {
    if parts != [] {
      IntAllOf(parts[1..], vals[1..]);
      assert [vals[0]] + vals[1..] == vals;
    }
  }

  /** Three padded numbers joined by a separator that is not a digit read
      back as those numbers. */
  lemma IntsOfPadded3(a: nat, wa: nat, b: nat, wb: nat, c: nat, wc: nat, sep: char)
    requires !IsDigit(sep)
    ensures Ints(Join([PadNat(a, wa), PadNat(b, wb), PadNat(c, wc)], sep), sep, 3) == Ok([a, b, c])
  {
    var parts := [PadNat(a, wa), PadNat(b, wb), PadNat(c, wc)];
    DigitsExclude(parts[0], sep);
    DigitsExclude(parts[1], sep);
    DigitsExclude(parts[2], sep);
    SplitJoin(parts, sep);
    ParsePadNat(a, wa);
    ParsePadNat(b, wb);
    ParsePadNat(c, wc);
    IntAllOf(parts, [a, b, c]);
  }

  lemma IntsOfPadded2(a: nat, wa: nat, b: nat, wb: nat, sep: char)
    requires !IsDigit(sep)
    ensures Ints(Join([PadNat(a, wa), PadNat(b, wb)], sep), sep, 2) == Ok([a, b])
  {
    var parts := [PadNat(a, wa), PadNat(b, wb)];
    DigitsExclude(parts[0], sep);
    DigitsExclude(parts[1], sep);
    SplitJoin(parts, sep);
    ParsePadNat(a, wa);
    ParsePadNat(b, wb);
    IntAllOf(parts, [a, b]);
  }

  lemma Join2(a: string, b: string, c: char)
    ensures Join([a, b], c) == a + [c] + b
  {
    assert [a, b][1..] == [b];
  }

  lemma Join3(a: string, b: string, d: string, c: char)
    ensures Join([a, b, d], c) == a + [c] + b + [c] + d
  {
    assert [a, b, d][1..] == [b, d];
    Join2(b, d, c);
  }

  /** The clock reads back as its three fields and holds no separator
      the converter cuts at before it. */
  lemma ClockRoundTrip(dt: DateTime)
    requires Valid(dt)
    ensures '.' !in Clock(dt) && '+' !in Clock(dt) && '-' !in Clock(dt) && ' ' !in Clock(dt)
    ensures Ints(Clock(dt), ':', 3) == Ok([dt.hour, dt.minute, dt.second])
  {
    var h, m, s := PadNat(dt.hour, 2), PadNat(dt.minute, 2), PadNat(dt.second, 2);
    DigitsPlain(h);
    DigitsPlain(m);
    DigitsPlain(s);
    Join3(h, m, s, ':');
    IntsOfPadded3(dt.hour, 2, dt.minute, 2, dt.second, 2, ':');
  }

  /** Six digits of microseconds after the '.' read back as themselves. */
  lemma FractionRoundTrip(dt: DateTime)
    requires Valid(dt) && dt.microsecond != 0
    ensures var f := PadNat(dt.microsecond, 6);
      '.' !in f && '+' !in f && '-' !in f && ' ' !in f &&
      Split(TimePart(dt), '.') == [Clock(dt), f] &&
      Microseconds([Clock(dt), f]) == Ok(dt.microsecond)
  {
    var clock, f := Clock(dt), PadNat(dt.microsecond, 6);
    ClockRoundTrip(dt);
    DigitsPlain(f);
    assert Pow10(6) == 1000000;
    PadNatWidth(dt.microsecond, 6);
    Join2(clock, f, '.');
    SplitJoin([clock, f], '.');
    assert FormatFraction(f) == f;
    ParsePadNat(dt.microsecond, 6);
  }

  /** The clock and the microseconds survive the '.' split. */
  lemma TimePartRoundTrip(dt: DateTime)
    requires Valid(dt)
    ensures var timeFull := Split(TimePart(dt), '.');
      |timeFull| >= 1 &&
      Ints(timeFull[0], ':', 3) == Ok([dt.hour, dt.minute, dt.second]) &&
      Microseconds(timeFull) == Ok(dt.microsecond)
    ensures '+' !in TimePart(dt) && '-' !in TimePart(dt) && ' ' !in TimePart(dt)
    ensures '.' !in Clock(dt) && Ints(Clock(dt), ':', 3) == Ok([dt.hour, dt.minute, dt.second])
  {
    ClockRoundTrip(dt);
    if dt.microsecond != 0 {
      FractionRoundTrip(dt);
      Join2(Clock(dt), PadNat(dt.microsecond, 6), '.');
    } else {
      SplitNoSep(Clock(dt), '.');
    }
  }

  /** The time-and-zone text is cut at the zone's sign. */
  lemma SplitZoneOf(t: string, c: char, tz: string)
    requires c == '+' || c == '-'
    requires '+' !in t && '-' !in t && '+' !in tz && '-' !in tz
    ensures SplitZone(t + [c] + tz) == Ok(ZoneSplit(if c == '+' then 1 else -1, t, Some(tz)))
  {
    var s := t + [c] + tz;
    assert s[|t|] == c;
    assert c == '-' ==> '+' !in s;
    Join2(t, tz, c);
    SplitJoin([t, tz], c);
  }

  lemma OffsetOf(off: int)
    requires ValidOffset(Some(off))
    ensures var z := Zone(Some(off));
      |z| >= 1 && (z[0] == '+' || z[0] == '-') &&
      '+' !in z[1..] && '-' !in z[1..] && ' ' !in z &&
      Offset(if z[0] == '+' then 1 else -1, Some(z[1..])) == Ok(Some(off))
  {
    var a := if off < 0 then -off else off;
    var h, m := a / 60, a % 60;
    var tz := Join([PadNat(h, 2), PadNat(m, 2)], ':');
    TzText(h, m);
    var z := Zone(Some(off));
    assert z == [if off < 0 then '-' else '+'] + tz;
    assert z[1..] == tz;
    SignedMinutes(off);
    OffsetOfText(if off < 0 then -1 else 1, tz, h, m);
  }

  /** The `HH:MM` text of a zone: digits around one ':', which reads back
      as the hours and the minutes. */
  lemma TzText(h: nat, m: nat)
    ensures var tz := Join([PadNat(h, 2), PadNat(m, 2)], ':');
      tz != [] && '+' !in tz && '-' !in tz && ' ' !in tz &&
      Ints(tz, ':', 2) == Ok([h, m])
  {
    var hh, mm := PadNat(h, 2), PadNat(m, 2);
    DigitsPlain(hh);
    DigitsPlain(mm);
    Join2(hh, mm, ':');
    IntsOfPadded2(h, 2, m, 2, ':');
  }

  /** Zone text that reads as hours and minutes gives the signed offset. */
  lemma OffsetOfText(sign: int, tz: string, h: nat, m: nat)
    requires tz != [] && Ints(tz, ':', 2) == Ok([h, m])
    requires -1440 < sign * (h * 60 + m) < 1440
    ensures Offset(sign, Some(tz)) == Ok(Some(sign * (h * 60 + m)))
  {
  }

  lemma SignedMinutes(off: int)
    ensures var a := if off < 0 then -off else off;
      (if off < 0 then -1 else 1) * (a / 60 * 60 + a % 60) == off
  {
  }

  /** A zone written after a time text free of signs is cut off again and
      read back as the same offset. */
  lemma ZoneSplitOf(t: string, offset: Option<int>)
    requires ValidOffset(offset)
    requires '+' !in t && '-' !in t && ' ' !in t
    ensures var z := SplitZone(t + Zone(offset));
      z.Ok? && z.value.timepart == t &&
      Offset(z.value.sign, z.value.tzpart) == Ok(offset)
    ensures ' ' !in t + Zone(offset)
  {
    match offset
    case None =>
      assert t + Zone(offset) == t;
    case Some(off) =>
      OffsetOf(off);
      var z := Zone(offset);
      assert z == [z[0]] + z[1..];
      SplitZoneOf(t, z[0], z[1..]);
      assert t + z == t + [z[0]] + z[1..];
  }

  lemma ZoneRoundTrip(dt: DateTime, offset: Option<int>)
    requires Valid(dt) && ValidOffset(offset)
    ensures var z := SplitZone(TimePart(dt) + Zone(offset));
      z.Ok? && z.value.timepart == TimePart(dt) &&
      Offset(z.value.sign, z.value.tzpart) == Ok(offset)
    ensures ' ' !in TimePart(dt) + Zone(offset)
  {
    TimePartRoundTrip(dt);
    ZoneSplitOf(TimePart(dt), offset);
  }

  /** What the converter does with text whose pieces are already known:
      the date, the split time and zone, the clock, the microseconds and
      the offset. */
  lemma ConvertOfParts(val: string, date: string, rest: string, zs: ZoneSplit,
                       ymd: seq<nat>, hms: seq<nat>, us: nat, offset: Option<int>)
    requires Split(val, ' ') == [date, rest]
    requires SplitZone(rest) == Ok(zs)
    requires Ints(date, '-', 3) == Ok(ymd)
    requires Ints(Split(zs.timepart, '.')[0], ':', 3) == Ok(hms)
    requires Microseconds(Split(zs.timepart, '.')) == Ok(us)
    requires Offset(zs.sign, zs.tzpart) == Ok(offset)
    ensures |ymd| == 3 && |hms| == 3
    ensures var dt := DateTime(ymd[0], ymd[1], ymd[2], hms[0], hms[1], hms[2], us);
      Convert(val) == if Valid(dt) then Ok(Timestamp(dt, offset)) else Err(ValueError)
  {
  }

  lemma DatePartRoundTrip(dt: DateTime)
    requires Valid(dt)
    ensures ' ' !in DatePart(dt)
    ensures Ints(DatePart(dt), '-', 3) == Ok([dt.year, dt.month, dt.day])
  {
    var y, mo, d := PadNat(dt.year, 4), PadNat(dt.month, 2), PadNat(dt.day, 2);
    DigitsPlain(y);
    DigitsPlain(mo);
    DigitsPlain(d);
    JoinExcludes([y, mo, d], '-', ' ');
    IntsOfPadded3(dt.year, 4, dt.month, 2, dt.day, 2, '-');
  }

  /** The adapter writes the date, one space, then the time and the zone. */
  lemma AdaptLayout(ts: Timestamp)
    requires ValidTimestamp(ts)
    ensures Adapt(ts) == DatePart(ts.dt) + [' '] + (TimePart(ts.dt) + Zone(ts.offset))
  {
    Join2(DatePart(ts.dt), TimePart(ts.dt) + Zone(ts.offset), ' ');
  }

  /** Text with one separator between two pieces free of it splits back
      into those pieces. */
  lemma SplitTwo(a: string, b: string, c: char)
    requires c !in a && c !in b
    ensures Split(a + [c] + b, c) == [a, b]
  {
    Join2(a, b, c);
    SplitJoin([a, b], c);
  }

  lemma SplitThree(a: string, b: string, d: string, c: char)
    requires c !in a && c !in b && c !in d
    ensures Split(a + [c] + b + [c] + d, c) == [a, b, d]
  {
    Join3(a, b, d, c);
    SplitJoin([a, b, d], c);
  }

  lemma SplitAfter(date: string, rest: string, extra: string)
    requires ' ' !in date && ' ' !in rest && ' ' !in extra
    ensures ' ' !in rest + extra
    ensures Split(date + [' '] + rest + extra, ' ') == [date, rest + extra]
  {
    assert date + [' '] + rest + extra == date + [' '] + (rest + extra);
    SplitTwo(date, rest + extra, ' ');
  }

  /** The adapter's text split at its one space, with `extra` appended. */
  lemma AdaptSplit(ts: Timestamp, extra: string)
    requires ValidTimestamp(ts)
    requires ' ' !in extra
    ensures ' ' !in TimePart(ts.dt) + Zone(ts.offset) + extra
    ensures Split(Adapt(ts) + extra, ' ') == [DatePart(ts.dt), TimePart(ts.dt) + Zone(ts.offset) + extra]
  {
    AdaptLayout(ts);
    DatePartRoundTrip(ts.dt);
    ZoneRoundTrip(ts.dt, ts.offset);
    SplitAfter(DatePart(ts.dt), TimePart(ts.dt) + Zone(ts.offset), extra);
  }

  /** Converting what the adapter writes gives back the same fields and
      offset. */
  lemma ConvertAdapt(ts: Timestamp)
    requires ValidTimestamp(ts)
    ensures Convert(Adapt(ts)) == Ok(ts)
  {
    var dt := ts.dt;
    AdaptSplit(ts, "");
    assert Adapt(ts) + "" == Adapt(ts);
    assert TimePart(dt) + Zone(ts.offset) + "" == TimePart(dt) + Zone(ts.offset);
    DatePartRoundTrip(dt);
    ZoneRoundTrip(dt, ts.offset);
    TimePartRoundTrip(dt);
    var zs := SplitZone(TimePart(dt) + Zone(ts.offset)).value;
    ConvertOfParts(Adapt(ts), DatePart(dt), TimePart(dt) + Zone(ts.offset), zs,
                   [dt.year, dt.month, dt.day], [dt.hour, dt.minute, dt.second], dt.microsecond, ts.offset);
  }

  /** A '+' with no zone text after it is accepted and gives a naive
      timestamp: the zone text is empty, and the code tests it for truth,
      not for None. */
  lemma EmptyZoneIsNaive(ts: Timestamp)
    requires ValidTimestamp(ts) && ts.offset.None?
    ensures Convert(Adapt(ts) + "+") == Ok(ts)
  {
    var dt := ts.dt;
    var t := TimePart(dt);
    AdaptSplit(ts, "+");
    assert t + Zone(ts.offset) + "+" == t + ['+'] + "";
    DatePartRoundTrip(dt);
    TimePartRoundTrip(dt);
    SplitZoneOf(t, '+', "");
    ConvertOfParts(Adapt(ts) + "+", DatePart(dt), t + ['+'] + "", ZoneSplit(1, t, Some("")),
                   [dt.year, dt.month, dt.day], [dt.hour, dt.minute, dt.second], dt.microsecond, None);
  }

  /** A second '.' part after the microseconds: the time splits into three
      pieces, the first still the clock. */
  lemma ExtraFraction(dt: DateTime)
    requires Valid(dt) && dt.microsecond != 0
    ensures var t5 := TimePart(dt) + ".5";
      '+' !in t5 && '-' !in t5 && ' ' !in t5 &&
      Split(t5, '.') == [Clock(dt), PadNat(dt.microsecond, 6), "5"]
  {
    var clock, f := Clock(dt), PadNat(dt.microsecond, 6);
    ClockRoundTrip(dt);
    FractionRoundTrip(dt);
    Join2(clock, f, '.');
    assert TimePart(dt) + ".5" == clock + ['.'] + f + ['.'] + "5";
    SplitThree(clock, f, "5", '.');
  }

  /** A time with a second '.' part is accepted and its fraction dropped:
      only a split into exactly two pieces reads microseconds. */
  lemma SecondFractionDropsMicroseconds(ts: Timestamp)
    requires ValidTimestamp(ts) && ts.offset.None? && ts.dt.microsecond != 0
    ensures Convert(Adapt(ts) + ".5") == Ok(ts.(dt := ts.dt.(microsecond := 0)))
  {
    var dt := ts.dt;
    var t5 := TimePart(dt) + ".5";
    ExtraFraction(dt);
    AdaptSplit(ts, ".5");
    assert TimePart(dt) + Zone(ts.offset) + ".5" == t5;
    DatePartRoundTrip(dt);
    ClockRoundTrip(dt);
    assert SplitZone(t5) == Ok(ZoneSplit(1, t5, None));
    assert Microseconds(Split(t5, '.')) == Ok(0);
    ConvertOfParts(Adapt(ts) + ".5", DatePart(dt), t5, ZoneSplit(1, t5, None),
                   [dt.year, dt.month, dt.day], [dt.hour, dt.minute, dt.second], 0, None);
  }
}
