/** Cron expressions of src_py/hat/util/cron.py: five whitespace-separated
    sub-expressions (minute, hour, day, month, day of week), each `*`, a
    value, a range `a-b` or a comma-separated list of those; matching a
    time against them; and searching minute by minute for the next
    matching time. */
module Cron {
  import opened Wrappers
  import opened Strings
  import opened Calendar

  datatype SubExpr = All | Value(value: int) | Range(from: int, to: int) | List(items: seq<SubExpr>)

  datatype Expr = Expr(minute: SubExpr, hour: SubExpr, day: SubExpr,
                       month: SubExpr, dayOfWeek: SubExpr)

  /** Which of the five positions a sub-expression sits in; it decides the
      range of values the position's parser accepts. */
  datatype Field = Minute | Hour | Day | Month | DayOfWeek

  /** The ValueErrors `parse` raises: wrong number of sub-expressions, a
      value `int` rejects, a value outside its field's range, and a range
      that does not unpack into exactly two values. */
  datatype CronError = FieldCount | NotAnInteger | OutOfRange(field: Field) | RangeShape

  function Lo(f: Field): int {
    match f
    case Day => 1
    case Month => 1
    case _ => 0
  }

  function Hi(f: Field): int {
    match f
    case Minute => 59
    case Hour => 23
    case Day => 31
    case Month => 12
    case DayOfWeek => 6
  }

  // ---------------------------------------------------------------------
  // Splitting on whitespace

  /** The characters Python's `str.split()` treats as whitespace. */
  predicate IsSpace(c: char) {
    var n := c as int;
    n == 0x20 || 0x09 <= n <= 0x0d || 0x1c <= n <= 0x1f || n == 0x85 || n == 0xa0 ||
    n == 0x1680 || 0x2000 <= n <= 0x200a || n == 0x2028 || n == 0x2029 ||
    n == 0x202f || n == 0x205f || n == 0x3000
  }

  predicate NoSpace(w: string) {
    forall i :: 0 <= i < |w| ==> !IsSpace(w[i])
  }

  /** The longest prefix of `s` without whitespace. */
  function Word(s: string): (w: string)
    ensures |w| <= |s| && w == s[..|w|] && NoSpace(w)
    ensures |w| < |s| ==> IsSpace(s[|w|])
  {
    if s == [] || IsSpace(s[0]) then [] else [s[0]] + Word(s[1..])
  }

  /** `s.split()`: the maximal runs of non-whitespace, in order. */
  function Words(s: string): (ws: seq<string>)
    ensures forall i :: 0 <= i < |ws| ==> Token(ws[i])
    decreases |s|
  {
    if s == [] then []
    else if IsSpace(s[0]) then Words(s[1..])
    else
      var w := Word(s);
      [w] + Words(s[|w|..])
  }

  lemma {:induction false} WordOfPrefix(w: string, rest: string)
    requires NoSpace(w)
    requires rest == [] || IsSpace(rest[0])
    ensures Word(w + rest) == w
  {
    if w == [] {
      assert w + rest == rest;
    } else {
      assert (w + rest)[1..] == w[1..] + rest;
      WordOfPrefix(w[1..], rest);
      assert [w[0]] + w[1..] == w;
    }
  }

  predicate Token(w: string) {
    |w| >= 1 && NoSpace(w)
  }

  /** A word followed by a space and more text splits into that word and
      the words of the rest; a word alone splits into itself. */
  lemma WordsCons(w: string, rest: string)
    requires Token(w)
    ensures Words(w + [' '] + rest) == [w] + Words(rest)
    ensures Words(w) == [w]
  {
    var s := w + [' '] + rest;
    assert s == w + ([' '] + rest);
    WordOfPrefix(w, [' '] + rest);
    assert s[0] == w[0];
    assert s[|w|..] == [' '] + rest;
    assert ([' '] + rest)[1..] == rest;
    WordOfPrefix(w, []);
    assert w + [] == w;
    assert w[|w|..] == [];
  }

  /** Words separated by single spaces split back into those words. */
  lemma {:induction false} WordsJoin(ws: seq<string>)
    requires |ws| >= 1
    requires forall i :: 0 <= i < |ws| ==> Token(ws[i])
    ensures Words(Join(ws, ' ')) == ws
  {
    WordsCons(ws[0], if |ws| == 1 then [] else Join(ws[1..], ' '));
    if |ws| > 1 {
      WordsJoin(ws[1..]);
      assert [ws[0]] + ws[1..] == ws;
    }
  }

  // ---------------------------------------------------------------------
  // Parsing

  /** `_parse_minute`, `_parse_hour`, `_parse_day`, `_parse_month` and
      `_parse_day_of_week`: an integer within the field's range. `int` is
      read as a plain string of decimal digits. */
  function ParseValue(s: string, f: Field): (r: Result<int, CronError>)
    ensures r.Ok? ==> Lo(f) <= r.value <= Hi(f)
    ensures |s| >= 1 && AllDigits(s) ==>
      (r.Ok? <==> Lo(f) <= DigitsValue(s) <= Hi(f)) && (r.Ok? ==> r.value == DigitsValue(s))
  {
    match ParseNat(s)
    case None => Err(NotAnInteger)
    case Some(v) => if Lo(f) <= v <= Hi(f) then Ok(v) else Err(OutOfRange(f))
  }

  /** A sub-expression other than a list, with its values in range. */
  predicate Simple(e: SubExpr, f: Field) {
    match e
    case All => true
    case Value(v) => Lo(f) <= v <= Hi(f)
    case Range(a, b) => Lo(f) <= a <= Hi(f) && Lo(f) <= b <= Hi(f)
    case List(_) => false
  }

  /** The shapes `parse` produces: a simple sub-expression, or a list of at
      least two simple ones. */
  predicate WellFormed(e: SubExpr, f: Field) {
    Simple(e, f) ||
    (e.List? && |e.items| >= 2 && forall i :: 0 <= i < |e.items| ==> Simple(e.items[i], f))
  }

  predicate WellFormedExpr(e: Expr) {
    WellFormed(e.minute, Minute) && WellFormed(e.hour, Hour) && WellFormed(e.day, Day) &&
    WellFormed(e.month, Month) && WellFormed(e.dayOfWeek, DayOfWeek)
  }

  /** `_parse_subexpr` on a string without ',': `*`, a range (which must
      split on '-' into exactly two values) or a single value. */
  function ParseSimple(s: string, f: Field): (r: Result<SubExpr, CronError>)
    ensures r.Ok? ==> Simple(r.value, f)
    ensures r.Ok? && r.value.All? ==> s == "*"
  {
    if s == "*" then Ok(All)
    else if '-' in s then
      var parts := Split(s, '-');
      if |parts| != 2 then Err(RangeShape)
      else
        var a :- ParseValue(parts[0], f);
        var b :- ParseValue(parts[1], f);
        Ok(Range(a, b))
    else
      var v :- ParseValue(s, f);
      Ok(Value(v))
  }

  /** The list comprehension of `_parse_subexpr`: every part parsed in
      order, the first failure being the one raised. */
  function ParseEach(parts: seq<string>, f: Field): (r: Result<seq<SubExpr>, CronError>)
    ensures r.Ok? ==> |r.value| == |parts|
    ensures r.Ok? ==> forall i :: 0 <= i < |parts| ==> ParseSimple(parts[i], f).Ok? && r.value[i] == ParseSimple(parts[i], f).value
  {
    if parts == [] then Ok([])
    else
      var x :- ParseSimple(parts[0], f);
      var rest :- ParseEach(parts[1..], f);
      assert forall i :: 1 <= i < |parts| ==> parts[i] == parts[1..][i - 1];
      Ok([x] + rest)
  }

  /** `_parse_subexpr`. A part of the comma-separated list holds no ',',
      so its recursive parse is ParseSimple (see ParseSubexprSimple). */
  function ParseSubexpr(s: string, f: Field): (r: Result<SubExpr, CronError>)
    ensures r.Ok? ==> WellFormed(r.value, f)
    ensures r.Ok? && r.value.List? ==> |r.value.items| == Count(s, ',') + 1
  {
    if s == "*" then Ok(All)
    else if ',' in s then
      var parts := Split(s, ',');
      CountIn(s, ',');
      var items :- ParseEach(parts, f);
      Ok(List(items))
    else ParseSimple(s, f)
  }

  lemma ParseSubexprSimple(s: string, f: Field)
    requires ',' !in s
    ensures ParseSubexpr(s, f) == ParseSimple(s, f)
  {
  }

  /** `parse`: exactly five whitespace-separated sub-expressions, parsed
      left to right with their fields' ranges. */
  function Parse(s: string): (r: Result<Expr, CronError>)
    ensures r.Ok? ==> |Words(s)| == 5 && WellFormedExpr(r.value)
    ensures |Words(s)| != 5 ==> r == Err(FieldCount)
  {
    var ws := Words(s);
    if |ws| != 5 then Err(FieldCount)
    else
      var minute :- ParseSubexpr(ws[0], Minute);
      var hour :- ParseSubexpr(ws[1], Hour);
      var day :- ParseSubexpr(ws[2], Day);
      var month :- ParseSubexpr(ws[3], Month);
      var dayOfWeek :- ParseSubexpr(ws[4], DayOfWeek);
      Ok(Expr(minute, hour, day, month, dayOfWeek))
  }

  // ---------------------------------------------------------------------
  // Rendering, the partner of parsing

  function FormatSimple(e: SubExpr, f: Field): (s: string)
    requires Simple(e, f)
  {
    match e
    case All => "*"
    case Value(v) => FormatNat(v)
    case Range(a, b) => FormatNat(a) + ['-'] + FormatNat(b)
  }

  function FormatSubexpr(e: SubExpr, f: Field): string
    requires WellFormed(e, f)
  {
    if e.List? then Join(seq(|e.items|, i requires 0 <= i < |e.items| => FormatSimple(e.items[i], f)), ',')
    else FormatSimple(e, f)
  }

  function FormatExpr(e: Expr): string
    requires WellFormedExpr(e)
  {
    Join([FormatSubexpr(e.minute, Minute), FormatSubexpr(e.hour, Hour), FormatSubexpr(e.day, Day),
          FormatSubexpr(e.month, Month), FormatSubexpr(e.dayOfWeek, DayOfWeek)], ' ')
  }

  lemma DigitsArePlain(s: string)
    requires AllDigits(s)
    ensures NoSpace(s) && ',' !in s && '-' !in s && '*' !in s && '+' !in s
  {
    forall i | 0 <= i < |s|
      ensures !IsSpace(s[i]) && s[i] != ',' && s[i] != '-' && s[i] != '*' && s[i] != '+'
    {
      assert IsDigit(s[i]);
    }
  }

  lemma ParseFormatValue(v: int, f: Field)
    requires Lo(f) <= v <= Hi(f)
    ensures ParseValue(FormatNat(v), f) == Ok(v)
  {
    DigitsValueFormat(v);
  }

  lemma ParseFormatSimple(e: SubExpr, f: Field)
    requires Simple(e, f)
    ensures var s := FormatSimple(e, f);
      Token(s) && ',' !in s && ParseSimple(s, f) == Ok(e)
  {
    match e
    case All =>
    case Value(v) =>
      ParseFormatSingle(v, f);
    case Range(a, b) =>
      ParseFormatRange(a, b, f);
  }

  lemma ParseFormatSingle(v: int, f: Field)
    requires Lo(f) <= v <= Hi(f)
    ensures var s := FormatNat(v);
      Token(s) && ',' !in s && ParseSimple(s, f) == Ok(Value(v))
  {
    var s := FormatNat(v);
    DigitsArePlain(s);
    ParseFormatValue(v, f);
    assert s != "*" by {
      assert IsDigit(s[0]);
    }
    assert '-' !in s;
  }

  lemma ParseFormatRange(a: int, b: int, f: Field)
    requires Lo(f) <= a <= Hi(f) && Lo(f) <= b <= Hi(f)
    ensures var s := FormatNat(a) + ['-'] + FormatNat(b);
      Token(s) && ',' !in s && ParseSimple(s, f) == Ok(Range(a, b))
  {
    var sa, sb := FormatNat(a), FormatNat(b);
    var s := sa + ['-'] + sb;
    DigitsArePlain(sa);
    DigitsArePlain(sb);
    ParseFormatValue(a, f);
    ParseFormatValue(b, f);
    assert Join([sa, sb], '-') == s by {
      assert [sa, sb][1..] == [sb];
    }
    SplitJoin([sa, sb], '-');
    var parts := Split(s, '-');
    assert parts == [sa, sb];
    assert s[|sa|] == '-';
    assert s != "*";
    assert ParseSimple(s, f) == Ok(Range(a, b));
    TokenConcat(sa, '-', sb);
  }

  /** Two words glued by a character that is neither whitespace nor ','
      form one word without ','. */
  lemma TokenConcat(x: string, c: char, y: string)
    requires NoSpace(x) && NoSpace(y) && ',' !in x && ',' !in y
    requires !IsSpace(c) && c != ','
    ensures Token(x + [c] + y) && ',' !in x + [c] + y
  {
    var s := x + [c] + y;
    forall i | 0 <= i < |s|
      ensures !IsSpace(s[i]) && s[i] != ','
    {
      if i < |x| {
        assert s[i] == x[i];
      } else if i > |x| {
        assert s[i] == y[i - |x| - 1];
      }
    }
  }

  lemma {:induction false} ParseEachFormat(es: seq<SubExpr>, parts: seq<string>, f: Field)
    requires |parts| == |es|
    requires forall i :: 0 <= i < |es| ==> Simple(es[i], f) && parts[i] == FormatSimple(es[i], f)
    ensures ParseEach(parts, f) == Ok(es)
  {
    if es != [] {
      ParseFormatSimple(es[0], f);
      ParseEachFormat(es[1..], parts[1..], f);
      assert [es[0]] + es[1..] == es;
    }
  }

  lemma {:induction false} JoinPlain(parts: seq<string>, c: char)
    requires |parts| >= 1
    requires forall i :: 0 <= i < |parts| ==> Token(parts[i])
    requires !IsSpace(c)
    ensures Token(Join(parts, c))
    ensures |parts| >= 2 ==> c in Join(parts, c)
  {
    if |parts| > 1 {
      var rest := Join(parts[1..], c);
      JoinPlain(parts[1..], c);
      var s := parts[0] + [c] + rest;
      assert s[|parts[0]|] == c;
      forall i | 0 <= i < |s|
        ensures !IsSpace(s[i])
      {
        if i < |parts[0]| {
          assert s[i] == parts[0][i];
        } else if i > |parts[0]| {
          assert s[i] == rest[i - |parts[0]| - 1];
        }
      }
    }
  }

  /** Rendering a well-formed sub-expression and parsing it back gives it
      back. */
  lemma ParseFormatSubexpr(e: SubExpr, f: Field)
    requires WellFormed(e, f)
    ensures var s := FormatSubexpr(e, f);
      Token(s) && ParseSubexpr(s, f) == Ok(e)
  {
    if e.List? {
      var parts := seq(|e.items|, i requires 0 <= i < |e.items| => FormatSimple(e.items[i], f));
      forall i | 0 <= i < |parts|
        ensures Token(parts[i]) && ',' !in parts[i]
      {
        ParseFormatSimple(e.items[i], f);
      }
      var s := Join(parts, ',');
      JoinPlain(parts, ',');
      SplitJoin(parts, ',');
      ParseEachFormat(e.items, parts, f);
      assert s != "*" by {
        assert |parts[0]| >= 1 && |parts[1]| >= 1;
        assert |s| >= 3;
      }
    } else {
      ParseFormatSimple(e, f);
      if e.All? {
      } else {
        assert FormatSubexpr(e, f) != "*" by {
          if e.Value? {
            DigitsArePlain(FormatNat(e.value));
            assert FormatNat(e.value)[0] != '*';
          } else {
            assert |FormatSubexpr(e, f)| >= 3;
          }
        }
      }
    }
  }

  lemma ParseOfWords(s: string, e: Expr)
    requires |Words(s)| == 5
    requires ParseSubexpr(Words(s)[0], Minute) == Ok(e.minute)
    requires ParseSubexpr(Words(s)[1], Hour) == Ok(e.hour)
    requires ParseSubexpr(Words(s)[2], Day) == Ok(e.day)
    requires ParseSubexpr(Words(s)[3], Month) == Ok(e.month)
    requires ParseSubexpr(Words(s)[4], DayOfWeek) == Ok(e.dayOfWeek)
    ensures Parse(s) == Ok(e)
  {
  }

  /** Rendering a well-formed expression with single spaces and parsing it
      back gives it back: every expression `parse` can produce has a text
      form. */
  lemma ParseFormatExpr(e: Expr)
    requires WellFormedExpr(e)
    ensures Parse(FormatExpr(e)) == Ok(e)
  {
    WordsOfFormat(e);
    ParseFormatSubexpr(e.minute, Minute);
    ParseFormatSubexpr(e.hour, Hour);
    ParseFormatSubexpr(e.day, Day);
    ParseFormatSubexpr(e.month, Month);
    ParseFormatSubexpr(e.dayOfWeek, DayOfWeek);
    ParseOfWords(FormatExpr(e), e);
  }

  lemma FormatToken(e: SubExpr, f: Field)
    requires WellFormed(e, f)
    ensures Token(FormatSubexpr(e, f))
  {
    ParseFormatSubexpr(e, f);
  }

  lemma WordsOfFormat(e: Expr)
    requires WellFormedExpr(e)
    ensures Words(FormatExpr(e)) == [FormatSubexpr(e.minute, Minute), FormatSubexpr(e.hour, Hour),
      FormatSubexpr(e.day, Day), FormatSubexpr(e.month, Month), FormatSubexpr(e.dayOfWeek, DayOfWeek)]
  {
    var a, b, c := FormatSubexpr(e.minute, Minute), FormatSubexpr(e.hour, Hour), FormatSubexpr(e.day, Day);
    var d, f := FormatSubexpr(e.month, Month), FormatSubexpr(e.dayOfWeek, DayOfWeek);
    FormatToken(e.minute, Minute);
    FormatToken(e.hour, Hour);
    FormatToken(e.day, Day);
    FormatToken(e.month, Month);
    FormatToken(e.dayOfWeek, DayOfWeek);
    WordsJoin([a, b, c, d, f]);
  }

  // ---------------------------------------------------------------------
  // Matching

  /** `_match_subexpr`. */
  function MatchSub(e: SubExpr, v: int): bool
    decreases e
  {
    match e
    case All => true
    case Value(x) => v == x
    case Range(a, b) => a <= v <= b
    case List(items) => exists i :: 0 <= i < |items| && MatchSub(items[i], v)
  }

  /** The day-of-week value cron uses: Sunday is 0, Monday 1, Saturday 6. */
  function CronWeekday(t: DateTime): (r: int)
    requires 1 <= t.month <= 12
    ensures 0 <= r <= 6
    ensures r == Ordinal(t.year, t.month, t.day) % 7
  {
    IsoWeekday(t) % 7
  }

  /** `match`: a time with seconds or microseconds never matches; otherwise
      every field has to match. */
  function Match(e: Expr, t: DateTime): bool
    requires Valid(t)
  {
    if t.second != 0 || t.microsecond != 0 then false
    else
      MatchSub(e.minute, t.minute) && MatchSub(e.hour, t.hour) && MatchSub(e.day, t.day) &&
      MatchSub(e.month, t.month) && MatchSub(e.dayOfWeek, CronWeekday(t))
  }

  /** A range whose start is past its end parses but matches nothing. */
  lemma ReversedRangeMatchesNothing(a: int, b: int, v: int)
    requires a > b
    ensures !MatchSub(Range(a, b), v)
  {
  }

  /** `0 0 30 2 *` asks for February 30th, which no valid time has. */
  lemma February30NeverMatches(t: DateTime)
    requires Valid(t)
    ensures !Match(Expr(Value(0), Value(0), Value(30), Value(2), All), t)
  {
  }

  // ---------------------------------------------------------------------
  // Searching for the next match

  /** How the search of `next` ends in the model: with the first matching
      time, with Python's OverflowError once the minute after 9999-12-31
      23:59 would be needed, or after the given number of minutes. */
  datatype NextResult = Found(t: DateTime) | Overflow | OutOfFuel

  /** `t.replace(second=0, microsecond=0)`. */
  function Truncate(t: DateTime): (r: DateTime)
    ensures r.second == 0 && r.microsecond == 0
    ensures Valid(t) ==> Valid(r) && Minutes(r) == Minutes(t)
  {
    t.(second := 0, microsecond := 0)
  }

  /** The loop of `next` from the time `u`, trying at most `fuel` minutes. */
  function NextFrom(e: Expr, u: DateTime, fuel: nat): (r: NextResult)
    requires Valid(u)
    ensures r.Found? ==> Valid(r.t) && Match(e, r.t)
    decreases fuel
  {
    if fuel == 0 then OutOfFuel
    else if !Representable(u) then Overflow
    else
      var w := AddMinute(u);
      if Match(e, w) then Found(w) else NextFrom(e, w, fuel - 1)
  }

  /** A found time lies strictly after `u` and at most `fuel` minutes
      later. */
  lemma {:induction false} NextFromWithin(e: Expr, u: DateTime, fuel: nat)
    requires Valid(u)
    ensures var r := NextFrom(e, u, fuel);
      r.Found? ==> Minutes(u) < Minutes(r.t) <= Minutes(u) + fuel
    decreases fuel
  {
    if fuel > 0 && Representable(u) {
      var w := AddMinute(u);
      AddMinuteAdvances(u);
      NextFromStep(e, u, fuel);
      if !Match(e, w) {
        NextFromWithin(e, w, fuel - 1);
        var r := NextFrom(e, w, fuel - 1);
        assert NextFrom(e, u, fuel) == r;
        if r.Found? {
          var mu, mw, mr := Minutes(u), Minutes(w), Minutes(r.t);
          assert mw == mu + 1 && mw < mr <= mw + (fuel - 1);
        }
      }
    }
  }

  /** `next`: truncate to the minute, then add a minute at a time until the
      expression matches. */
  method Next(e: Expr, t: DateTime, fuel: nat) returns (r: NextResult)
    requires Valid(t)
    ensures r == NextFrom(e, Truncate(t), fuel)
  {
    var u := t.(second := 0, microsecond := 0);
    var n := fuel;
    while n > 0
      invariant Valid(u)
      invariant NextFrom(e, u, n) == NextFrom(e, Truncate(t), fuel)
    {
      if !Representable(u) {
        return Overflow;
      }
      NextFromStep(e, u, n);
      u := AddMinute(u);
      if Match(e, u) {
        return Found(u);
      }
      n := n - 1;
    }
    return OutOfFuel;
  }

  /** One turn of the loop of `next`. */
  lemma NextFromStep(e: Expr, u: DateTime, n: nat)
    requires Valid(u) && n > 0
    ensures !Representable(u) ==> NextFrom(e, u, n) == Overflow
    ensures Representable(u) ==>
      NextFrom(e, u, n) == if Match(e, AddMinute(u)) then Found(AddMinute(u)) else NextFrom(e, AddMinute(u), n - 1)
  {
  }

  /** The span of minutes a search from `u` has looked at without finding
      a match. */
  predicate Searched(r: NextResult, u: DateTime, fuel: nat, x: DateTime)
    requires Valid(u) && Valid(x)
    requires r.Found? ==> Valid(r.t)
  {
    Minutes(u) < Minutes(x) &&
    match r
    case Found(w) => Minutes(x) < Minutes(w)
    case OutOfFuel => Minutes(x) <= Minutes(u) + fuel
    case Overflow => true
  }

  lemma DaysBeforeYearMono(a: int, b: int)
    requires 1 <= a <= b
    ensures DaysBeforeYear(a) <= DaysBeforeYear(b)
    decreases b - a
  {
    if a < b {
      DaysBeforeYearStep(a);
      DaysBeforeYearMono(a + 1, b);
    }
  }

  lemma MonthEnd(y: int, m: int)
    requires 1 <= m <= 12
    ensures DaysBeforeMonth(y, m) + DaysInMonth(y, m) <= if IsLeap(y) then 366 else 365
    ensures forall m2 :: m < m2 <= 12 ==> DaysBeforeMonth(y, m) + DaysInMonth(y, m) <= DaysBeforeMonth(y, m2)
  {
  }

  lemma OrdinalInYear(y: int, m: int, d: int)
    requires ValidDate(y, m, d)
    ensures DaysBeforeYear(y) < Ordinal(y, m, d) <= DaysBeforeYear(y + 1)
  {
    DaysBeforeYearStep(y);
    MonthEnd(y, m);
  }

  /** Distinct valid dates have distinct ordinals. */
  lemma OrdinalInjective(y1: int, m1: int, d1: int, y2: int, m2: int, d2: int)
    requires ValidDate(y1, m1, d1) && ValidDate(y2, m2, d2)
    requires Ordinal(y1, m1, d1) == Ordinal(y2, m2, d2)
    ensures y1 == y2 && m1 == m2 && d1 == d2
  {
    OrdinalInYear(y1, m1, d1);
    OrdinalInYear(y2, m2, d2);
    if y1 < y2 {
      DaysBeforeYearMono(y1 + 1, y2);
    } else if y2 < y1 {
      DaysBeforeYearMono(y2 + 1, y1);
    }
    MonthEnd(y1, m1);
    MonthEnd(y2, m2);
  }

  /** Two valid times at the same minute count agree on every field down
      to the minute. */
  lemma MinutesInjective(x: DateTime, y: DateTime)
    requires Valid(x) && Valid(y) && Minutes(x) == Minutes(y)
    ensures x.year == y.year && x.month == y.month && x.day == y.day
    ensures x.hour == y.hour && x.minute == y.minute
  {
    var ox, oy := Ordinal(x.year, x.month, x.day), Ordinal(y.year, y.month, y.day);
    assert Minutes(x) == ox * 1440 + x.hour * 60 + x.minute;
    assert Minutes(y) == oy * 1440 + y.hour * 60 + y.minute;
    OrdinalInjective(x.year, x.month, x.day, y.year, y.month, y.day);
  }

  /** No valid time lies after the last minute of year 9999. */
  lemma LastMinute(u: DateTime, x: DateTime)
    requires Valid(u) && !Representable(u) && Valid(x)
    ensures Minutes(x) <= Minutes(u)
  {
    OrdinalInYear(x.year, x.month, x.day);
    DaysBeforeYearMono(x.year + 1, MaxYear + 1);
    DaysBeforeYearStep(MaxYear);
    var ox, ou := Ordinal(x.year, x.month, x.day), Ordinal(u.year, u.month, u.day);
    assert ox <= ou;
    assert Minutes(x) == ox * 1440 + x.hour * 60 + x.minute;
    assert Minutes(u) == ou * 1440 + 23 * 60 + 59;
  }

  /** The search misses nothing: every whole-minute time in the span it
      has looked at fails to match, so a found time is the earliest match
      after `u`, and Overflow means no later time matches at all. */
  lemma {:induction false} NextFromIsEarliest(e: Expr, u: DateTime, fuel: nat, x: DateTime)
    requires Valid(u) && u.second == 0 && u.microsecond == 0
    requires Valid(x) && x.second == 0 && x.microsecond == 0
    requires Searched(NextFrom(e, u, fuel), u, fuel, x)
    ensures !Match(e, x)
    decreases fuel, 1
  {
    if fuel == 0 {
    } else if !Representable(u) {
      LastMinute(u, x);
    } else {
      EarliestStep(e, u, fuel, x);
    }
  }

  lemma {:induction false} EarliestStep(e: Expr, u: DateTime, fuel: nat, x: DateTime)
    requires Valid(u) && u.second == 0 && u.microsecond == 0 && Representable(u) && fuel > 0
    requires Valid(x) && x.second == 0 && x.microsecond == 0
    requires Searched(NextFrom(e, u, fuel), u, fuel, x)
    ensures !Match(e, x)
    decreases fuel, 0
  {
    var w := AddMinute(u);
    NextFromStep(e, u, fuel);
    AddMinuteAdvances(u);
    if !Match(e, w) {
      SearchedShift(NextFrom(e, w, fuel - 1), u, w, fuel, x);
      if x != w {
        NextFromIsEarliest(e, w, fuel - 1, x);
      }
    }
  }

  /** One minute later the span still to search has shrunk by one minute,
      unless `x` is that minute itself. */
  lemma SearchedShift(r: NextResult, u: DateTime, w: DateTime, fuel: nat, x: DateTime)
    requires Valid(u) && Valid(w) && Valid(x) && fuel > 0
    requires r.Found? ==> Valid(r.t)
    requires Minutes(w) == Minutes(u) + 1
    requires x.second == w.second && x.microsecond == w.microsecond
    requires Searched(r, u, fuel, x)
    ensures x == w || Searched(r, w, fuel - 1, x)
  {
    if Minutes(x) == Minutes(w) {
      MinutesInjective(x, w);
    }
  }
}
