/** String helpers shared by the models: splitting on a separator the way
    JavaScript's `String.prototype.split` and Python's `str.split(sep)` do,
    and decimal digit strings. */
module Strings {
  import opened Wrappers

  /** `s` split on every occurrence of `c`; like `s.split(c)` it always has
      at least one part and no part contains `c`. */
  function Split(s: string, c: char): (parts: seq<string>)
    ensures |parts| == Count(s, c) + 1
    ensures forall i :: 0 <= i < |parts| ==> c !in parts[i]
    ensures s == [] ==> parts == [[]]
  {
    if s == [] then [[]]
    else
      var rest := Split(s[1..], c);
      if s[0] == c then [[]] + rest
      else [[s[0]] + rest[0]] + rest[1..]
  }

  /** The number of occurrences of `c` in `s`. */
  function Count(s: string, c: char): nat {
    if s == [] then 0 else (if s[0] == c then 1 else 0) + Count(s[1..], c)
  }

  /** The inverse of Split: the parts glued together with `c`. */
  function Join(parts: seq<string>, c: char): string
    requires |parts| >= 1
  {
    if |parts| == 1 then parts[0] else parts[0] + [c] + Join(parts[1..], c)
  }

  lemma {:induction false} JoinCons(x: char, a: string, b: seq<string>, c: char)
    ensures Join([[x] + a] + b, c) == [x] + Join([a] + b, c)
  {
    if b != [] {
      assert ([[x] + a] + b)[1..] == b;
      assert ([a] + b)[1..] == b;
    }
  }

  lemma {:induction false} JoinSplit(s: string, c: char)
    ensures Join(Split(s, c), c) == s
  {
    if s != [] {
      var rest := Split(s[1..], c);
      JoinSplit(s[1..], c);
      if s[0] == c {
        assert ([[]] + rest)[1..] == rest;
      } else {
        assert rest == [rest[0]] + rest[1..];
        JoinCons(s[0], rest[0], rest[1..], c);
      }
    }
  }

  lemma {:induction false} SplitNoSep(p: string, c: char)
    requires c !in p
    ensures Split(p, c) == [p]
  {
    if p != [] {
      SplitNoSep(p[1..], c);
      assert [p[0]] + p[1..] == p;
    }
  }

  lemma {:induction false} SplitPrefix(p: string, t: string, c: char)
    requires c !in p
    ensures Split(p + [c] + t, c) == [p] + Split(t, c)
  {
    if p == [] {
      assert ([] + [c] + t)[1..] == t;
    } else {
      SplitPrefix(p[1..], t, c);
      assert (p + [c] + t)[1..] == p[1..] + [c] + t;
      assert [p[0]] + p[1..] == p;
    }
  }

  lemma {:induction false} SplitJoin(parts: seq<string>, c: char)
    requires |parts| >= 1
    requires forall i :: 0 <= i < |parts| ==> c !in parts[i]
    ensures Split(Join(parts, c), c) == parts
  {
    if |parts| == 1 {
      SplitNoSep(parts[0], c);
    } else {
      SplitJoin(parts[1..], c);
      SplitPrefix(parts[0], Join(parts[1..], c), c);
      assert [parts[0]] + parts[1..] == parts;
    }
  }

  /** A string contains `c` exactly when it counts at least one. */
  lemma {:induction false} CountIn(s: string, c: char)
    ensures c in s <==> Count(s, c) >= 1
  {
    if s != [] {
      CountIn(s[1..], c);
      assert s == [s[0]] + s[1..];
    }
  }

  /** The first part of a split is empty exactly when the string is empty or
      starts with the separator. */
  lemma {:induction false} SplitFirstEmpty(s: string, c: char)
    ensures Split(s, c)[0] == [] <==> (s == [] || s[0] == c)
  {
  }

  predicate IsDigit(ch: char) {
    '0' <= ch <= '9'
  }

  predicate AllDigits(s: string) {
    forall i :: 0 <= i < |s| ==> IsDigit(s[i])
  }

  function DigitValue(ch: char): nat
    requires IsDigit(ch)
  {
    (ch as int) - ('0' as int)
  }

  function DigitChar(d: nat): (ch: char)
    requires d < 10
    ensures IsDigit(ch) && DigitValue(ch) == d
  {
    (('0' as int) + d) as char
  }

  /** The value of a string of decimal digits, most significant first. */
  function DigitsValue(s: string): nat
    requires AllDigits(s)
  {
    if s == [] then 0 else DigitsValue(s[..|s| - 1]) * 10 + DigitValue(s[|s| - 1])
  }

  /** A digit string read as a natural number, or None when the string is
      empty or holds anything but the digits 0-9. */
  function ParseNat(s: string): (r: Option<nat>)
    ensures r.Some? <==> |s| >= 1 && AllDigits(s)
  {
    if |s| >= 1 && AllDigits(s) then Some(DigitsValue(s)) else None
  }

  /** Canonical decimal rendering of `n`: no leading zeros, "0" for zero. */
  function FormatNat(n: nat): (s: string)
    ensures |s| >= 1 && AllDigits(s)
    ensures |s| > 1 ==> s[0] != '0'
  {
    if n < 10 then [DigitChar(n)] else FormatNat(n / 10) + [DigitChar(n % 10)]
  }

  lemma {:induction false} DigitsValueFormat(n: nat)
    ensures DigitsValue(FormatNat(n)) == n
  {
    if n >= 10 {
      var s := FormatNat(n / 10);
      DigitsValueFormat(n / 10);
      assert (s + [DigitChar(n % 10)])[..|s|] == s;
    }
  }

  lemma ParseFormatNat(n: nat)
    ensures ParseNat(FormatNat(n)) == Some(n)
  {
    DigitsValueFormat(n);
  }

  function Zeros(k: nat): (z: string)
    ensures |z| == k && AllDigits(z)
    ensures forall i :: 0 <= i < k ==> z[i] == '0'
  {
    if k == 0 then [] else Zeros(k - 1) + ['0']
  }

  /** `n` left-padded with zeros to at least `w` digits, as Python's
      `'{:0w}'.format(n)` and the isoformat fields do. */
  function PadNat(n: nat, w: nat): (s: string)
    ensures AllDigits(s) && |s| >= 1
    ensures |s| == if |FormatNat(n)| < w then w else |FormatNat(n)|
  {
    var d := FormatNat(n);
    if |d| < w then Zeros(w - |d|) + d else d
  }

  lemma {:induction false} DigitsValueAppend(a: string, b: string)
    requires AllDigits(a) && AllDigits(b)
    ensures DigitsValue(a + b) == DigitsValue(a) * Pow10(|b|) + DigitsValue(b)
  {
    if b == [] {
      assert a + b == a;
    } else {
      var b' := b[..|b| - 1];
      var d := DigitValue(b[|b| - 1]);
      DigitsValueAppend(a, b');
      assert (a + b)[..|a + b| - 1] == a + b';
      assert (a + b)[|a + b| - 1] == b[|b| - 1];
      var x, p, y := DigitsValue(a), Pow10(|b'|), DigitsValue(b');
      assert DigitsValue(a + b) == DigitsValue(a + b') * 10 + d;
      assert DigitsValue(b) == y * 10 + d;
      assert Pow10(|b|) == 10 * p;
      ShiftDigit(x, p, y, d);
    }
  }

  lemma ShiftDigit(x: int, p: int, y: int, d: int)
    ensures (x * p + y) * 10 + d == x * (10 * p) + (y * 10 + d)
  {
  }

  function Pow10(k: nat): (p: nat)
    ensures p >= 1
  {
    if k == 0 then 1 else 10 * Pow10(k - 1)
  }

  lemma {:induction false} DigitsValueZeros(k: nat)
    ensures DigitsValue(Zeros(k)) == 0
  {
    if k > 0 {
      DigitsValueZeros(k - 1);
      assert Zeros(k)[..k - 1] == Zeros(k - 1);
    }
  }

  lemma ParsePadNat(n: nat, w: nat)
    ensures ParseNat(PadNat(n, w)) == Some(n)
  {
    var d := FormatNat(n);
    DigitsValueFormat(n);
    var s := PadNat(n, w);
    assert AllDigits(s) && |s| >= 1;
    if |d| < w {
      var z := Zeros(w - |d|);
      assert s == z + d;
      DigitsValueAppend(z, d);
      DigitsValueZeros(w - |d|);
      assert DigitsValue(z) * Pow10(|d|) == 0;
      assert DigitsValue(s) == n;
    } else {
      assert s == d;
    }
    assert ParseNat(s) == Some(DigitsValue(s));
  }

  /** A digit string holds no other character. */
  lemma DigitsExclude(s: string, c: char)
    requires AllDigits(s) && !IsDigit(c)
    ensures c !in s
  {
  }

  /** Joining with `c` adds no character other than `c`. */
  lemma {:induction false} JoinExcludes(parts: seq<string>, c: char, x: char)
    requires |parts| >= 1 && x != c
    requires forall i :: 0 <= i < |parts| ==> x !in parts[i]
    ensures x !in Join(parts, c)
  {
    if |parts| > 1 {
      JoinExcludes(parts[1..], c, x);
    }
  }

  lemma {:induction false} FormatNatBound(n: nat, k: nat)
    requires k >= 1 && n < Pow10(k)
    ensures |FormatNat(n)| <= k
  {
    if n >= 10 {
      assert k >= 2 && n / 10 < Pow10(k - 1);
      FormatNatBound(n / 10, k - 1);
    }
  }

  /** A number below 10^w pads to exactly `w` digits. */
  lemma PadNatWidth(n: nat, w: nat)
    requires w >= 1 && n < Pow10(w)
    ensures |PadNat(n, w)| == w
  {
    FormatNatBound(n, w);
  }
}
