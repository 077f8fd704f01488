/** The "HH:MM" wall-clock strings of availability rules, decoded the way the
    availability handler does it: `t.split(':').map(Number)`, keeping the
    first two parts as hour and minute. */
module Clock {
  import opened Wrappers

  /** `s.split(sep)` as JavaScript computes it: never empty, one more part
      than there are separators. */
  function Split(s: string, sep: char): (parts: seq<string>)
    ensures |parts| >= 1
    decreases |s|
  {
    if s == [] then [[]]
    else
      var rest := Split(s[1..], sep);
      if s[0] == sep then [[]] + rest
      else [[s[0]] + rest[0]] + rest[1..]
  }

  /** `parts.join(sep)`, the inverse of Split. */
  function Join(parts: seq<string>, sep: char): string
    requires |parts| >= 1
  {
    if |parts| == 1 then parts[0] else parts[0] + [sep] + Join(parts[1..], sep)
  }

  /** Splitting loses nothing: joining the parts gives the string back, and
      no part contains the separator. */
  lemma {:induction false} SplitJoin(s: string, sep: char)
    ensures Join(Split(s, sep), sep) == s
    ensures forall k :: 0 <= k < |Split(s, sep)| ==> sep !in Split(s, sep)[k]
    decreases |s|
  {
    if s != [] {
      SplitJoin(s[1..], sep);
      var rest := Split(s[1..], sep);
      if s[0] == sep {
        assert Split(s, sep) == [[]] + rest;
        assert ([[]] + rest)[1..] == rest;
      } else {
        var parts := Split(s, sep);
        assert parts == [[s[0]] + rest[0]] + rest[1..];
        assert parts[1..] == rest[1..];
        if |rest| > 1 {
          assert Join(rest, sep) == rest[0] + [sep] + Join(rest[1..], sep);
          assert Join(parts, sep) == [s[0]] + rest[0] + [sep] + Join(rest[1..], sep);
        }
        assert s == [s[0]] + s[1..];
        forall k | 0 <= k < |parts| ensures sep !in parts[k] {
          if k > 0 { assert parts[k] == rest[k]; }
        }
      }
    }
  }

  predicate IsDigit(c: char) {
    '0' <= c <= '9'
  }

  predicate AllDigits(s: string) {
    forall k :: 0 <= k < |s| ==> IsDigit(s[k])
  }

  /** The decimal value of a digit string, most significant digit first. */
  function DigitsValue(s: string): (n: nat)
    requires AllDigits(s)
    decreases |s|
  {
    if s == [] then 0
    else DigitsValue(s[..|s| - 1]) * 10 + (s[|s| - 1] as int - '0' as int)
  }

  /** JavaScript's `Number(p)` restricted to the plain forms of a clock part:
      the empty string is 0 and a digit string is its decimal value. Every
      other string is read as NaN (None) here, although `Number` also accepts
      surrounding spaces, signs, fractions, hex and exponent forms. */
  function NumberOf(p: string): (r: Option<nat>)
    ensures r.Some? <==> AllDigits(p)
    ensures p == [] ==> r == Some(0)
  {
    if AllDigits(p) then Some(DigitsValue(p)) else None
  }

  /** Minutes after midnight of a clock string, as the two `setHours(hour,
      minute, 0, 0)` calls see it; None when either part is NaN, including a
      missing minute part (an explicit undefined argument is NaN). */
  function ClockMinutes(t: string): (r: Option<int>)
    ensures r.Some? <==>
      |Split(t, ':')| >= 2 && AllDigits(Split(t, ':')[0]) && AllDigits(Split(t, ':')[1])
    ensures r.Some? ==>
      r.value == 60 * DigitsValue(Split(t, ':')[0]) + DigitsValue(Split(t, ':')[1])
  {
    var parts := Split(t, ':');
    if |parts| < 2 then None
    else match (NumberOf(parts[0]), NumberOf(parts[1]))
      case (Some(h), Some(m)) => Some(60 * h + m)
      case _ => None
  }

  /** The digit character for 0 <= d < 10. */
  function Digit(d: int): (c: char)
    requires 0 <= d < 10
    ensures IsDigit(c) && c as int - '0' as int == d
  {
    ('0' as int + d) as char
  }

  /** The zero-padded two-digit form of 0 <= n < 100. */
  function TwoDigits(n: int): (s: string)
    requires 0 <= n < 100
    ensures |s| == 2 && AllDigits(s) && DigitsValue(s) == n
  {
    var s := [Digit(n / 10), Digit(n % 10)];
    assert s[..1] == [Digit(n / 10)] && s[..1][..0] == [];
    assert DigitsValue(s[..1]) == n / 10;
    s
  }

  /** The stored "HH:MM" form of an hour and minute. */
  function Format(hour: int, minute: int): (s: string)
    requires 0 <= hour < 100 && 0 <= minute < 100
  {
    TwoDigits(hour) + [':'] + TwoDigits(minute)
  }

  /** A string without the separator splits into itself alone. */
  lemma {:induction false} SplitWithoutSep(s: string, sep: char)
    requires sep !in s
    ensures Split(s, sep) == [s]
    decreases |s|
  {
    if s != [] {
      SplitWithoutSep(s[1..], sep);
      assert [s[0]] + s[1..] == s;
    }
  }

  /** The first separator ends the first part. */
  lemma {:induction false} SplitAtFirstSep(a: string, sep: char, b: string)
    requires sep !in a
    ensures Split(a + [sep] + b, sep) == [a] + Split(b, sep)
    decreases |a|
  {
    if a == [] {
      assert [] + [sep] + b == [sep] + b && ([sep] + b)[1..] == b;
    } else {
      var s := a + [sep] + b;
      assert s[0] == a[0] && s[1..] == a[1..] + [sep] + b;
      SplitAtFirstSep(a[1..], sep, b);
      assert [a[0]] + a[1..] == a;
    }
  }

  /** Decoding inverts the stored form: "HH:MM" is read back as hour and minute. */
  lemma ClockMinutesOfFormat(hour: int, minute: int)
    requires 0 <= hour < 100 && 0 <= minute < 100
    ensures ClockMinutes(Format(hour, minute)) == Some(60 * hour + minute)
  {
    var h, m := TwoDigits(hour), TwoDigits(minute);
    assert ':' !in h && ':' !in m by {
      assert IsDigit(h[0]) && IsDigit(h[1]) && IsDigit(m[0]) && IsDigit(m[1]);
    }
    SplitAtFirstSep(h, ':', m);
    SplitWithoutSep(m, ':');
    assert Split(Format(hour, minute), ':') == [h, m];
  }

  /** The two default operating times decode to 09:00 and 22:00. */
  lemma DefaultTimes()
    ensures ClockMinutes("09:00") == Some(540)
    ensures ClockMinutes("22:00") == Some(1320)
  {
    ClockMinutesOfFormat(9, 0);
    ClockMinutesOfFormat(22, 0);
    assert Format(9, 0) == "09:00";
    assert Format(22, 0) == "22:00";
  }
}
