/** The string routines of Rust's standard library that the core relies on:
    `str::split` on one character, `trim_start_matches` and
    `trim_end_matches` with one character, `{}` formatting of an unsigned
    number and `str::parse` into an unsigned integer type. */
module Text {
  import opened Wrappers

  // ---------------------------------------------------------------------
  // Splitting on a separator character

  /** The pieces of s between occurrences of sep, as `s.split(sep)` yields them;
      there is always at least one piece, possibly empty. */
  function Split(s: string, sep: char): (parts: seq<string>)
    ensures |parts| >= 1
    ensures forall p :: p in parts ==> sep !in p
    decreases |s|
  {
    if s == [] then [[]]
    else
      var rest := Split(s[1..], sep);
      if s[0] == sep then [[]] + rest
      else
        assert rest[0] in rest;
        [[s[0]] + rest[0]] + rest[1..]
  }

  /** The pieces glued back together with sep between consecutive ones. */
  function Join(parts: seq<string>, sep: char): (s: string)
    requires |parts| >= 1
    decreases |parts|
  {
    if |parts| == 1 then parts[0] else parts[0] + [sep] + Join(parts[1..], sep)
  }

  /** Splitting loses nothing: joining the pieces gives the string back. */
  lemma {:induction false} JoinSplit(s: string, sep: char)
    ensures Join(Split(s, sep), sep) == s
    decreases |s|
  {
    if s != [] {
      JoinSplit(s[1..], sep);
      var rest := Split(s[1..], sep);
      if s[0] == sep {
        JoinSeparatorFirst(rest, sep);
      } else {
        JoinFirstGrows(s[0], rest, sep);
      }
      assert [s[0]] + s[1..] == s;
    }
  }

  /** An empty first piece puts a separator in front. */
  lemma JoinSeparatorFirst(rest: seq<string>, sep: char)
    requires |rest| >= 1
    ensures Join([[]] + rest, sep) == [sep] + Join(rest, sep)
  {
    assert ([[]] + rest)[1..] == rest;
  }

  /** A character in front of the first piece goes in front of the join. */
  lemma JoinFirstGrows(c: char, rest: seq<string>, sep: char)
    requires |rest| >= 1
    ensures Join([[c] + rest[0]] + rest[1..], sep) == [c] + Join(rest, sep)
  {
    var parts := [[c] + rest[0]] + rest[1..];
    if |rest| > 1 {
      assert parts[1..] == rest[1..];
      assert Join(parts, sep) == ([c] + rest[0]) + [sep] + Join(rest[1..], sep);
    }
  }

  lemma {:induction false} SplitWithoutSep(a: string, sep: char)
    requires sep !in a
    ensures Split(a, sep) == [a]
    decreases |a|
  {
    if a != [] {
      SplitWithoutSep(a[1..], sep);
      assert [a[0]] + a[1..] == a;
    }
  }

  lemma {:induction false} SplitAfterSep(a: string, sep: char, t: string)
    requires sep !in a
    ensures Split(a + [sep] + t, sep) == [a] + Split(t, sep)
    decreases |a|
  {
    if a == [] {
      assert (a + [sep] + t)[1..] == t;
    } else {
      SplitAfterSep(a[1..], sep, t);
      assert (a + [sep] + t)[1..] == a[1..] + [sep] + t;
      assert [a[0]] + a[1..] == a;
    }
  }

  /** Joining pieces free of sep and splitting again gives the same pieces:
      with JoinSplit, Split and Join are inverse to each other. */
  lemma {:induction false} SplitJoin(parts: seq<string>, sep: char)
    requires |parts| >= 1
    requires forall i :: 0 <= i < |parts| ==> sep !in parts[i]
    ensures Split(Join(parts, sep), sep) == parts
    decreases |parts|
  {
    if |parts| == 1 {
      SplitWithoutSep(parts[0], sep);
    } else {
      SplitJoin(parts[1..], sep);
      SplitAfterSep(parts[0], sep, Join(parts[1..], sep));
      assert [parts[0]] + parts[1..] == parts;
    }
  }

  // ---------------------------------------------------------------------
  // Decimal digits

  predicate IsDigit(c: char) {
    '0' <= c <= '9'
  }

  predicate AllDigits(s: string) {
    forall i :: 0 <= i < |s| ==> IsDigit(s[i])
  }

  function DigitChar(d: nat): (c: char)
    requires d < 10
    ensures IsDigit(c) && c as int - '0' as int == d
  {
    ('0' as int + d) as char
  }

  /** The number a string of decimal digits denotes, most significant first. */
  function DigitsValue(s: string): nat
    requires AllDigits(s)
    decreases |s|
  {
    if s == [] then 0 else 10 * DigitsValue(s[..|s| - 1]) + (s[|s| - 1] as int - '0' as int)
  }

  /** `format!("{}", n)`: the decimal digits of n, with no leading zero. */
  function Decimal(n: nat): (s: string)
    ensures |s| >= 1 && AllDigits(s)
    ensures |s| == 1 || s[0] != '0'
    decreases n
  {
    if n < 10 then [DigitChar(n)] else Decimal(n / 10) + [DigitChar(n % 10)]
  }

  lemma {:induction false} DigitsValueOfDecimal(n: nat)
    ensures DigitsValue(Decimal(n)) == n
    decreases n
  {
    if n >= 10 {
      DigitsValueOfDecimal(n / 10);
      var s := Decimal(n);
      assert s[..|s| - 1] == Decimal(n / 10);
    }
  }

  // ---------------------------------------------------------------------
  // Trimming repeated characters

  /** `s.trim_start_matches(c)`: every leading c removed, not just one. */
  function TrimStart(s: string, c: char): (r: string)
    ensures |r| <= |s| && r == s[|s| - |r|..]
    ensures forall i :: 0 <= i < |s| - |r| ==> s[i] == c
    ensures r == [] || r[0] != c
    decreases |s|
  {
    if s != [] && s[0] == c then TrimStart(s[1..], c) else s
  }

  /** `s.trim_end_matches(c)`: every trailing c removed, not just one. */
  function TrimEnd(s: string, c: char): (r: string)
    ensures |r| <= |s| && r == s[..|r|]
    ensures forall i :: |r| <= i < |s| ==> s[i] == c
    ensures r == [] || r[|r| - 1] != c
    decreases |s|
  {
    if s != [] && s[|s| - 1] == c then TrimEnd(s[..|s| - 1], c) else s
  }

  /** One leading c in front of text that does not start with c is all
      that `trim_start_matches` removes. */
  lemma TrimStartOne(c: char, t: string)
    requires t == [] || t[0] != c
    ensures TrimStart([c] + t, c) == t
  {
    assert ([c] + t)[1..] == t;
  }

  /** Likewise at the end for `trim_end_matches`. */
  lemma TrimEndOne(t: string, c: char)
    requires t == [] || t[|t| - 1] != c
    ensures TrimEnd(t + [c], c) == t
  {
    assert (t + [c])[..|t|] == t;
  }

  // ---------------------------------------------------------------------
  // Parsing an unsigned integer

  /** The digits `str::parse` looks at: one leading '+' is allowed and dropped. */
  function UnsignedDigits(s: string): string {
    if |s| > 0 && s[0] == '+' then s[1..] else s
  }

  /** `s.parse::<uN>()` with bound = 2^N: None for an empty string, a lone
      '+', any character that is not a digit (a '-' included), or a value that
      does not fit. */
  function ParseUnsigned(s: string, bound: nat): (r: Option<nat>)
    ensures r.Some? ==> r.value < bound
  {
    var d := UnsignedDigits(s);
    if d == [] || !AllDigits(d) then None
    else if DigitsValue(d) < bound then Some(DigitsValue(d))
    else None
  }

  /** Parsing what `{}` printed gives the number back. */
  lemma ParseDecimal(n: nat, bound: nat)
    requires n < bound
    ensures ParseUnsigned(Decimal(n), bound) == Some(n)
  {
    DigitsValueOfDecimal(n);
  }

  /** A number that does not fit is refused, not truncated. */
  lemma ParseDecimalTooLarge(n: nat, bound: nat)
    requires bound <= n
    ensures ParseUnsigned(Decimal(n), bound) == None
  {
    DigitsValueOfDecimal(n);
  }

  /** The edge cases of `parse::<u8>()`. */
  lemma ParseU8Examples()
    ensures ParseUnsigned("", 256) == None
    ensures ParseUnsigned("+", 256) == None
    ensures ParseUnsigned("+7", 256) == Some(7)
    ensures ParseUnsigned("-1", 256) == None
    ensures ParseUnsigned("x1", 256) == None
    ensures ParseUnsigned("007", 256) == Some(7)
    ensures ParseUnsigned("255", 256) == Some(255)
    ensures ParseUnsigned("256", 256) == None
  {
    assert UnsignedDigits("+7") == "7";
    assert !IsDigit("-1"[0]) && !IsDigit("x1"[0]);
    assert "007"[..2] == "00" && "00"[..1] == "0";
    assert "255"[..2] == "25" && "25"[..1] == "2";
    assert "256"[..2] == "25";
  }
}
