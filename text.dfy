/** The string operations the system leans on: Python's `str.strip()`,
    `str.split()` and `str.split(',')`, `str.lower()`, `int()`, the `str()` of
    an integer, the substring test behind `icontains`, and the JavaScript
    digit filter `value.replace(/\D/g, '')`. Characters are compared as they
    are; whitespace is the set Python's `str.isspace()` accepts and digits
    are the ASCII ones. */
module Text {
  import opened Wrappers

  predicate IsDigit(c: char) { '0' <= c <= '9' }

  /** The characters Python's `str.isspace()` accepts: tab to carriage return,
      the four separators 0x1C-0x1F, space, next line, no-break space, and the
      Unicode space and line/paragraph separators. */
  predicate IsWhitespace(c: char) {
    var n := c as int;
    (9 <= n <= 13) || (28 <= n <= 32) || n == 0x85 || n == 0xA0 || n == 0x1680
    || (0x2000 <= n <= 0x200A) || n == 0x2028 || n == 0x2029 || n == 0x202F
    || n == 0x205F || n == 0x3000
  }

  predicate AllDigits(s: string) { forall k :: 0 <= k < |s| ==> IsDigit(s[k]) }

  predicate AllWhitespace(s: string) { forall k :: 0 <= k < |s| ==> IsWhitespace(s[k]) }

  predicate NoWhitespace(s: string) { forall k :: 0 <= k < |s| ==> !IsWhitespace(s[k]) }

  // ---------------------------------------------------------------------
  // Digit filter (`replace(/\D/g, '')`)

  /** Keeps the digit characters of `s`, in order. */
  function DigitsOnly(s: string): (r: string)
    ensures AllDigits(r)
    ensures |r| <= |s|
    ensures forall c :: c in r <==> c in s && IsDigit(c)
    ensures AllDigits(s) ==> r == s
  {
    if s == [] then []
    else if IsDigit(s[0]) then [s[0]] + DigitsOnly(s[1..])
    else DigitsOnly(s[1..])
  }

  /** Filtering twice is filtering once. */
  lemma DigitsOnlyIdempotent(s: string)
    ensures DigitsOnly(DigitsOnly(s)) == DigitsOnly(s)
  {
  }

  // ---------------------------------------------------------------------
  // strip()

  function TrimStart(s: string): (r: string)
    ensures |r| <= |s| && r == s[|s| - |r|..]
    ensures AllWhitespace(s[..|s| - |r|])
    ensures r == [] || !IsWhitespace(r[0])
  {
    if s != [] && IsWhitespace(s[0]) then TrimStart(s[1..]) else s
  }

  function TrimEnd(s: string): (r: string)
    ensures |r| <= |s| && r == s[..|r|]
    ensures AllWhitespace(s[|r|..])
    ensures r == [] || !IsWhitespace(r[|r| - 1])
  {
    if s != [] && IsWhitespace(s[|s| - 1]) then TrimEnd(s[..|s| - 1]) else s
  }

  /** Python's `s.strip()`: drops whitespace at both ends. */
  function Strip(s: string): (r: string)
    ensures r == [] || (!IsWhitespace(r[0]) && !IsWhitespace(r[|r| - 1]))
    ensures r == [] <==> AllWhitespace(s)
  {
    var r := TrimEnd(TrimStart(s));
    assert r == [] ==> AllWhitespace(s) by {
      if r == [] {
        var t := TrimStart(s);
        assert t[0..] == t;
        assert t == [];
        assert s[..|s|] == s;
      }
    }
    r
  }

  /** A string with no whitespace at either end is its own strip, also
      when it is followed by a line terminator. */
  lemma StripUnchanged(s: string)
    requires s != [] && !IsWhitespace(s[0]) && !IsWhitespace(s[|s| - 1])
    ensures Strip(s) == s
    ensures Strip(s + "\n") == s
  {
    assert (s + "\n")[0] == s[0];
    assert (s + "\n")[..|s|] == s;
  }

  // ---------------------------------------------------------------------
  // split() on runs of whitespace

  /** The longest prefix of `s` holding no whitespace. */
  function LeadingToken(s: string): (t: string)
    ensures |t| <= |s| && t == s[..|t|]
    ensures NoWhitespace(t)
    ensures |t| < |s| ==> IsWhitespace(s[|t|])
  {
    if s == [] || IsWhitespace(s[0]) then [] else [s[0]] + LeadingToken(s[1..])
  }

  /** Python's `s.split()` with no argument: the maximal runs of
      non-whitespace characters, in order. */
  function SplitWhitespace(s: string): (r: seq<string>)
    ensures forall k :: 0 <= k < |r| ==> r[k] != [] && NoWhitespace(r[k])
    ensures r == [] <==> AllWhitespace(s)
    decreases |s|
  {
    if s == [] then []
    else if IsWhitespace(s[0]) then
      var r := SplitWhitespace(s[1..]);
      assert AllWhitespace(s[1..]) ==> AllWhitespace(s) by {
        if AllWhitespace(s[1..]) {
          forall k | 0 <= k < |s| ensures IsWhitespace(s[k]) {
            if k > 0 { assert s[k] == s[1..][k - 1]; }
          }
        }
      }
      r
    else
      var t := LeadingToken(s);
      [t] + SplitWhitespace(s[|t|..])
  }

  /** Joins tokens with single spaces (the inverse of `SplitWhitespace` on
      tokens that are non-empty and hold no whitespace). */
  function JoinSpaced(ts: seq<string>): string
  {
    if ts == [] then "" else if |ts| == 1 then ts[0] else ts[0] + " " + JoinSpaced(ts[1..])
  }

  /** A space-joined list of non-empty tokens starts with the first
      token's first character and ends with the last token's last one. */
  lemma {:induction false} JoinSpacedEnds(ts: seq<string>)
    requires ts != [] && forall k :: 0 <= k < |ts| ==> ts[k] != []
    ensures JoinSpaced(ts) != []
    ensures JoinSpaced(ts)[0] == ts[0][0]
    ensures JoinSpaced(ts)[|JoinSpaced(ts)| - 1] == ts[|ts| - 1][|ts[|ts| - 1]| - 1]
  {
    if |ts| > 1 {
      JoinSpacedEnds(ts[1..]);
      var rest := JoinSpaced(ts[1..]);
      assert JoinSpaced(ts) == ts[0] + " " + rest;
      assert ts[1..][|ts[1..]| - 1] == ts[|ts| - 1];
    }
  }

  lemma {:induction false} LeadingTokenOf(t: string, rest: string)
    requires t != [] && NoWhitespace(t)
    requires rest == [] || IsWhitespace(rest[0])
    ensures LeadingToken(t + rest) == t
    decreases |t|
  {
    if |t| > 1 {
      assert (t + rest)[1..] == t[1..] + rest;
      LeadingTokenOf(t[1..], rest);
    } else {
      assert (t + rest)[1..] == rest;
    }
  }

  /** Splitting a space-joined list of tokens gives the tokens back. */
  lemma {:induction false} SplitJoinRoundTrip(ts: seq<string>)
    requires forall k :: 0 <= k < |ts| ==> ts[k] != [] && NoWhitespace(ts[k])
    ensures SplitWhitespace(JoinSpaced(ts)) == ts
  {
    if ts == [] {
    } else if |ts| == 1 {
      LeadingTokenOf(ts[0], []);
      assert ts[0] + [] == ts[0];
      assert ts[0][|ts[0]|..] == [];
    } else {
      var tail := JoinSpaced(ts[1..]);
      assert JoinSpaced(ts) == ts[0] + " " + tail;
      SplitSpacedStep(ts[0], tail);
      SplitJoinRoundTrip(ts[1..]);
      assert ts == [ts[0]] + ts[1..];
    }
  }

  /** A token followed by a space splits off as the first token. */
  lemma SplitSpacedStep(t: string, tail: string)
    requires t != [] && NoWhitespace(t)
    ensures SplitWhitespace(t + " " + tail) == [t] + SplitWhitespace(tail)
  {
    var rest := " " + tail;
    var s := t + " " + tail;
    assert s == t + rest;
    LeadingTokenOf(t, rest);
    assert s[|t|..] == rest;
    assert rest[1..] == tail;
  }

  // ---------------------------------------------------------------------
  // split(sep)

  /** The longest prefix of `s` not holding `sep`. */
  function PrefixBefore(s: string, sep: char): (t: string)
    ensures |t| <= |s| && t == s[..|t|]
    ensures sep !in t
    ensures |t| < |s| ==> s[|t|] == sep
  {
    if s == [] || s[0] == sep then [] else [s[0]] + PrefixBefore(s[1..], sep)
  }

  /** Python's `s.split(sep)` for a one-character separator: always at
      least one field, empty fields kept. */
  function SplitOn(s: string, sep: char): (r: seq<string>)
    ensures |r| >= 1
    ensures forall k :: 0 <= k < |r| ==> sep !in r[k]
    decreases |s|
  {
    var t := PrefixBefore(s, sep);
    if |t| == |s| then [s] else [t] + SplitOn(s[|t| + 1..], sep)
  }

  /** Python's `sep.join(fields)`. */
  function JoinWith(fields: seq<string>, sep: char): string
  {
    if fields == [] then "" else if |fields| == 1 then fields[0]
    else fields[0] + [sep] + JoinWith(fields[1..], sep)
  }

  /** Splitting and joining back on the same separator restores the string. */
  lemma {:induction false} SplitOnRoundTrip(s: string, sep: char)
    ensures JoinWith(SplitOn(s, sep), sep) == s
    decreases |s|
  {
    var t := PrefixBefore(s, sep);
    if |t| == |s| {
      assert t == s;
    } else {
      var rest := s[|t| + 1..];
      SplitOnRoundTrip(rest, sep);
      var fields := SplitOn(s, sep);
      assert fields == [t] + SplitOn(rest, sep);
      assert fields[1..] == SplitOn(rest, sep);
      assert s == t + [sep] + rest;
    }
  }

  // ---------------------------------------------------------------------
  // lower()

  function LowerChar(c: char): char
  {
    if 'A' <= c <= 'Z' then (c as int + 32) as char else c
  }

  /** Python's `s.lower()` on ASCII letters. */
  function Lower(s: string): (r: string)
    ensures |r| == |s|
    ensures forall k :: 0 <= k < |s| ==> r[k] == LowerChar(s[k])
  {
    if s == [] then [] else [LowerChar(s[0])] + Lower(s[1..])
  }

  // ---------------------------------------------------------------------
  // substring test

  /** `sub` occurs in `s` as a contiguous run. */
  predicate Contains(s: string, sub: string)
    decreases |s|
  {
    sub <= s || (s != [] && Contains(s[1..], sub))
  }

  /** `Contains` holds exactly when `sub` starts at some position of `s`. */
  lemma {:induction false} ContainsAt(s: string, sub: string)
    ensures Contains(s, sub) <==> exists i :: 0 <= i <= |s| && sub <= s[i..]
    decreases |s|
  {
    if sub <= s {
      assert s[0..] == s;
    }
    if s != [] {
      ContainsAt(s[1..], sub);
      if Contains(s[1..], sub) {
        var i :| 0 <= i <= |s[1..]| && sub <= s[1..][i..];
        assert s[1..][i..] == s[i + 1..];
      }
      if i :| 0 <= i <= |s| && sub <= s[i..] {
        if i > 0 {
          assert s[1..][i - 1..] == s[i..];
        }
      }
    }
  }

  // ---------------------------------------------------------------------
  // str(int) and int(str)

  function DigitChar(d: nat): (c: char)
    requires d < 10
    ensures IsDigit(c)
  {
    (d + '0' as int) as char
  }

  function DigitValue(c: char): (d: nat)
    requires IsDigit(c)
    ensures d < 10
  {
    c as int - '0' as int
  }

  /** Python's `str(n)` for a natural number. */
  function NatToString(n: nat): (s: string)
    ensures |s| >= 1 && AllDigits(s)
    decreases n
  {
    if n < 10 then [DigitChar(n)] else NatToString(n / 10) + [DigitChar(n % 10)]
  }

  /** Python's `str(n)` for an integer. */
  function IntToString(n: int): string
  {
    if n < 0 then "-" + NatToString(-n) else NatToString(n)
  }

  /** `str(n)` is a single non-empty word. */
  lemma IntToStringWord(n: int)
    ensures IntToString(n) != [] && NoWhitespace(IntToString(n))
  {
    var s := IntToString(n);
    if n < 0 {
      assert forall k :: 1 <= k < |s| ==> s[k] == NatToString(-n)[k - 1];
    }
  }

  /** The number a string of decimal digits denotes. */
  function DigitsValue(s: string): nat
    requires AllDigits(s)
  {
    if s == [] then 0 else DigitsValue(s[..|s| - 1]) * 10 + DigitValue(s[|s| - 1])
  }

  /** Python's `int(token)` on a token without whitespace: an optional
      sign followed by one or more digits; anything else raises. */
  function ParseInt(s: string): Option<int>
  {
    if |s| >= 2 && (s[0] == '-' || s[0] == '+') && AllDigits(s[1..]) then
      var v: int := DigitsValue(s[1..]);
      Some(if s[0] == '-' then -v else v)
    else if |s| >= 1 && AllDigits(s) then Some(DigitsValue(s))
    else None
  }

  lemma {:induction false} NatToStringValue(n: nat)
    ensures DigitsValue(NatToString(n)) == n
    decreases n
  {
    var s := NatToString(n);
    if n >= 10 {
      NatToStringValue(n / 10);
      assert s[..|s| - 1] == NatToString(n / 10);
    }
  }

  /** `int(str(n)) == n`. */
  lemma ParseIntRoundTrip(n: int)
    ensures ParseInt(IntToString(n)) == Some(n)
  {
    var s := IntToString(n);
    if n < 0 {
      var t := NatToString(-n);
      NatToStringValue(-n);
      assert s == "-" + t && s[1..] == t;
      var v: int := DigitsValue(t);
      assert ParseInt(s) == Some(-v);
    } else {
      NatToStringValue(n);
      assert IsDigit(s[0]);
      assert ParseInt(s) == Some(DigitsValue(s));
    }
  }
}
