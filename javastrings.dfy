/**
 * The few `java.lang.String` / `Integer` operations the modelled code relies on, stated
 * exactly enough that their corner cases (trailing empty pieces of `split`, what `trim`
 * removes, the range of `parseInt`) carry over into the model.
 */
module JavaStrings {
  import opened Results

  predicate StartsWith(s: string, prefix: string) {
    |prefix| <= |s| && s[..|prefix|] == prefix
  }

  predicate EndsWith(s: string, suffix: string) {
    |suffix| <= |s| && s[|s| - |suffix|..] == suffix
  }

  /** `s.indexOf(c)` when `c` occurs in `s`. */
  function IndexOf(s: string, c: char): (i: nat)
    requires c in s
    ensures i < |s| && s[i] == c && c !in s[..i]
  {
    if s[0] == c then 0
    else
      var j := IndexOf(s[1..], c);
      assert s[..j + 1] == [s[0]] + s[1..][..j];
      j + 1
  }

  lemma IndexOfConcat(a: string, c: char, b: string)
    requires c !in a
    ensures c in a + [c] + b && IndexOf(a + [c] + b, c) == |a|
  {
    var s := a + [c] + b;
    assert s[|a|] == c;
    assert s[..|a|] == a;
  }

  /**
   * Every piece of `s` between occurrences of `c`, empty ones included: the list Java's
   * single-character `split` builds before it drops trailing empty strings.
   */
  function SplitAll(s: string, c: char): (parts: seq<string>)
    ensures |parts| >= 1
    ensures forall k :: 0 <= k < |parts| ==> c !in parts[k]
    decreases |s|
  {
    if c !in s then [s]
    else
      var i := IndexOf(s, c);
      [s[..i]] + SplitAll(s[i + 1..], c)
  }

  /** The pieces glued back together with `c` between them. */
  function Join(parts: seq<string>, c: char): string
  {
    if |parts| == 0 then ""
    else if |parts| == 1 then parts[0]
    else parts[0] + [c] + Join(parts[1..], c)
  }

  /** Drops empty strings from the end, as `split` with limit 0 does. */
  function DropTrailingEmpty(parts: seq<string>): (r: seq<string>)
    ensures |r| <= |parts| && r == parts[..|r|]
    ensures |r| > 0 ==> r[|r| - 1] != ""
    ensures forall k :: |r| <= k < |parts| ==> parts[k] == ""
  {
    if |parts| > 0 && parts[|parts| - 1] == "" then DropTrailingEmpty(parts[..|parts| - 1])
    else parts
  }

  /**
   * `s.split(c)` for a character `c` that is not a regular-expression metacharacter:
   * with no occurrence of `c` the result is `[s]` (so `"".split` gives `[""]`); otherwise the
   * pieces, leading empty ones kept and trailing empty ones removed.
   */
  function JavaSplit(s: string, c: char): (parts: seq<string>)
    ensures forall k :: 0 <= k < |parts| ==> c !in parts[k]
  {
    if c !in s then [s] else DropTrailingEmpty(SplitAll(s, c))
  }

  /** `s` with every trailing `c` removed. */
  function StripTrailing(s: string, c: char): string
  {
    if |s| > 0 && s[|s| - 1] == c then StripTrailing(s[..|s| - 1], c) else s
  }

  lemma {:induction false} JoinSplitAll(s: string, c: char)
    ensures Join(SplitAll(s, c), c) == s
    decreases |s|
  {
    if c in s {
      var i := IndexOf(s, c);
      var rest := SplitAll(s[i + 1..], c);
      JoinSplitAll(s[i + 1..], c);
      assert ([s[..i]] + rest)[1..] == rest;
      assert s == s[..i] + [c] + s[i + 1..];
    }
  }

  /** Splitting what `Join` built gives back the pieces. */
  lemma {:induction false} SplitAllJoin(parts: seq<string>, c: char)
    requires |parts| >= 1
    requires forall k :: 0 <= k < |parts| ==> c !in parts[k]
    ensures SplitAll(Join(parts, c), c) == parts
  {
    if |parts| > 1 {
      var tail := Join(parts[1..], c);
      var s := parts[0] + [c] + tail;
      assert Join(parts, c) == s;
      IndexOfConcat(parts[0], c, tail);
      var i := IndexOf(s, c);
      assert s[..i] == parts[0];
      assert s[i + 1..] == tail;
      assert SplitAll(s, c) == [parts[0]] + SplitAll(tail, c);
      SplitAllJoin(parts[1..], c);
      assert parts == [parts[0]] + parts[1..];
    }
  }

  lemma {:induction false} JoinSnoc(parts: seq<string>, x: string, c: char)
    requires |parts| >= 1
    ensures Join(parts + [x], c) == Join(parts, c) + [c] + x
  {
    if |parts| == 1 {
      assert (parts + [x])[1..] == [x];
    } else {
      assert (parts + [x])[1..] == parts[1..] + [x];
      JoinSnoc(parts[1..], x, c);
    }
  }

  lemma {:induction false} JoinDropTrailing(parts: seq<string>, c: char)
    requires forall k :: 0 <= k < |parts| ==> c !in parts[k]
    ensures Join(DropTrailingEmpty(parts), c) == StripTrailing(Join(parts, c), c)
    decreases |parts|
  {
    if |parts| == 0 {
    } else if parts[|parts| - 1] != "" {
      var last := parts[|parts| - 1];
      var s := Join(parts, c);
      if |parts| > 1 {
        assert parts == parts[..|parts| - 1] + [last];
        JoinSnoc(parts[..|parts| - 1], last, c);
      }
      assert s[|s| - 1] == last[|last| - 1];
      assert last[|last| - 1] in last;
    } else {
      var init := parts[..|parts| - 1];
      if |parts| > 1 {
        assert parts == init + [""];
        JoinSnoc(init, "", c);
        var j := Join(init, c);
        assert Join(parts, c) == j + [c];
        assert (j + [c])[..|j + [c]| - 1] == j;
      }
      JoinDropTrailing(init, c);
    }
  }

  /** Joining the pieces of `split` rebuilds the text, minus its trailing separators. */
  lemma JoinJavaSplit(s: string, c: char)
    ensures Join(JavaSplit(s, c), c) == StripTrailing(s, c)
  {
    if c in s {
      JoinSplitAll(s, c);
      JoinDropTrailing(SplitAll(s, c), c);
    } else if |s| > 0 {
      assert s[|s| - 1] in s;
    }
  }

  /** `split` undoes `Join` when no piece holds the separator and the last piece is not empty. */
  lemma JavaSplitJoin(parts: seq<string>, c: char)
    requires |parts| >= 2
    requires forall k :: 0 <= k < |parts| ==> c !in parts[k]
    requires parts[|parts| - 1] != ""
    ensures JavaSplit(Join(parts, c), c) == parts
  {
    var s := Join(parts, c);
    assert s == parts[0] + [c] + Join(parts[1..], c);
    assert s[|parts[0]|] == c;
    SplitAllJoin(parts, c);
  }

  /** A character that `String.trim` removes: every code point up to and including U+0020. */
  predicate IsTrimmed(ch: char) {
    ch <= ' '
  }

  function TrimStart(s: string): string
  {
    if |s| > 0 && IsTrimmed(s[0]) then TrimStart(s[1..]) else s
  }

  function TrimEnd(s: string): string
  {
    if |s| > 0 && IsTrimmed(s[|s| - 1]) then TrimEnd(s[..|s| - 1]) else s
  }

  /** `s.trim()`. */
  function Trim(s: string): string
  {
    TrimEnd(TrimStart(s))
  }

  /** `TrimStart` removes exactly the leading run of trimmed characters. */
  lemma {:induction false} TrimStartSpec(s: string)
    ensures var r := TrimStart(s);
            |r| <= |s| && r == s[|s| - |r|..] &&
            (|r| > 0 ==> !IsTrimmed(r[0])) &&
            forall k :: 0 <= k < |s| - |r| ==> IsTrimmed(s[k])
    decreases |s|
  {
    if |s| > 0 && IsTrimmed(s[0]) {
      TrimStartSpec(s[1..]);
      var r := TrimStart(s[1..]);
      assert s[1..][|s| - 1 - |r|..] == s[|s| - |r|..];
      forall k | 0 <= k < |s| - |r| ensures IsTrimmed(s[k]) {
        if k > 0 { assert s[k] == s[1..][k - 1]; }
      }
    }
  }

  /** `TrimEnd` removes exactly the trailing run of trimmed characters. */
  lemma {:induction false} TrimEndSpec(s: string)
    ensures var r := TrimEnd(s);
            |r| <= |s| && r == s[..|r|] &&
            (|r| > 0 ==> !IsTrimmed(r[|r| - 1])) &&
            forall k :: |r| <= k < |s| ==> IsTrimmed(s[k])
    decreases |s|
  {
    if |s| > 0 && IsTrimmed(s[|s| - 1]) {
      TrimEndSpec(s[..|s| - 1]);
      var r := TrimEnd(s[..|s| - 1]);
      assert s[..|s| - 1][..|r|] == s[..|r|];
    }
  }

  /**
   * `trim` keeps a contiguous piece of `s`: what it drops at either end is all trimmed
   * characters, and what it keeps neither starts nor ends with one.
   */
  lemma TrimSpec(s: string)
    ensures var r, lo := Trim(s), |s| - |TrimStart(s)|;
            0 <= lo <= lo + |r| <= |s| && r == s[lo..lo + |r|] &&
            (forall k :: 0 <= k < lo ==> IsTrimmed(s[k])) &&
            (forall k :: lo + |r| <= k < |s| ==> IsTrimmed(s[k])) &&
            (|r| > 0 ==> !IsTrimmed(r[0]) && !IsTrimmed(r[|r| - 1]))
  {
    var t := TrimStart(s);
    TrimStartSpec(s);
    TrimEndSpec(t);
    var r := TrimEnd(t);
    var lo := |s| - |t|;
    assert r == s[lo..lo + |r|];
    forall k | lo + |r| <= k < |s| ensures IsTrimmed(s[k]) {
      assert s[k] == t[k - lo];
    }
    if |r| > 0 {
      assert r[0] == t[0];
    }
  }

  /** `Character.toLowerCase` restricted to ASCII letters. */
  function LowerChar(ch: char): (r: char)
    ensures 'A' <= ch <= 'Z' ==> r as int == ch as int + 32
    ensures !('A' <= ch <= 'Z') ==> r == ch
  {
    if 'A' <= ch <= 'Z' then (ch as int + 32) as char else ch
  }

  /** `s.toLowerCase()` on ASCII letters; every other character is kept. */
  function ToLower(s: string): (r: string)
    ensures |r| == |s|
    ensures forall k :: 0 <= k < |s| ==> r[k] == LowerChar(s[k])
  {
    seq(|s|, k requires 0 <= k < |s| => LowerChar(s[k]))
  }

  lemma ToLowerIdempotent(s: string)
    ensures ToLower(ToLower(s)) == ToLower(s)
  {
  }

  predicate IsDigit(ch: char) {
    '0' <= ch <= '9'
  }

  predicate AllDigits(s: string) {
    forall k :: 0 <= k < |s| ==> IsDigit(s[k])
  }

  function DigitChar(d: nat): (ch: char)
    requires d < 10
    ensures IsDigit(ch) && ch as int - '0' as int == d
  {
    ('0' as int + d) as char
  }

  /** Decimal digits of `n`, most significant first, without leading zeros: `Long.toString`. */
  function NatToString(n: nat): (s: string)
    ensures |s| >= 1 && AllDigits(s)
  {
    if n < 10 then [DigitChar(n)] else NatToString(n / 10) + [DigitChar(n % 10)]
  }

  /** The value of a string of decimal digits. */
  function DigitsValue(s: string): nat
    requires AllDigits(s)
  {
    if |s| == 0 then 0
    else DigitsValue(s[..|s| - 1]) * 10 + (s[|s| - 1] as int - '0' as int)
  }

  lemma {:induction false} NatToStringRoundTrip(n: nat)
    ensures DigitsValue(NatToString(n)) == n
  {
    if n >= 10 {
      var s := NatToString(n);
      assert s[..|s| - 1] == NatToString(n / 10);
      NatToStringRoundTrip(n / 10);
    }
  }

  /** `Integer.toString(n)`: a minus sign for negative values, then the digits. */
  function IntToString(n: int): string
  {
    if n < 0 then "-" + NatToString(-n) else NatToString(n)
  }

  const INT_MIN: int := -0x8000_0000
  const INT_MAX: int := 0x7FFF_FFFF

  predicate IsInt32(n: int) {
    INT_MIN <= n <= INT_MAX
  }

  /** `s` without its leading `+` or `-`, if it has one. */
  function Unsigned(s: string): string
  {
    if |s| > 0 && (s[0] == '-' || s[0] == '+') then s[1..] else s
  }

  /** The value `s` denotes: the value of its digits, negated after a leading `-`. */
  function SignedValue(s: string): int
    requires AllDigits(Unsigned(s))
  {
    var d: int := DigitsValue(Unsigned(s));
    if |s| > 0 && s[0] == '-' then -d else d
  }

  /**
   * `Integer.parseInt(s)` over ASCII digits: an optional `+` or `-`, then at least one
   * digit, with the value in the 32-bit range; anything else is a `NumberFormatException`
   * (here `None`).
   */
  function JavaParseInt(s: string): (r: Option<int>)
    ensures r.Some? <==> |Unsigned(s)| > 0 && AllDigits(Unsigned(s)) && IsInt32(SignedValue(s))
    ensures r.Some? ==> r.value == SignedValue(s)
    ensures r.Some? ==> |s| >= 1 && (IsDigit(s[0]) || s[0] == '-' || s[0] == '+')
    ensures r.Some? ==> forall k :: 1 <= k < |s| ==> IsDigit(s[k])
  {
    if |s| == 0 then None
    else
      var signed := s[0] == '-' || s[0] == '+';
      var digits := if signed then s[1..] else s;
      if |digits| == 0 || !AllDigits(digits) then None
      else
        var d: int := DigitsValue(digits);
        var v := if s[0] == '-' then -d else d;
        if IsInt32(v) then
          assert forall k :: 1 <= k < |s| ==> IsDigit(s[k]) by {
            forall k | 1 <= k < |s| ensures IsDigit(s[k]) {
              if signed { assert s[k] == digits[k - 1]; } else { assert s[k] == digits[k]; }
            }
          }
          Some(v)
        else None
  }

  /** `parseInt` reads back what `Integer.toString` wrote, for every 32-bit value. */
  lemma ParseIntRoundTrip(n: int)
    requires IsInt32(n)
    ensures JavaParseInt(IntToString(n)) == Some(n)
  {
    var s := IntToString(n);
    if n < 0 {
      var d := NatToString(-n);
      NatToStringRoundTrip(-n);
      assert s[0] == '-' && s[1..] == d;
      assert |d| > 0 && AllDigits(d) && DigitsValue(d) == -n;
    } else {
      NatToStringRoundTrip(n);
      assert IsDigit(s[0]) && s[0] != '-' && s[0] != '+';
      assert |s| > 0 && AllDigits(s) && DigitsValue(s) == n;
    }
  }

  /** Leading zeros do not change the value of a string of digits. */
  lemma {:induction false} DigitsValueLeadingZero(d: string)
    requires AllDigits(d)
    ensures AllDigits("0" + d) && DigitsValue("0" + d) == DigitsValue(d)
    decreases |d|
  {
    if |d| > 0 {
      var z := "0" + d;
      assert z[..|z| - 1] == "0" + d[..|d| - 1];
      DigitsValueLeadingZero(d[..|d| - 1]);
    }
  }

  /** A leading zero or a leading `+` before the digits of a 32-bit value reads the same value. */
  lemma ParseIntLeadingZeroOrPlus(n: nat)
    requires IsInt32(n)
    ensures JavaParseInt("0" + NatToString(n)) == Some(n)
    ensures JavaParseInt("+" + NatToString(n)) == Some(n)
  {
    var d := NatToString(n);
    NatToStringRoundTrip(n);
    DigitsValueLeadingZero(d);
    assert Unsigned("0" + d) == "0" + d;
    assert Unsigned("+" + d) == d;
  }

  /** Digits whose value, with its sign, lies outside the 32-bit range do not parse. */
  lemma ParseIntOutOfRange(s: string)
    requires AllDigits(Unsigned(s)) && !IsInt32(SignedValue(s))
    ensures JavaParseInt(s) == None
  {
  }
}
