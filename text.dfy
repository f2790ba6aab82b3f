/** String helpers with the semantics of the Python built-ins the service uses.
    Character classes are the ASCII part of Python's Unicode-aware ones. */
module Text {

  // ---------------------------------------------------------------------------
  // Characters
  // ---------------------------------------------------------------------------

  predicate IsDigit(c: char) { '0' <= c <= '9' }
  predicate IsUpper(c: char) { 'A' <= c <= 'Z' }
  predicate IsLower(c: char) { 'a' <= c <= 'z' }

  /** `str.isspace()` and the regex class `\s`, restricted to ASCII. */
  predicate IsSpace(c: char) { c == ' ' || '\t' <= c <= '\r' || '\U{1C}' <= c <= '\U{1F}' }

  /** The regex class `\w`, restricted to ASCII. */
  predicate IsWordChar(c: char) { IsDigit(c) || IsUpper(c) || IsLower(c) || c == '_' }

  function LowerChar(c: char): char { if IsUpper(c) then (c as int + 32) as char else c }
  function UpperChar(c: char): char { if IsLower(c) then (c as int - 32) as char else c }

  // ---------------------------------------------------------------------------
  // Whole strings
  // ---------------------------------------------------------------------------

  /** `s.lower()` */
  function Lower(s: string): (r: string)
    ensures |r| == |s| && forall i :: 0 <= i < |s| ==> r[i] == LowerChar(s[i])
  {
    seq(|s|, i requires 0 <= i < |s| => LowerChar(s[i]))
  }

  /** `s.upper()` */
  function Upper(s: string): (r: string)
    ensures |r| == |s| && forall i :: 0 <= i < |s| ==> r[i] == UpperChar(s[i])
  {
    seq(|s|, i requires 0 <= i < |s| => UpperChar(s[i]))
  }

  /** `s.replace(a, b)` for single characters. */
  function ReplaceChar(s: string, a: char, b: char): (r: string)
    ensures |r| == |s| && forall i :: 0 <= i < |s| ==> r[i] == (if s[i] == a then b else s[i])
  {
    seq(|s|, i requires 0 <= i < |s| => if s[i] == a then b else s[i])
  }

  predicate StartsWith(s: string, prefix: string) { |prefix| <= |s| && s[..|prefix|] == prefix }
  predicate EndsWith(s: string, suffix: string) { |suffix| <= |s| && s[|s| - |suffix|..] == suffix }

  /** `s.lstrip()` */
  function TrimLeft(s: string): (r: string)
    ensures |r| <= |s| && r == s[|s| - |r|..]
    ensures |r| > 0 ==> !IsSpace(r[0])
    ensures |s| > 0 && !IsSpace(s[0]) ==> r == s
  {
    if |s| > 0 && IsSpace(s[0]) then TrimLeft(s[1..]) else s
  }

  /** `s.rstrip()` */
  function TrimRight(s: string): (r: string)
    ensures |r| <= |s| && r == s[..|r|]
    ensures |r| > 0 ==> !IsSpace(r[|r| - 1])
    ensures |s| > 0 && !IsSpace(s[|s| - 1]) ==> r == s
  {
    if |s| > 0 && IsSpace(s[|s| - 1]) then TrimRight(s[..|s| - 1]) else s
  }

  /** `s.strip()`: no whitespace is left at either end. */
  function Strip(s: string): (r: string)
    ensures |r| > 0 ==> !IsSpace(r[0]) && !IsSpace(r[|r| - 1])
    ensures forall i :: 0 <= i < |r| ==> r[i] in s
    ensures (|s| == 0 || (!IsSpace(s[0]) && !IsSpace(s[|s| - 1]))) ==> r == s
  {
    var l := TrimLeft(s);
    var r := TrimRight(l);
    SliceChars(s, r, |s| - |l|);
    r
  }

  /** Every character of a slice occurs in the whole. */
  lemma SliceChars(s: string, r: string, d: nat)
    requires d + |r| <= |s| && r == s[d..d + |r|]
    ensures forall i :: 0 <= i < |r| ==> r[i] in s
  {
    forall i | 0 <= i < |r| ensures r[i] in s {
      assert r[i] == s[d + i];
    }
  }

  /** `s.rstrip(c)` */
  function TrimRightChar(s: string, c: char): (r: string)
    ensures |r| <= |s| && r == s[..|r|]
    ensures |r| > 0 ==> r[|r| - 1] != c
  {
    if |s| > 0 && s[|s| - 1] == c then TrimRightChar(s[..|s| - 1], c) else s
  }

  /** Position of the first `c` in `s`. */
  function IndexOf(s: string, c: char): (k: nat)
    requires c in s
    ensures k < |s| && s[k] == c && c !in s[..k]
  {
    if s[0] == c then 0 else 1 + IndexOf(s[1..], c)
  }

  /** `s.split(c)[0]`: everything before the first `c` (all of `s` if there is none). */
  function Before(s: string, c: char): (r: string)
    ensures c !in r && StartsWith(s, r)
  {
    if c in s then s[..IndexOf(s, c)] else s
  }

  /** The first `c` is the one at `k` when no `c` comes before it. */
  lemma IndexOfAt(s: string, c: char, k: nat)
    requires k < |s| && s[k] == c && c !in s[..k]
    ensures IndexOf(s, c) == k
  {
  }

  /** Cutting at `c` and then at a `d` that occurs before the first `c` is cutting at `d`. */
  lemma BeforeNested(s: string, c: char, d: char)
    requires d in Before(s, c)
    ensures Before(s, d) == Before(Before(s, c), d)
  {
    var t := Before(s, c);
    var q := IndexOf(t, d);
    assert s[..q] == t[..q] && s[q] == t[q];
    IndexOfAt(s, d, q);
  }

  /** `s.split(c, 1)[1]`: everything after the first `c`; Python raises when there is none. */
  function After(s: string, c: char): (r: string)
    requires c in s
    ensures s == Before(s, c) + [c] + r
  {
    s[IndexOf(s, c) + 1..]
  }

  /** `sep.join(xs)` for a one-character separator. */
  function Join(xs: seq<string>, sep: char): string
  {
    if |xs| == 0 then ""
    else if |xs| == 1 then xs[0]
    else xs[0] + [sep] + Join(xs[1..], sep)
  }

  /** `s.split(sep)` for a one-character separator: always at least one piece. */
  function Split(s: string, sep: char): (r: seq<string>)
    ensures |r| >= 1
    decreases |s|
  {
    if |s| == 0 then [""]
    else
      var rest := Split(s[1..], sep);
      if s[0] == sep then [""] + rest else [[s[0]] + rest[0]] + rest[1..]
  }

  /** `xs[-n:]`: the last `n` elements, or all of them when there are fewer. */
  function Last<T>(xs: seq<T>, n: nat): (r: seq<T>)
    ensures |r| == (if |xs| < n then |xs| else n)
    ensures r == xs[|xs| - |r|..]
  {
    if |xs| <= n then xs else xs[|xs| - n..]
  }

  // ---------------------------------------------------------------------------
  // Numbers
  // ---------------------------------------------------------------------------

  predicate AllDigits(s: string) { forall i :: 0 <= i < |s| ==> IsDigit(s[i]) }

  /** `int(s)` for a string of decimal digits. */
  function DigitsValue(s: string): nat
    requires AllDigits(s)
  {
    if |s| == 0 then 0 else DigitsValue(s[..|s| - 1]) * 10 + (s[|s| - 1] as int - '0' as int)
  }

  function DigitChar(d: nat): (c: char)
    requires d < 10
    ensures IsDigit(c) && c as int - '0' as int == d
  {
    ('0' as int + d) as char
  }

  /** `str(n)` for a natural number. */
  function NatToString(n: nat): (r: string)
    ensures |r| >= 1 && AllDigits(r)
  {
    if n < 10 then [DigitChar(n)] else NatToString(n / 10) + [DigitChar(n % 10)]
  }

  /** `str(n)` for any integer. */
  function IntToString(n: int): string
  {
    if n < 0 then "-" + NatToString(-n) else NatToString(n)
  }

  // ---------------------------------------------------------------------------
  // Lemmas
  // ---------------------------------------------------------------------------

  /** `int(str(n)) == n` */
  lemma {:induction false} DigitsOfNatToString(n: nat)
    ensures DigitsValue(NatToString(n)) == n
  {
    if n >= 10 {
      DigitsOfNatToString(n / 10);
      var s := NatToString(n);
      assert s[..|s| - 1] == NatToString(n / 10);
    }
  }

  /** Splitting a text whose first piece holds no separator. */
  lemma {:induction false} SplitPrefix(a: string, t: string, sep: char)
    requires sep !in a
    ensures Split(a + t, sep) == [a + Split(t, sep)[0]] + Split(t, sep)[1..]
    decreases |a|
  {
    if |a| > 0 {
      assert (a + t)[1..] == a[1..] + t;
      SplitPrefix(a[1..], t, sep);
      assert [a[0]] + (a[1..] + Split(t, sep)[0]) == a + Split(t, sep)[0];
    } else {
      var parts := Split(t, sep);
      assert a + t == t && a + parts[0] == parts[0];
      assert parts == [parts[0]] + parts[1..];
    }
  }

  /** Leading whitespace is trimmed away whatever follows it. */
  lemma {:induction false} TrimLeftSpaces(x: string, y: string)
    requires forall i :: 0 <= i < |x| ==> IsSpace(x[i])
    ensures TrimLeft(x + y) == TrimLeft(y)
    decreases |x|
  {
    if |x| == 0 {
      assert x + y == y;
    } else {
      assert (x + y)[0] == x[0];
      assert (x + y)[1..] == x[1..] + y;
      TrimLeftSpaces(x[1..], y);
    }
  }

  /** Cutting a stripped text at a non-space character and stripping again gives the
      same as cutting the text itself and stripping: `s.strip().split(c)[0].strip() ==
      s.split(c)[0].strip()`. */
  lemma StripBefore(s: string, c: char)
    requires c in s && !IsSpace(c)
    ensures c in Strip(s) && Strip(Before(Strip(s), c)) == Strip(Before(s, c))
  {
    var t := Strip(s);
    var d := StripAt(s);
    var p := CutInside(s, t, d, c);
    PrefixSplit(s, d, p);
    var cut := s[d..p];
    StripSpaces(s[..d], cut);
    calc {
      Strip(Before(s, c));
      Strip(s[..d] + cut);
      Strip(cut);
      Strip(Before(t, c));
    }
  }

  /** Leading whitespace makes no difference to `strip()`. */
  lemma StripSpaces(x: string, y: string)
    requires forall i :: 0 <= i < |x| ==> IsSpace(x[i])
    ensures Strip(x + y) == Strip(y)
  {
    TrimLeftSpaces(x, y);
  }

  lemma PrefixSplit(s: string, d: nat, p: nat)
    requires d <= p <= |s|
    ensures s[..p] == s[..d] + s[d..p]
  {
  }

  /** `t` is `s` with the `d` characters before it and all after it whitespace. */
  ghost predicate Trims(s: string, t: string, d: nat)
  {
    && d + |t| <= |s| && t == s[d..d + |t|]
    && (forall i :: 0 <= i < d ==> IsSpace(s[i]))
    && (forall i :: d + |t| <= i < |s| ==> IsSpace(s[i]))
  }

  /** A non-space character first occurs inside the part of `s` that stripping keeps. */
  lemma CutInside(s: string, t: string, d: nat, c: char) returns (p: nat)
    requires Trims(s, t, d) && c in s && !IsSpace(c)
    ensures d <= p <= |s| && c in t
    ensures Before(s, c) == s[..p] && Before(t, c) == s[d..p]
  {
    p := IndexOf(s, c);
    assert d <= p < d + |t| by {
      assert !IsSpace(s[p]);
    }
    assert t[p - d] == c;
    assert t[..p - d] == s[d..p];
    IndexOfAt(t, c, p - d);
  }

  /** Where the stripped text sits in the whole: between two runs of whitespace. */
  lemma StripAt(s: string) returns (d: nat)
    ensures Trims(s, Strip(s), d)
  {
    var l := TrimLeft(s);
    d := |s| - |l|;
    var t := TrimRight(l);
    TrimLeftDrops(s);
    TrimRightDrops(l);
    TrimsBoth(s, l, t, d);
  }

  /** `lstrip` drops whitespace only. */
  lemma {:induction false} TrimLeftDrops(s: string)
    ensures forall i :: 0 <= i < |s| - |TrimLeft(s)| ==> IsSpace(s[i])
    decreases |s|
  {
    if |s| > 0 && IsSpace(s[0]) {
      TrimLeftDrops(s[1..]);
      assert forall i :: 0 < i < |s| ==> s[i] == s[1..][i - 1];
    }
  }

  /** `rstrip` drops whitespace only. */
  lemma {:induction false} TrimRightDrops(s: string)
    ensures forall i :: |TrimRight(s)| <= i < |s| ==> IsSpace(s[i])
    decreases |s|
  {
    if |s| > 0 && IsSpace(s[|s| - 1]) {
      TrimRightDrops(s[..|s| - 1]);
      assert forall i :: 0 <= i < |s| - 1 ==> s[i] == s[..|s| - 1][i];
    }
  }

  /** Trimming at the left and then at the right leaves a slice between whitespace. */
  lemma TrimsBoth(s: string, l: string, t: string, d: nat)
    requires d + |l| == |s| && l == s[d..] && forall i :: 0 <= i < d ==> IsSpace(s[i])
    requires |t| <= |l| && t == l[..|t|] && forall i :: |t| <= i < |l| ==> IsSpace(l[i])
    ensures Trims(s, t, d)
  {
    forall i | d + |t| <= i < |s| ensures IsSpace(s[i]) {
      assert s[i] == l[i - d];
    }
  }

  /** Upper- and lower-casing first makes no difference to lower-casing. */
  lemma LowerForgetsCase(s: string)
    ensures Lower(Upper(s)) == Lower(s) && Lower(Lower(s)) == Lower(s)
  {
    assert forall i :: 0 <= i < |s| ==> Lower(Upper(s))[i] == Lower(s)[i];
    assert forall i :: 0 <= i < |s| ==> Lower(Lower(s))[i] == Lower(s)[i];
  }

  /** `s.split(sep)` undoes `sep.join(xs)` when no piece holds the separator. */
  lemma {:induction false} SplitJoin(xs: seq<string>, sep: char)
    requires |xs| >= 1
    requires forall k :: 0 <= k < |xs| ==> sep !in xs[k]
    ensures Split(Join(xs, sep), sep) == xs
  {
    if |xs| == 1 {
      SplitPrefix(xs[0], "", sep);
      assert xs[0] + "" == xs[0];
    } else {
      var rest := Join(xs[1..], sep);
      assert Join(xs, sep) == xs[0] + ([sep] + rest);
      SplitPrefix(xs[0], [sep] + rest, sep);
      assert ([sep] + rest)[1..] == rest;
      SplitJoin(xs[1..], sep);
      assert xs[0] + "" == xs[0];
    }
  }
}
