/** Helpers shared by both front ends: an optional value, ASCII lower-casing, suffix
    tests, the last occurrence of a character, joining and splitting on a separator,
    decimal rendering of naturals and whitespace trimming. */
module Text {

  datatype Option<T> = None | Some(value: T)

  /** ASCII lower-casing of one character; every other character is kept. */
  function LowerChar(c: char): char
  {
    if 'A' <= c <= 'Z' then (c as int + 32) as char else c
  }

  /** Lower-casing of a whole string, character by character. */
  function ToLower(s: string): (r: string)
    ensures |r| == |s|
  {
    seq(|s|, i requires 0 <= i < |s| => LowerChar(s[i]))
  }

  lemma ToLowerAppend(a: string, b: string)
    ensures ToLower(a + b) == ToLower(a) + ToLower(b)
  {
  }

  lemma ToLowerSlice(s: string, i: nat)
    requires i <= |s|
    ensures ToLower(s[i..]) == ToLower(s)[i..]
  {
  }

  predicate EndsWith(s: string, suffix: string)
  {
    |suffix| <= |s| && s[|s| - |suffix|..] == suffix
  }

  /** Index of the last occurrence of `c` in `s`, or -1 when `c` does not occur. */
  function LastIndexOf(s: string, c: char): (i: int)
    ensures -1 <= i < |s|
    ensures i >= 0 ==> s[i] == c
  {
    LastIndexBelow(s, c, |s|)
  }

  /** Index of the last occurrence of `c` among the first `n` characters of `s`, or -1. */
  function LastIndexBelow(s: string, c: char, n: nat): (i: int)
    requires n <= |s|
    ensures -1 <= i < n
    ensures i >= 0 ==> s[i] == c
  {
    if n == 0 then -1
    else if s[n - 1] == c then n - 1
    else LastIndexBelow(s, c, n - 1)
  }

  /** The index found is the last occurrence: `c` does not occur after it, and there is
      none exactly when `c` does not occur at all. */
  lemma LastIndexOfIsLast(s: string, c: char)
    ensures forall k :: LastIndexOf(s, c) < k < |s| ==> s[k] != c
    ensures LastIndexOf(s, c) == -1 <==> c !in s
  {
    LastIndexBelowIsLast(s, c, |s|);
  }

  lemma {:induction false} LastIndexBelowIsLast(s: string, c: char, n: nat)
    requires n <= |s|
    ensures forall k :: LastIndexBelow(s, c, n) < k < n ==> s[k] != c
    ensures LastIndexBelow(s, c, n) == -1 <==> c !in s[..n]
  {
    if n > 0 && s[n - 1] != c {
      LastIndexBelowIsLast(s, c, n - 1);
      assert s[..n] == s[..n - 1] + [s[n - 1]];
    }
  }

  /** `parts` joined with `sep` between consecutive parts (Python's `sep.join`). */
  function Join(parts: seq<string>, sep: char): (r: string)
    ensures |parts| == 1 ==> r == parts[0]
    ensures |parts| >= 1 ==> |r| >= |parts[0]| && r[..|parts[0]|] == parts[0]
  {
    if |parts| == 0 then ""
    else if |parts| == 1 then parts[0]
    else parts[0] + [sep] + Join(parts[1..], sep)
  }

  /** `s` cut at every `sep`, keeping empty pieces (Python's `s.split(sep)`). */
  function Split(s: string, sep: char): (r: seq<string>)
    ensures |r| >= 1
  {
    if |s| == 0 then [""]
    else
      var rest := Split(s[1..], sep);
      if s[0] == sep then [""] + rest
      else [[s[0]] + rest[0]] + rest[1..]
  }

  lemma {:induction false} SplitAfterPiece(a: string, sep: char, b: string)
    requires sep !in a
    ensures Split(a + [sep] + b, sep) == [a] + Split(b, sep)
  {
    if |a| == 0 {
      assert a + [sep] + b == [sep] + b;
    } else {
      SplitAfterPiece(a[1..], sep, b);
      assert (a + [sep] + b)[1..] == a[1..] + [sep] + b;
      assert [a[0]] + a[1..] == a;
    }
  }

  lemma {:induction false} SplitWithout(a: string, sep: char)
    requires sep !in a
    ensures Split(a, sep) == [a]
  {
    if |a| > 0 {
      SplitWithout(a[1..], sep);
      assert [a[0]] + a[1..] == a;
    }
  }

  /** Splitting a join gives back the parts, provided no part contains the separator. */
  lemma {:induction false} SplitJoin(parts: seq<string>, sep: char)
    requires |parts| >= 1
    requires forall k :: 0 <= k < |parts| ==> sep !in parts[k]
    ensures Split(Join(parts, sep), sep) == parts
  {
    if |parts| == 1 {
      SplitWithout(parts[0], sep);
    } else {
      SplitJoin(parts[1..], sep);
      SplitAfterPiece(parts[0], sep, Join(parts[1..], sep));
      assert [parts[0]] + parts[1..] == parts;
    }
  }

  predicate IsDigit(c: char)
  {
    '0' <= c <= '9'
  }

  function DigitChar(d: nat): (c: char)
    requires d < 10
    ensures IsDigit(c) && c as int - '0' as int == d
  {
    (d + '0' as int) as char
  }

  /** Decimal rendering of a natural number, without leading zeros (Python's `str`). */
  function NatToString(n: nat): (s: string)
    ensures |s| >= 1
    ensures forall i :: 0 <= i < |s| ==> IsDigit(s[i])
    ensures |s| > 1 ==> s[0] != '0'
    ensures n < 10 <==> |s| == 1
  {
    if n < 10 then [DigitChar(n)] else NatToString(n / 10) + [DigitChar(n % 10)]
  }

  /** Value of a string of decimal digits. */
  function ParseNat(s: string): nat
    requires forall i :: 0 <= i < |s| ==> IsDigit(s[i])
  {
    if |s| == 0 then 0
    else
      assert IsDigit(s[|s| - 1]);
      10 * ParseNat(s[..|s| - 1]) + (s[|s| - 1] as int - '0' as int)
  }

  /** Reading back what `NatToString` wrote gives the number that was written. */
  lemma {:induction false} ParseNatToString(n: nat)
    ensures ParseNat(NatToString(n)) == n
  {
    if n >= 10 {
      ParseNatToString(n / 10);
      var s := NatToString(n);
      assert s[..|s| - 1] == NatToString(n / 10);
    }
  }

  /** The ASCII characters Python's `str.strip()` removes: space, tab, newline, vertical
      tab, form feed, carriage return and the separators 0x1C to 0x1F. */
  predicate IsSpace(c: char)
  {
    c == ' ' || c == '\t' || c == '\n' || c == '\r' || c as int == 11 || c as int == 12 || 28 <= c as int <= 31
  }

  /** The end of `s[..j]` once its trailing whitespace is dropped. */
  function SpanEnd(s: string, j: nat): (e: nat)
    requires j <= |s|
    ensures e <= j && (e > 0 ==> !IsSpace(s[e - 1]))
    ensures forall k :: e <= k < j ==> IsSpace(s[k])
  {
    if j > 0 && IsSpace(s[j - 1]) then SpanEnd(s, j - 1) else j
  }

  /** The start of `s[i..e]` once its leading whitespace is dropped. */
  function SpanStart(s: string, i: nat, e: nat): (b: nat)
    requires i <= e <= |s|
    ensures i <= b <= e && (b < e ==> !IsSpace(s[b]))
    ensures forall k :: i <= k < b ==> IsSpace(s[k])
    decreases e - i
  {
    if i < e && IsSpace(s[i]) then SpanStart(s, i + 1, e) else i
  }

  /** Python's `str.strip()` with no argument, restricted to ASCII whitespace: `s`
      without its leading and trailing whitespace. The result is a slice of `s` with
      only whitespace outside it and none at its ends, which leaves exactly one
      possible result (`StripUnique`). */
  function Strip(s: string): (r: string)
    ensures exists a, e :: 0 <= a <= e <= |s| && r == s[a..e]
                           && (forall k :: 0 <= k < a ==> IsSpace(s[k]))
                           && (forall k :: e <= k < |s| ==> IsSpace(s[k]))
    ensures |r| > 0 ==> !IsSpace(r[0]) && !IsSpace(r[|r| - 1])
    ensures (forall k :: 0 <= k < |s| ==> !IsSpace(s[k])) ==> r == s
  {
    var e := SpanEnd(s, |s|);
    var b := SpanStart(s, 0, e);
    assert b < e ==> s[b..e][0] == s[b] && s[b..e][e - b - 1] == s[e - 1];
    s[b..e]
  }

  /** Any slice of `s` with only whitespace outside it and none at its ends is `Strip(s)`. */
  lemma StripUnique(s: string, a: nat, e: nat)
    requires a <= e <= |s|
    requires forall k :: 0 <= k < a ==> IsSpace(s[k])
    requires forall k :: e <= k < |s| ==> IsSpace(s[k])
    requires a < e ==> !IsSpace(s[a]) && !IsSpace(s[e - 1])
    ensures Strip(s) == s[a..e]
  {
    var e' := SpanEnd(s, |s|);
    var b' := SpanStart(s, 0, e');
    if a < e {
      assert e' == e;
      assert b' == a;
    }
  }

  /** The text of a number has no whitespace to strip, so reading it back is exact. */
  lemma StripNatToString(n: nat)
    ensures Strip(NatToString(n)) == NatToString(n)
  {
    var s := NatToString(n);
    assert !IsSpace(s[0]) && !IsSpace(s[|s| - 1]);
  }
}
