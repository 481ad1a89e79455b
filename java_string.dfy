/**
 * The `java.lang.String` and Kotlin string operations the analyzer uses, over
 * `seq<char>`: character search, substrings, splitting on a delimiter, prefix and
 * suffix tests, `compareTo` ordering and decimal formatting.
 */
module JavaStrings {
  import opened Wrappers

  /** `StringIndexOutOfBoundsException`. */
  datatype StringFailure = StringIndexOutOfBounds

  /** `s.indexOf(c, from)`: the first index at or after `from` that holds c, or -1. */
  function IndexOfFrom(s: string, c: char, from: nat): (r: int)
    ensures r == -1 || (from <= r < |s| && s[r] == c)
    decreases |s| - from
  {
    if from >= |s| then -1
    else if s[from] == c then from
    else IndexOfFrom(s, c, from + 1)
  }

  /** The index found is the first: no earlier position from `from` on holds c,
      and -1 means none does. */
  lemma {:induction false} IndexOfFromFirst(s: string, c: char, from: nat)
    ensures var r := IndexOfFrom(s, c, from);
      && (r == -1 ==> forall i | from <= i < |s| :: s[i] != c)
      && (r != -1 ==> forall i | from <= i < r :: s[i] != c)
    decreases |s| - from
  {
    if from < |s| && s[from] != c {
      IndexOfFromFirst(s, c, from + 1);
    }
  }

  /** `s.indexOf(c)`. */
  function IndexOf(s: string, c: char): (r: int)
    ensures r == -1 <==> c !in s
    ensures r != -1 ==> 0 <= r < |s| && s[r] == c && c !in s[..r]
  {
    var r := IndexOfFrom(s, c, 0);
    IndexOfFromFirst(s, c, 0);
    assert r != -1 ==> forall i | 0 <= i < r :: s[..r][i] != c;
    r
  }

  /** `s.substring(begin, end)`: fails unless 0 <= begin <= end <= length. */
  function Substring(s: string, begin: int, end: int): (r: Result<string, StringFailure>)
    ensures r.Success? <==> 0 <= begin <= end <= |s|
    ensures r.Success? ==> |r.value| == end - begin && s == s[..begin] + r.value + s[end..]
  {
    if 0 <= begin <= end <= |s| then Success(s[begin..end]) else Failure(StringIndexOutOfBounds)
  }

  /** `s.startsWith(p)`. */
  predicate StartsWith(s: string, p: string) {
    |p| <= |s| && s[..|p|] == p
  }

  /** `s.endsWith(p)`. */
  predicate EndsWith(s: string, p: string) {
    |p| <= |s| && s[|s| - |p|..] == p
  }

  /** `s.contains("" + a + b)` for a two-character needle. */
  predicate ContainsPair(s: string, a: char, b: char)
    decreases |s|
  {
    |s| >= 2 && ((s[0] == a && s[1] == b) || ContainsPair(s[1..], a, b))
  }

  /** The pair at index i is found. */
  lemma {:induction false} ContainsPairAt(s: string, a: char, b: char, i: nat)
    requires i + 1 < |s| && s[i] == a && s[i + 1] == b
    ensures ContainsPair(s, a, b)
    decreases i
  {
    if i > 0 {
      ContainsPairAt(s[1..], a, b, i - 1);
    }
  }

  /** A string without the first character of the pair does not contain it. */
  lemma {:induction false} ContainsPairWithout(s: string, a: char, b: char)
    requires forall i | 0 <= i < |s| :: s[i] != a
    ensures !ContainsPair(s, a, b)
    decreases |s|
  {
    if |s| >= 2 {
      ContainsPairWithout(s[1..], a, b);
    }
  }

  /** `s.replace(a, b)`: every occurrence of the character a becomes b. The
      pointwise ensures is Java's documented contract of `replace(char, char)`;
      what it buys the model is shown by `DeclaringClassRoundTrip`, which
      recovers a dotted class name from its descriptor. */
  function ReplaceChar(s: string, a: char, b: char): (r: string)
    ensures |r| == |s|
    ensures forall i | 0 <= i < |s| :: r[i] == if s[i] == a then b else s[i]
  {
    seq(|s|, i requires 0 <= i < |s| => if s[i] == a then b else s[i])
  }

  /* ---------------------------------------------------------------------
   * Splitting on one delimiter (Kotlin's `split(";")`, which keeps every
   * piece, trailing empty ones included)
   * --------------------------------------------------------------------- */

  /** The pieces of s between occurrences of d, in order. */
  function SplitOn(s: string, d: char): (parts: seq<string>)
    ensures |parts| >= 1
    ensures forall i | 0 <= i < |parts| :: d !in parts[i]
    decreases |s|
  {
    var k := IndexOf(s, d);
    if k == -1 then [s] else [s[..k]] + SplitOn(s[k + 1..], d)
  }

  /** The pieces joined back with d between neighbours. */
  function JoinWith(parts: seq<string>, d: char): string
    requires |parts| >= 1
  {
    if |parts| == 1 then parts[0] else parts[0] + [d] + JoinWith(parts[1..], d)
  }

  /** Splitting loses nothing: the pieces joined with the delimiter give s back. */
  lemma {:induction false} JoinOfSplit(s: string, d: char)
    ensures JoinWith(SplitOn(s, d), d) == s
    decreases |s|
  {
    var k := IndexOf(s, d);
    if k != -1 {
      var tail := SplitOn(s[k + 1..], d);
      assert SplitOn(s, d) == [s[..k]] + tail;
      JoinOfSplit(s[k + 1..], d);
      JoinStep(s, d, k, tail);
    }
  }

  /** One step of `JoinOfSplit`: the piece before the first delimiter, then the
      rest rejoined. */
  lemma JoinStep(s: string, d: char, k: nat, tail: seq<string>)
    requires k < |s| && s[k] == d && |tail| >= 1
    requires JoinWith(tail, d) == s[k + 1..]
    ensures JoinWith([s[..k]] + tail, d) == s
  {
    var parts := [s[..k]] + tail;
    assert parts[0] == s[..k] && parts[1..] == tail;
    assert JoinWith(parts, d) == s[..k] + [d] + s[k + 1..];
    assert s == s[..k] + [d] + s[k + 1..];
  }

  /** And pieces free of the delimiter are recovered from their join. */
  lemma {:induction false} SplitOfJoin(parts: seq<string>, d: char)
    requires |parts| >= 1 && forall i | 0 <= i < |parts| :: d !in parts[i]
    ensures SplitOn(JoinWith(parts, d), d) == parts
    decreases |parts|
  {
    var p := parts[0];
    if |parts| == 1 {
      assert JoinWith(parts, d) == p;
      assert IndexOf(p, d) == -1;
    } else {
      var rest := JoinWith(parts[1..], d);
      var s := p + [d] + rest;
      assert JoinWith(parts, d) == s;
      assert s[..|p|] == p;
      assert s[|p|] == d;
      assert IndexOf(s, d) == |p|;
      assert s[|p| + 1..] == rest;
      SplitOfJoin(parts[1..], d);
      assert SplitOn(s, d) == [p] + SplitOn(rest, d);
      assert parts == [p] + parts[1..];
    }
  }

  /** A character other than the delimiter is in the join only if it is in a piece. */
  lemma {:induction false} JoinWithFree(parts: seq<string>, d: char, c: char)
    requires |parts| >= 1 && c != d && forall i | 0 <= i < |parts| :: c !in parts[i]
    ensures c !in JoinWith(parts, d)
    decreases |parts|
  {
    if |parts| > 1 {
      assert forall i | 0 <= i < |parts| - 1 :: parts[1..][i] == parts[i + 1];
      JoinWithFree(parts[1..], d, c);
    }
  }

  /* ---------------------------------------------------------------------
   * compareTo ordering
   * --------------------------------------------------------------------- */

  /** `a.compareTo(b) < 0`: the first differing character decides; otherwise the
      shorter string is smaller. */
  predicate StrLess(a: string, b: string)
    decreases |a|
  {
    if a == [] then b != []
    else if b == [] then false
    else if a[0] != b[0] then a[0] < b[0]
    else StrLess(a[1..], b[1..])
  }

  lemma {:induction false} StrLessIrreflexive(a: string)
    ensures !StrLess(a, a)
    decreases |a|
  {
    if a != [] {
      StrLessIrreflexive(a[1..]);
    }
  }

  lemma {:induction false} StrLessTransitive(a: string, b: string, c: string)
    requires StrLess(a, b) && StrLess(b, c)
    ensures StrLess(a, c)
    decreases |a|
  {
    if a != [] && b != [] && c != [] && a[0] == b[0] == c[0] {
      StrLessTransitive(a[1..], b[1..], c[1..]);
    }
  }

  lemma {:induction false} StrLessTotal(a: string, b: string)
    requires a != b
    ensures StrLess(a, b) || StrLess(b, a)
    decreases |a|
  {
    if a != [] && b != [] && a[0] == b[0] {
      assert a == [a[0]] + a[1..] && b == [b[0]] + b[1..];
      StrLessTotal(a[1..], b[1..]);
    }
  }

  lemma {:induction false} StrLessAsymmetric(a: string, b: string)
    requires StrLess(a, b)
    ensures !StrLess(b, a)
    decreases |a|
  {
    if a != [] && b != [] && a[0] == b[0] {
      StrLessAsymmetric(a[1..], b[1..]);
    }
  }

  /* ---------------------------------------------------------------------
   * Decimal formatting
   * --------------------------------------------------------------------- */

  /** The character of the decimal digit d. */
  function DigitChar(d: nat): (c: char)
    requires d < 10
    ensures '0' <= c <= '9' && c as int - '0' as int == d
  {
    ('0' as int + d) as char
  }

  /** `n.toString()` for n >= 0: decimal digits, most significant first. */
  function NatToString(n: nat): (s: string)
    ensures |s| >= 1
    ensures forall i | 0 <= i < |s| :: '0' <= s[i] <= '9'
    decreases n
  {
    if n < 10 then [DigitChar(n)] else NatToString(n / 10) + [DigitChar(n % 10)]
  }

  /** `Int.toString()`. */
  function IntToString(n: int): string {
    if n < 0 then "-" + NatToString(-n) else NatToString(n)
  }

  /** The value of a string of decimal digits. */
  function DigitsValue(s: string): nat
    requires forall i | 0 <= i < |s| :: '0' <= s[i] <= '9'
  {
    if s == [] then 0 else 10 * DigitsValue(s[..|s| - 1]) + (s[|s| - 1] as int - '0' as int)
  }

  /** The decimal digits denote the number: formatting is injective. */
  lemma {:induction false} NatToStringValue(n: nat)
    ensures DigitsValue(NatToString(n)) == n
    decreases n
  {
    var s := NatToString(n);
    if n >= 10 {
      NatToStringValue(n / 10);
      assert s[..|s| - 1] == NatToString(n / 10);
    }
  }

  /** `String.format("%-Ns", s)` and `"%-Nd"`: left-justified, padded with spaces to
      width w. */
  function PadRight(s: string, w: nat): (r: string)
    ensures |r| == if |s| < w then w else |s|
    ensures r[..|s|] == s && forall i | |s| <= i < |r| :: r[i] == ' '
  {
    if |s| < w then s + seq(w - |s|, _ => ' ') else s
  }
}
