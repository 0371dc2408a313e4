/** The PHP string primitives the two multipart components rely on:
    `trim`, `explode` (with and without a limit of 2), `implode`,
    `strtolower` and the decimal rendering of `strlen`. Strings are
    sequences of characters; bytes are modelled as characters. */
module Text {
  import opened Wrappers

  // ---------------------------------------------------------------------
  // Character classes

  /** The characters PHP's `trim` strips by default: " \t\n\r\0\x0B". */
  predicate IsTrimChar(c: char) {
    c == ' ' || c == '\t' || c == '\n' || c == '\r' || c == '\0' || c == '\U{000B}'
  }

  /** PCRE `\s`: space, \t, \n, \x0B, \x0C, \r. */
  predicate IsPcreSpace(c: char) {
    c == ' ' || c == '\t' || c == '\n' || c == '\U{000B}' || c == '\U{000C}' || c == '\r'
  }

  /** PCRE `\w` in the C locale: [A-Za-z0-9_]. */
  predicate IsWordChar(c: char) {
    ('a' <= c <= 'z') || ('A' <= c <= 'Z') || ('0' <= c <= '9') || c == '_'
  }

  predicate IsDigit(c: char) {
    '0' <= c <= '9'
  }

  // ---------------------------------------------------------------------
  // strtolower

  function LowerChar(c: char): char {
    if 'A' <= c <= 'Z' then (c as int + 32) as char else c
  }

  /** `strtolower`: ASCII upper-case letters become lower-case, every other
      character is kept. */
  function Lower(s: string): (r: string)
    ensures |r| == |s|
    ensures forall i :: 0 <= i < |s| ==> r[i] == LowerChar(s[i])
  {
    seq(|s|, i requires 0 <= i < |s| => LowerChar(s[i]))
  }

  // ---------------------------------------------------------------------
  // Occurrences of a needle

  /** The needle `d` occurs in `s` starting at index `k`. */
  predicate MatchesAt(s: string, k: int, d: string) {
    0 <= k && k + |d| <= |s| && s[k..k + |d|] == d
  }

  /** `d` occurs nowhere in `s`. */
  predicate Absent(s: string, d: string) {
    forall k :: 0 <= k <= |s| ==> !MatchesAt(s, k, d)
  }

  /** Occurrences in `s[1..]` are the occurrences in `s` shifted by one. */
  lemma MatchesAtTail(s: string, d: string)
    requires |s| > 0
    ensures forall k :: 1 <= k ==> (MatchesAt(s, k, d) <==> MatchesAt(s[1..], k - 1, d))
  {
    forall k | 1 <= k
      ensures MatchesAt(s, k, d) <==> MatchesAt(s[1..], k - 1, d)
    {
      if k + |d| <= |s| {
        var a, b := s[k..k + |d|], s[1..][k - 1..k - 1 + |d|];
        assert |a| == |b|;
        forall i | 0 <= i < |a| ensures a[i] == b[i] {
          assert a[i] == s[k + i] && b[i] == s[1..][k - 1 + i];
        }
        assert a == b;
      }
    }
  }

  /** A string that lacks some character of `d` does not contain `d`. */
  lemma AbsentWithout(s: string, d: string, c: char)
    requires c in d && c !in s
    ensures Absent(s, d)
  {
    var j :| 0 <= j < |d| && d[j] == c;
    forall k | 0 <= k <= |s| ensures !MatchesAt(s, k, d) {
      if k + |d| <= |s| {
        assert s[k..k + |d|][j] == s[k + j];
      }
    }
  }

  /** Gluing two strings that do not contain `d` cannot create `d` when a
      character at the seam is foreign to `d`. */
  lemma AbsentConcat(a: string, c: string, d: string)
    requires |d| > 0 && Absent(a, d) && Absent(c, d)
    requires a == [] || c == [] || a[|a| - 1] !in d || c[0] !in d
    ensures Absent(a + c, d)
  {
    var s := a + c;
    forall k | 0 <= k <= |s| ensures !MatchesAt(s, k, d) {
      if k + |d| <= |s| {
        var w := s[k..k + |d|];
        if k + |d| <= |a| {
          assert a[k..k + |d|] == w;
          assert !MatchesAt(a, k, d);
        } else if k >= |a| {
          assert c[k - |a|..k - |a| + |d|] == w;
          assert !MatchesAt(c, k - |a|, d);
        } else {
          assert w[|a| - 1 - k] == a[|a| - 1] && w[|a| - k] == c[0];
        }
      }
    }
  }

  /** When `x` does not contain `d` and ends with a character foreign to
      `d`, the first occurrence of `d` in `x + d` is the appended one. */
  lemma NoEarlyMatch(x: string, d: string)
    requires |d| > 0 && |x| > 0 && Absent(x, d) && x[|x| - 1] !in d
    ensures forall k :: 0 <= k < |x| ==> !MatchesAt(x + d, k, d)
  {
    var s := x + d;
    forall k | 0 <= k < |x| ensures !MatchesAt(s, k, d) {
      if k + |d| <= |s| {
        var w := s[k..k + |d|];
        if k + |d| <= |x| {
          assert x[k..k + |d|] == w;
          assert !MatchesAt(x, k, d);
        } else {
          assert w[|x| - 1 - k] == x[|x| - 1];
        }
      }
    }
  }

  // ---------------------------------------------------------------------
  // explode($sep, $s, 2)

  /** `explode(sep, s, 2)`: split `s` at the FIRST occurrence of `sep`;
      `None` when `sep` does not occur (where PHP would leave the second
      variable of `list(...)` null). */
  function SplitOnce(sep: string, s: string): (r: Option<(string, string)>)
    requires |sep| > 0
    ensures r.Some? ==> s == r.value.0 + sep + r.value.1
    decreases |s|
  {
    if |s| < |sep| then None
    else if s[..|sep|] == sep then Some(([], s[|sep|..]))
    else
      match SplitOnce(sep, s[1..])
      case None => None
      case Some((a, b)) => Some(([s[0]] + a, b))
  }

  /** The split is at the FIRST occurrence, and there is none when the
      split fails. */
  lemma {:induction false} SplitOnceSpec(sep: string, s: string)
    requires |sep| > 0
    ensures var r := SplitOnce(sep, s);
      (r.Some? ==> forall k :: 0 <= k < |r.value.0| ==> !MatchesAt(s, k, sep)) &&
      (r.None? ==> Absent(s, sep))
    decreases |s|
  {
    if |s| >= |sep| && s[..|sep|] != sep {
      SplitOnceSpec(sep, s[1..]);
      MatchesAtTail(s, sep);
    }
  }

  /** Splitting right before the first occurrence: when `sep` does not occur
      in `x + sep` before index |x|, `x + sep + y` splits into `x` and `y`. */
  lemma SplitOnceAt(sep: string, x: string, y: string)
    requires |sep| > 0
    requires forall k :: 0 <= k < |x| ==> !MatchesAt(x + sep, k, sep)
    ensures SplitOnce(sep, x + sep + y) == Some((x, y))
  {
    var s := x + sep + y;
    assert MatchesAt(s, |x|, sep) by { assert s[|x|..|x| + |sep|] == sep; }
    var r := SplitOnce(sep, s);
    SplitOnceSpec(sep, s);
    assert r.Some?;
    var a := r.value.0;
    if |a| < |x| {
      assert MatchesAt(s, |a|, sep);
      assert (x + sep)[|a|..|a| + |sep|] == s[|a|..|a| + |sep|];
      assert MatchesAt(x + sep, |a|, sep);
      assert false;
    }
    if |a| > |x| {
      assert false;
    }
    assert a == s[..|x|] == x;
    assert r.value.1 == s[|x| + |sep|..] == y;
  }

  // ---------------------------------------------------------------------
  // explode($sep, $s) and implode($sep, $xs)

  /** `explode(sep, s)`: the pieces between successive, non-overlapping,
      leftmost occurrences of `sep`; never empty. */
  function Explode(sep: string, s: string): (r: seq<string>)
    requires |sep| > 0
    ensures |r| > 0
    decreases |s|
  {
    match SplitOnce(sep, s)
    case None => [s]
    case Some((a, b)) => [a] + Explode(sep, b)
  }

  /** `implode(sep, xs)`. */
  function Join(sep: string, xs: seq<string>): string {
    if |xs| == 0 then []
    else if |xs| == 1 then xs[0]
    else xs[0] + sep + Join(sep, xs[1..])
  }

  /** implode undoes explode, for every input. */
  lemma {:induction false} JoinExplode(sep: string, s: string)
    requires |sep| > 0
    ensures Join(sep, Explode(sep, s)) == s
    decreases |s|
  {
    match SplitOnce(sep, s)
    case None =>
    case Some((a, b)) =>
      JoinExplode(sep, b);
      assert Explode(sep, s)[1..] == Explode(sep, b);
  }

  lemma ExplodeWhole(sep: string, x: string)
    requires |sep| > 0
    requires Absent(x, sep)
    ensures Explode(sep, x) == [x]
  {
    var r := SplitOnce(sep, x);
    SplitOnceSpec(sep, x);
    if r.Some? {
      assert MatchesAt(x, |r.value.0|, sep) by {
        assert x[|r.value.0|..|r.value.0| + |sep|] == sep;
      }
      assert false;
    }
  }

  lemma ExplodeStep(sep: string, x: string, y: string)
    requires |sep| > 0
    requires forall k :: 0 <= k < |x| ==> !MatchesAt(x + sep, k, sep)
    ensures Explode(sep, x + sep + y) == [x] + Explode(sep, y)
  {
    SplitOnceAt(sep, x, y);
  }

  /** A piece that does not contain the separator's first character cannot
      hold an occurrence that starts inside it. */
  lemma NoMatchInside(sep: string, x: string, y: string)
    requires |sep| > 0 && sep[0] !in x
    ensures forall k :: 0 <= k < |x| ==> !MatchesAt(x + y, k, sep)
  {
    forall k | 0 <= k < |x| ensures !MatchesAt(x + y, k, sep) {
      assert (x + y)[k] == x[k];
      if k + |sep| <= |x + y| {
        assert (x + y)[k..k + |sep|][0] == x[k];
      }
    }
  }

  /** explode undoes implode when no piece contains the separator's first
      character. */
  lemma {:induction false} ExplodeJoin(sep: string, xs: seq<string>)
    requires |sep| > 0 && |xs| > 0
    requires forall i :: 0 <= i < |xs| ==> sep[0] !in xs[i]
    ensures Explode(sep, Join(sep, xs)) == xs
    decreases |xs|
  {
    if |xs| == 1 {
      NoMatchInside(sep, xs[0], []);
      assert xs[0] + [] == xs[0];
      ExplodeWhole(sep, xs[0]);
    } else {
      NoMatchInside(sep, xs[0], sep);
      ExplodeStep(sep, xs[0], Join(sep, xs[1..]));
      ExplodeJoin(sep, xs[1..]);
      assert xs == [xs[0]] + xs[1..];
    }
  }

  // ---------------------------------------------------------------------
  // trim

  predicate AllTrim(s: string) {
    forall i :: 0 <= i < |s| ==> IsTrimChar(s[i])
  }

  /** `ltrim`: the longest suffix that does not start with a trim character. */
  function TrimLeft(s: string): (r: string)
    ensures |r| <= |s|
    ensures r == [] || !IsTrimChar(r[0])
  {
    if s != [] && IsTrimChar(s[0]) then TrimLeft(s[1..]) else s
  }

  /** `ltrim` keeps a suffix and removes only trim characters. */
  lemma {:induction false} TrimLeftSpec(s: string)
    ensures var r := TrimLeft(s); r == s[|s| - |r|..] && AllTrim(s[..|s| - |r|])
  {
    if s != [] && IsTrimChar(s[0]) {
      TrimLeftSpec(s[1..]);
      var k := |s| - |TrimLeft(s)|;
      assert s[1..][..k - 1] == s[1..k];
      assert forall i :: 1 <= i < k ==> s[i] == s[1..k][i - 1];
    }
  }

  /** `rtrim`: the longest prefix that does not end with a trim character. */
  function TrimRight(s: string): (r: string)
    ensures |r| <= |s|
    ensures r == [] || !IsTrimChar(r[|r| - 1])
  {
    if s != [] && IsTrimChar(s[|s| - 1]) then TrimRight(s[..|s| - 1]) else s
  }

  /** `rtrim` keeps a prefix and removes only trim characters. */
  lemma {:induction false} TrimRightSpec(s: string)
    ensures var r := TrimRight(s); r == s[..|r|] && AllTrim(s[|r|..])
  {
    if s != [] && IsTrimChar(s[|s| - 1]) {
      var t := s[..|s| - 1];
      TrimRightSpec(t);
      var k := |TrimRight(s)|;
      assert t[..k] == s[..k];
      assert forall i :: k <= i < |s| - 1 ==> s[i] == t[k..][i - k];
    }
  }

  /** `trim`. */
  function Trim(s: string): (r: string)
    ensures r == [] || (!IsTrimChar(r[0]) && !IsTrimChar(r[|r| - 1]))
  {
    TrimRightSpec(TrimLeft(s));
    TrimRight(TrimLeft(s))
  }

  /** Trim removes exactly the surrounding trim characters and nothing of a
      core that neither starts nor ends with one. */
  lemma {:induction false} TrimLeftOf(pre: string, m: string)
    requires AllTrim(pre)
    requires m == [] || !IsTrimChar(m[0])
    ensures TrimLeft(pre + m) == m
    decreases |pre|
  {
    if pre == [] {
      assert pre + m == m;
    } else {
      assert (pre + m)[1..] == pre[1..] + m;
      TrimLeftOf(pre[1..], m);
    }
  }

  lemma {:induction false} TrimRightOf(m: string, suf: string)
    requires AllTrim(suf)
    requires m == [] || !IsTrimChar(m[|m| - 1])
    ensures TrimRight(m + suf) == m
    decreases |suf|
  {
    if suf == [] {
      assert m + suf == m;
    } else {
      assert (m + suf)[..|m + suf| - 1] == m + suf[..|suf| - 1];
      TrimRightOf(m, suf[..|suf| - 1]);
    }
  }

  lemma TrimOf(pre: string, m: string, suf: string)
    requires AllTrim(pre) && AllTrim(suf)
    requires m != [] && !IsTrimChar(m[0]) && !IsTrimChar(m[|m| - 1])
    ensures Trim(pre + m + suf) == m
  {
    assert pre + m + suf == pre + (m + suf);
    TrimLeftOf(pre, m + suf);
    TrimRightOf(m, suf);
  }

  // ---------------------------------------------------------------------
  // Decimal rendering of a length (string conversion of an int)

  function DigitChar(d: nat): char
    requires d < 10
  {
    ('0' as int + d) as char
  }

  /** The decimal digits of `n`, most significant first, without leading
      zeros. */
  function Decimal(n: nat): (r: string)
    ensures |r| > 0
    ensures forall i :: 0 <= i < |r| ==> IsDigit(r[i])
    ensures |r| > 1 ==> r[0] != '0'
  {
    if n < 10 then [DigitChar(n)] else Decimal(n / 10) + [DigitChar(n % 10)]
  }

  /** The number a string of decimal digits denotes. */
  function DecimalValue(s: string): nat
    requires forall i :: 0 <= i < |s| ==> IsDigit(s[i])
  {
    if s == [] then 0
    else
      var last := s[|s| - 1];
      assert IsDigit(last);
      DecimalValue(s[..|s| - 1]) * 10 + (last as int - '0' as int)
  }

  lemma {:induction false} DecimalRoundTrip(n: nat)
    ensures DecimalValue(Decimal(n)) == n
  {
    if n >= 10 {
      DecimalRoundTrip(n / 10);
      var s := Decimal(n);
      assert s[..|s| - 1] == Decimal(n / 10);
    }
  }
}
