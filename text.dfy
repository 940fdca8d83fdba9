/** The few pieces of Python string behaviour the proof engine relies on:
    `None`, `str.strip()`, `startswith`/`endswith`, the slice `s[1:-1]` and the
    way a slice bound is normalised. Formulas are plain character strings. */
module Text {

  /** Python's `None` beside a value. */
  datatype Option<T> = None | Some(value: T)

  /** `str.isspace` on the ASCII range: space, tab, line feed, vertical tab,
      form feed, carriage return and the separators 0x1C-0x1F. */
  predicate IsSpace(c: char) {
    c == ' ' || ('\t' <= c <= '\r') || ('\U{1C}' <= c <= '\U{1F}')
  }

  /** Every character of `u` is whitespace. */
  predicate AllSpace(u: string) {
    forall i :: 0 <= i < |u| ==> IsSpace(u[i])
  }

  /** `r` is the stretch `s[a..b]` of `s`, and everything of `s` outside
      that stretch is whitespace. */
  predicate TrimOf(s: string, r: string, a: int, b: int) {
    0 <= a <= b <= |s| && r == s[a..b] && AllSpace(s[..a]) && AllSpace(s[b..])
  }

  /** `str.strip()`: leading whitespace is dropped, then trailing whitespace.
      What is left neither starts nor ends with whitespace; `StripKeepsMiddle`
      shows it is the middle of `s`, unchanged. */
  function Strip(s: string): (r: string)
    ensures |r| <= |s|
    ensures r == [] || (!IsSpace(r[0]) && !IsSpace(r[|r| - 1]))
  {
    if |s| > 0 && IsSpace(s[0]) then Strip(s[1..])
    else if |s| > 0 && IsSpace(s[|s| - 1]) then Strip(s[..|s| - 1])
    else s
  }

  /** `strip()` removes whitespace at the two ends only: its result is a
      stretch of `s` with nothing but whitespace around it. With the trimmed
      ends of `Strip`'s own contract, this fixes the result uniquely. */
  lemma {:induction false} StripKeepsMiddle(s: string)
    ensures exists a, b :: TrimOf(s, Strip(s), a, b)
    decreases |s|
  {
    if |s| > 0 && IsSpace(s[0]) {
      StripKeepsMiddle(s[1..]);
      TrimFront(s, Strip(s[1..]));
      assert Strip(s) == Strip(s[1..]);
    } else if |s| > 0 && IsSpace(s[|s| - 1]) {
      StripKeepsMiddle(s[..|s| - 1]);
      TrimBack(s, s[..|s| - 1], Strip(s[..|s| - 1]));
      assert Strip(s) == Strip(s[..|s| - 1]);
    } else {
      assert Strip(s) == s && s[..0] == [] && s[|s|..] == [];
      assert TrimOf(s, s, 0, |s|);
    }
  }

  /** Cutting a leading blank before trimming the rest trims `s`. */
  lemma TrimFront(s: string, r: string)
    requires |s| > 0 && IsSpace(s[0])
    requires exists a, b :: TrimOf(s[1..], r, a, b)
    ensures exists a, b :: TrimOf(s, r, a, b)
  {
    var a, b :| TrimOf(s[1..], r, a, b);
    assert s[1..][a..b] == s[a + 1..b + 1];
    assert s[..a + 1] == [s[0]] + s[1..][..a];
    assert s[b + 1..] == s[1..][b..];
    assert TrimOf(s, r, a + 1, b + 1);
  }

  /** Cutting a trailing blank before trimming the rest trims `s`. */
  lemma TrimBack(s: string, t: string, r: string)
    requires |s| > 0 && IsSpace(s[|s| - 1]) && t == s[..|s| - 1]
    requires exists a, b :: TrimOf(t, r, a, b)
    ensures exists a, b :: TrimOf(s, r, a, b)
  {
    var a, b :| TrimOf(t, r, a, b);
    assert t[a..b] == s[a..b];
    assert s[..a] == t[..a];
    assert s[b..] == t[b..] + [s[|s| - 1]];
    assert TrimOf(s, r, a, b);
  }

  /** A string that `strip()` leaves as it is. */
  predicate Trimmed(s: string) {
    s == [] || (!IsSpace(s[0]) && !IsSpace(s[|s| - 1]))
  }

  lemma StripTrimmed(s: string)
    ensures Trimmed(s) <==> Strip(s) == s
  {
  }

  lemma StripIdempotent(s: string)
    ensures Strip(Strip(s)) == Strip(s)
  {
    StripTrimmed(Strip(s));
  }

  predicate StartsWith(s: string, prefix: string) {
    |prefix| <= |s| && s[..|prefix|] == prefix
  }

  predicate EndsWith(s: string, suffix: string) {
    |suffix| <= |s| && s[|s| - |suffix|..] == suffix
  }

  /** `s.startswith("<") and s.endswith(">")`. */
  predicate IsWrapped(s: string) {
    StartsWith(s, "<") && EndsWith(s, ">")
  }

  /** The Python slice `s[1:-1]`, which is empty for strings shorter than 2. */
  function Inner(s: string): (r: string)
    ensures |s| >= 2 ==> s == [s[0]] + r + [s[|s| - 1]]
    ensures |s| < 2 ==> r == []
  {
    if |s| >= 2 then s[1..|s| - 1] else []
  }

  /** Where a Python slice bound `i` lands in a string of length `n`:
      a negative bound counts from the end, and both ends are clamped. */
  function SliceIndex(n: nat, i: int): (k: nat)
    ensures k <= n
    ensures 0 <= i <= n ==> k == i
    ensures i < 0 <= n + i ==> k == n + i
    ensures i > n ==> k == n
    ensures n + i < 0 ==> k == 0
  {
    if i < 0 then (if n + i < 0 then 0 else n + i)
    else if i > n then n
    else i
  }

  function Abs(x: int): (r: nat)
    ensures r == x || r == -x
  {
    if x < 0 then -x else x
  }

  /** `xs[-1]` */
  function Last(xs: seq<string>): string
    requires |xs| > 0
  {
    xs[|xs| - 1]
  }
}
