/** `split_at_top_level`: the one structural probe every rule uses. A formula
    is cut at the first occurrence of a connective that sits outside every
    `<...>` group, after one enclosing `<...>` pair has been dropped. */
module Splitter {
  import opened Text

  /** What one character does to the bracket depth. */
  function Delta(c: char): int {
    if c == '<' then 1 else if c == '>' then -1 else 0
  }

  /** The bracket depth in force just before position `i` of `t`: opened
      `<` minus closed `>` in `t[..i]`. It may go negative. */
  function DepthBefore(t: string, i: nat): int
    requires i <= |t|
  {
    if i == 0 then 0 else DepthBefore(t, i - 1) + Delta(t[i - 1])
  }

  /** The bracket depth after the whole of `t`. */
  function Depth(t: string): int {
    DepthBefore(t, |t|)
  }

  /** Position `i` of `t` holds `sep`, at depth 0. Brackets are tested first
      in the scan, so `<` and `>` are never separators. */
  predicate SepAt(t: string, sep: char, i: int) {
    0 <= i < |t| && t[i] == sep && sep != '<' && sep != '>' && DepthBefore(t, i) == 0
  }

  /** `t` has no top-level `sep` at all. */
  predicate NoSepIn(t: string, sep: char) {
    forall j :: 0 <= j < |t| ==> !SepAt(t, sep, j)
  }

  /** The first top-level `sep` of `t` at or after position `i`. */
  function FirstSepFrom(t: string, sep: char, i: nat): (r: Option<nat>)
    requires i <= |t|
    decreases |t| - i
    ensures r.Some? ==> i <= r.value < |t|
  {
    if i == |t| then None
    else if SepAt(t, sep, i) then Some(i)
    else FirstSepFrom(t, sep, i + 1)
  }

  /** The scan from `i` finds a top-level `sep` with none before it from
      `i` on, and finds nothing exactly when there is none from `i` on. */
  lemma {:induction false} FirstSepFromSpec(t: string, sep: char, i: nat)
    requires i <= |t|
    decreases |t| - i
    ensures var r := FirstSepFrom(t, sep, i);
            && (r.Some? ==> SepAt(t, sep, r.value))
            && (r.Some? ==> forall j :: i <= j < r.value ==> !SepAt(t, sep, j))
            && (r.None? <==> forall j :: i <= j < |t| ==> !SepAt(t, sep, j))
  {
    if i < |t| && !SepAt(t, sep, i) {
      FirstSepFromSpec(t, sep, i + 1);
    }
  }

  function FirstSep(t: string, sep: char): Option<nat> {
    FirstSepFrom(t, sep, 0)
  }

  /** The text the scan runs over: one enclosing `<...>` pair removed when
      both ends are there, then trimmed. */
  function Unwrap(s: string): (r: string)
    ensures Trimmed(r) && |r| <= |s|
    ensures IsWrapped(s) ==> |r| <= |s| - 2
  {
    if IsWrapped(s) then Strip(Inner(s)) else Strip(s)
  }

  /** What `split_at_top_level(s, sep)` returns: the trimmed text before and
      after the first top-level `sep`, or `None` when there is none. The
      separator itself belongs to neither part. */
  function Split(s: string, sep: char): (r: Option<(string, string)>)
    ensures r.Some? ==> Trimmed(r.value.0) && Trimmed(r.value.1)
    ensures r.Some? ==> |r.value.0| + |r.value.1| < |Unwrap(s)|
  {
    var t := Unwrap(s);
    match FirstSep(t, sep)
    case None => None
    case Some(i) => Some((Strip(t[..i]), Strip(t[i + 1..])))
  }

  /** The scan itself: a depth counter updated character by character, with
      an early return at the first top-level separator. */
  method SplitAtTopLevel(s: string, sep: char) returns (parts: Option<(string, string)>)
    ensures parts == Split(s, sep)
  {
    var inner: string;
    if StartsWith(s, "<") && EndsWith(s, ">") {
      inner := Strip(Inner(s));
    } else {
      inner := Strip(s);
    }
    assert inner == Unwrap(s);
    var depth := 0;
    for i := 0 to |inner|
      invariant depth == DepthBefore(inner, i)
      invariant forall j :: 0 <= j < i ==> !SepAt(inner, sep, j)
    {
      var c := inner[i];
      if c == '<' {
        depth := depth + 1;
      } else if c == '>' {
        depth := depth - 1;
      } else if c == sep && depth == 0 {
        assert SepAt(inner, sep, i);
        SplitFoundAt(s, sep, i);
        return Some((Strip(inner[..i]), Strip(inner[i + 1..])));
      }
    }
    SplitFoundNone(s, sep);
    return None;
  }

  /** The scan stops at the first top-level `sep` it meets. */
  lemma SplitFoundAt(s: string, sep: char, i: nat)
    requires SepAt(Unwrap(s), sep, i)
    requires forall j :: 0 <= j < i ==> !SepAt(Unwrap(s), sep, j)
    ensures Split(s, sep) == Some((Strip(Unwrap(s)[..i]), Strip(Unwrap(s)[i + 1..])))
  {
    FirstSepFromSpec(Unwrap(s), sep, 0);
    assert FirstSep(Unwrap(s), sep) == Some(i);
  }

  /** The scan that meets no top-level `sep` finds nothing. */
  lemma SplitFoundNone(s: string, sep: char)
    requires forall j :: 0 <= j < |Unwrap(s)| ==> !SepAt(Unwrap(s), sep, j)
    ensures Split(s, sep) == None
  {
    FirstSepFromSpec(Unwrap(s), sep, 0);
  }

  /** Depths inside a prefix do not depend on what follows it. */
  lemma {:induction false} DepthBeforeAppend(t: string, u: string, i: nat)
    requires i <= |t|
    ensures DepthBefore(t + u, i) == DepthBefore(t, i)
  {
    if i > 0 {
      DepthBeforeAppend(t, u, i - 1);
      assert (t + u)[i - 1] == t[i - 1];
    }
  }

  lemma DepthBeforePrefix(t: string, k: nat, i: nat)
    requires i <= k <= |t|
    ensures DepthBefore(t[..k], i) == DepthBefore(t, i)
  {
    assert t == t[..k] + t[k..];
    DepthBeforeAppend(t[..k], t[k..], i);
  }

  /** The part of `t` before its first top-level `sep` has no top-level
      `sep` of its own. */
  lemma PrefixHasNoSep(t: string, sep: char, i: nat)
    requires i <= |t| && forall j :: 0 <= j < i ==> !SepAt(t, sep, j)
    ensures NoSepIn(t[..i], sep)
  {
    forall j | 0 <= j < i
      ensures !SepAt(t[..i], sep, j)
    {
      DepthBeforePrefix(t, i, j);
      assert !SepAt(t, sep, j);
      assert t[..i][j] == t[j];
    }
  }

  /** A successful split cuts the scanned text at one top-level `sep`, the
      returned parts are the trimmed text on either side, and the part before
      holds no top-level `sep` of its own. A split fails exactly when the
      scanned text has no top-level `sep`. */
  lemma SplitCharacterization(s: string, sep: char)
    ensures Split(s, sep).None? <==> NoSepIn(Unwrap(s), sep)
    ensures Split(s, sep).Some? ==>
              var t := Unwrap(s);
              var i := FirstSep(t, sep).value;
              && SepAt(t, sep, i)
              && t == t[..i] + [sep] + t[i + 1..]
              && Split(s, sep).value == (Strip(t[..i]), Strip(t[i + 1..]))
              && NoSepIn(t[..i], sep)
  {
    var t := Unwrap(s);
    var first := FirstSep(t, sep);
    FirstSepFromSpec(t, sep, 0);
    if first.Some? {
      var i := first.value;
      PrefixHasNoSep(t, sep, i);
      assert t[i] == sep;
      assert t[..i] + [sep] == t[..i + 1];
      assert t == t[..i + 1] + t[i + 1..];
    }
  }

  /** In `x sep y`, with `x` balanced and free of a top-level `sep`, the
      first top-level `sep` is the one right after `x`. */
  lemma {:induction false} FirstSepAfter(x: string, sep: char, y: string)
    requires sep != '<' && sep != '>'
    requires Depth(x) == 0 && NoSepIn(x, sep)
    ensures FirstSep(x + [sep] + y, sep) == Some(|x|)
  {
    var t := x + [sep] + y;
    assert t == x + ([sep] + y);
    DepthBeforeAppend(x, [sep] + y, |x|);
    assert SepAt(t, sep, |x|);
    FirstSepFromSpec(t, sep, 0);
    forall j | 0 <= j < |x|
      ensures !SepAt(t, sep, j)
    {
      DepthBeforeAppend(x, [sep] + y, j);
      assert t[j] == x[j];
      assert !SepAt(x, sep, j);
    }
  }

  /** If the scanned text is `x`, `sep`, `y` with `x` balanced and free of a
      top-level `sep`, the split returns exactly `x` and `y` (trimmed). */
  lemma SplitAt(s: string, x: string, sep: char, y: string)
    requires Unwrap(s) == x + [sep] + y
    requires sep != '<' && sep != '>'
    requires Depth(x) == 0 && NoSepIn(x, sep)
    ensures Split(s, sep) == Some((Strip(x), Strip(y)))
  {
    var t := x + [sep] + y;
    FirstSepAfter(x, sep, y);
    assert t[..|x|] == x && t[|x| + 1..] == y;
  }

  /** The scanned text of `<x sep y>`. */
  lemma UnwrapWrapped(x: string, sep: char, y: string)
    requires Trimmed(x) && Trimmed(y) && !IsSpace(sep)
    ensures Unwrap("<" + x + [sep] + y + ">") == x + [sep] + y
  {
    var s := "<" + x + [sep] + y + ">";
    var t := x + [sep] + y;
    assert s == ['<'] + t + ['>'];
    assert IsWrapped(s);
    assert Inner(s) == t;
    assert Trimmed(t);
    StripTrimmed(t);
  }

  /** The scanned text of a bare `x sep y`, when it is not itself wrapped. */
  lemma UnwrapBare(x: string, sep: char, y: string)
    requires Trimmed(x) && Trimmed(y) && !IsSpace(sep)
    requires !IsWrapped(x + [sep] + y)
    ensures Unwrap(x + [sep] + y) == x + [sep] + y
  {
    var t := x + [sep] + y;
    assert Trimmed(t);
    StripTrimmed(t);
    assert Unwrap(t) == Strip(t);
  }

  /** `<x sep y>` splits into `x` and `y` when `x` is balanced, has no
      top-level `sep`, and neither part has surrounding whitespace. */
  lemma SplitWrapped(x: string, sep: char, y: string)
    requires Trimmed(x) && Trimmed(y) && !IsSpace(sep) && sep != '<' && sep != '>'
    requires Depth(x) == 0 && NoSepIn(x, sep)
    ensures Split("<" + x + [sep] + y + ">", sep) == Some((x, y))
  {
    UnwrapWrapped(x, sep, y);
    SplitAt("<" + x + [sep] + y + ">", x, sep, y);
    StripTrimmed(x);
    StripTrimmed(y);
  }

  /** The same for a bare `x sep y` that is not itself wrapped. */
  lemma SplitBare(x: string, sep: char, y: string)
    requires Trimmed(x) && Trimmed(y) && !IsSpace(sep) && sep != '<' && sep != '>'
    requires Depth(x) == 0 && NoSepIn(x, sep)
    requires !IsWrapped(x + [sep] + y)
    ensures Split(x + [sep] + y, sep) == Some((x, y))
  {
    UnwrapBare(x, sep, y);
    SplitAt(x + [sep] + y, x, sep, y);
    StripTrimmed(x);
    StripTrimmed(y);
  }

  /** A string with no brackets is at depth 0 everywhere. */
  predicate Flat(t: string) {
    forall i :: 0 <= i < |t| ==> t[i] != '<' && t[i] != '>'
  }

  lemma {:induction false} FlatDepth(t: string, i: nat)
    requires Flat(t) && i <= |t|
    ensures DepthBefore(t, i) == 0
  {
    if i > 0 {
      FlatDepth(t, i - 1);
    }
  }

  /** In a bracket-free string, the top-level separators are simply the
      occurrences of `sep`. */
  lemma FlatSepAt(t: string, sep: char)
    requires Flat(t) && sep != '<' && sep != '>'
    ensures forall j :: 0 <= j < |t| ==> (SepAt(t, sep, j) <==> t[j] == sep)
    ensures Depth(t) == 0
  {
    forall j | 0 <= j <= |t|
      ensures DepthBefore(t, j) == 0
    {
      FlatDepth(t, j);
    }
  }
}
