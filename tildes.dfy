/** Double-tilde removal and insertion on raw formula text. Removal is the
    regular-expression substitution of `~~` by nothing: matches are taken
    left to right and never overlap. */
module Tildes {

  /** The text contains `~~` somewhere. */
  predicate HasDoubleTilde(s: string) {
    exists i :: 0 <= i < |s| - 1 && s[i] == '~' && s[i + 1] == '~'
  }

  /** Delete `~~` left to right, without overlap, as a regular-expression
      substitution does. What comes out never contains `~~`. */
  function RemoveDoubleTildes(s: string): (r: string)
    ensures |r| <= |s|
    ensures s != [] && s[0] != '~' ==> r != [] && r[0] == s[0]
    ensures !HasDoubleTilde(r)
  {
    if |s| >= 2 && s[0] == '~' && s[1] == '~' then RemoveDoubleTildes(s[2..])
    else if s == [] then []
    else
      var rest := RemoveDoubleTildes(s[1..]);
      assert |s| >= 2 ==> s[1] != '~' || s[0] != '~';
      assert s[0] == '~' ==> rest == [] || rest[0] != '~';
      [s[0]] + rest
  }

  /** `n` tildes. */
  function Tildes(n: nat): (r: string)
    ensures |r| == n && forall i :: 0 <= i < n ==> r[i] == '~'
  {
    seq(n, _ => '~')
  }

  /** How many tildes `s` starts with. */
  function LeadingTildes(s: string): (n: nat)
    ensures n <= |s| && s[..n] == Tildes(n)
    ensures n < |s| ==> s[n] != '~'
  {
    if s != [] && s[0] == '~' then 1 + LeadingTildes(s[1..]) else 0
  }

  /** Reference reading of the removal: every maximal run of k tildes becomes
      k mod 2 tildes, and every other character is kept in place. */
  function CollapseRuns(s: string): string
    decreases |s|
  {
    if s == [] then []
    else
      var k := LeadingTildes(s);
      if k == 0 then [s[0]] + CollapseRuns(s[1..])
      else Tildes(k % 2) + CollapseRuns(s[k..])
  }

  /** One step of the removal at the front of the text: a leading `~~` is
      dropped, and otherwise the first character is kept. */
  lemma RemoveFront(s: string)
    requires s != []
    ensures |s| >= 2 && s[0] == '~' && s[1] == '~' ==> RemoveDoubleTildes(s) == RemoveDoubleTildes(s[2..])
    ensures !(|s| >= 2 && s[0] == '~' && s[1] == '~') ==>
              RemoveDoubleTildes(s) == [s[0]] + RemoveDoubleTildes(s[1..])
  {
  }

  /** A run of k tildes in front of a non-tilde leaves k mod 2 tildes. */
  lemma {:induction false} RemoveRun(k: nat, rest: string)
    requires rest == [] || rest[0] != '~'
    ensures RemoveDoubleTildes(Tildes(k) + rest) == Tildes(k % 2) + RemoveDoubleTildes(rest)
  {
    var s := Tildes(k) + rest;
    if k >= 2 {
      assert RemoveDoubleTildes(s) == RemoveDoubleTildes(Tildes(k - 2) + rest) by {
        assert s[0] == '~' && s[1] == '~';
        assert s[2..] == Tildes(k - 2) + rest;
        RemoveFront(s);
      }
      RemoveRun(k - 2, rest);
      assert k % 2 == (k - 2) % 2;
    } else if k == 1 {
      assert RemoveDoubleTildes(s) == "~" + RemoveDoubleTildes(rest) by {
        assert s == "~" + rest && s[1..] == rest;
        RemoveFront(s);
      }
      assert Tildes(1) == "~";
    } else {
      assert s == rest;
      assert Tildes(0) == [];
    }
  }

  /** The substitution collapses each run of tildes to its parity. */
  lemma {:induction false} RemoveIsCollapse(s: string)
    ensures RemoveDoubleTildes(s) == CollapseRuns(s)
    decreases |s|
  {
    if s != [] {
      var k := LeadingTildes(s);
      if k == 0 {
        RemoveIsCollapse(s[1..]);
      } else {
        assert s == Tildes(k) + s[k..];
        RemoveRun(k, s[k..]);
        RemoveIsCollapse(s[k..]);
      }
    }
  }

  /** `s` with its tildes left out. */
  function NonTildes(s: string): string {
    if s == [] then [] else (if s[0] == '~' then [] else [s[0]]) + NonTildes(s[1..])
  }

  lemma {:induction false} NonTildesAppend(s: string, t: string)
    ensures NonTildes(s + t) == NonTildes(s) + NonTildes(t)
  {
    if s == [] {
      assert s + t == t;
    } else {
      assert (s + t)[0] == s[0];
      assert (s + t)[1..] == s[1..] + t;
      NonTildesAppend(s[1..], t);
    }
  }

  /** Removal only deletes tildes: every other character survives, in order. */
  lemma {:induction false} RemoveKeepsOthers(s: string)
    ensures NonTildes(RemoveDoubleTildes(s)) == NonTildes(s)
  {
    if |s| >= 2 && s[0] == '~' && s[1] == '~' {
      RemoveKeepsOthers(s[2..]);
      assert NonTildes(s) == NonTildes(s[1..]);
      assert NonTildes(s[1..]) == NonTildes(s[2..]);
    } else if s != [] {
      RemoveKeepsOthers(s[1..]);
      NonTildesAppend([s[0]], RemoveDoubleTildes(s[1..]));
    }
  }

  /** Text without `~~` is left alone. */
  lemma {:induction false} RemoveWithoutDoubleTilde(s: string)
    requires !HasDoubleTilde(s)
    ensures RemoveDoubleTildes(s) == s
  {
    if s != [] {
      assert !(|s| >= 2 && s[0] == '~' && s[1] == '~');
      assert !HasDoubleTilde(s[1..]) by {
        forall i | 0 <= i < |s[1..]| - 1
          ensures !(s[1..][i] == '~' && s[1..][i + 1] == '~')
        {
          assert s[1..][i] == s[i + 1] && s[1..][i + 1] == s[i + 2];
        }
      }
      RemoveWithoutDoubleTilde(s[1..]);
    }
  }

  /** `s` with `~~` inserted before position `k`. */
  function InsertDoubleTilde(s: string, k: nat): (r: string)
    requires k <= |s|
    ensures |r| == |s| + 2 && r[k..k + 2] == "~~" && r[..k] + r[k + 2..] == s
  {
    s[..k] + "~~" + s[k..]
  }

  /** Inserting `~~` anywhere and then removing double tildes gives the same
      text as removing them from the original. */
  lemma {:induction false} RemoveAfterInsert(s: string, k: nat)
    requires k <= |s|
    ensures RemoveDoubleTildes(InsertDoubleTilde(s, k)) == RemoveDoubleTildes(s)
    decreases k
  {
    var t := InsertDoubleTilde(s, k);
    assert t == s[..k] + "~~" + s[k..];
    if k == 0 {
      assert t[0] == '~' && t[1] == '~' && t[2..] == s;
      RemoveFront(t);
    } else if k == 1 && s[0] == '~' {
      // "~" "~~" rest: the first pair is dropped and "~" rest remains
      assert t[0] == '~' && t[1] == '~' && t[2..] == s;
      RemoveFront(t);
    } else if k == 1 {
      assert t[0] == s[0] && t[1] == '~';
      assert t[1..] == InsertDoubleTilde(s[1..], 0);
      RemoveFront(t);
      RemoveFront(s);
      RemoveAfterInsert(s[1..], 0);
    } else if s[0] == '~' && s[1] == '~' {
      assert t[0] == '~' && t[1] == '~';
      assert t[2..] == InsertDoubleTilde(s[2..], k - 2);
      RemoveFront(t);
      RemoveFront(s);
      RemoveAfterInsert(s[2..], k - 2);
    } else {
      assert t[0] == s[0] && t[1] == s[1];
      assert t[1..] == InsertDoubleTilde(s[1..], k - 1);
      RemoveFront(t);
      RemoveFront(s);
      RemoveAfterInsert(s[1..], k - 1);
    }
  }
}
