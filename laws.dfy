/** What the rules guarantee: they only append, they use only theorems,
    joining and separation undo each other, detachment is modus ponens, the
    tilde rules are inverse to each other, and the three shape rules are
    self-inverse on simple atoms. */
module Laws {
  import opened Text
  import opened Splitter
  import opened Tildes
  import opened Rules

  /** Only the test rule `addThm` and a nested fantasy (which reads the
      whole list) get past without named operands; every other rule that
      appends anything read only theorems, and one whose first operand is
      missing says so (except joining, which reports the pair, and
      double-tilde removal, whose `~~` test comes first). */
  lemma OnlyTheoremsUsed(thms: seq<string>, step: Step)
    ensures Apply(thms, step).Added? && !step.AddThmStep? ==>
              forall f :: f in Operands(step) ==> f in thms
    ensures !step.AddThmStep? && !step.RemoveDoubleTildeStep? && !step.JoiningStep? &&
            !step.FantasyStep? && Operands(step)[0] !in thms ==>
              Apply(thms, step) == Failed(NotATheorem(Operands(step)[0]))
  {
  }

  /** How much one step appends: separation two or none, switcheroo up to
      two (none, silently, on a theorem that is not `<...>`), every other
      rule at most one; a step that fails leaves the list as it was. */
  lemma AppendCounts(thms: seq<string>, step: Step)
    ensures Apply(thms, step).Failed? ==> Derive(thms, [step]) == thms
    ensures step.SeparationStep? ==> |Appended(Apply(thms, step))| in {0, 2}
    ensures step.SwitcherooStep? ==> |Appended(Apply(thms, step))| <= 2
    ensures !step.SeparationStep? && !step.SwitcherooStep? ==>
              |Appended(Apply(thms, step))| <= 1
    ensures step.SwitcherooStep? && step.s in thms && !IsWrapped(step.s) ==>
              Apply(thms, step) == Added([])
  {
  }

  /** Running two batches of steps one after the other is running them
      together. */
  lemma {:induction false} DeriveConcat(thms: seq<string>, a: seq<Step>, b: seq<Step>)
    ensures Derive(thms, a + b) == Derive(Derive(thms, a), b)
    decreases |b|
  {
    if b == [] {
      assert a + b == a;
    } else {
      var b' := b[..|b| - 1];
      assert (a + b)[..|a + b| - 1] == a + b';
      assert (a + b)[|a + b| - 1] == b[|b| - 1];
      DeriveConcat(thms, a, b');
    }
  }

  /** A fantasy opened with `q` hands back nothing and its parent appends
      nothing. Any other fantasy hands back `<h)last>`, where `last` is the
      final formula of its own list, which begins with the parent's list and
      the supposal `h`; the parent appends exactly that one formula. With no
      steps taken, `last` is `h` itself. */
  lemma FantasyDischarge(thms: seq<string>, h: string, steps: seq<Step>)
    ensures h == Quit ==>
              FantasyResult(thms, h, steps) == None &&
              Apply(thms, FantasyStep(h, steps)) == Added([])
    ensures h != Quit ==>
              var inner := Derive(thms + [h], steps);
              && thms + [h] <= inner
              && FantasyResult(thms, h, steps) == Some(Impl(h, Last(inner)))
              && Apply(thms, FantasyStep(h, steps)) == Added([Impl(h, Last(inner))])
              && Derive(thms, [FantasyStep(h, steps)]) == thms + [Impl(h, Last(inner))]
    ensures h != Quit ==> FantasyResult(thms, h, []) == Some(Impl(h, h))
  {
    if h != Quit {
      var inner := Derive(thms + [h], steps);
      assert Impl(h, Last(inner)) != "";
      assert [FantasyStep(h, steps)][..0] == [];
    }
  }

  /** A worked fantasy: supposing `P` and joining it with itself discharges
      to `<P)<P^P>>`, whatever the parent held. */
  lemma FantasyExample(thms: seq<string>)
    ensures FantasyResult(thms, "P", [JoiningStep("P", "P")]) == Some("<P)<P^P>>")
  {
    var steps := [JoiningStep("P", "P")];
    assert steps[..0] == [];
    var start := thms + ["P"];
    assert "P" in start;
    assert Conj("P", "P") == "<P^P>";
    assert Apply(start, steps[0]) == Added(["<P^P>"]);
    assert Derive(start, steps) == start + ["<P^P>"];
    assert Impl("P", "<P^P>") == "<P)<P^P>>";
  }

  /** `joining` appends exactly `<x^y>` when both are theorems. Separating
      that conjunction gives back `x` then `y`, provided `x` is balanced,
      has no top-level `^`, and neither operand is empty or has surrounding
      whitespace. */
  lemma JoinThenSeparate(thms: seq<string>, x: string, y: string)
    requires x in thms && y in thms
    requires x != "" && y != "" && Trimmed(x) && Trimmed(y)
    requires Depth(x) == 0 && NoSepIn(x, '^')
    ensures Joining(thms, x, y) == Added([Conj(x, y)])
    ensures Separation(thms + [Conj(x, y)], Conj(x, y)) == Added([x, y])
  {
    SeparateConjunction(thms + [Conj(x, y)], x, y);
  }

  /** `separation` succeeds exactly on a theorem whose top-level `^` split
      has two non-empty sides, and appends those two sides, left first. */
  lemma SeparationSpec(thms: seq<string>, c: string)
    ensures Separation(thms, c).Added? <==>
              && c in thms && Split(c, '^').Some?
              && Split(c, '^').value.0 != "" && Split(c, '^').value.1 != ""
    ensures Separation(thms, c).Added? ==>
              Separation(thms, c).formulas == [Split(c, '^').value.0, Split(c, '^').value.1]
  {
  }

  /** Any theorem `<x^y>`, however it was obtained, separates into `x` and
      `y`, for non-empty trimmed sides and a balanced `x` with no top-level
      `^`. */
  lemma SeparateConjunction(thms: seq<string>, x: string, y: string)
    requires Conj(x, y) in thms
    requires x != "" && y != "" && Trimmed(x) && Trimmed(y)
    requires Depth(x) == 0 && NoSepIn(x, '^')
    ensures Separation(thms, Conj(x, y)) == Added([x, y])
  {
    assert Conj(x, y) == "<" + x + ['^'] + y + ">";
    SplitWrapped(x, '^', y);
  }

  /** `removeDoubleTilde` succeeds exactly on a theorem containing `~~`; the
      formula it appends is the original with every run of k tildes cut to
      k mod 2, so it has no `~~`, and every other character kept in order. */
  lemma RemoveDoubleTildeSpec(thms: seq<string>, s: string)
    ensures RemoveDoubleTilde(thms, s).Added? <==> HasDoubleTilde(s) && s in thms
    ensures !HasDoubleTilde(s) ==> RemoveDoubleTilde(thms, s) == Failed(NoDoubleTilde(s))
    ensures RemoveDoubleTilde(thms, s).Added? ==>
              var r := RemoveDoubleTilde(thms, s).formulas;
              && |r| == 1
              && r[0] == CollapseRuns(s)
              && !HasDoubleTilde(r[0])
              && NonTildes(r[0]) == NonTildes(s)
  {
    RemoveIsCollapse(s);
    RemoveKeepsOthers(s);
  }

  /** `addDoubleTilde` succeeds exactly on a theorem with `|idx| <= len-1`
      (so never on ""); it appends the formula with `~~` at offset k, where
      k is idx, or len+idx for a negative idx, and 0 <= k <= len-1. Taking
      those two characters out again gives the original. */
  lemma AddDoubleTildeSpec(thms: seq<string>, s: string, idx: int)
    ensures AddDoubleTilde(thms, s, idx).Added? <==> s in thms && -(|s| - 1) <= idx <= |s| - 1
    ensures s == "" ==> AddDoubleTilde(thms, s, idx).Failed?
    ensures AddDoubleTilde(thms, s, idx).Added? ==>
              var k := if idx >= 0 then idx else |s| + idx;
              var r := AddDoubleTilde(thms, s, idx).formulas;
              && 0 <= k <= |s| - 1
              && |r| == 1 && |r[0]| == |s| + 2
              && r[0][k..k + 2] == "~~"
              && r[0][..k] + r[0][k + 2..] == s
  {
    if AddDoubleTilde(thms, s, idx).Added? {
      var k := SliceIndex(|s|, idx);
      assert AddDoubleTilde(thms, s, idx).formulas[0] == InsertDoubleTilde(s, k);
    }
  }

  /** Adding `~~` and then removing double tildes from the result appends
      the original with its own double tildes removed; for a theorem without
      `~~`, that is the original itself. */
  lemma AddThenRemove(thms: seq<string>, s: string, idx: int)
    requires AddDoubleTilde(thms, s, idx).Added?
    ensures var r := AddDoubleTilde(thms, s, idx).formulas[0];
            RemoveDoubleTilde(thms + [r], r) == Added([RemoveDoubleTildes(s)])
    ensures !HasDoubleTilde(s) ==>
              var r := AddDoubleTilde(thms, s, idx).formulas[0];
              RemoveDoubleTilde(thms + [r], r) == Added([s])
  {
    var k := SliceIndex(|s|, idx);
    var r := InsertDoubleTilde(s, k);
    assert AddDoubleTilde(thms, s, idx).formulas[0] == r;
    assert r[k] == '~' && r[k + 1] == '~';
    assert HasDoubleTilde(r);
    RemoveAfterInsert(s, k);
    if !HasDoubleTilde(s) {
      RemoveWithoutDoubleTilde(s);
    }
  }

  /** `detachment` appends exactly the (trimmed) consequent when `x` and the
      implication are theorems, the implication splits at a top-level `)`,
      and `x` matches the antecedent up to one `<...>` pair and trimming;
      otherwise it appends nothing. */
  lemma DetachmentSpec(thms: seq<string>, x: string, implication: string)
    ensures Detachment(thms, x, implication).Added? <==>
              && x in thms && implication in thms
              && Split(implication, ')').Some?
              && Unwrap(x) == Unwrap(Split(implication, ')').value.0)
    ensures Detachment(thms, x, implication).Added? ==>
              Detachment(thms, x, implication).formulas == [Split(implication, ')').value.1]
  {
    var t := Unwrap(implication);
    if FirstSep(t, ')').Some? {
      StripIdempotent(t[FirstSep(t, ')').value + 1..]);
    }
  }

  /** Modus ponens: from `p` and `<p)q>` the rule derives `q`, for a
      balanced `p` without a top-level `)` and trimmed `p`, `q`. */
  lemma ModusPonens(thms: seq<string>, p: string, q: string)
    requires p in thms && Impl(p, q) in thms
    requires Trimmed(p) && Trimmed(q) && Depth(p) == 0 && NoSepIn(p, ')')
    ensures Detachment(thms, p, Impl(p, q)) == Added([q])
  {
    assert Impl(p, q) == "<" + p + [')'] + q + ">";
    SplitWrapped(p, ')', q);
    StripTrimmed(q);
  }

  /** The worked example: from `A` and `<A)B>`, detachment derives `B`. */
  lemma DetachmentExample()
    ensures Detachment(["A", "<A)B>"], "A", "<A)B>") == Added(["B"])
  {
    AtomFacts("A");
    assert Impl("A", "B") == "<A)B>";
    ModusPonens(["A", "<A)B>"], "A", "B");
  }

  /** The antecedent of `detachment` may be empty: from "" and `<)B>` it
      derives `B`. */
  lemma EmptyAntecedent()
    ensures Detachment(["", "<)B>"], "", "<)B>") == Added(["B"])
  {
    assert Split("<)B>", ')') == Some(("", "B")) by {
      assert Trimmed("B") && Depth("") == 0;
      assert "<)B>" == "<" + "" + [')'] + "B" + ">";
      SplitWrapped("", ')', "B");
    }
    assert Unwrap("") == "" && Strip("B") == "B" by {
      StripTrimmed("B");
    }
    DetachmentSpec(["", "<)B>"], "", "<)B>");
  }

  /** `separation` refuses a conjunction with an empty side, such as `<^B>`. */
  lemma EmptyConjunct()
    ensures Separation(["<^B>"], "<^B>") == Failed(NotConjunction("<^B>"))
  {
    assert Split("<^B>", '^') == Some(("", "B")) by {
      assert Trimmed("B") && Depth("") == 0;
      assert "<^B>" == "<" + "" + ['^'] + "B" + ">";
      SplitWrapped("", '^', "B");
    }
  }

  // ---- The shape rules on simple atoms ----

  /** A simple atom: non-empty, with no whitespace, brackets, tilde or
      connective character in it. */
  predicate IsAtom(p: string) {
    p != [] && forall i :: 0 <= i < |p| ==> AtomChar(p[i])
  }

  predicate AtomChar(c: char) {
    !IsSpace(c) && c != '<' && c != '>' && c != '~' && c != '^' && c != 'v' && c != ')'
  }

  /** An atom or its negation: bracket-free, trimmed, and the only connective
      character it may hold is a leading `~`. */
  lemma AtomFacts(p: string)
    requires IsAtom(p)
    ensures Trimmed(p) && Trimmed(Neg(p)) && Strip(p) == p
    ensures Flat(p) && Flat(Neg(p)) && Depth(p) == 0 && Depth(Neg(p)) == 0
    ensures NoSepIn(p, '^') && NoSepIn(p, 'v') && NoSepIn(p, ')')
    ensures NoSepIn(Neg(p), '^') && NoSepIn(Neg(p), 'v') && NoSepIn(Neg(p), ')')
    ensures p[0] != '~' && p[0] != '<' && Neg(p)[0] == '~'
    ensures StartsWith(Neg(p), "~") && Neg(p)[1..] == p
    ensures forall i :: 0 <= i < |p| ==> p[i] != '^' && p[i] != 'v' && p[i] != ')'
    ensures forall i :: 0 <= i < |Neg(p)| ==> Neg(p)[i] != '^' && Neg(p)[i] != 'v' && Neg(p)[i] != ')'
  {
    assert Flat(Neg(p)) by {
      forall i | 0 <= i < |Neg(p)| ensures Neg(p)[i] != '<' && Neg(p)[i] != '>' {
        if i > 0 { assert Neg(p)[i] == p[i - 1]; }
      }
    }
    assert forall i :: 0 <= i < |Neg(p)| ==> Neg(p)[i] != '^' && Neg(p)[i] != 'v' && Neg(p)[i] != ')' by {
      forall i | 0 <= i < |Neg(p)| ensures Neg(p)[i] != '^' && Neg(p)[i] != 'v' && Neg(p)[i] != ')' {
        if i > 0 { assert Neg(p)[i] == p[i - 1]; }
      }
    }
    FlatSepAt(p, '^');
    FlatSepAt(p, 'v');
    FlatSepAt(p, ')');
    FlatSepAt(Neg(p), '^');
    FlatSepAt(Neg(p), 'v');
    FlatSepAt(Neg(p), ')');
    assert Neg(p)[|Neg(p)| - 1] == p[|p| - 1];
    StripTrimmed(p);
  }

  /** A bracket-free, trimmed text without `sep` does not split at `sep`. */
  lemma NoSplitOnFlat(t: string, sep: char)
    requires Flat(t) && Trimmed(t) && sep != '<' && sep != '>'
    requires forall i :: 0 <= i < |t| ==> t[i] != sep
    ensures Split(t, sep) == None
  {
    StripTrimmed(t);
    assert !IsWrapped(t) by {
      if |t| > 0 { assert t[0] != '<'; }
    }
    FlatSepAt(t, sep);
    FirstSepFromSpec(t, sep, 0);
  }

  /** The text `a sep b`, for atoms or negated atoms `a` and `b`: bracket-free,
      trimmed, unwrapped, and holding `sep` only at position |a|. */
  lemma FlatJoin(a: string, sep: char, b: string)
    requires Flat(a) && Flat(b) && Trimmed(a) && Trimmed(b) && a != [] && a[0] != '<'
    requires sep != '<' && sep != '>' && !IsSpace(sep)
    ensures Flat(a + [sep] + b) && Trimmed(a + [sep] + b) && !IsWrapped(a + [sep] + b)
  {
    var t := a + [sep] + b;
    assert t[0] == a[0];
    forall i | 0 <= i < |t| ensures t[i] != '<' && t[i] != '>' {
      if i < |a| { assert t[i] == a[i]; }
      else if i > |a| { assert t[i] == b[i - |a| - 1]; }
    }
  }

  /** Contrapositive, general branch, on `<p)q>`. */
  lemma ContrapositiveOfPlain(thms: seq<string>, p: string, q: string)
    requires IsAtom(p) && IsAtom(q) && Impl(p, q) in thms
    ensures Contrapositive(thms, Impl(p, q)) == Added([Impl(Neg(q), Neg(p))])
  {
    AtomFacts(p);
    AtomFacts(q);
    var s := Impl(p, q);
    assert s == "<" + p + [')'] + q + ">";
    assert s[1] == p[0];
    assert !StartsWith(s, "<~");
    SplitWrapped(p, ')', q);
  }

  /** The negated branch of contrapositive once its scan is known. */
  lemma ContrapositiveOfNegatedFromScan(s: string, l: string, r: string, a: string)
    requires |s| >= 3 && StartsWith(s, "<~") && EndsWith(s, ">")
    requires Split(s[2..|s| - 1], ')') == Some((l, r))
    requires l != "" && r != "" && StartsWith(r, "~") && Strip(r[1..]) == a
    ensures ContrapositiveOfNegated(s) == Some(Impl(a, l))
  {
  }

  /** Contrapositive, negated branch, on `<~q)~p>`. */
  lemma ContrapositiveOfNegatedAtoms(p: string, q: string)
    requires IsAtom(p) && IsAtom(q)
    ensures ContrapositiveOfNegated(Impl(Neg(q), Neg(p))) == Some(Impl(p, q))
  {
    var t := Impl(Neg(q), Neg(p));
    var body := q + [')'] + Neg(p);
    assert |t| >= 3 && StartsWith(t, "<~") && EndsWith(t, ">") && t[2..|t| - 1] == body by {
      assert t == "<~" + body + ">";
    }
    assert Split(body, ')') == Some((q, Neg(p))) by {
      AtomFacts(p);
      AtomFacts(q);
      FlatJoin(q, ')', Neg(p));
      SplitBare(q, ')', Neg(p));
    }
    assert q != "" && Neg(p) != "" && StartsWith(Neg(p), "~") && Strip(Neg(p)[1..]) == p by {
      AtomFacts(p);
    }
    ContrapositiveOfNegatedFromScan(t, q, Neg(p), p);
  }

  /** `contrapositive` takes `<P)Q>` to `<~Q)~P>` and back, on atoms. */
  lemma ContrapositiveInvolution(thms: seq<string>, p: string, q: string)
    requires IsAtom(p) && IsAtom(q)
    ensures Impl(p, q) in thms ==>
              Contrapositive(thms, Impl(p, q)) == Added([Impl(Neg(q), Neg(p))])
    ensures Impl(Neg(q), Neg(p)) in thms ==>
              Contrapositive(thms, Impl(Neg(q), Neg(p))) == Added([Impl(p, q)])
  {
    if Impl(p, q) in thms {
      ContrapositiveOfPlain(thms, p, q);
    }
    ContrapositiveOfNegatedAtoms(p, q);
  }

  /** The negated branch of De Morgan once its scan is known. */
  lemma DeMorgansOfNegatedFromScan(s: string, l: string, r: string)
    requires |s| >= 3 && StartsWith(s, "~<") && EndsWith(s, ">")
    requires Split(s[2..|s| - 1], 'v') == Some((l, r)) && l != "" && r != ""
    ensures DeMorgansOfNegated(s) == Some(Conj(Neg(l), Neg(r)))
  {
  }

  /** De Morgan, negated branch, on `~<pvq>`. */
  lemma DeMorgansOfNegatedAtoms(p: string, q: string)
    requires IsAtom(p) && IsAtom(q)
    ensures DeMorgansOfNegated(Neg(Disj(p, q))) == Some(Conj(Neg(p), Neg(q)))
  {
    AtomFacts(p);
    AtomFacts(q);
    var s := Neg(Disj(p, q));
    var body := p + ['v'] + q;
    assert |s| >= 3 && StartsWith(s, "~<") && EndsWith(s, ">") && s[2..|s| - 1] == body by {
      assert s == "~<" + body + ">";
    }
    assert Split(body, 'v') == Some((p, q)) by {
      AtomFacts(p);
      AtomFacts(q);
      FlatJoin(p, 'v', q);
      SplitBare(p, 'v', q);
    }
    DeMorgansOfNegatedFromScan(s, p, q);
  }

  /** De Morgan, conjunction branch, on `<~p^~q>`. */
  lemma DeMorgansOfConjunction(thms: seq<string>, p: string, q: string)
    requires IsAtom(p) && IsAtom(q) && Conj(Neg(p), Neg(q)) in thms
    ensures DeMorgans(thms, Conj(Neg(p), Neg(q))) == Added([Neg(Disj(p, q))])
  {
    AtomFacts(p);
    AtomFacts(q);
    var t := Conj(Neg(p), Neg(q));
    assert t == "<" + Neg(p) + ['^'] + Neg(q) + ">";
    assert !StartsWith(t, "~<") by { assert t[0] == '<'; }
    SplitWrapped(Neg(p), '^', Neg(q));
  }

  /** `deMorgans` takes `~<PvQ>` to `<~P^~Q>` and back, on atoms. */
  lemma DeMorgansInvolution(thms: seq<string>, p: string, q: string)
    requires IsAtom(p) && IsAtom(q)
    ensures Neg(Disj(p, q)) in thms ==>
              DeMorgans(thms, Neg(Disj(p, q))) == Added([Conj(Neg(p), Neg(q))])
    ensures Conj(Neg(p), Neg(q)) in thms ==>
              DeMorgans(thms, Conj(Neg(p), Neg(q))) == Added([Neg(Disj(p, q))])
  {
    DeMorgansOfNegatedAtoms(p, q);
    if Conj(Neg(p), Neg(q)) in thms {
      DeMorgansOfConjunction(thms, p, q);
    }
  }

  /** The body switcheroo scans: one `<...>` pair off, trimmed. */
  lemma SwitcherooBody(s: string, body: string)
    requires s == "<" + body + ">" && Trimmed(body)
    ensures IsWrapped(s) && Strip(Inner(s)) == body
  {
    assert Inner(s) == body;
    StripTrimmed(body);
  }

  /** Switcheroo when only the `v` scan of its body succeeds. */
  lemma SwitcherooOnlyAtOr(thms: seq<string>, s: string, body: string, l: string, r: string)
    requires s in thms && IsWrapped(s) && Strip(Inner(s)) == body
    requires Split(body, 'v') == Some((l, r)) && Split(body, ')') == None
    ensures Switcheroo(thms, s) == Added([Impl(Neg(l), r)])
  {
  }

  /** Switcheroo when only the `)` scan of its body succeeds, with a `~l`
      antecedent. */
  lemma SwitcherooOnlyAtImplies(thms: seq<string>, s: string, body: string, l: string, r: string, a: string)
    requires s in thms && IsWrapped(s) && Strip(Inner(s)) == body
    requires Split(body, ')') == Some((l, r)) && Split(body, 'v') == None
    requires StartsWith(l, "~") && Strip(l[1..]) == a
    ensures Switcheroo(thms, s) == Added([Disj(a, r)])
  {
  }

  /** `x c y` holds `sep` nowhere when `x` and `y` do not and `c` is not it. */
  lemma NotInJoin(x: string, c: char, y: string, sep: char)
    requires c != sep
    requires forall i :: 0 <= i < |x| ==> x[i] != sep
    requires forall i :: 0 <= i < |y| ==> y[i] != sep
    ensures forall i :: 0 <= i < |x + [c] + y| ==> (x + [c] + y)[i] != sep
  {
    var t := x + [c] + y;
    forall i | 0 <= i < |t| ensures t[i] != sep {
      if i < |x| { assert t[i] == x[i]; }
      else if i > |x| { assert t[i] == y[i - |x| - 1]; }
    }
  }

  /** Switcheroo on `<xvy>`: only the `v` scan fires. */
  lemma SwitcherooOfDisjunction(thms: seq<string>, x: string, y: string)
    requires IsAtom(x) && IsAtom(y) && Disj(x, y) in thms
    ensures Switcheroo(thms, Disj(x, y)) == Added([Impl(Neg(x), y)])
  {
    var body := x + ['v'] + y;
    assert IsWrapped(Disj(x, y)) && Strip(Inner(Disj(x, y))) == body
        && Split(body, 'v') == Some((x, y)) && Split(body, ')') == None by {
      AtomFacts(x);
      AtomFacts(y);
      assert Disj(x, y) == "<" + body + ">";
      FlatJoin(x, 'v', y);
      SwitcherooBody(Disj(x, y), body);
      SplitBare(x, 'v', y);
      NotInJoin(x, 'v', y, ')');
      NoSplitOnFlat(body, ')');
    }
    SwitcherooOnlyAtOr(thms, Disj(x, y), body, x, y);
  }

  /** Switcheroo on `<~x)y>`: only the `)` scan fires. */
  lemma SwitcherooOfImplication(thms: seq<string>, x: string, y: string)
    requires IsAtom(x) && IsAtom(y) && Impl(Neg(x), y) in thms
    ensures Switcheroo(thms, Impl(Neg(x), y)) == Added([Disj(x, y)])
  {
    var body := Neg(x) + [')'] + y;
    assert IsWrapped(Impl(Neg(x), y)) && Strip(Inner(Impl(Neg(x), y))) == body
        && Split(body, ')') == Some((Neg(x), y)) && Split(body, 'v') == None
        && StartsWith(Neg(x), "~") && Strip(Neg(x)[1..]) == x by {
      AtomFacts(x);
      AtomFacts(y);
      assert Impl(Neg(x), y) == "<" + body + ">";
      FlatJoin(Neg(x), ')', y);
      SwitcherooBody(Impl(Neg(x), y), body);
      SplitBare(Neg(x), ')', y);
      NotInJoin(Neg(x), ')', y, 'v');
      NoSplitOnFlat(body, 'v');
    }
    SwitcherooOnlyAtImplies(thms, Impl(Neg(x), y), body, Neg(x), y, x);
  }

  /** `switcheroo` takes `<XvY>` to `<~X)Y>` and back, on atoms. */
  lemma SwitcherooInvolution(thms: seq<string>, x: string, y: string)
    requires IsAtom(x) && IsAtom(y)
    ensures Disj(x, y) in thms ==>
              Switcheroo(thms, Disj(x, y)) == Added([Impl(Neg(x), y)])
    ensures Impl(Neg(x), y) in thms ==>
              Switcheroo(thms, Impl(Neg(x), y)) == Added([Disj(x, y)])
  {
    if Disj(x, y) in thms {
      SwitcherooOfDisjunction(thms, x, y);
    }
    if Impl(Neg(x), y) in thms {
      SwitcherooOfImplication(thms, x, y);
    }
  }

  /** The body switcheroo scans has already lost one `<...>` pair, and the
      splitter drops another: for `<<a>v<b>>` it scans `a>v<b`, where the
      `v` sits at depth -1, so nothing is appended. */
  lemma SwitcherooUnwrapsTwice()
    ensures Switcheroo(["<<a>v<b>>"], "<<a>v<b>>") == Added([])
  {
    var s := "<<a>v<b>>";
    var body := "<a>v<b>";
    var t := "a>v<b";
    assert IsWrapped(s) && Inner(s) == body;
    assert Trimmed(body) && Strip(body) == body by { StripTrimmed(body); }
    assert IsWrapped(body) && Inner(body) == t;
    assert Trimmed(t) && Strip(t) == t by { StripTrimmed(t); }
    assert Unwrap(body) == t;
    assert DepthBefore(t, 1) == 0 && DepthBefore(t, 2) == -1 && DepthBefore(t, 3) == -1;
    assert DepthBefore(t, 4) == 0;
    assert forall j :: 0 <= j < |t| ==> !SepAt(t, 'v', j) && !SepAt(t, ')', j);
    FirstSepFromSpec(t, 'v', 0);
    FirstSepFromSpec(t, ')', 0);
    assert SwitchToImplication(body) == [] && SwitchToDisjunction(body) == [];
  }
}
