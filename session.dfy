/** The proof engine as the program runs it: a theorem list that the rules
    append to in place, and fantasies (sub-proofs) that work on a copy of
    the list of the proof that opens them. Every method is proved to do
    exactly what the matching function of `Rules` says. */
module Session {
  import opened Text
  import opened Splitter
  import opened Tildes
  import opened Rules

  /** A proof in progress: the theorem list and the rules that extend it. */
  class Proof {
    var theorems: seq<string>

    constructor ()
      ensures theorems == []
    {
      theorems := [];
    }

    /** `addThm`: appends any formula at all (a testing aid). */
    method AddThm(thm: string)
      modifies this
      ensures theorems == old(theorems) + [thm]
    {
      theorems := theorems + [thm];
    }

    method Joining(x: string, y: string) returns (o: Outcome)
      modifies this
      ensures o == Rules.Joining(old(theorems), x, y)
      ensures theorems == old(theorems) + Appended(o)
    {
      if x in theorems && y in theorems {
        theorems := theorems + [Conj(x, y)];
        o := Added([Conj(x, y)]);
      } else {
        o := Failed(NotAllTheorems);
      }
    }

    method Separation(conjugate: string) returns (o: Outcome)
      modifies this
      ensures o == Rules.Separation(old(theorems), conjugate)
      ensures theorems == old(theorems) + Appended(o)
    {
      if conjugate in theorems {
        var parts := SplitAtTopLevel(conjugate, '^');
        if parts.Some? && parts.value.0 != "" && parts.value.1 != "" {
          theorems := theorems + [parts.value.0, parts.value.1];
          o := Added([parts.value.0, parts.value.1]);
        } else {
          o := Failed(NotConjunction(conjugate));
        }
      } else {
        o := Failed(NotATheorem(conjugate));
      }
    }

    method RemoveDoubleTilde(s: string) returns (o: Outcome)
      modifies this
      ensures o == Rules.RemoveDoubleTilde(old(theorems), s)
      ensures theorems == old(theorems) + Appended(o)
    {
      if !HasDoubleTilde(s) {
        return Failed(NoDoubleTilde(s));
      }
      if s !in theorems {
        return Failed(NotATheorem(s));
      }
      var t := RemoveDoubleTildes(s);
      theorems := theorems + [t];
      o := Added([t]);
    }

    method AddDoubleTilde(s: string, idx: int) returns (o: Outcome)
      modifies this
      ensures o == Rules.AddDoubleTilde(old(theorems), s, idx)
      ensures theorems == old(theorems) + Appended(o)
    {
      if s !in theorems {
        return Failed(NotATheorem(s));
      }
      if Abs(idx) > |s| - 1 {
        return Failed(IndexOutOfRange(idx));
      }
      var t := InsertDoubleTilde(s, SliceIndex(|s|, idx));
      theorems := theorems + [t];
      o := Added([t]);
    }

    method Detachment(x: string, implication: string) returns (o: Outcome)
      modifies this
      ensures o == Rules.Detachment(old(theorems), x, implication)
      ensures theorems == old(theorems) + Appended(o)
    {
      if x !in theorems {
        return Failed(NotATheorem(x));
      }
      if implication !in theorems {
        return Failed(NotATheorem(implication));
      }
      var parts := SplitAtTopLevel(implication, ')');
      if parts.None? {
        return Failed(NotModusPonens);
      }
      var (antecedent, consequent) := parts.value;
      if Unwrap(x) == Unwrap(antecedent) {
        theorems := theorems + [Strip(consequent)];
        o := Added([Strip(consequent)]);
      } else {
        o := Failed(NotModusPonens);
      }
    }

    method Contrapositive(s: string) returns (o: Outcome)
      modifies this
      ensures o == Rules.Contrapositive(old(theorems), s)
      ensures theorems == old(theorems) + Appended(o)
    {
      if s !in theorems {
        return Failed(NotATheorem(s));
      }
      if StartsWith(s, "<~") && EndsWith(s, ">") {
        assert s[..2][1] == s[1] && s[|s| - 1..][0] == s[|s| - 1];
        var parts := SplitAtTopLevel(s[2..|s| - 1], ')');
        if parts.Some? && parts.value.0 != "" && parts.value.1 != "" && StartsWith(parts.value.1, "~") {
          var t := Impl(Strip(parts.value.1[1..]), parts.value.0);
          assert ContrapositiveOfNegated(s) == Some(t);
          theorems := theorems + [t];
          return Added([t]);
        }
      }
      assert ContrapositiveOfNegated(s) == None;
      var parts := SplitAtTopLevel(s, ')');
      if parts.Some? && parts.value.0 != "" && parts.value.1 != "" {
        var t := Impl(Neg(parts.value.1), Neg(parts.value.0));
        theorems := theorems + [t];
        o := Added([t]);
      } else {
        o := Failed(NotImplication(s));
      }
    }

    method DeMorgans(s: string) returns (o: Outcome)
      modifies this
      ensures o == Rules.DeMorgans(old(theorems), s)
      ensures theorems == old(theorems) + Appended(o)
    {
      if s !in theorems {
        return Failed(NotATheorem(s));
      }
      if StartsWith(s, "~<") && EndsWith(s, ">") {
        assert s[..2][1] == s[1] && s[|s| - 1..][0] == s[|s| - 1];
        var parts := SplitAtTopLevel(s[2..|s| - 1], 'v');
        if parts.Some? && parts.value.0 != "" && parts.value.1 != "" {
          var t := Conj(Neg(parts.value.0), Neg(parts.value.1));
          assert DeMorgansOfNegated(s) == Some(t);
          theorems := theorems + [t];
          return Added([t]);
        }
      }
      assert DeMorgansOfNegated(s) == None;
      var parts := SplitAtTopLevel(s, '^');
      if parts.Some? && parts.value.0 != "" && parts.value.1 != "" {
        var (left, right) := parts.value;
        if StartsWith(left, "~") && StartsWith(right, "~") {
          o := Added([Neg(Disj(Strip(left[1..]), Strip(right[1..])))]);
        } else {
          o := Failed(NotDeMorgan(s));
        }
      } else {
        o := Failed(NotValidForm(s));
      }
      assert o == Rules.DeMorgans(theorems, s);
      theorems := theorems + Appended(o);
    }

    /** `switcheroo`: the two conversions are tried one after the other on
        the same body, and what each gives is appended, in that order. (The
        source tests for the enclosing `<...>` once before each conversion;
        the string does not change in between, so one test is the same.) */
    method Switcheroo(s: string) returns (o: Outcome)
      modifies this
      ensures o == Rules.Switcheroo(old(theorems), s)
      ensures theorems == old(theorems) + Appended(o)
    {
      if s !in theorems {
        return Failed(NotATheorem(s));
      }
      if !(StartsWith(s, "<") && EndsWith(s, ">")) {
        return Added([]);
      }
      var added := Conversions(s);
      SwitcherooOfWrapped(theorems, s);
      theorems := theorems + added;
      o := Added(added);
    }
  }

  /** On a `<...>` theorem, switcheroo appends what its two conversions give. */
  lemma SwitcherooOfWrapped(thms: seq<string>, s: string)
    requires s in thms && IsWrapped(s)
    ensures Rules.Switcheroo(thms, s) ==
              Added(SwitchToImplication(Strip(Inner(s))) + SwitchToDisjunction(Strip(Inner(s))))
  {
  }

  /** The two conversions of `switcheroo` on the body of a `<...>` formula,
      collected in the order the source appends them. */
  method Conversions(s: string) returns (added: seq<string>)
    requires IsWrapped(s)
    ensures added == SwitchToImplication(Strip(Inner(s))) + SwitchToDisjunction(Strip(Inner(s)))
  {
    var body := Strip(Inner(s));
    var toImplication := ToImplication(body);
    added := toImplication;
    var toDisjunction := ToDisjunction(body);
    added := added + toDisjunction;
  }

  /** The first conversion of `switcheroo`, on its body. */
  method ToImplication(body: string) returns (added: seq<string>)
    ensures added == SwitchToImplication(body)
  {
    added := [];
    var parts := SplitAtTopLevel(body, 'v');
    if parts.Some? {
      added := [Impl(Neg(parts.value.0), parts.value.1)];
    }
  }

  /** The second conversion of `switcheroo`, on its body. */
  method ToDisjunction(body: string) returns (added: seq<string>)
    ensures added == SwitchToDisjunction(body)
  {
    added := [];
    var parts := SplitAtTopLevel(body, ')');
    if parts.Some? && StartsWith(parts.value.0, "~") {
      added := [Disj(Strip(parts.value.0[1..]), parts.value.1)];
    }
  }

  /** A fantasy: a sub-proof whose list starts as a copy of the list handed
      in, followed by the supposal. */
  class Fantasy {
    const proof: Proof
    const premises: seq<string>
    const supposal: string
    var result: Option<string>

    /** Once opened, the fantasy's list begins with the copied theorems and
        the supposal. */
    ghost predicate Valid()
      reads this, proof
    {
      supposal != Quit ==> premises + [supposal] <= proof.theorems
    }

    /** Opening: the list handed in is copied (none counts as empty) and the
        supposal appended, unless the supposal is `q`. */
    constructor (theorems: Option<seq<string>>, supposal: string)
      ensures fresh(proof)
      ensures premises == (if theorems.Some? then theorems.value else [])
      ensures this.supposal == supposal && result == None
      ensures proof.theorems == premises + (if supposal != Quit then [supposal] else [])
      ensures Valid()
    {
      var p := new Proof();
      if theorems.Some? {
        p.theorems := theorems.value;
      }
      if supposal != Quit {
        p.theorems := p.theorems + [supposal];
      }
      proof := p;
      premises := if theorems.Some? then theorems.value else [];
      this.supposal := supposal;
      result := None;
    }

    /** One turn of the fantasy's loop: the rule named by `step` is applied
        to the fantasy's own list. A nested fantasy opens over a copy of that
        list, and only its discharge, when there is one, is appended here. */
    method TakeStep(step: Step) returns (o: Outcome)
      requires Valid() && supposal != Quit
      modifies proof
      ensures o == Apply(old(proof.theorems), step)
      ensures proof.theorems == old(proof.theorems) + Appended(o)
      ensures Valid()
      decreases step
    {
      match step
      case AddThmStep(thm) =>
        proof.AddThm(thm);
        o := Added([thm]);
      case JoiningStep(x, y) =>
        o := proof.Joining(x, y);
      case SeparationStep(c) =>
        o := proof.Separation(c);
      case RemoveDoubleTildeStep(s) =>
        o := proof.RemoveDoubleTilde(s);
      case AddDoubleTildeStep(s, idx) =>
        o := proof.AddDoubleTilde(s, idx);
      case DetachmentStep(x, imp) =>
        o := proof.Detachment(x, imp);
      case ContrapositiveStep(s) =>
        o := proof.Contrapositive(s);
      case DeMorgansStep(s) =>
        o := proof.DeMorgans(s);
      case SwitcherooStep(s) =>
        o := proof.Switcheroo(s);
      case FantasyStep(hyp, steps) =>
        var r := Open(Some(proof.theorems), hyp, steps);
        if r.Some? && r.value != "" {
          proof.theorems := proof.theorems + [r.value];
          o := Added([r.value]);
        } else {
          o := Added([]);
        }
    }

    /** The fantasy's loop, run over the steps the caller supplies. */
    method Run(steps: seq<Step>)
      requires Valid() && supposal != Quit
      modifies proof
      ensures proof.theorems == Derive(old(proof.theorems), steps)
      ensures Valid()
      decreases steps, 0
    {
      for i := 0 to |steps|
        invariant Valid()
        invariant proof.theorems == Derive(old(proof.theorems), steps[..i])
      {
        var _ := TakeStep(steps[i]);
        assert steps[..i + 1][..i] == steps[..i];
      }
      assert steps[..|steps|] == steps;
    }

    /** Closing: the result is `<supposal)last>` for the last formula of the
        fantasy's list, or nothing when the supposal was `q`. */
    method Close() returns (r: Option<string>)
      requires Valid()
      modifies this
      ensures r == (if supposal == Quit then None else Some(Impl(supposal, Last(proof.theorems))))
      ensures result == r
    {
      if supposal != Quit {
        result := Some(Impl(supposal, proof.theorems[|proof.theorems| - 1]));
      } else {
        result := None;
      }
      r := result;
    }

    /** `openFantasy`: open a fantasy over `theorems`, run it, and hand back
        its result. Nothing that exists before the call is changed: the
        fantasy works on its own copy. */
    static method Open(theorems: Option<seq<string>>, supposal: string, steps: seq<Step>)
      returns (r: Option<string>)
      ensures r == FantasyResult(if theorems.Some? then theorems.value else [], supposal, steps)
      decreases steps
    {
      var f := new Fantasy(theorems, supposal);
      if supposal != Quit {
        f.Run(steps);
      }
      r := f.Close();
    }
  }
}
