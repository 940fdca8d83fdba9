/** The eight inference rules of the propositional calculus, each as what it
    does to the theorem list: a pure function from the list and the rule's
    operands to the formulas appended, or the reason nothing was appended. */
module Rules {
  import opened Text
  import opened Splitter
  import opened Tildes

  /** Why a rule appended nothing; one kind per diagnostic the rules print. */
  datatype RuleError =
    | NotATheorem(formula: string)      // "<formula> is not a theorem."
    | NotAllTheorems                    // joining: "One or more strings are not theorems."
    | NotConjunction(formula: string)   // "<formula> is not of the form <P^Q>"
    | NoDoubleTilde(formula: string)    // "No ~~ in <formula>"
    | IndexOutOfRange(index: int)       // "Index <index> out of range."
    | NotModusPonens                    // "Not of the form P and <P)Q>"
    | NotImplication(formula: string)   // "<formula> is not of the form <P)Q>"
    | NotDeMorgan(formula: string)      // "<formula> is not of the form <~P^~Q> or ~<PvQ>"
    | NotValidForm(formula: string)     // "<formula> is not a valid form. "

  /** What one rule application did. */
  datatype Outcome = Added(formulas: seq<string>) | Failed(error: RuleError)

  /** The formulas an outcome puts at the end of the theorem list. */
  function Appended(o: Outcome): seq<string> {
    if o.Added? then o.formulas else []
  }

  // The formula builders.

  function Neg(p: string): string { "~" + p }
  function Conj(p: string, q: string): string { "<" + p + "^" + q + ">" }
  function Disj(p: string, q: string): string { "<" + p + "v" + q + ">" }
  function Impl(p: string, q: string): string { "<" + p + ")" + q + ">" }

  /** `joining`: both operands must be theorems. */
  function Joining(thms: seq<string>, x: string, y: string): (r: Outcome)
    ensures r.Added? <==> x in thms && y in thms
    ensures r.Added? ==> r.formulas == [Conj(x, y)]
    ensures r.Failed? ==> r.error == NotAllTheorems
  {
    if x in thms && y in thms then Added([Conj(x, y)]) else Failed(NotAllTheorems)
  }

  /** `separation`: a theorem that splits at a top-level `^` into two
      non-empty parts yields both parts, left first. Each part is trimmed,
      and together they are shorter than the conjunction. */
  function Separation(thms: seq<string>, conjugate: string): (r: Outcome)
    ensures r.Added? ==>
              && conjugate in thms && |r.formulas| == 2
              && r.formulas[0] != "" && r.formulas[1] != ""
              && Trimmed(r.formulas[0]) && Trimmed(r.formulas[1])
              && |r.formulas[0]| + |r.formulas[1]| < |conjugate|
    ensures r.Failed? ==>
              r.error == (if conjugate in thms then NotConjunction(conjugate) else NotATheorem(conjugate))
  {
    if conjugate !in thms then Failed(NotATheorem(conjugate))
    else
      match Split(conjugate, '^')
      case Some((left, right)) =>
        if left != "" && right != "" then Added([left, right])
        else Failed(NotConjunction(conjugate))
      case None => Failed(NotConjunction(conjugate))
  }

  /** `removeDoubleTilde`: the `~~` test comes before the theorem test. The
      formula appended holds no `~~`, and its other characters are those of
      the theorem, in order. */
  function RemoveDoubleTilde(thms: seq<string>, s: string): (r: Outcome)
    ensures r.Added? <==> HasDoubleTilde(s) && s in thms
    ensures r.Added? ==>
              && |r.formulas| == 1 && !HasDoubleTilde(r.formulas[0])
              && NonTildes(r.formulas[0]) == NonTildes(s)
    ensures r.Failed? ==> r.error == (if HasDoubleTilde(s) then NotATheorem(s) else NoDoubleTilde(s))
  {
    if !HasDoubleTilde(s) then Failed(NoDoubleTilde(s))
    else if s !in thms then Failed(NotATheorem(s))
    else
      RemoveKeepsOthers(s);
      Added([RemoveDoubleTildes(s)])
  }

  /** `addDoubleTilde`: `idx` is a Python index, so a negative one counts
      from the end; any `idx` with `|idx| > len - 1` is refused. The formula
      appended is the theorem with `~~` in front of the character at `idx`. */
  function AddDoubleTilde(thms: seq<string>, s: string, idx: int): (r: Outcome)
    ensures r.Added? <==> s in thms && Abs(idx) <= |s| - 1
    ensures r.Added? ==> |r.formulas| == 1
    ensures r.Added? ==>
              var k := SliceIndex(|s|, idx);
              var f := r.formulas[0];
              && k < |s| && |f| == |s| + 2
              && f[k..k + 2] == "~~" && f[..k] + f[k + 2..] == s
    ensures r.Failed? ==> r.error == (if s in thms then IndexOutOfRange(idx) else NotATheorem(s))
  {
    if s !in thms then Failed(NotATheorem(s))
    else if Abs(idx) > |s| - 1 then Failed(IndexOutOfRange(idx))
    else
      Added([InsertDoubleTilde(s, SliceIndex(|s|, idx))])
  }

  /** `detachment`: `x` and the antecedent of a top-level `)` split of the
      implication must agree once each has had one optional `<...>` pair
      removed and been trimmed. An empty antecedent is accepted. The formula
      appended is trimmed and shorter than the implication. */
  function Detachment(thms: seq<string>, x: string, implication: string): (r: Outcome)
    ensures r.Added? ==>
              && x in thms && implication in thms && |r.formulas| == 1
              && Trimmed(r.formulas[0]) && |r.formulas[0]| < |implication|
    ensures r.Failed? ==>
              r.error == (if x !in thms then NotATheorem(x)
                          else if implication !in thms then NotATheorem(implication)
                          else NotModusPonens)
  {
    if x !in thms then Failed(NotATheorem(x))
    else if implication !in thms then Failed(NotATheorem(implication))
    else
      match Split(implication, ')')
      case None => Failed(NotModusPonens)
      case Some((antecedent, consequent)) =>
        if Unwrap(x) == Unwrap(antecedent) then Added([Strip(consequent)])
        else Failed(NotModusPonens)
  }

  /** The first branch of `contrapositive`: for `<~...>`, the text
      `s[2:-1]` is split at `)` (the splitter may drop a further `<...>`
      pair), and a consequent `~q` gives `<q)antecedent>`, which is shorter
      than `s` since at least the `~` is gone. */
  function ContrapositiveOfNegated(s: string): (r: Option<string>)
    ensures r.Some? ==>
              && StartsWith(s, "<~") && EndsWith(s, ">")
              && IsWrapped(r.value) && |r.value| < |s|
  {
    if StartsWith(s, "<~") && EndsWith(s, ">") then
      assert s[..2][1] == s[1] && s[|s| - 1..][0] == s[|s| - 1];
      match Split(s[2..|s| - 1], ')')
      case Some((antecedent, consequent)) =>
        if antecedent != "" && consequent != "" && StartsWith(consequent, "~")
        then Some(Impl(Strip(consequent[1..]), antecedent))
        else None
      case None => None
    else None
  }

  /** `contrapositive`: the negated shape first, then `<P)Q>` to `<~Q)~P>`. */
  function Contrapositive(thms: seq<string>, s: string): (r: Outcome)
    ensures r.Added? ==> s in thms && |r.formulas| == 1 && IsWrapped(r.formulas[0])
    ensures r.Failed? ==> r.error == (if s in thms then NotImplication(s) else NotATheorem(s))
  {
    if s !in thms then Failed(NotATheorem(s))
    else if ContrapositiveOfNegated(s).Some? then Added([ContrapositiveOfNegated(s).value])
    else
      match Split(s, ')')
      case Some((antecedent, consequent)) =>
        if antecedent != "" && consequent != "" then Added([Impl(Neg(consequent), Neg(antecedent))])
        else Failed(NotImplication(s))
      case None => Failed(NotImplication(s))
  }

  /** The first branch of `deMorgans`: for `~<...>`, the text `s[2:-1]` is
      split at `v` (again possibly losing a further `<...>` pair). The
      result has the other shape, `<~...>`. */
  function DeMorgansOfNegated(s: string): (r: Option<string>)
    ensures r.Some? ==>
              && StartsWith(s, "~<") && EndsWith(s, ">")
              && StartsWith(r.value, "<~") && EndsWith(r.value, ">")
  {
    if StartsWith(s, "~<") && EndsWith(s, ">") then
      assert s[..2][1] == s[1] && s[|s| - 1..][0] == s[|s| - 1];
      match Split(s[2..|s| - 1], 'v')
      case Some((left, right)) =>
        if left != "" && right != "" then Some(Conj(Neg(left), Neg(right))) else None
      case None => None
    else None
  }

  /** `deMorgans`: `~<PvQ>` to `<~P^~Q>`, else `<~P^~Q>` to `~<PvQ>`. */
  function DeMorgans(thms: seq<string>, s: string): (r: Outcome)
    ensures r.Added? ==>
              && s in thms && |r.formulas| == 1
              && (StartsWith(r.formulas[0], "<~") || StartsWith(r.formulas[0], "~<"))
    ensures r.Failed? && s !in thms ==> r.error == NotATheorem(s)
    ensures r.Failed? && s in thms ==>
              r.error == (if Split(s, '^').Some? && Split(s, '^').value.0 != "" && Split(s, '^').value.1 != ""
                          then NotDeMorgan(s) else NotValidForm(s))
  {
    if s !in thms then Failed(NotATheorem(s))
    else if DeMorgansOfNegated(s).Some? then Added([DeMorgansOfNegated(s).value])
    else
      match Split(s, '^')
      case Some((left, right)) =>
        if left != "" && right != "" then
          if StartsWith(left, "~") && StartsWith(right, "~")
          then Added([Neg(Disj(Strip(left[1..]), Strip(right[1..])))])
          else Failed(NotDeMorgan(s))
        else Failed(NotValidForm(s))
      case None => Failed(NotValidForm(s))
  }

  /** `switcheroo`: on a `<...>` theorem, the body (already unwrapped once,
      and possibly unwrapped again by the splitter) is tried at `v`, giving
      `<~X)Y>`, and independently at `)` with a `~` antecedent, giving
      `<XvY>`. Either, both or neither may fire; nothing is reported. */
  function Switcheroo(thms: seq<string>, s: string): (r: Outcome)
    ensures r.Failed? <==> s !in thms
    ensures r.Failed? ==> r.error == NotATheorem(s)
    ensures r.Added? ==> |r.formulas| <= 2 && (!IsWrapped(s) ==> r.formulas == [])
  {
    if s !in thms then Failed(NotATheorem(s))
    else if !IsWrapped(s) then Added([])
    else
      var body := Strip(Inner(s));
      Added(SwitchToImplication(body) + SwitchToDisjunction(body))
  }

  /** The first half of `switcheroo`: a top-level `v` in the body gives
      `<~X)Y>`. Empty sides are accepted. */
  function SwitchToImplication(body: string): (r: seq<string>)
    ensures |r| <= 1 && (r != [] <==> Split(body, 'v').Some?)
    ensures r != [] ==> StartsWith(r[0], "<~") && EndsWith(r[0], ">")
  {
    match Split(body, 'v')
    case Some((left, right)) => [Impl(Neg(left), right)]
    case None => []
  }

  /** The second half: a top-level `)` in the body, with an antecedent that
      starts with `~`, gives `<XvY>`. */
  function SwitchToDisjunction(body: string): (r: seq<string>)
    ensures |r| <= 1
    ensures r != [] <==> Split(body, ')').Some? && StartsWith(Split(body, ')').value.0, "~")
    ensures r != [] ==> IsWrapped(r[0])
  {
    match Split(body, ')')
    case Some((left, right)) => if StartsWith(left, "~") then [Disj(Strip(left[1..]), right)] else []
    case None => []
  }

  /** One step a caller may take inside a proof, by rule name. */
  datatype Step =
    | AddThmStep(thm: string)
    | JoiningStep(x: string, y: string)
    | SeparationStep(conjugate: string)
    | RemoveDoubleTildeStep(s: string)
    | AddDoubleTildeStep(s: string, idx: int)
    | DetachmentStep(x: string, implication: string)
    | ContrapositiveStep(s: string)
    | DeMorgansStep(s: string)
    | SwitcherooStep(s: string)
    | FantasyStep(supposal: string, steps: seq<Step>)

  /** The supposal that ends a fantasy before it starts. */
  const Quit: string := "q"

  /** What one step does to the theorem list `thms`. A nested fantasy starts
      from a copy of `thms`; only its discharge comes back, and only when
      there is one and it is not empty. */
  function Apply(thms: seq<string>, step: Step): (r: Outcome)
    ensures r.Failed? ==> !step.AddThmStep? && !step.FantasyStep?
    decreases step
  {
    match step
    case AddThmStep(thm) => Added([thm])
    case JoiningStep(x, y) => Joining(thms, x, y)
    case SeparationStep(c) => Separation(thms, c)
    case RemoveDoubleTildeStep(s) => RemoveDoubleTilde(thms, s)
    case AddDoubleTildeStep(s, idx) => AddDoubleTilde(thms, s, idx)
    case DetachmentStep(x, imp) => Detachment(thms, x, imp)
    case ContrapositiveStep(s) => Contrapositive(thms, s)
    case DeMorgansStep(s) => DeMorgans(thms, s)
    case SwitcherooStep(s) => Switcheroo(thms, s)
    case FantasyStep(supposal, steps) =>
      match FantasyResult(thms, supposal, steps)
      case Some(r) => if r != "" then Added([r]) else Added([])
      case None => Added([])
  }

  /** What a fantasy opened over `thms` hands back: nothing for the supposal
      `q`, otherwise the implication from the supposal to the last formula
      of the fantasy's own list. So a result is always the supposal implying
      a formula the fantasy derived. */
  function FantasyResult(thms: seq<string>, supposal: string, steps: seq<Step>): (r: Option<string>)
    ensures r.None? <==> supposal == Quit
    ensures r.Some? ==> exists f :: f in Derive(thms + [supposal], steps) && r.value == Impl(supposal, f)
    decreases steps
  {
    if supposal == Quit then None
    else
      var inner := Derive(thms + [supposal], steps);
      assert Last(inner) in inner;
      Some(Impl(supposal, Last(inner)))
  }

  /** The theorem list after a sequence of steps; it only ever grows. */
  function Derive(thms: seq<string>, steps: seq<Step>): (r: seq<string>)
    ensures thms <= r
    decreases steps, 0
  {
    if steps == [] then thms
    else
      var before := Derive(thms, steps[..|steps| - 1]);
      before + Appended(Apply(before, steps[|steps| - 1]))
  }

  /** The formulas a step reads from the theorem list. */
  function Operands(step: Step): seq<string> {
    match step
    case AddThmStep(_) => []
    case JoiningStep(x, y) => [x, y]
    case SeparationStep(c) => [c]
    case RemoveDoubleTildeStep(s) => [s]
    case AddDoubleTildeStep(s, _) => [s]
    case DetachmentStep(x, imp) => [x, imp]
    case ContrapositiveStep(s) => [s]
    case DeMorgansStep(s) => [s]
    case SwitcherooStep(s) => [s]
    case FantasyStep(_, _) => []
  }
}
