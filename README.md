# Propositional Calculus proof engine, in Dafny

This models the formula engine in `Propositional_Calculus_rev2.py`, which implements
the Propositional Calculus of chapter VII of *Gödel, Escher, Bach*. Formulas are
raw strings:

- `~` is negation;
- `^` is conjunction, `v` disjunction and `)` implication;
- `<` and `>` group.

The model has five parts:

- **Text** models the Python string operations the engine relies on:
  - `str.strip()` over the ASCII whitespace set;
  - `startswith` and `endswith`;
  - the slice `s[1:-1]`, which is empty for short strings;
  - Python's normalisation of a negative slice bound.
- **Splitter** models `split_at_top_level`, in two forms:
  - a specification function `Split`;
  - the scanning loop itself, `SplitAtTopLevel`. It keeps a depth counter, returns early, and is proved equal to `Split`.
- **Tildes** models double-tilde removal, which is the regular-expression substitution of `~~` by nothing. It is an explicit function. It is proved equal to a reference reading in which each maximal run of k tildes becomes k mod 2 tildes. Tildes also holds double-tilde insertion.
- **Rules** describes each inference rule as a pure function. The function takes the theorem list and the operands. It returns `Added(formulas)`, the formulas appended, or `Failed(error)`, with one error kind per diagnostic the source prints.
  - `Step` holds one rule application, a nested fantasy being one kind of step.
  - `Apply` applies one step and `Derive` folds a sequence of steps.
- **Session** holds the engine as the program runs it:
  - `Proof` is a class with a mutable `theorems: seq<string>`. It has one method per rule. Each method appends in place and is proved to produce the rule function's outcome and nothing else.
  - `Fantasy` models the sub-proof protocol:
    - opening copies the list handed in and appends the supposal;
    - `TakeStep` applies one rule, or runs a nested fantasy and appends only its discharge;
    - `Run` is the loop over steps;
    - `Close` yields `<supposal)last>`;
    - `Open` models `openFantasy`.
  - `Open` has an empty frame, so a fantasy cannot change anything of the proof that opens it.

**Laws** proves the properties:

- rules only append, and only read theorems;
- how many formulas each rule appends;
- joining and separation round-trip;
- the specifications of tilde removal and insertion, and that they undo each other;
- detachment is modus ponens;
- the three shape rules are self-inverse on simple atoms;
- the fantasy discharge.

Where the engine unwraps a formula twice, the model keeps that behaviour. `SwitcherooUnwrapsTwice` shows a case where it matters.

## Model

| member | source | states |
|---|---|---|
| Text.Strip | Propositional_Calculus_rev2.py:6-8 | `strip()` never lengthens a string, and what it returns neither starts nor ends with whitespace |
| Text.StripKeepsMiddle | Propositional_Calculus_rev2.py:6-8 | `strip()` returns a stretch of the string with only whitespace outside it; with `Strip`'s trimmed ends this fixes the result |
| Text.StripTrimmed | Propositional_Calculus_rev2.py:6-8 | `strip()` leaves a string unchanged exactly when it has no whitespace at either end |
| Text.StripIdempotent | Propositional_Calculus_rev2.py:86 | stripping twice is stripping once, so detachment's extra `strip()` of a split part changes nothing |
| Text.Inner | Propositional_Calculus_rev2.py:6 | `s[1:-1]` is `s` without its first and last character, and is empty below length 2 |
| Text.SliceIndex | Propositional_Calculus_rev2.py:59 | a Python slice bound lands inside the string; a non-negative bound is kept and a negative one counts from the end; a bound past either end is clamped to it |
| Text.Abs | Propositional_Calculus_rev2.py:57 | `abs(idx)` is `idx` or `-idx`, and never negative |
| Splitter.FirstSepFrom | Propositional_Calculus_rev2.py:10-16 | the scan from position i yields a position at or after i and inside the text |
| Splitter.FirstSepFromSpec | Propositional_Calculus_rev2.py:10-17 | the scan finds a depth-0 separator with none earlier; it finds none exactly when there is none |
| Splitter.Unwrap | Propositional_Calculus_rev2.py:5-8 | the text the scan runs over is trimmed, no longer than the input, and two shorter at least when one `<...>` pair was dropped |
| Splitter.Split | Propositional_Calculus_rev2.py:4-17 | both parts of a split are trimmed, and together they are shorter than the scanned text, since the separator belongs to neither |
| Splitter.SplitAtTopLevel | Propositional_Calculus_rev2.py:4-17 | the depth-counting loop with early return yields exactly `Split(s, sep)` |
| Splitter.DepthBeforeAppend | Propositional_Calculus_rev2.py:9-14 | the depth at a position depends only on the text before it |
| Splitter.PrefixHasNoSep | Propositional_Calculus_rev2.py:15-16 | the text before the first depth-0 separator holds no depth-0 separator of its own |
| Splitter.SplitCharacterization | Propositional_Calculus_rev2.py:4-17 | the split fails exactly when the scanned text has no depth-0 `sep`. On success, the cut point holds a depth-0 `sep`, the scanned text is prefix + sep + suffix, the parts are their `strip()`s, and the prefix has no depth-0 `sep` |
| Splitter.FirstSepAfter | Propositional_Calculus_rev2.py:9-16 | in `x sep y`, with x balanced and free of depth-0 `sep`, the first depth-0 `sep` is the one right after x |
| Splitter.SplitAt | Propositional_Calculus_rev2.py:4-17 | if the scanned text is `x sep y` with such an x, the split returns the trimmed x and y |
| Splitter.UnwrapWrapped | Propositional_Calculus_rev2.py:5-6 | one enclosing bracket pair is removed from `<x sep y>` |
| Splitter.UnwrapBare | Propositional_Calculus_rev2.py:7-8 | an unwrapped, trimmed text is scanned as it is |
| Splitter.SplitWrapped | Propositional_Calculus_rev2.py:4-17 | `<x sep y>` splits into exactly x and y, for trimmed y and a trimmed, balanced x with no depth-0 `sep` |
| Splitter.SplitBare | Propositional_Calculus_rev2.py:4-17 | the same for a bare `x sep y` that is not itself wrapped |
| Splitter.FlatSepAt | Propositional_Calculus_rev2.py:10-15 | in bracket-free text every position is at depth 0, so every occurrence of `sep` is a top-level one |
| Tildes.RemoveDoubleTildes | Propositional_Calculus_rev2.py:51 | the substitution never lengthens the text, keeps a leading non-tilde, and leaves no `~~` |
| Tildes.RemoveRun | Propositional_Calculus_rev2.py:51 | a run of k tildes before a non-tilde comes out as k mod 2 tildes |
| Tildes.RemoveIsCollapse | Propositional_Calculus_rev2.py:51 | the left-to-right, non-overlapping substitution equals the run-parity reading |
| Tildes.RemoveKeepsOthers | Propositional_Calculus_rev2.py:51 | the substitution keeps every non-tilde character, in order |
| Tildes.RemoveWithoutDoubleTilde | Propositional_Calculus_rev2.py:51 | text without `~~` is left alone |
| Tildes.InsertDoubleTilde | Propositional_Calculus_rev2.py:59 | inserting gives a text two longer, with `~~` at offset k and the original around it |
| Tildes.RemoveAfterInsert | Propositional_Calculus_rev2.py:51-59 | removing double tildes after an insertion at any offset gives what removing them from the original gives |
| Rules.Joining | Propositional_Calculus_rev2.py:26-30 | joining appends exactly `<x^y>` when both are theorems and otherwise reports `NotAllTheorems` |
| Rules.Separation | Propositional_Calculus_rev2.py:32-42 | what separation appends is two non-empty, trimmed formulas, shorter together than the theorem; it fails with `NotConjunction` on a theorem and `NotATheorem` otherwise |
| Laws.SeparationSpec | Propositional_Calculus_rev2.py:32-42 | separation succeeds exactly on a theorem whose top-level `^` split has two non-empty sides, and appends those two sides, left first |
| Laws.SeparateConjunction | Propositional_Calculus_rev2.py:32-42 | any theorem `<x^y>`, however it was obtained, separates into x then y, for non-empty trimmed x and y and a balanced x with no depth-0 `^` |
| Rules.RemoveDoubleTilde | Propositional_Calculus_rev2.py:44-52 | removal appends exactly when the formula holds `~~` and is a theorem; the formula appended holds no `~~` and keeps the other characters in order; the `~~` test is reported first |
| Rules.AddDoubleTilde | Propositional_Calculus_rev2.py:54-60 | insertion appends exactly when the formula is a theorem and abs(idx) <= len-1; the formula appended has `~~` at the Python position of idx, and taking it out gives the theorem back; `NotATheorem` is reported before `IndexOutOfRange` |
| Rules.Detachment | Propositional_Calculus_rev2.py:62-89 | detachment appends one trimmed formula shorter than the implication, and only from two theorems; the failures are reported in the source's order |
| Rules.ContrapositiveOfNegated | Propositional_Calculus_rev2.py:98-105 | the negated branch fires only on a `<~...>` text and yields a `<...>` formula shorter than its input |
| Rules.Contrapositive | Propositional_Calculus_rev2.py:93-112 | contrapositive appends one `<...>` formula, only from a theorem; otherwise it reports `NotImplication` for a theorem and `NotATheorem` for anything else |
| Rules.DeMorgansOfNegated | Propositional_Calculus_rev2.py:119-125 | the `~<...>` branch fires only on a `~<...>` text and yields a `<~...>` formula |
| Rules.DeMorgans | Propositional_Calculus_rev2.py:114-137 | De Morgan appends one formula, of shape `<~...` or `~<...`, only from a theorem; for a theorem of neither form, `NotDeMorgan` when its `^` split has two non-empty sides and `NotValidForm` otherwise |
| Rules.Switcheroo | Propositional_Calculus_rev2.py:139-157 | switcheroo fails exactly on a non-theorem; otherwise it appends at most two formulas, and none for a theorem that is not `<...>` |
| Rules.SwitchToImplication | Propositional_Calculus_rev2.py:143-148 | the first conversion fires exactly when the body splits at `v`, and yields one `<~...>` formula |
| Rules.SwitchToDisjunction | Propositional_Calculus_rev2.py:150-157 | the second conversion fires exactly when the body splits at `)` with a `~` antecedent, and yields one `<...>` formula |
| Rules.Apply | Propositional_Calculus_rev2.py:176-241 | a step applies the rule it names to the current list; `addThm` and a nested fantasy never fail |
| Rules.FantasyResult | Propositional_Calculus_rev2.py:162-254 | a fantasy gives no result exactly when its supposal is `q`; otherwise its result is the supposal implying a formula of the fantasy's own final list |
| Rules.Derive | Propositional_Calculus_rev2.py:176-241 | running steps only ever extends the theorem list |
| Laws.OnlyTheoremsUsed | Propositional_Calculus_rev2.py:26-157 | a rule that appends read only theorems, and a missing first operand gives `NotATheorem` (except for the rules whose first test is another one) |
| Laws.AppendCounts | Propositional_Calculus_rev2.py:26-157 | a step that fails leaves the list unchanged. Separation appends 0 or 2, switcheroo at most 2 (none, silently, for an unwrapped theorem), and every other step at most 1 |
| Laws.DeriveConcat | Propositional_Calculus_rev2.py:176-241 | two runs of steps one after the other are one run of both |
| Laws.FantasyDischarge | Propositional_Calculus_rev2.py:172-247 | a `q` fantasy returns None and the parent appends nothing. Otherwise the fantasy's list starts with the parent's list and the hypothesis, it returns `<h)last>`, and the parent appends exactly that formula. With no steps, last is h |
| Laws.FantasyExample | Propositional_Calculus_rev2.py:247 | supposing `P` and joining it with itself discharges `<P)<P^P>>` |
| Laws.JoinThenSeparate | Propositional_Calculus_rev2.py:26-42 | joining two theorems appends exactly `<x^y>`. Separating it appends x then y, for non-empty trimmed x and y and a balanced x with no depth-0 `^` |
| Laws.RemoveDoubleTildeSpec | Propositional_Calculus_rev2.py:44-52 | removal succeeds exactly on a theorem holding `~~`, and without `~~` it reports that first. It appends the run-parity reduction, which holds no `~~` and keeps the other characters in order |
| Laws.AddDoubleTildeSpec | Propositional_Calculus_rev2.py:54-60 | insertion succeeds exactly for a theorem and a bound with abs(idx) <= len-1, so never on "". The result is two longer, has `~~` at k (idx, or len+idx when negative, with 0 <= k <= len-1), and deleting those two characters restores it |
| Laws.AddThenRemove | Propositional_Calculus_rev2.py:44-60 | removing double tildes after an insertion appends the original with its own `~~` removed, which is the original itself when it had none |
| Laws.DetachmentSpec | Propositional_Calculus_rev2.py:62-89 | detachment appends exactly when both operands are theorems, the implication splits at a depth-0 `)`, and x and the antecedent agree after unwrapping. It then appends the trimmed consequent alone |
| Laws.ModusPonens | Propositional_Calculus_rev2.py:62-89 | from p and `<p)q>`, with p balanced and without a depth-0 `)`, detachment appends q |
| Laws.DetachmentExample | Propositional_Calculus_rev2.py:62-89 | from `A` and `<A)B>`, detachment appends `B` |
| Laws.EmptyAntecedent | Propositional_Calculus_rev2.py:70-86 | detachment's `is not None` test accepts an empty antecedent: "" and `<)B>` give `B` |
| Laws.EmptyConjunct | Propositional_Calculus_rev2.py:35-39 | separation's truthiness test refuses `<^B>` |
| Laws.ContrapositiveOfPlain | Propositional_Calculus_rev2.py:107-110 | on atoms, `<p)q>` becomes `<~q)~p>` |
| Laws.ContrapositiveOfNegatedAtoms | Propositional_Calculus_rev2.py:98-105 | on atoms, the negated branch takes `<~q)~p>` to `<p)q>` |
| Laws.ContrapositiveInvolution | Propositional_Calculus_rev2.py:93-112 | contrapositive maps `<p)q>` to `<~q)~p>` and back, for atoms p and q |
| Laws.DeMorgansOfNegatedAtoms | Propositional_Calculus_rev2.py:119-125 | on atoms, `~<pvq>` becomes `<~p^~q>` |
| Laws.DeMorgansOfConjunction | Propositional_Calculus_rev2.py:127-133 | on atoms, `<~p^~q>` becomes `~<pvq>` |
| Laws.DeMorgansInvolution | Propositional_Calculus_rev2.py:114-137 | De Morgan maps `~<pvq>` to `<~p^~q>` and back, for atoms |
| Laws.SwitcherooOfDisjunction | Propositional_Calculus_rev2.py:143-157 | on atoms, `<xvy>` becomes exactly `<~x)y>` |
| Laws.SwitcherooOfImplication | Propositional_Calculus_rev2.py:143-157 | on atoms, `<~x)y>` becomes exactly `<xvy>` |
| Laws.SwitcherooInvolution | Propositional_Calculus_rev2.py:139-157 | switcheroo maps `<xvy>` to `<~x)y>` and back, for atoms |
| Laws.SwitcherooUnwrapsTwice | Propositional_Calculus_rev2.py:143-145 | the body loses a second bracket pair in the splitter, so `<<a>v<b>>` appends nothing |
| Session.Proof.constructor | Propositional_Calculus_rev2.py:20-21 | a new proof has no theorems |
| Session.Proof.AddThm | Propositional_Calculus_rev2.py:23-24 | appends the formula and nothing else |
| Session.Proof.Joining | Propositional_Calculus_rev2.py:26-30 | outcome and new list are those of `Rules.Joining`: append `<x^y>` when both are theorems, else `NotAllTheorems` and no change |
| Session.Proof.Separation | Propositional_Calculus_rev2.py:32-42 | outcome and new list are those of `Rules.Separation` |
| Session.Proof.RemoveDoubleTilde | Propositional_Calculus_rev2.py:44-52 | outcome and new list are those of `Rules.RemoveDoubleTilde` |
| Session.Proof.AddDoubleTilde | Propositional_Calculus_rev2.py:54-60 | outcome and new list are those of `Rules.AddDoubleTilde` |
| Session.Proof.Detachment | Propositional_Calculus_rev2.py:62-89 | outcome and new list are those of `Rules.Detachment` |
| Session.Proof.Contrapositive | Propositional_Calculus_rev2.py:93-112 | outcome and new list are those of `Rules.Contrapositive` |
| Session.Proof.DeMorgans | Propositional_Calculus_rev2.py:114-137 | outcome and new list are those of `Rules.DeMorgans` |
| Session.Proof.Switcheroo | Propositional_Calculus_rev2.py:139-157 | outcome and new list are those of `Rules.Switcheroo`: the two conversions append in order |
| Session.Conversions | Propositional_Calculus_rev2.py:143-157 | the two conversions on the body of a `<...>` formula, collected in the source's order, are `SwitchToImplication` then `SwitchToDisjunction` |
| Session.ToImplication | Propositional_Calculus_rev2.py:143-148 | the first conversion, through the scanning loop, gives `Rules.SwitchToImplication` |
| Session.ToDisjunction | Propositional_Calculus_rev2.py:150-157 | the second conversion, through the scanning loop, gives `Rules.SwitchToDisjunction` |
| Session.Fantasy.constructor | Propositional_Calculus_rev2.py:162-173 | a fresh list: a copy of the list handed in (none counts as empty), then the supposal unless it is `q`; no result yet |
| Session.Fantasy.TakeStep | Propositional_Calculus_rev2.py:176-241 | one step changes the fantasy's list exactly as `Rules.Apply` says. A nested fantasy appends only its discharge, and the list keeps its copied start and hypothesis |
| Session.Fantasy.Run | Propositional_Calculus_rev2.py:175-178 | the loop over the caller's steps leaves exactly `Derive` of the list and the steps |
| Session.Fantasy.Close | Propositional_Calculus_rev2.py:245-248 | the result is `<supposal)last>` for the last formula of the list, or None for `q` |
| Session.Fantasy.Open | Propositional_Calculus_rev2.py:251-254 | `openFantasy` returns `Rules.FantasyResult` of the list handed in, and changes no object that existed before the call |

## Left out

- The console loop has been replaced by a sequence of `Step` values supplied by the caller. What is gone:
  - the `input()` prompts;
  - matching rule names case-insensitively;
  - the add/remove sub-prompt of `doubletilde`;
  - `int(...)` parsing of the index;
  - splitting joining's two names on whitespace, which raises an error when given fewer than two;
  - unknown rule names, which the loop ignores.
- The `q` that ends the loop is the end of the step sequence. A `q` given as the supposal is modelled.
- `printproof` and every `print` are output only. Each printed diagnostic, and each message that `addDoubleTilde` returns, is a `RuleError`.
- The `re` library is replaced by `Tildes.RemoveDoubleTildes`.
- `isAxiom1`…`isAxiom5`, `isAxiom` and `isValidProof` are left out. They are unused constant comparisons for a different formal system, and an empty stub.
- The `__main__` entry point and `import os` are left out.
- Formulas stay raw strings because the source does no well-formedness checking.
- `Text.Strip`: only the ASCII whitespace set is trimmed. Python's `str.strip()` also trims non-ASCII Unicode whitespace such as U+00A0 and U+2028, and that is not modelled.
- Inheritance: in the source, `Fantasy` is a subclass of `PropositionalCalculusProof`. The model has `Fantasy` hold a `Proof` instead.
- `Session.Proof.Switcheroo` tests for the enclosing `<...>` once, where the source tests twice. The string does not change in between, so the tests agree. It collects what the two conversions give, in order, and extends the list with both at once; the source appends them one at a time, which leaves the same list.
- `Laws.ContrapositiveInvolution`, `Laws.DeMorgansInvolution`, `Laws.SwitcherooInvolution`: these are stated only for simple atoms (no whitespace, brackets or connective characters). The splitter drops a second bracket pair in these rules, so the general statement is false; `Laws.SwitcherooUnwrapsTwice` gives an instance.
- `Laws.JoinThenSeparate`, `Laws.SeparateConjunction`: `x` is required to be balanced overall, not merely never to close more brackets than it has opened. For `x = "<a"`, the joining `^` sits at depth 1 and separation fails.
