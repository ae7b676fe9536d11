/** One rewriting pass and bounded normalisation (`step1EsX`, `step1Es`,
    `step1`, `step`, `red` in KB.java). Rules rewrite unconditionally;
    equations rewrite only when the order makes the step decreasing and only
    in unfailing mode. */
module Rewriting {
  import opened Base
  import opened Terms
  import opened Unifier
  import opened Theory
  import opened Renaming
  import opened Params

  /** The equation `r0` renamed apart from `e` when they share a variable. */
  function Apart(n: nat, r0: Equation, e: Term): (Equation, nat) {
    if r0.EqVars() !! Vars(e) then (r0, n) else Freshen(n, r0)
  }

  lemma ApartVariant(n: nat, r0: Equation, e: Term)
    ensures n <= Apart(n, r0, e).1
    ensures Instance(r0, Apart(n, r0, e).0) && Instance(Apart(n, r0, e).0, r0)
  {
    if !(r0.EqVars() !! Vars(e)) {
      FreshenVariant(n, r0);
      FreshenApart(n, r0, {});
    } else {
      assert Apply(r0.lhs, map[]) == r0.lhs && Apply(r0.rhs, map[]) == r0.rhs by {
        ApplyEmpty(r0.lhs);
        ApplyEmpty(r0.rhs);
      }
    }
  }

  /** `step1EsX`: rewrite `e` at the root with an instance of `r0` whose left
      side is `e`, provided the order puts the instance's left side above its
      right side. */
  function RewriteOrdered(cfg: Config, n: nat, r0: Equation, e: Term): (r: (Term, nat))
    ensures n <= r.1
    ensures r.0 == e || cfg.gt(e, r.0)
  {
    var (r, n1) := Apart(n, r0, e);
    ApartVariant(n, r0, e);
    match FindSubst(r.lhs, e)
    case None => (e, n1)
    case Some(s) =>
      var rhs0 := Apply(r.rhs, s);
      if cfg.gt(Apply(r.lhs, s), rhs0) then (rhs0, n1) else (e, n1)
  }

  /** A step by an equation replaces `e` by the other side of one of its instances. */
  lemma RewriteOrderedInstance(cfg: Config, n: nat, r0: Equation, e: Term)
    ensures var e' := RewriteOrdered(cfg, n, r0, e).0;
            e' == e || Instance(r0, Equation(e, e'))
  {
    var (r, n1) := Apart(n, r0, e);
    ApartVariant(n, r0, e);
    match FindSubst(r.lhs, e)
    case None =>
    case Some(s) =>
      var e' := Apply(r.rhs, s);
      if e' != e && RewriteOrdered(cfg, n, r0, e).0 == e' {
        assert Instance(r, Equation(e, e'));
        InstanceTransitive(r0, r, Equation(e, e'));
      }
  }

  /** The step is taken whenever it is allowed: when the renamed left side
      matches `e` and the order puts the matching instance of the right side
      below `e`, `e` is rewritten to that instance. */
  lemma RewriteOrderedProgress(cfg: Config, n: nat, r0: Equation, e: Term, s: Subst)
    requires FindSubst(Apart(n, r0, e).0.lhs, e) == Some(s)
    requires cfg.gt(e, Apply(Apart(n, r0, e).0.rhs, s))
    ensures RewriteOrdered(cfg, n, r0, e).0 == Apply(Apart(n, r0, e).0.rhs, s)
  {
    assert Apply(Apart(n, r0, e).0.lhs, s) == e;
  }

  /** The equation loop of `step1Es`: each equation, then its reverse. */
  function EquationPass(cfg: Config, n: nat, E: seq<Equation>, e: Term): (r: (Term, nat))
    ensures n <= r.1
    decreases E
  {
    if E == [] then (e, n)
    else
      var (e1, n1) := RewriteOrdered(cfg, n, E[0], e);
      var (e2, n2) := RewriteOrdered(cfg, n1, E[0].Reverse(), e1);
      EquationPass(cfg, n2, E[1..], e2)
  }

  /** `step1Es`: equations take part only in unfailing mode. */
  function RewriteByEquations(cfg: Config, n: nat, E: seq<Equation>, e: Term): (r: (Term, nat))
    ensures n <= r.1
    ensures !cfg.unfailing ==> r == (e, n)
  {
    if cfg.unfailing then EquationPass(cfg, n, E, e) else (e, n)
  }

  /** The rule loop of `step1`: every rule in turn, each applied at the root
      to the current term when its left side matches. */
  function RulePass(n: nat, R: seq<Equation>, e: Term): (r: (Term, nat))
    ensures n <= r.1
    decreases R
  {
    if R == [] then (e, n)
    else
      var (r, n1) := Apart(n, R[0], e);
      ApartVariant(n, R[0], e);
      var e1 := match FindSubst(r.lhs, e) case None => e case Some(s) => Apply(r.rhs, s);
      RulePass(n1, R[1..], e1)
  }

  /** A rule whose renamed left side matches `e` rewrites it, with no
      condition on the order. */
  lemma RulePassProgress(n: nat, r0: Equation, e: Term, s: Subst)
    requires FindSubst(Apart(n, r0, e).0.lhs, e) == Some(s)
    ensures RulePass(n, [r0], e).0 == Apply(Apart(n, r0, e).0.rhs, s)
  {
    assert [r0][1..] == [];
  }

  /** `step1`: the rules, then the equations, at the root of `e`. */
  function Step1(cfg: Config, n: nat, E: seq<Equation>, R: seq<Equation>, e: Term): (r: (Term, nat))
    ensures n <= r.1
  {
    var (e1, n1) := RulePass(n, R, e);
    RewriteByEquations(cfg, n1, E, e1)
  }

  /** `step(term)`: one bottom-up pass, arguments left to right, then the root. */
  function StepTerm(cfg: Config, n: nat, E: seq<Equation>, R: seq<Equation>, t: Term): (r: (Term, nat))
    ensures n <= r.1
    decreases t, 1, 0
  {
    match t
    case Var(_) => Step1(cfg, n, E, R, t)
    case App(f, args) =>
      var (args', n1) := StepArgs(cfg, n, E, R, t, 0);
      Step1(cfg, n1, E, R, App(f, args'))
  }

  /** The pass over the arguments of `t` from index `i` on. */
  function StepArgs(cfg: Config, n: nat, E: seq<Equation>, R: seq<Equation>, t: Term, i: nat): (r: (seq<Term>, nat))
    requires t.App? && i <= |t.args|
    ensures n <= r.1 && |r.0| == |t.args| - i
    decreases t, 0, |t.args| - i
  {
    if i == |t.args| then ([], n)
    else
      var (a, n1) := StepTerm(cfg, n, E, R, t.args[i]);
      var (rest, n2) := StepArgs(cfg, n1, E, R, t, i + 1);
      ([a] + rest, n2)
  }

  /** `red`: repeat passes until one changes nothing, giving up with
      `ReductionDivergence` after `budget` passes. */
  function RedLoop(cfg: Config, n: nat, E: seq<Equation>, R: seq<Equation>, e: Term, budget: nat): (r: Result<(Term, nat)>)
    ensures r.Err? ==> r.error == ReductionDivergence
    ensures r.Ok? ==> n <= r.value.1
    decreases budget
  {
    if budget == 0 then Err(ReductionDivergence)
    else
      var (e0, n1) := StepTerm(cfg, n, E, R, e);
      if e == e0 then Ok((e, n1)) else RedLoop(cfg, n1, E, R, e0, budget - 1)
  }

  function Red(cfg: Config, n: nat, E: seq<Equation>, R: seq<Equation>, e: Term): (r: Result<(Term, nat)>)
    ensures r.Err? ==> r.error == ReductionDivergence
    ensures r.Ok? ==> n <= r.value.1
  {
    RedLoop(cfg, n, E, R, e, cfg.redIts)
  }

  // ---------------------------------------------------------------------------
  // Soundness: every step is a conversion in the rules and equations used.

  predicate Within(small: seq<Equation>, big: seq<Equation>) {
    forall x :: x in small ==> x in big
  }

  lemma InstanceReverse(r: Equation, e: Equation)
    requires Instance(r.Reverse(), e)
    ensures Instance(r, e.Reverse())
  {
    var s :| Apply(r.Reverse().lhs, s) == e.lhs && Apply(r.Reverse().rhs, s) == e.rhs;
    assert Apply(r.lhs, s) == e.Reverse().lhs;
  }

  lemma {:induction false} EquationPassSound(rules: seq<Equation>, cfg: Config, n: nat, E: seq<Equation>, e: Term)
    requires Within(E, rules)
    ensures Convertible(rules, e, EquationPass(cfg, n, E, e).0)
    decreases E
  {
    if E == [] {
    } else {
      var (e1, n1) := RewriteOrdered(cfg, n, E[0], e);
      var (e2, n2) := RewriteOrdered(cfg, n1, E[0].Reverse(), e1);
      RewriteOrderedInstance(cfg, n, E[0], e);
      RewriteOrderedInstance(cfg, n1, E[0].Reverse(), e1);
      assert E[0] in rules;
      if e1 != e {
        ConvertibleInstance(rules, E[0], e, e1);
      }
      if e2 != e1 {
        InstanceReverse(E[0], Equation(e1, e2));
        ConvertibleInstance(rules, E[0], e1, e2);
      }
      ConvertibleTrans(rules, e, e1, e2);
      EquationPassSound(rules, cfg, n2, E[1..], e2);
      ConvertibleTrans(rules, e, e2, EquationPass(cfg, n, E, e).0);
    }
  }

  lemma {:induction false} RulePassSound(rules: seq<Equation>, n: nat, R: seq<Equation>, e: Term)
    requires Within(R, rules)
    ensures Convertible(rules, e, RulePass(n, R, e).0)
    decreases R
  {
    if R != [] {
      var (r, n1) := Apart(n, R[0], e);
      ApartVariant(n, R[0], e);
      var e1 := match FindSubst(r.lhs, e) case None => e case Some(s) => Apply(r.rhs, s);
      assert R[0] in rules;
      if FindSubst(r.lhs, e).Some? {
        var s := FindSubst(r.lhs, e).value;
        assert Instance(r, Equation(e, e1));
        InstanceTransitive(R[0], r, Equation(e, e1));
        ConvertibleInstance(rules, R[0], e, e1);
      }
      RulePassSound(rules, n1, R[1..], e1);
      ConvertibleTrans(rules, e, e1, RulePass(n, R, e).0);
    }
  }

  lemma Step1Sound(rules: seq<Equation>, cfg: Config, n: nat, E: seq<Equation>, R: seq<Equation>, e: Term)
    requires Within(E, rules) && Within(R, rules)
    ensures Convertible(rules, e, Step1(cfg, n, E, R, e).0)
  {
    var (e1, n1) := RulePass(n, R, e);
    RulePassSound(rules, n, R, e);
    if cfg.unfailing {
      EquationPassSound(rules, cfg, n1, E, e1);
    }
    ConvertibleTrans(rules, e, e1, Step1(cfg, n, E, R, e).0);
  }

  /** One pass is a conversion in the rules and (in unfailing mode) the equations. */
  lemma {:induction false} StepTermSound(rules: seq<Equation>, cfg: Config, n: nat, E: seq<Equation>, R: seq<Equation>, t: Term)
    requires Within(E, rules) && Within(R, rules)
    ensures Convertible(rules, t, StepTerm(cfg, n, E, R, t).0)
    decreases t, 1, 0
  {
    match t
    case Var(_) =>
      Step1Sound(rules, cfg, n, E, R, t);
    case App(f, args) =>
      var (args', n1) := StepArgs(cfg, n, E, R, t, 0);
      var u := App(f, args');
      forall k | 0 <= k < |args| ensures Convertible(rules, args[k], args'[k]) {
        StepArgsSound(rules, cfg, n, E, R, t, 0, k);
      }
      assert Convertible(rules, t, u);
      Step1Sound(rules, cfg, n1, E, R, u);
      ConvertibleTrans(rules, t, u, StepTerm(cfg, n, E, R, t).0);
  }

  lemma {:induction false} StepArgsSound(rules: seq<Equation>, cfg: Config, n: nat, E: seq<Equation>, R: seq<Equation>, t: Term, i: nat, j: nat)
    requires Within(E, rules) && Within(R, rules)
    requires t.App? && i <= j < |t.args|
    ensures Convertible(rules, t.args[j], StepArgs(cfg, n, E, R, t, i).0[j - i])
    decreases t, 0, |t.args| - i
  {
    var (a, n1) := StepTerm(cfg, n, E, R, t.args[i]);
    var rest := StepArgs(cfg, n1, E, R, t, i + 1).0;
    assert StepArgs(cfg, n, E, R, t, i).0 == [a] + rest;
    if j == i {
      StepTermSound(rules, cfg, n, E, R, t.args[i]);
    } else {
      StepArgsSound(rules, cfg, n1, E, R, t, i + 1, j);
      assert ([a] + rest)[j - i] == rest[j - (i + 1)];
    }
  }

  /** A normal form: some pass leaves the term unchanged. (Passes rename rules
      apart with a counter, so the pass is named by its counter value.) */
  ghost predicate Irreducible(cfg: Config, E: seq<Equation>, R: seq<Equation>, t: Term) {
    exists m: nat :: StepTerm(cfg, m, E, R, t).0 == t
  }

  /** A successful reduction ends in a normal form that is convertible with
      the start. */
  lemma {:induction false} RedLoopSound(rules: seq<Equation>, cfg: Config, n: nat, E: seq<Equation>, R: seq<Equation>, e: Term, budget: nat)
    requires Within(E, rules) && Within(R, rules)
    requires RedLoop(cfg, n, E, R, e, budget).Ok?
    ensures var t := RedLoop(cfg, n, E, R, e, budget).value.0;
            Convertible(rules, e, t) && Irreducible(cfg, E, R, t)
    decreases budget
  {
    var (e0, n1) := StepTerm(cfg, n, E, R, e);
    StepTermSound(rules, cfg, n, E, R, e);
    if e != e0 {
      RedLoopSound(rules, cfg, n1, E, R, e0, budget - 1);
      ConvertibleTrans(rules, e, e0, RedLoop(cfg, n, E, R, e, budget).value.0);
    }
  }

  lemma RedSound(rules: seq<Equation>, cfg: Config, n: nat, E: seq<Equation>, R: seq<Equation>, e: Term)
    requires Within(E, rules) && Within(R, rules)
    requires Red(cfg, n, E, R, e).Ok?
    ensures Convertible(rules, e, Red(cfg, n, E, R, e).value.0)
    ensures Irreducible(cfg, E, R, Red(cfg, n, E, R, e).value.0)
  {
    RedLoopSound(rules, cfg, n, E, R, e, cfg.redIts);
  }

  /** The term and counter after `k` passes from `e` with the counter at `n`. */
  function Passes(cfg: Config, n: nat, E: seq<Equation>, R: seq<Equation>, e: Term, k: nat): (r: (Term, nat))
    ensures n <= r.1
    decreases k
  {
    if k == 0 then (e, n)
    else
      var (e0, n1) := StepTerm(cfg, n, E, R, e);
      Passes(cfg, n1, E, R, e0, k - 1)
  }

  /** The next pass changes the term reached. */
  predicate Changes(cfg: Config, E: seq<Equation>, R: seq<Equation>, p: (Term, nat)) {
    StepTerm(cfg, p.1, E, R, p.0).0 != p.0
  }

  /** Passes after the first continue from the term and counter the first
      one produced. */
  lemma PassesShift(cfg: Config, n: nat, E: seq<Equation>, R: seq<Equation>, e: Term, k: nat)
    ensures Passes(cfg, n, E, R, e, k + 1) ==
            Passes(cfg, StepTerm(cfg, n, E, R, e).1, E, R, StepTerm(cfg, n, E, R, e).0, k)
  {
  }

  /** When `red` gives up, each of its `budget` passes changed the term. */
  lemma {:induction false} RedLoopErrChanges(cfg: Config, n: nat, E: seq<Equation>, R: seq<Equation>, e: Term, budget: nat)
    requires RedLoop(cfg, n, E, R, e, budget).Err?
    ensures forall k :: 0 <= k < budget ==> Changes(cfg, E, R, Passes(cfg, n, E, R, e, k))
    decreases budget
  {
    if budget > 0 {
      var p := StepTerm(cfg, n, E, R, e);
      assert p.0 != e;
      assert RedLoop(cfg, p.1, E, R, p.0, budget - 1).Err?;
      RedLoopErrChanges(cfg, p.1, E, R, p.0, budget - 1);
      forall k | 0 <= k < budget ensures Changes(cfg, E, R, Passes(cfg, n, E, R, e, k)) {
        if k == 0 {
          assert Passes(cfg, n, E, R, e, 0) == (e, n);
        } else {
          PassesShift(cfg, n, E, R, e, k - 1);
        }
      }
    }
  }

  /** When each of the `budget` passes changes the term, `red` gives up. */
  lemma {:induction false} RedLoopChangesErr(cfg: Config, n: nat, E: seq<Equation>, R: seq<Equation>, e: Term, budget: nat)
    requires forall k :: 0 <= k < budget ==> Changes(cfg, E, R, Passes(cfg, n, E, R, e, k))
    ensures RedLoop(cfg, n, E, R, e, budget).Err?
    decreases budget
  {
    if budget > 0 {
      var p := StepTerm(cfg, n, E, R, e);
      assert Passes(cfg, n, E, R, e, 0) == (e, n);
      assert Changes(cfg, E, R, Passes(cfg, n, E, R, e, 0));
      assert p.0 != e;
      forall k | 0 <= k < budget - 1 ensures Changes(cfg, E, R, Passes(cfg, p.1, E, R, p.0, k)) {
        PassesShift(cfg, n, E, R, e, k);
        assert Changes(cfg, E, R, Passes(cfg, n, E, R, e, k + 1));
      }
      RedLoopChangesErr(cfg, p.1, E, R, p.0, budget - 1);
      assert RedLoop(cfg, n, E, R, e, budget) == RedLoop(cfg, p.1, E, R, p.0, budget - 1);
    }
  }

  /** `red` gives up exactly when each of its `budget` passes changes the
      term. */
  lemma RedLoopFails(cfg: Config, n: nat, E: seq<Equation>, R: seq<Equation>, e: Term, budget: nat)
    ensures RedLoop(cfg, n, E, R, e, budget).Err? ==>
            forall k :: 0 <= k < budget ==> Changes(cfg, E, R, Passes(cfg, n, E, R, e, k))
    ensures (forall k :: 0 <= k < budget ==> Changes(cfg, E, R, Passes(cfg, n, E, R, e, k))) ==>
            RedLoop(cfg, n, E, R, e, budget).Err?
  {
    if RedLoop(cfg, n, E, R, e, budget).Err? {
      RedLoopErrChanges(cfg, n, E, R, e, budget);
    } else if forall k :: 0 <= k < budget ==> Changes(cfg, E, R, Passes(cfg, n, E, R, e, k)) {
      RedLoopChangesErr(cfg, n, E, R, e, budget);
    }
  }

  /** More passes never change a reduction that already succeeded. */
  lemma {:induction false} RedLoopMonotone(cfg: Config, n: nat, E: seq<Equation>, R: seq<Equation>, e: Term, budget: nat, more: nat)
    requires budget <= more
    requires RedLoop(cfg, n, E, R, e, budget).Ok?
    ensures RedLoop(cfg, n, E, R, e, more) == RedLoop(cfg, n, E, R, e, budget)
    decreases budget
  {
    var (e0, n1) := StepTerm(cfg, n, E, R, e);
    if e != e0 {
      RedLoopMonotone(cfg, n1, E, R, e0, budget - 1, more - 1);
    }
  }

  /** A term one pass leaves alone is its own normal form, provided at least one
      pass is allowed; with none, reduction fails. */
  lemma RedLoopFixed(cfg: Config, n: nat, E: seq<Equation>, R: seq<Equation>, e: Term, budget: nat)
    requires StepTerm(cfg, n, E, R, e).0 == e
    ensures budget == 0 ==> RedLoop(cfg, n, E, R, e, budget) == Err(ReductionDivergence)
    ensures budget > 0 ==> RedLoop(cfg, n, E, R, e, budget) == Ok((e, StepTerm(cfg, n, E, R, e).1))
  {
  }

  // ---------------------------------------------------------------------------
  // Without rules (and, outside unfailing mode, whatever the equations) a pass
  // changes nothing.

  predicate Inert(cfg: Config, E: seq<Equation>, R: seq<Equation>) {
    R == [] && (E == [] || !cfg.unfailing)
  }

  lemma {:induction false} EquationPassEmpty(cfg: Config, n: nat, e: Term)
    ensures EquationPass(cfg, n, [], e).0 == e
  {
  }

  lemma {:induction false} StepTermInert(cfg: Config, n: nat, E: seq<Equation>, R: seq<Equation>, t: Term)
    requires Inert(cfg, E, R)
    ensures StepTerm(cfg, n, E, R, t).0 == t
    decreases t, 1, 0
  {
    match t
    case Var(_) =>
    case App(f, args) =>
      var (args', n1) := StepArgs(cfg, n, E, R, t, 0);
      StepArgsInert(cfg, n, E, R, t, 0);
      assert args' == args[0..] == args;
  }

  lemma {:induction false} StepArgsInert(cfg: Config, n: nat, E: seq<Equation>, R: seq<Equation>, t: Term, i: nat)
    requires Inert(cfg, E, R)
    requires t.App? && i <= |t.args|
    ensures StepArgs(cfg, n, E, R, t, i).0 == t.args[i..]
    decreases t, 0, |t.args| - i
  {
    if i < |t.args| {
      var (a, n1) := StepTerm(cfg, n, E, R, t.args[i]);
      StepTermInert(cfg, n, E, R, t.args[i]);
      StepArgsInert(cfg, n1, E, R, t, i + 1);
      assert t.args[i..] == [t.args[i]] + t.args[i + 1..];
    }
  }
}
