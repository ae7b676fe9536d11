/** One-way matching and most-general unification. The source calls these as
    `KBUnifier.findSubst` and `KBUnifier.unify0`; that class is not part of this
    model, so they are defined here with the contracts its callers rely on:
    a match instantiates the pattern to the target, a unifier makes both sides
    equal. */
module Unifier {
  import opened Base
  import opened Terms

  /** `big` keeps every binding of `small`. */
  predicate Extends(small: Subst, big: Subst) {
    small.Keys <= big.Keys && forall v :: v in small ==> big[v] == small[v]
  }

  lemma ApplyExtends(t: Term, small: Subst, big: Subst)
    requires Extends(small, big) && Vars(t) <= small.Keys
    ensures Apply(t, big) == Apply(t, small)
  {
    ApplyAgree(t, big, small);
  }

  // ---------------------------------------------------------------------------
  // Matching

  /** Extends `s` so that the pattern `p` instantiates to `t`, or fails. */
  function Match(p: Term, t: Term, s: Subst): (r: Option<Subst>)
    ensures r.Some? ==> Extends(s, r.value) && r.value.Keys == s.Keys + Vars(p)
    ensures r.Some? ==> Apply(p, r.value) == t
  {
    match p
    case Var(x) =>
      if x in s then (if s[x] == t then Some(s) else None)
      else Some(s[x := t])
    case App(f, args) =>
      if t.App? && t.f == f && |t.args| == |args| then
        var r := MatchArgs(args, t.args, s);
        if r.Some? then
          assert ApplyAll(args, r.value) == t.args;
          r
        else r
      else None
  }

  function MatchArgs(ps: seq<Term>, ts: seq<Term>, s: Subst): (r: Option<Subst>)
    requires |ps| == |ts|
    ensures r.Some? ==> Extends(s, r.value) && r.value.Keys == s.Keys + VarsOf(ps)
    ensures r.Some? ==> forall i :: 0 <= i < |ps| ==> Apply(ps[i], r.value) == ts[i]
    decreases ps
  {
    if ps == [] then Some(s)
    else match Match(ps[0], ts[0], s)
      case None => None
      case Some(s1) =>
        var r := MatchArgs(ps[1..], ts[1..], s1);
        if r.Some? then
          ApplyExtends(ps[0], s1, r.value);
          assert forall i :: 1 <= i < |ps| ==> ps[i] == ps[1..][i - 1] && ts[i] == ts[1..][i - 1];
          r
        else r
  }

  /** `KBUnifier.findSubst(p, t)`: a substitution on the pattern's variables
      that turns `p` into `t`. */
  function FindSubst(p: Term, t: Term): (r: Option<Subst>)
    ensures r.Some? ==> Apply(p, r.value) == t && r.value.Keys == Vars(p)
  {
    Match(p, t, map[])
  }

  /** Matching a pair of patterns against a pair of targets with one
      substitution (the source packs both into a dummy application). */
  function FindSubstPair(p1: Term, p2: Term, t1: Term, t2: Term): (r: Option<Subst>)
    ensures r.Some? ==> Apply(p1, r.value) == t1 && Apply(p2, r.value) == t2
  {
    MatchArgs([p1, p2], [t1, t2], map[])
  }

  /** `s` is the restriction to its keys of what `sigma` does to variables. */
  predicate Consistent(s: Subst, sigma: Subst) {
    forall v :: v in s ==> s[v] == Apply(Var(v), sigma)
  }

  /** Equal instances mean the two substitutions agree on the term's variables. */
  lemma {:induction false} ApplyEqualVars(t: Term, s1: Subst, s2: Subst, v: VarId)
    requires Apply(t, s1) == Apply(t, s2) && v in Vars(t)
    ensures Apply(Var(v), s1) == Apply(Var(v), s2)
  {
    match t
    case Var(x) =>
    case App(f, args) =>
      VarsOfMember(args, v);
      var i :| 0 <= i < |args| && v in Vars(args[i]);
      assert ApplyAll(args, s1)[i] == ApplyAll(args, s2)[i];
      ApplyEqualVars(args[i], s1, s2, v);
  }

  /** Matching is complete: it succeeds whenever some substitution consistent
      with the bindings so far instantiates the pattern to the target. */
  lemma {:induction false} MatchComplete(p: Term, t: Term, s: Subst, sigma: Subst)
    requires Consistent(s, sigma) && Apply(p, sigma) == t
    ensures Match(p, t, s).Some? && Consistent(Match(p, t, s).value, sigma)
    decreases p
  {
    match p
    case Var(x) =>
    case App(f, args) =>
      MatchArgsComplete(args, t.args, s, sigma);
      var r := Match(p, t, s).value;
      forall v | v in r ensures r[v] == Apply(Var(v), sigma) {
        if v !in s {
          VarsOfMember(args, v);
          var i :| 0 <= i < |args| && v in Vars(args[i]);
          ApplyEqualVars(args[i], r, sigma, v);
        }
      }
  }

  lemma {:induction false} MatchArgsComplete(ps: seq<Term>, ts: seq<Term>, s: Subst, sigma: Subst)
    requires |ps| == |ts| && Consistent(s, sigma)
    requires forall i :: 0 <= i < |ps| ==> Apply(ps[i], sigma) == ts[i]
    ensures MatchArgs(ps, ts, s).Some?
    ensures forall v :: v in MatchArgs(ps, ts, s).value ==> MatchArgs(ps, ts, s).value[v] == Apply(Var(v), sigma)
    decreases ps
  {
    if ps != [] {
      MatchComplete(ps[0], ts[0], s, sigma);
      var s1 := Match(ps[0], ts[0], s).value;
      assert forall i :: 1 <= i < |ps| ==> ps[i] == ps[1..][i - 1] && ts[i] == ts[1..][i - 1];
      MatchArgsComplete(ps[1..], ts[1..], s1, sigma);
    }
  }

  /** `FindSubst` succeeds exactly when the target is an instance of the pattern. */
  lemma FindSubstIffInstance(p: Term, t: Term)
    ensures FindSubst(p, t).Some? <==> exists sigma :: Apply(p, sigma) == t
  {
    if exists sigma :: Apply(p, sigma) == t {
      var sigma :| Apply(p, sigma) == t;
      MatchComplete(p, t, map[], sigma);
    }
  }

  /** The same for a pair of patterns matched with one substitution. */
  lemma FindSubstPairIffInstance(p1: Term, p2: Term, t1: Term, t2: Term)
    ensures FindSubstPair(p1, p2, t1, t2).Some? <==>
            exists sigma :: Apply(p1, sigma) == t1 && Apply(p2, sigma) == t2
  {
    if exists sigma :: Apply(p1, sigma) == t1 && Apply(p2, sigma) == t2 {
      var sigma :| Apply(p1, sigma) == t1 && Apply(p2, sigma) == t2;
      MatchArgsComplete([p1, p2], [t1, t2], map[], sigma);
    }
  }

  // ---------------------------------------------------------------------------
  // Unification

  type Problem = seq<(Term, Term)>

  function Size(t: Term): nat {
    match t
    case Var(_) => 1
    case App(_, args) => 1 + SizeOf(args)
  }

  function SizeOf(ts: seq<Term>): nat {
    if ts == [] then 0 else Size(ts[0]) + SizeOf(ts[1..])
  }

  function ProblemVars(ps: Problem): set<VarId> {
    if ps == [] then {} else Vars(ps[0].0) + Vars(ps[0].1) + ProblemVars(ps[1..])
  }

  function ProblemSize(ps: Problem): nat {
    if ps == [] then 0 else Size(ps[0].0) + Size(ps[0].1) + ProblemSize(ps[1..])
  }

  function Zip(xs: seq<Term>, ys: seq<Term>): (z: Problem)
    requires |xs| == |ys|
    ensures |z| == |xs| && forall i :: 0 <= i < |z| ==> z[i] == (xs[i], ys[i])
  {
    if xs == [] then [] else [(xs[0], ys[0])] + Zip(xs[1..], ys[1..])
  }

  function SubstProblem(ps: Problem, s: Subst): (qs: Problem)
    ensures |qs| == |ps|
    ensures forall i :: 0 <= i < |ps| ==> qs[i] == (Apply(ps[i].0, s), Apply(ps[i].1, s))
  {
    seq(|ps|, i requires 0 <= i < |ps| => (Apply(ps[i].0, s), Apply(ps[i].1, s)))
  }

  lemma {:induction false} ProblemVarsMember(ps: Problem, v: VarId)
    ensures v in ProblemVars(ps) <==> exists i :: 0 <= i < |ps| && (v in Vars(ps[i].0) || v in Vars(ps[i].1))
  {
    if ps != [] {
      ProblemVarsMember(ps[1..], v);
      assert forall i :: 1 <= i < |ps| ==> ps[i] == ps[1..][i - 1];
      if v in ProblemVars(ps[1..]) {
        var i :| 0 <= i < |ps[1..]| && (v in Vars(ps[1..][i].0) || v in Vars(ps[1..][i].1));
        assert ps[i + 1] == ps[1..][i];
      }
    }
  }

  lemma {:induction false} ProblemAppend(ps: Problem, qs: Problem)
    ensures ProblemVars(ps + qs) == ProblemVars(ps) + ProblemVars(qs)
    ensures ProblemSize(ps + qs) == ProblemSize(ps) + ProblemSize(qs)
  {
    if ps == [] {
      assert ps + qs == qs;
    } else {
      assert (ps + qs)[1..] == ps[1..] + qs;
      ProblemAppend(ps[1..], qs);
    }
  }

  lemma {:induction false} ZipMeasure(xs: seq<Term>, ys: seq<Term>)
    requires |xs| == |ys|
    ensures ProblemVars(Zip(xs, ys)) == VarsOf(xs) + VarsOf(ys)
    ensures ProblemSize(Zip(xs, ys)) == SizeOf(xs) + SizeOf(ys)
  {
    if xs != [] {
      ZipMeasure(xs[1..], ys[1..]);
      assert Zip(xs, ys)[1..] == Zip(xs[1..], ys[1..]);
    }
  }

  lemma SubsetCard<T>(a: set<T>, b: set<T>)
    requires a <= b
    ensures |a| <= |b|
  {
    if a != {} {
      var x :| x in a;
      SubsetCard(a - {x}, b - {x});
    }
  }

  /** Eliminating `x` by `t` removes `x` and brings in only the variables of `t`. */
  lemma EliminateVars(rest: Problem, x: VarId, t: Term)
    requires !Occurs(t, x)
    ensures ProblemVars(SubstProblem(rest, map[x := t])) <= ProblemVars(rest) + Vars(t) - {x}
  {
    var m := map[x := t];
    var qs := SubstProblem(rest, m);
    OccursIffVars(t, x);
    forall v | v in ProblemVars(qs) ensures v in ProblemVars(rest) + Vars(t) - {x} {
      ProblemVarsMember(qs, v);
      var i :| 0 <= i < |qs| && (v in Vars(qs[i].0) || v in Vars(qs[i].1));
      ProblemVarsMember(rest, v);
      if v in Vars(qs[i].0) {
        VarsApply(rest[i].0, m, v);
      } else {
        VarsApply(rest[i].1, m, v);
      }
    }
  }

  lemma EliminateDecreases(ps: Problem, x: VarId, t: Term)
    requires ps != [] && (ps[0] == (Var(x), t) || ps[0] == (t, Var(x))) && !Occurs(t, x)
    ensures |ProblemVars(SubstProblem(ps[1..], map[x := t]))| < |ProblemVars(ps)|
  {
    EliminateVars(ps[1..], x, t);
    var a := ProblemVars(SubstProblem(ps[1..], map[x := t]));
    var b := ProblemVars(ps);
    assert a <= b - {x};
    SubsetCard(a, b - {x});
  }

  lemma DropDecreases(ps: Problem)
    requires ps != []
    ensures |ProblemVars(ps[1..])| <= |ProblemVars(ps)|
    ensures ProblemSize(ps[1..]) < ProblemSize(ps)
  {
    SubsetCard(ProblemVars(ps[1..]), ProblemVars(ps));
  }

  lemma DecomposeMeasure(ps: Problem)
    requires ps != [] && ps[0].0.App? && ps[0].1.App? && |ps[0].0.args| == |ps[0].1.args|
    ensures ProblemVars(Zip(ps[0].0.args, ps[0].1.args) + ps[1..]) == ProblemVars(ps)
    ensures ProblemSize(Zip(ps[0].0.args, ps[0].1.args) + ps[1..]) < ProblemSize(ps)
  {
    ZipMeasure(ps[0].0.args, ps[0].1.args);
    ProblemAppend(Zip(ps[0].0.args, ps[0].1.args), ps[1..]);
  }

  /** Binding `x` to `t` and then applying `theta` is the composed substitution. */
  lemma BindSolves(ps: Problem, x: VarId, t: Term, theta: Subst)
    requires ps != [] && (ps[0] == (Var(x), t) || ps[0] == (t, Var(x))) && !Occurs(t, x)
    requires forall i :: 0 <= i < |ps| - 1 ==>
               Apply(SubstProblem(ps[1..], map[x := t])[i].0, theta) ==
               Apply(SubstProblem(ps[1..], map[x := t])[i].1, theta)
    ensures forall i :: 0 <= i < |ps| ==>
              Apply(ps[i].0, Compose(map[x := t], theta)) == Apply(ps[i].1, Compose(map[x := t], theta))
  {
    var m := map[x := t];
    var sigma := Compose(m, theta);
    forall u: Term ensures Apply(u, sigma) == Apply(Apply(u, m), theta) {
      ApplyCompose(u, m, theta);
    }
    OccursIffVars(t, x);
    ApplyAgree(t, m, map[]);
    ApplyEmpty(t);
    var qs := SubstProblem(ps[1..], m);
    forall i | 1 <= i < |ps| ensures Apply(ps[i].0, sigma) == Apply(ps[i].1, sigma) {
      assert ps[1..][i - 1] == ps[i];
      assert qs[i - 1] == (Apply(ps[i].0, m), Apply(ps[i].1, m));
      assert Apply(qs[i - 1].0, theta) == Apply(qs[i - 1].1, theta);
      ApplyCompose(ps[i].0, m, theta);
      ApplyCompose(ps[i].1, m, theta);
    }
  }

  lemma DecomposeSolves(ps: Problem, qs: Problem, theta: Subst)
    requires ps != [] && ps[0].0.App? && ps[0].1.App?
    requires ps[0].0.f == ps[0].1.f && |ps[0].0.args| == |ps[0].1.args|
    requires qs == Zip(ps[0].0.args, ps[0].1.args) + ps[1..]
    requires forall i :: 0 <= i < |qs| ==> Apply(qs[i].0, theta) == Apply(qs[i].1, theta)
    ensures forall i :: 0 <= i < |ps| ==> Apply(ps[i].0, theta) == Apply(ps[i].1, theta)
  {
    var xs, ys := ps[0].0.args, ps[0].1.args;
    var z := Zip(xs, ys);
    forall j | 0 <= j < |xs| ensures Apply(xs[j], theta) == Apply(ys[j], theta) {
      assert qs[j] == z[j] == (xs[j], ys[j]);
      assert Apply(qs[j].0, theta) == Apply(qs[j].1, theta);
    }
    assert ApplyAll(xs, theta) == ApplyAll(ys, theta);
    forall i | 1 <= i < |ps| ensures Apply(ps[i].0, theta) == Apply(ps[i].1, theta) {
      assert qs[|z| + i - 1] == ps[i];
      assert Apply(qs[|z| + i - 1].0, theta) == Apply(qs[|z| + i - 1].1, theta);
    }
  }

  /** Robinson unification with the occurs check over a list of equations to
      solve simultaneously. A returned substitution makes every pair equal. */
  function Unify(ps: Problem): (r: Option<Subst>)
    ensures r.Some? ==> forall i :: 0 <= i < |ps| ==> Apply(ps[i].0, r.value) == Apply(ps[i].1, r.value)
    decreases |ProblemVars(ps)|, ProblemSize(ps)
  {
    if ps == [] then Some(map[])
    else
      var (s, t) := ps[0];
      if s == t then
        DropDecreases(ps);
        var r := Unify(ps[1..]);
        if r.Some? then
          assert forall i :: 1 <= i < |ps| ==> ps[i] == ps[1..][i - 1];
          r
        else r
      else if s.Var? then
        if Occurs(t, s.id) then None
        else UnifyBind(ps, s.id, t)
      else if t.Var? then
        if Occurs(s, t.id) then None
        else UnifyBind(ps, t.id, s)
      else if s.f == t.f && |s.args| == |t.args| then
        DecomposeMeasure(ps);
        var r := Unify(Zip(s.args, t.args) + ps[1..]);
        if r.Some? then
          DecomposeSolves(ps, Zip(s.args, t.args) + ps[1..], r.value);
          r
        else r
      else None
  }

  /** Solves the head pair by binding `x` to `t`, then the rest. */
  function UnifyBind(ps: Problem, x: VarId, t: Term): (r: Option<Subst>)
    requires ps != [] && (ps[0] == (Var(x), t) || ps[0] == (t, Var(x))) && !Occurs(t, x)
    ensures r.Some? ==> forall i :: 0 <= i < |ps| ==> Apply(ps[i].0, r.value) == Apply(ps[i].1, r.value)
    decreases |ProblemVars(ps)|, ProblemSize(ps), 0
  {
    EliminateDecreases(ps, x, t);
    var r := Unify(SubstProblem(ps[1..], map[x := t]));
    if r.Some? then
      BindSolves(ps, x, t, r.value);
      Some(Compose(map[x := t], r.value))
    else None
  }

  /** `KBUnifier.unify0(a, b)`: a unifier of two terms. */
  function Unify0(a: Term, b: Term): (r: Option<Subst>)
    ensures r.Some? ==> Apply(a, r.value) == Apply(b, r.value)
  {
    Unify([(a, b)])
  }
}
