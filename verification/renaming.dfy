/** The engine's configuration, and renaming an equation apart with fresh
    variables (`freshen`, `freshenMap` in KB.java). */
module Params {
  import opened Terms
  import opened Theory

  /** The constructor arguments of `KB`. The reduction order and the rendering
      used by `sortByStrLen` are supplied by the caller; `fuel` bounds the
      `compose` loop, which the source leaves unbounded. */
  datatype Config = Config(
    gt: (Term, Term) -> bool,
    unfailing: bool,
    sortCps: bool,
    redIts: nat,
    render: Equation -> string,
    fuel: nat)

  /** The order can decide a direction for `e` (`orientable`). */
  predicate Orientable(cfg: Config, e: Equation) {
    cfg.gt(e.lhs, e.rhs) || cfg.gt(e.rhs, e.lhs)
  }
}

module Renaming {
  import opened Base
  import opened Terms
  import opened Theory
  import opened Lists

  /** The variable leaves of `t`, left to right, with repetitions. */
  function Leaves(t: Term): seq<VarId> {
    match t
    case Var(x) => [x]
    case App(_, args) => LeavesOf(args)
  }

  function LeavesOf(ts: seq<Term>): seq<VarId> {
    if ts == [] then [] else Leaves(ts[0]) + LeavesOf(ts[1..])
  }

  lemma {:induction false} LeavesAreVars(t: Term)
    ensures forall v :: v in Leaves(t) <==> v in Vars(t)
  {
    match t
    case Var(_) =>
    case App(_, args) => LeavesOfAreVars(args);
  }

  lemma {:induction false} LeavesOfAreVars(ts: seq<Term>)
    ensures forall v :: v in LeavesOf(ts) <==> v in VarsOf(ts)
  {
    if ts != [] {
      LeavesAreVars(ts[0]);
      LeavesOfAreVars(ts[1..]);
    }
  }

  /** The variables of an equation, each once, in order of first occurrence
      (the source iterates a `HashSet`, in no particular order). */
  function EqVarList(e: Equation): (vs: seq<VarId>)
    ensures NoDups(vs)
    ensures forall v :: v in vs <==> v in e.EqVars()
  {
    LeavesAreVars(e.lhs);
    LeavesAreVars(e.rhs);
    AddAll([], Leaves(e.lhs) + Leaves(e.rhs))
  }

  /** Sends `vs[i]` to `Fresh(n + i)`. */
  function RenameMap(vs: seq<VarId>, n: nat): (m: Subst)
    ensures m.Keys == set v | v in vs
  {
    if vs == [] then map[] else RenameMap(vs[1..], n + 1)[vs[0] := Var(Fresh(n))]
  }

  /** Sends `Fresh(n + i)` back to `vs[i]`. */
  function InverseMap(vs: seq<VarId>, n: nat): (m: Subst)
    ensures forall k :: k in m ==> k.Fresh? && n <= k.index < n + |vs|
  {
    if vs == [] then map[] else InverseMap(vs[1..], n + 1)[Fresh(n) := Var(vs[0])]
  }

  lemma {:induction false} RenameMapAt(vs: seq<VarId>, n: nat, i: nat)
    requires NoDups(vs) && i < |vs|
    ensures vs[i] in RenameMap(vs, n) && RenameMap(vs, n)[vs[i]] == Var(Fresh(n + i))
    ensures Fresh(n + i) in InverseMap(vs, n) && InverseMap(vs, n)[Fresh(n + i)] == Var(vs[i])
  {
    if i > 0 {
      var tail := vs[1..];
      NoDupsTail(vs);
      assert vs[i] == tail[i - 1];
      assert vs[i] != vs[0];
      RenameMapAt(tail, n + 1, i - 1);
      assert n + 1 + (i - 1) == n + i;
      assert Fresh(n + i) != Fresh(n);
    }
  }

  /** `freshenMap`: the renaming of `e`'s variables to fresh ones starting at
      `n`, its inverse, and the next unused counter value. */
  function FreshenMap(n: nat, e: Equation): (Subst, Subst, nat) {
    var vs := EqVarList(e);
    (RenameMap(vs, n), InverseMap(vs, n), n + |vs|)
  }

  /** `freshen`: `e` with its variables renamed apart, and the next counter. */
  function Freshen(n: nat, e: Equation): (Equation, nat) {
    var (s, _, n') := FreshenMap(n, e);
    (Equation(Apply(e.lhs, s), Apply(e.rhs, s)), n')
  }

  /** Every fresh variable below `n` has already been handed out. */
  predicate FreshBelow(n: nat, vs: set<VarId>) {
    forall v :: v in vs && v.Fresh? ==> v.index < n
  }

  /** The renaming sends every variable to a fresh one in `[n, n')`. */
  lemma FreshenMapRange(n: nat, e: Equation)
    ensures var (s, _, n') := FreshenMap(n, e);
            n <= n' && s.Keys == e.EqVars()
            && forall v :: v in s ==> s[v].Var? && s[v].id.Fresh? && n <= s[v].id.index < n'
  {
    var vs := EqVarList(e);
    var s := RenameMap(vs, n);
    forall v | v in s ensures s[v].Var? && s[v].id.Fresh? && n <= s[v].id.index < n + |vs| {
      var i :| 0 <= i < |vs| && vs[i] == v;
      RenameMapAt(vs, n, i);
    }
  }

  /** The renamed equation uses only fresh variables in `[n, n')`, so it shares
      no variable with any term whose fresh variables are all below `n`. */
  lemma FreshenApart(n: nat, e: Equation, other: set<VarId>)
    requires FreshBelow(n, other)
    ensures var (e', n') := Freshen(n, e);
            n <= n' && FreshBelow(n', e'.EqVars())
            && (forall v :: v in e'.EqVars() ==> v.Fresh? && n <= v.index)
            && e'.EqVars() !! other
  {
    var (s, _, n') := FreshenMap(n, e);
    FreshenMapRange(n, e);
    var e' := Freshen(n, e).0;
    forall v | v in e'.EqVars() ensures v.Fresh? && n <= v.index < n' {
      if v in Vars(e'.lhs) {
        VarsApply(e.lhs, s, v);
      } else {
        VarsApply(e.rhs, s, v);
      }
    }
  }

  /** Renaming apart is undone by the inverse map: the renamed equation is a
      variant of the original. */
  lemma FreshenRoundTrip(n: nat, e: Equation)
    ensures var (s, inv, _) := FreshenMap(n, e);
            Apply(Apply(e.lhs, s), inv) == e.lhs && Apply(Apply(e.rhs, s), inv) == e.rhs
  {
    var vs := EqVarList(e);
    var (s, inv, _) := FreshenMap(n, e);
    var c := Compose(s, inv);
    forall v | v in e.EqVars() ensures v in c && c[v] == Var(v) {
      var i :| 0 <= i < |vs| && vs[i] == v;
      RenameMapAt(vs, n, i);
    }
    ApplyCompose(e.lhs, s, inv);
    ApplyCompose(e.rhs, s, inv);
    IdentityOn(e.lhs, c);
    IdentityOn(e.rhs, c);
  }

  lemma {:induction false} IdentityOn(t: Term, s: Subst)
    requires forall v :: v in Vars(t) ==> v in s && s[v] == Var(v)
    ensures Apply(t, s) == t
  {
    match t
    case Var(_) =>
    case App(f, args) =>
      forall i | 0 <= i < |args| ensures Apply(args[i], s) == args[i] {
        forall v | v in Vars(args[i]) ensures v in Vars(t) {
          VarsOfMember(args, v);
        }
        IdentityOn(args[i], s);
      }
      assert ApplyAll(args, s) == args;
  }

  /** The renamed equation and the original are instances of each other. */
  lemma FreshenVariant(n: nat, e: Equation)
    ensures Instance(e, Freshen(n, e).0) && Instance(Freshen(n, e).0, e)
  {
    FreshenRoundTrip(n, e);
    var (s, inv, _) := FreshenMap(n, e);
    assert Apply(e.lhs, s) == Freshen(n, e).0.lhs;
  }
}
