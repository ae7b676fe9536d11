/** First-order terms: variables and applications of a symbol to an ordered
    list of arguments (KBExp.java). Terms are immutable values; every
    transformation builds a new term. */
module Terms {
  import opened Base

  /** Variable identifiers: user variables, and the fresh variables the engine
      draws from its counter when it renames an equation apart. */
  datatype VarId = Named(name: string) | Fresh(index: nat)

  /** Function and constant symbols. `Frozen(v)` is the rigid 0-ary symbol that
      freezing puts in place of the variable `v`. */
  datatype Sym = Fn(name: string) | Frozen(v: VarId)

  datatype Term = Var(id: VarId) | App(f: Sym, args: seq<Term>)

  type Subst = map<VarId, Term>

  /** A path of argument indices from the root; `[]` is the root itself. */
  type Position = seq<nat>

  // ---------------------------------------------------------------------------
  // Variables and the occurs check

  function Vars(t: Term): set<VarId> {
    match t
    case Var(x) => {x}
    case App(_, args) => VarsOf(args)
  }

  function VarsOf(ts: seq<Term>): set<VarId> {
    if ts == [] then {} else Vars(ts[0]) + VarsOf(ts[1..])
  }

  lemma VarsOfMember(ts: seq<Term>, v: VarId)
    ensures v in VarsOf(ts) <==> exists i :: 0 <= i < |ts| && v in Vars(ts[i])
  {
    if ts != [] {
      VarsOfMember(ts[1..], v);
      if v in VarsOf(ts[1..]) {
        var i :| 0 <= i < |ts[1..]| && v in Vars(ts[1..][i]);
        assert ts[i + 1] == ts[1..][i];
      }
      forall i | 1 <= i < |ts| && v in Vars(ts[i])
        ensures v in VarsOf(ts[1..])
      {
        assert ts[1..][i - 1] == ts[i];
      }
    }
  }

  /** Whether `v` occurs in `t`, walking the arguments as the source does. */
  predicate Occurs(t: Term, v: VarId) {
    match t
    case Var(x) => x == v
    case App(_, args) => exists i | 0 <= i < |args| :: Occurs(args[i], v)
  }

  /** The occurs check agrees with the collected variable set. */
  lemma {:induction false} OccursIffVars(t: Term, v: VarId)
    ensures Occurs(t, v) <==> v in Vars(t)
  {
    match t
    case Var(x) =>
    case App(f, args) =>
      VarsOfMember(args, v);
      forall i | 0 <= i < |args|
        ensures Occurs(args[i], v) <==> v in Vars(args[i])
      {
        OccursIffVars(args[i], v);
      }
  }

  predicate Ground(t: Term) {
    Vars(t) == {}
  }

  // ---------------------------------------------------------------------------
  // Substitution

  /** Replaces every variable leaf in the domain of `s`; other variables stay. */
  function Apply(t: Term, s: Subst): Term {
    match t
    case Var(x) => if x in s then s[x] else t
    case App(f, args) => App(f, ApplyAll(args, s))
  }

  function ApplyAll(ts: seq<Term>, s: Subst): (rs: seq<Term>)
    ensures |rs| == |ts|
  {
    seq(|ts|, i requires 0 <= i < |ts| => Apply(ts[i], s))
  }

  /** Substitution keeps a variable outside the map, and keeps the symbol and
      the arity of every application. */
  lemma ApplyShape(t: Term, s: Subst)
    ensures t.Var? && t.id !in s ==> Apply(t, s) == t
    ensures t.Var? && t.id in s ==> Apply(t, s) == s[t.id]
    ensures t.App? ==> Apply(t, s).App? && Apply(t, s).f == t.f
                       && |Apply(t, s).args| == |t.args|
                       && forall i :: 0 <= i < |t.args| ==> Apply(t, s).args[i] == Apply(t.args[i], s)
  {
  }

  /** The empty substitution is the identity. */
  lemma {:induction false} ApplyEmpty(t: Term)
    ensures Apply(t, map[]) == t
  {
    match t
    case Var(_) =>
    case App(f, args) =>
      forall i | 0 <= i < |args|
        ensures Apply(args[i], map[]) == args[i]
      {
        ApplyEmpty(args[i]);
      }
      assert ApplyAll(args, map[]) == args;
  }

  /** Two substitutions that agree on the variables of `t` act alike on `t`. */
  predicate AgreeOn(s1: Subst, s2: Subst, vs: set<VarId>) {
    forall v :: v in vs ==> (v in s1 <==> v in s2) && (v in s1 ==> s1[v] == s2[v])
  }

  lemma {:induction false} ApplyAgree(t: Term, s1: Subst, s2: Subst)
    requires AgreeOn(s1, s2, Vars(t))
    ensures Apply(t, s1) == Apply(t, s2)
  {
    match t
    case Var(x) =>
    case App(f, args) =>
      forall i | 0 <= i < |args|
        ensures Apply(args[i], s1) == Apply(args[i], s2)
      {
        forall v | v in Vars(args[i]) ensures v in Vars(t) {
          VarsOfMember(args, v);
        }
        ApplyAgree(args[i], s1, s2);
      }
      assert ApplyAll(args, s1) == ApplyAll(args, s2);
  }

  /** The substitution that first applies `s1`, then `s2`. */
  function Compose(s1: Subst, s2: Subst): (c: Subst)
    ensures c.Keys == s1.Keys + s2.Keys
  {
    map v | v in s1.Keys + s2.Keys :: if v in s1 then Apply(s1[v], s2) else s2[v]
  }

  lemma {:induction false} ApplyCompose(t: Term, s1: Subst, s2: Subst)
    ensures Apply(Apply(t, s1), s2) == Apply(t, Compose(s1, s2))
  {
    match t
    case Var(x) =>
    case App(f, args) =>
      forall i | 0 <= i < |args|
        ensures Apply(Apply(args[i], s1), s2) == Apply(args[i], Compose(s1, s2))
      {
        ApplyCompose(args[i], s1, s2);
      }
      assert ApplyAll(ApplyAll(args, s1), s2) == ApplyAll(args, Compose(s1, s2));
  }

  /** Every variable of an instance comes from the term (outside the domain)
      or from the image of one of its variables. */
  lemma {:induction false} VarsApply(t: Term, s: Subst, v: VarId)
    requires v in Vars(Apply(t, s))
    ensures (v in Vars(t) && v !in s) || exists w :: w in Vars(t) && w in s && v in Vars(s[w])
  {
    match t
    case Var(x) =>
    case App(f, args) =>
      var rs := ApplyAll(args, s);
      VarsOfMember(rs, v);
      var i :| 0 <= i < |rs| && v in Vars(rs[i]);
      VarsApply(args[i], s, v);
      forall w | w in Vars(args[i]) ensures w in Vars(t) {
        VarsOfMember(args, w);
      }
  }

  /** Conversely, the image of a variable of `t` occurs in the instance. */
  lemma {:induction false} VarsApplyImage(t: Term, s: Subst, w: VarId, v: VarId)
    requires w in Vars(t) && w in s && v in Vars(s[w])
    ensures v in Vars(Apply(t, s))
  {
    match t
    case Var(x) =>
    case App(f, args) =>
      VarsOfMember(args, w);
      var i :| 0 <= i < |args| && w in Vars(args[i]);
      VarsApplyImage(args[i], s, w, v);
      var rs := ApplyAll(args, s);
      assert v in Vars(rs[i]);
      VarsOfMember(rs, v);
  }

  /** A variable outside the domain stays in the instance. */
  lemma {:induction false} VarsApplyKeep(t: Term, s: Subst, v: VarId)
    requires v in Vars(t) && v !in s
    ensures v in Vars(Apply(t, s))
  {
    match t
    case Var(x) =>
    case App(f, args) =>
      VarsOfMember(args, v);
      var i :| 0 <= i < |args| && v in Vars(args[i]);
      VarsApplyKeep(args[i], s, v);
      var rs := ApplyAll(args, s);
      assert v in Vars(rs[i]);
      VarsOfMember(rs, v);
  }

  // ---------------------------------------------------------------------------
  // Positions, subterms and replacement

  /** The subterm at position `p`, if `p` addresses a node of `t`. */
  function At(t: Term, p: Position): Option<Term>
    decreases p
  {
    if p == [] then Some(t)
    else match t
      case Var(_) => None
      case App(_, args) => if p[0] < |args| then At(args[p[0]], p[1..]) else None
  }

  lemma {:induction false} AtAppend(t: Term, p: Position, q: Position)
    ensures At(t, p + q) == (if At(t, p).Some? then At(At(t, p).value, q) else None)
    decreases p
  {
    if p != [] {
      assert p + q != [] && (p + q)[0] == p[0];
      assert (p + q)[1..] == p[1..] + q;
      if t.App? && p[0] < |t.args| {
        AtAppend(t.args[p[0]], p[1..], q);
      }
    } else {
      assert p + q == q;
    }
  }

  /** Replaces the subterm at `p` by `r`. Replacing below a variable fails; an
      argument index past the end leaves an unchanged copy. */
  function Replace(t: Term, p: Position, r: Term): Result<Term>
    decreases p
  {
    if p == [] then Ok(r)
    else match t
      case Var(_) => Err(CannotReplace)
      case App(f, args) =>
        if p[0] < |args| then
          var c :- Replace(args[p[0]], p[1..], r);
          Ok(App(f, args[p[0] := c]))
        else Ok(t)
  }

  /** Replacement on an application keeps its symbol and arity and touches only
      the argument the head of the path selects. */
  lemma ReplaceApp(f: Sym, args: seq<Term>, p: Position, r: Term)
    requires p != []
    ensures var res := Replace(App(f, args), p, r);
            res.Ok? ==> res.value.App? && res.value.f == f && |res.value.args| == |args|
                        && (forall i :: 0 <= i < |args| && i != p[0] ==> res.value.args[i] == args[i])
                        && (p[0] < |args| ==> Replace(args[p[0]], p[1..], r) == Ok(res.value.args[p[0]]))
    ensures p[0] >= |args| ==> Replace(App(f, args), p, r) == Ok(App(f, args))
  {
  }

  /** Below a variable there is nothing to replace. */
  lemma ReplaceVar(x: VarId, p: Position, r: Term)
    requires p != []
    ensures Replace(Var(x), p, r) == Err(CannotReplace)
  {
  }

  /** After replacing at a valid position, the new subterm sits there. */
  lemma {:induction false} AtReplace(t: Term, p: Position, r: Term)
    requires At(t, p).Some?
    ensures Replace(t, p, r).Ok?
    ensures At(Replace(t, p, r).value, p) == Some(r)
    decreases p
  {
    if p != [] {
      AtReplace(t.args[p[0]], p[1..], r);
    }
  }

  /** Replacing a subterm by itself gives the term back. */
  lemma {:induction false} ReplaceAtSelf(t: Term, p: Position, u: Term)
    requires At(t, p) == Some(u)
    ensures Replace(t, p, u) == Ok(t)
    decreases p
  {
    if p != [] {
      ReplaceAtSelf(t.args[p[0]], p[1..], u);
      assert t.args[p[0] := t.args[p[0]]] == t.args;
    }
  }

  /** Substitution commutes with taking the subterm at a valid position. */
  lemma {:induction false} ApplyAt(t: Term, p: Position, u: Term, s: Subst)
    requires At(t, p) == Some(u)
    ensures At(Apply(t, s), p) == Some(Apply(u, s))
    decreases p
  {
    if p != [] {
      ApplyAt(t.args[p[0]], p[1..], u, s);
    }
  }

  /** Substitution commutes with replacement at a valid position. */
  lemma {:induction false} ApplyReplace(t: Term, p: Position, r: Term, s: Subst)
    requires At(t, p).Some?
    ensures Replace(t, p, r).Ok?
    ensures Replace(Apply(t, s), p, Apply(r, s)) == Ok(Apply(Replace(t, p, r).value, s))
    decreases p
  {
    AtReplace(t, p, r);
    if p != [] {
      var i := p[0];
      var args := t.args;
      ApplyReplace(args[i], p[1..], r, s);
      ApplyAt(t, [], t, s);
      var c := Replace(args[i], p[1..], r).value;
      assert ApplyAll(args[i := c], s) == ApplyAll(args, s)[i := Apply(c, s)];
    }
  }

  /** Subterm containment, reflexive and inherited from the arguments. */
  predicate HasAsSubterm(t: Term, sub: Term) {
    t == sub || (t.App? && exists i | 0 <= i < |t.args| :: HasAsSubterm(t.args[i], sub))
  }

  /** A term contains `sub` exactly when some position of it holds `sub`. */
  lemma {:induction false} HasAsSubtermIffAt(t: Term, sub: Term)
    ensures HasAsSubterm(t, sub) <==> exists p :: At(t, p) == Some(sub)
  {
    if HasAsSubterm(t, sub) {
      if t == sub {
        assert At(t, []) == Some(sub);
      } else {
        var i :| 0 <= i < |t.args| && HasAsSubterm(t.args[i], sub);
        HasAsSubtermIffAt(t.args[i], sub);
        var q :| At(t.args[i], q) == Some(sub);
        assert ([i as nat] + q)[1..] == q;
        assert At(t, [i as nat] + q) == Some(sub);
      }
    }
    if exists p :: At(t, p) == Some(sub) {
      var p :| At(t, p) == Some(sub);
      AtHasAsSubterm(t, p, sub);
    }
  }

  lemma {:induction false} AtHasAsSubterm(t: Term, p: Position, sub: Term)
    requires At(t, p) == Some(sub)
    ensures HasAsSubterm(t, sub)
    decreases p
  {
    if p != [] {
      AtHasAsSubterm(t.args[p[0]], p[1..], sub);
    }
  }

  /** If an argument contains `sub`, so does the application. */
  lemma SubtermInherited(f: Sym, args: seq<Term>, i: nat, sub: Term)
    requires i < |args| && HasAsSubterm(args[i], sub)
    ensures HasAsSubterm(App(f, args), sub)
  {
  }

  // ---------------------------------------------------------------------------
  // Freezing

  /** Turns every variable into the rigid constant `Frozen(v)`. */
  function Freeze(t: Term): Term {
    match t
    case Var(x) => App(Frozen(x), [])
    case App(f, args) => App(f, seq(|args|, i requires 0 <= i < |args| => Freeze(args[i])))
  }

  /** Undoes `Freeze`. A variable cannot be unfrozen; a frozen constant becomes
      its variable again whatever arguments it carries. */
  function Unfreeze(t: Term): Result<Term> {
    match t
    case Var(_) => Err(CannotUnfreeze)
    case App(Frozen(x), _) => Ok(Var(x))
    case App(f, args) =>
      if forall i | 0 <= i < |args| :: Unfreeze(args[i]).Ok? then
        Ok(App(f, seq(|args|, i requires 0 <= i < |args| => Unfreeze(args[i]).value)))
      else Err(CannotUnfreeze)
  }

  /** No frozen symbol anywhere: the shape of every term a caller supplies. */
  predicate NoFrozen(t: Term) {
    match t
    case Var(_) => true
    case App(f, args) => f.Fn? && forall i | 0 <= i < |args| :: NoFrozen(args[i])
  }

  /** A frozen term has no variables left. */
  lemma {:induction false} FreezeGround(t: Term)
    ensures Vars(Freeze(t)) == {}
  {
    match t
    case Var(_) =>
    case App(f, args) =>
      var fs := seq(|args|, i requires 0 <= i < |args| => Freeze(args[i]));
      forall i | 0 <= i < |args| ensures Vars(fs[i]) == {} {
        FreezeGround(args[i]);
      }
      forall v | v in VarsOf(fs) ensures false {
        VarsOfMember(fs, v);
      }
  }

  /** Substitution cannot change a frozen term. */
  lemma FreezeStable(t: Term, s: Subst)
    ensures Apply(Freeze(t), s) == Freeze(t)
  {
    FreezeGround(t);
    ApplyAgree(Freeze(t), s, map[]);
    ApplyEmpty(Freeze(t));
  }

  /** Unfreezing a frozen user term gives the term back. */
  lemma {:induction false} UnfreezeFreeze(t: Term)
    requires NoFrozen(t)
    ensures Unfreeze(Freeze(t)) == Ok(t)
  {
    match t
    case Var(_) =>
    case App(f, args) =>
      var fs := seq(|args|, i requires 0 <= i < |args| => Freeze(args[i]));
      forall i | 0 <= i < |args| ensures Unfreeze(fs[i]) == Ok(args[i]) {
        UnfreezeFreeze(args[i]);
      }
      assert seq(|fs|, i requires 0 <= i < |fs| => Unfreeze(fs[i]).value) == args;
  }

  /** Unfreezing applies only to frozen terms: a bare variable is an error. */
  lemma UnfreezeVar(x: VarId)
    ensures Unfreeze(Var(x)).Err?
  {
  }
}
