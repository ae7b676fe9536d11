/** Overlap enumeration (`KBExp.cp`): every non-variable position of `g` whose
    subterm unifies with `a` yields the triple `(d·s, g[p←b]·s, s)`. Here
    `a → b` and `g → d` are the two (renamed apart) equations being superposed. */
module Overlaps {
  import opened Base
  import opened Terms
  import opened Unifier
  import opened Theory

  /** The source's `Triple`: the two sides of the critical equation and the unifier. */
  datatype Overlap = Overlap(left: Term, right: Term, sigma: Subst)

  /** Overlaps found at or below the subterm `t` of `g`, which sits at position
      `p`: the arguments first, left to right, then `t` itself. */
  function Overlaps(t: Term, p: Position, a: Term, b: Term, g: Term, d: Term): seq<Overlap>
    requires At(g, p) == Some(t)
    decreases t, 1, 0
  {
    match t
    case Var(_) => []
    case App(_, args) => ArgOverlaps(t, 0, p, a, b, g, d) + RootOverlap(t, p, a, b, g, d)
  }

  function ArgOverlaps(t: Term, i: nat, p: Position, a: Term, b: Term, g: Term, d: Term): seq<Overlap>
    requires t.App? && i <= |t.args| && At(g, p) == Some(t)
    decreases t, 0, |t.args| - i
  {
    if i == |t.args| then []
    else
      AtChild(g, p, t, i);
      Overlaps(t.args[i], p + [i], a, b, g, d) + ArgOverlaps(t, i + 1, p, a, b, g, d)
  }

  function RootOverlap(t: Term, p: Position, a: Term, b: Term, g: Term, d: Term): seq<Overlap>
    requires At(g, p) == Some(t)
  {
    match Unify0(t, a)
    case None => []
    case Some(s) =>
      AtReplace(g, p, b);
      [Overlap(Apply(d, s), Apply(Replace(g, p, b).value, s), s)]
  }

  lemma AtChild(g: Term, p: Position, t: Term, i: nat)
    requires At(g, p) == Some(t) && t.App? && i < |t.args|
    ensures At(g, p + [i]) == Some(t.args[i])
  {
    AtAppend(g, p, [i]);
  }

  /** `o` is the overlap of `a` into `g` at position `q`. */
  ghost predicate OverlapAt(g: Term, q: Position, a: Term, b: Term, d: Term, o: Overlap) {
    && At(g, q).Some?
    && At(g, q).value.App?
    && Unify0(At(g, q).value, a) == Some(o.sigma)
    && Replace(g, q, b).Ok?
    && o.left == Apply(d, o.sigma)
    && o.right == Apply(Replace(g, q, b).value, o.sigma)
  }

  /** Variable positions yield no overlaps. */
  lemma OverlapsVar(x: VarId, p: Position, a: Term, b: Term, g: Term, d: Term)
    requires At(g, p) == Some(Var(x))
    ensures Overlaps(Var(x), p, a, b, g, d) == []
  {
  }

  /** Some overlap `o` sits at a position extending `p`. */
  ghost predicate FoundBelow(g: Term, p: Position, a: Term, b: Term, d: Term, o: Overlap) {
    exists q :: OverlapAt(g, q, a, b, d, o) && p <= q
  }

  /** Some overlap `o` sits below an argument of index at least `i` of the node at `p`. */
  ghost predicate FoundRight(g: Term, p: Position, i: nat, a: Term, b: Term, d: Term, o: Overlap) {
    exists q :: OverlapAt(g, q, a, b, d, o) && p <= q && |q| > |p| && q[|p|] >= i
  }

  /** Every overlap is found: the overlaps enumerated from the root are exactly
      the overlaps at the non-variable positions of `g`. */
  lemma OverlapsExact(a: Term, b: Term, g: Term, d: Term, o: Overlap)
    ensures o in Overlaps(g, [], a, b, g, d) <==> exists q :: OverlapAt(g, q, a, b, d, o)
  {
    OverlapsIff(g, [], a, b, g, d, o);
    if exists q :: OverlapAt(g, q, a, b, d, o) {
      var q :| OverlapAt(g, q, a, b, d, o);
      assert [] <= q;
    }
  }

  /** The overlaps found below position `p` are exactly the overlaps at the
      positions extending `p`. */
  lemma {:induction false} OverlapsIff(t: Term, p: Position, a: Term, b: Term, g: Term, d: Term, o: Overlap)
    requires At(g, p) == Some(t)
    ensures o in Overlaps(t, p, a, b, g, d) <==> FoundBelow(g, p, a, b, d, o)
    decreases t, 1
  {
    match t
    case Var(_) =>
      if FoundBelow(g, p, a, b, d, o) {
        var q :| OverlapAt(g, q, a, b, d, o) && p <= q;
        BelowVar(g, p, q, t);
      }
    case App(_, args) =>
      ArgOverlapsIff(t, 0, p, a, b, g, d, o);
      RootOverlapIff(t, p, a, b, g, d, o);
      FoundBelowSplit(g, p, t, a, b, d, o);
  }

  lemma FoundBelowSplit(g: Term, p: Position, t: Term, a: Term, b: Term, d: Term, o: Overlap)
    requires At(g, p) == Some(t) && t.App?
    ensures FoundBelow(g, p, a, b, d, o) <==> OverlapAt(g, p, a, b, d, o) || FoundRight(g, p, 0, a, b, d, o)
  {
    if FoundBelow(g, p, a, b, d, o) {
      var q :| OverlapAt(g, q, a, b, d, o) && p <= q;
      if q != p {
        BelowApp(g, p, q, t);
      }
    }
  }

  lemma FoundRightSplit(g: Term, p: Position, t: Term, i: nat, a: Term, b: Term, d: Term, o: Overlap)
    requires At(g, p) == Some(t) && t.App? && i <= |t.args|
    ensures i == |t.args| ==> !FoundRight(g, p, i, a, b, d, o)
    ensures i < |t.args| ==>
              (FoundRight(g, p, i, a, b, d, o) <==>
               FoundBelow(g, p + [i], a, b, d, o) || FoundRight(g, p, i + 1, a, b, d, o))
  {
    if FoundRight(g, p, i, a, b, d, o) {
      FoundRightNext(g, p, t, i, a, b, d, o);
    }
    if i < |t.args| && FoundBelow(g, p + [i], a, b, d, o) {
      FoundBelowChild(g, p, i, a, b, d, o);
    }
  }

  lemma FoundRightNext(g: Term, p: Position, t: Term, i: nat, a: Term, b: Term, d: Term, o: Overlap)
    requires At(g, p) == Some(t) && t.App? && FoundRight(g, p, i, a, b, d, o)
    ensures i < |t.args| && (FoundBelow(g, p + [i], a, b, d, o) || FoundRight(g, p, i + 1, a, b, d, o))
  {
    var q :| OverlapAt(g, q, a, b, d, o) && p <= q && |q| > |p| && q[|p|] >= i;
    BelowApp(g, p, q, t);
    if q[|p|] == i {
      assert p + [i] <= q;
    }
  }

  lemma FoundBelowChild(g: Term, p: Position, i: nat, a: Term, b: Term, d: Term, o: Overlap)
    requires FoundBelow(g, p + [i], a, b, d, o)
    ensures FoundRight(g, p, i, a, b, d, o)
  {
    var q :| OverlapAt(g, q, a, b, d, o) && p + [i] <= q;
    assert q[|p|] == (p + [i])[|p|] == i;
  }

  lemma {:induction false} ArgOverlapsIff(t: Term, i: nat, p: Position, a: Term, b: Term, g: Term, d: Term, o: Overlap)
    requires t.App? && i <= |t.args| && At(g, p) == Some(t)
    ensures o in ArgOverlaps(t, i, p, a, b, g, d) <==> FoundRight(g, p, i, a, b, d, o)
    decreases t, 0, |t.args| - i
  {
    FoundRightSplit(g, p, t, i, a, b, d, o);
    if i < |t.args| {
      AtChild(g, p, t, i);
      OverlapsIff(t.args[i], p + [i], a, b, g, d, o);
      ArgOverlapsIff(t, i + 1, p, a, b, g, d, o);
    }
  }

  lemma RootOverlapIff(t: Term, p: Position, a: Term, b: Term, g: Term, d: Term, o: Overlap)
    requires At(g, p) == Some(t) && t.App?
    ensures o in RootOverlap(t, p, a, b, g, d) <==> OverlapAt(g, p, a, b, d, o)
  {
    AtReplace(g, p, b);
  }

  /** Below a valid position of an application, the next index is in range. */
  lemma BelowApp(g: Term, p: Position, q: Position, t: Term)
    requires At(g, p) == Some(t) && t.App? && p <= q && q != p && At(g, q).Some?
    ensures |q| > |p| && q[|p|] < |t.args|
  {
    assert q == p + q[|p|..];
    AtAppend(g, p, q[|p|..]);
  }

  /** Nothing lies strictly below a variable. */
  lemma BelowVar(g: Term, p: Position, q: Position, t: Term)
    requires At(g, p) == Some(t) && t.Var? && p <= q
    ensures q == p || At(g, q).None?
  {
    assert q == p + q[|p|..];
    AtAppend(g, p, q[|p|..]);
  }

  /** Each overlap of `a → b` into `g → d` is a consequence of the two
      equations: `d·s ← g·s → g[p←b]·s`. */
  lemma OverlapSound(rules: seq<Equation>, g: Term, q: Position, a: Term, b: Term, d: Term, o: Overlap)
    requires OverlapAt(g, q, a, b, d, o)
    requires Holds(rules, Equation(a, b)) && Holds(rules, Equation(g, d))
    ensures Convertible(rules, o.left, o.right)
  {
    var s := o.sigma;
    var u := At(g, q).value;
    // g·s and d·s are equal by the instance s of g = d.
    InstanceTrans(Equation(g, d), map[], s);
    ApplyEmpty(g);
    ApplyEmpty(d);
    HoldsInstance(rules, Equation(g, d), Equation(Apply(g, s), o.left));
    HoldsConvertible(rules, Equation(Apply(g, s), o.left));
    ConvertibleSym(rules, Apply(g, s), o.left);
    // g·s holds a·s at q, which is equal to b·s by the instance s of a = b.
    InstanceTrans(Equation(a, b), map[], s);
    ApplyEmpty(a);
    ApplyEmpty(b);
    HoldsInstance(rules, Equation(a, b), Equation(Apply(a, s), Apply(b, s)));
    HoldsConvertible(rules, Equation(Apply(a, s), Apply(b, s)));
    ApplyAt(g, q, u, s);
    ReplaceAtSelf(Apply(g, s), q, Apply(u, s));
    ApplyReplace(g, q, b, s);
    ConvertibleInContext(rules, Apply(g, s), q, Apply(a, s), Apply(b, s));
    ConvertibleTrans(rules, o.left, Apply(g, s), o.right);
  }
}
