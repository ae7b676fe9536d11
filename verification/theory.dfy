/** Equations and the equational theory they generate. The engine stores an
    equation as an ordered pair (the source's `Pair`); a rule is an equation
    that the engine keeps in its rule set, read left to right. */
module Theory {
  import opened Base
  import opened Terms

  datatype Equation = Equation(lhs: Term, rhs: Term) {
    function Reverse(): Equation {
      Equation(rhs, lhs)
    }

    function EqVars(): set<VarId> {
      Vars(lhs) + Vars(rhs)
    }
  }

  /** `specific` is `general` under one substitution, side by side. */
  ghost predicate Instance(general: Equation, specific: Equation) {
    exists s :: Apply(general.lhs, s) == specific.lhs && Apply(general.rhs, s) == specific.rhs
  }

  /** The congruence generated by the instances of `rules`: the terms the
      rules prove equal. */
  least predicate Convertible(rules: seq<Equation>, s: Term, t: Term) {
    || s == t
    || (exists r, sigma :: r in rules && s == Apply(r.lhs, sigma) && t == Apply(r.rhs, sigma))
    || Convertible(rules, t, s)
    || (s.App? && t.App? && s.f == t.f && |s.args| == |t.args|
        && forall i :: 0 <= i < |s.args| ==> Convertible(rules, s.args[i], t.args[i]))
    || (exists u :: Convertible(rules, s, u) && Convertible(rules, u, t))
  }

  lemma ConvertibleTrans(rules: seq<Equation>, s: Term, u: Term, t: Term)
    requires Convertible(rules, s, u) && Convertible(rules, u, t)
    ensures Convertible(rules, s, t)
  {
  }

  /** An instance of a rule, or of its reverse, is a conversion. */
  lemma ConvertibleInstance(rules: seq<Equation>, r: Equation, s: Term, t: Term)
    requires r in rules && (Instance(r, Equation(s, t)) || Instance(r, Equation(t, s)))
    ensures Convertible(rules, s, t)
  {
    if Instance(r, Equation(s, t)) {
      var sigma :| Apply(r.lhs, sigma) == s && Apply(r.rhs, sigma) == t;
    } else {
      var sigma :| Apply(r.lhs, sigma) == t && Apply(r.rhs, sigma) == s;
      assert Convertible(rules, t, s);
    }
  }

  /** A conversion stays a conversion inside any context. */
  lemma {:induction false} ConvertibleInContext(rules: seq<Equation>, c: Term, p: Position, u: Term, v: Term)
    requires At(c, p).Some? && Convertible(rules, u, v)
    ensures Replace(c, p, u).Ok? && Replace(c, p, v).Ok?
    ensures Convertible(rules, Replace(c, p, u).value, Replace(c, p, v).value)
    decreases p
  {
    AtReplace(c, p, u);
    AtReplace(c, p, v);
    if p != [] {
      var i := p[0];
      var args := c.args;
      ConvertibleInContext(rules, args[i], p[1..], u, v);
      var cu := Replace(args[i], p[1..], u).value;
      var cv := Replace(args[i], p[1..], v).value;
      var xs, ys := args[i := cu], args[i := cv];
      forall j | 0 <= j < |xs| ensures Convertible(rules, xs[j], ys[j]) {
        if j != i {
          assert xs[j] == ys[j];
        }
      }
    }
  }

  /** Renaming: an instance of an instance is an instance of the original. */
  lemma InstanceTrans(e: Equation, s1: Subst, s2: Subst)
    ensures Instance(e, Equation(Apply(Apply(e.lhs, s1), s2), Apply(Apply(e.rhs, s1), s2)))
  {
    ApplyCompose(e.lhs, s1, s2);
    ApplyCompose(e.rhs, s1, s2);
  }

  /** Being an instance is transitive. */
  lemma InstanceTransitive(a: Equation, b: Equation, c: Equation)
    requires Instance(a, b) && Instance(b, c)
    ensures Instance(a, c)
  {
    var s1 :| Apply(a.lhs, s1) == b.lhs && Apply(a.rhs, s1) == b.rhs;
    var s2 :| Apply(b.lhs, s2) == c.lhs && Apply(b.rhs, s2) == c.rhs;
    InstanceTrans(a, s1, s2);
  }

  lemma ConvertibleSym(rules: seq<Equation>, s: Term, t: Term)
    requires Convertible(rules, s, t)
    ensures Convertible(rules, t, s)
  {
  }

  /** `e` is an instance of some equation of `rules`, read in either direction. */
  ghost predicate Holds(rules: seq<Equation>, e: Equation) {
    exists r :: r in rules && (Instance(r, e) || Instance(r, e.Reverse()))
  }

  lemma HoldsMember(rules: seq<Equation>, e: Equation)
    requires e in rules
    ensures Holds(rules, e)
  {
    ApplyEmpty(e.lhs);
    ApplyEmpty(e.rhs);
    assert Instance(e, e);
  }

  lemma HoldsReverse(rules: seq<Equation>, e: Equation)
    requires Holds(rules, e)
    ensures Holds(rules, e.Reverse())
  {
    var r :| r in rules && (Instance(r, e) || Instance(r, e.Reverse()));
    assert e.Reverse().Reverse() == e;
  }

  /** Instances of what holds hold too. */
  lemma HoldsInstance(rules: seq<Equation>, e: Equation, e': Equation)
    requires Holds(rules, e) && Instance(e, e')
    ensures Holds(rules, e')
  {
    var r :| r in rules && (Instance(r, e) || Instance(r, e.Reverse()));
    if Instance(r, e) {
      InstanceTransitive(r, e, e');
    } else {
      var s :| Apply(e.lhs, s) == e'.lhs && Apply(e.rhs, s) == e'.rhs;
      assert Apply(e.Reverse().lhs, s) == e'.Reverse().lhs;
      InstanceTransitive(r, e.Reverse(), e'.Reverse());
    }
  }

  lemma HoldsConvertible(rules: seq<Equation>, e: Equation)
    requires Holds(rules, e)
    ensures Convertible(rules, e.lhs, e.rhs)
  {
    var r :| r in rules && (Instance(r, e) || Instance(r, e.Reverse()));
    ConvertibleInstance(rules, r, e.lhs, e.rhs);
  }

  // ---------------------------------------------------------------------------
  // Comparing theories

  /** `Convertible` under another name, so that it can be stated inside the
      least lemmas below without being read as their induction hypothesis. */
  ghost predicate Provable(rules: seq<Equation>, s: Term, t: Term) {
    Convertible(rules, s, t)
  }

  /** Congruence, argument by argument. */
  lemma ConvertibleArgs(rules: seq<Equation>, s: Term, t: Term)
    requires s.App? && t.App? && s.f == t.f && |s.args| == |t.args|
    requires forall i :: 0 <= i < |s.args| ==> Provable(rules, s.args[i], t.args[i])
    ensures Convertible(rules, s, t)
  {
  }

  /** Conversions are closed under substitution. */
  least lemma {:induction false} ConvertibleSubst(rules: seq<Equation>, s: Term, t: Term, sigma: Subst)
    requires Convertible(rules, s, t)
    ensures Provable(rules, Apply(s, sigma), Apply(t, sigma))
  {
    if s == t {
    } else if exists r, tau :: r in rules && s == Apply(r.lhs, tau) && t == Apply(r.rhs, tau) {
      var r, tau :| r in rules && s == Apply(r.lhs, tau) && t == Apply(r.rhs, tau);
      ApplyCompose(r.lhs, tau, sigma);
      ApplyCompose(r.rhs, tau, sigma);
      assert Provable(rules, Apply(r.lhs, Compose(tau, sigma)), Apply(r.rhs, Compose(tau, sigma)));
    } else if Convertible#[_k - 1](rules, t, s) {
      ConvertibleSubst(rules, t, s, sigma);
    } else if s.App? && t.App? && s.f == t.f && |s.args| == |t.args|
              && forall i :: 0 <= i < |s.args| ==> Convertible#[_k - 1](rules, s.args[i], t.args[i]) {
      var s', t' := Apply(s, sigma), Apply(t, sigma);
      ApplyShape(s, sigma);
      ApplyShape(t, sigma);
      forall i | 0 <= i < |s'.args| ensures Provable(rules, s'.args[i], t'.args[i]) {
        ConvertibleSubst(rules, s.args[i], t.args[i], sigma);
      }
      ConvertibleArgs(rules, s', t');
    } else {
      var u :| Convertible#[_k - 1](rules, s, u) && Convertible#[_k - 1](rules, u, t);
      ConvertibleSubst(rules, s, u, sigma);
      ConvertibleSubst(rules, u, t, sigma);
      ConvertibleTrans(rules, Apply(s, sigma), Apply(u, sigma), Apply(t, sigma));
    }
  }

  /** `rules` prove the equation `r`. */
  ghost predicate Proves(rules: seq<Equation>, r: Equation) {
    Convertible(rules, r.lhs, r.rhs)
  }

  /** `big` proves every equation of `small`. */
  ghost predicate Entails(big: seq<Equation>, small: seq<Equation>) {
    forall r {:trigger Proves(big, r)} :: r in small ==> Proves(big, r)
  }

  /** What `small` proves, any system proving `small` proves. */
  least lemma {:induction false} ConvertibleLift(small: seq<Equation>, big: seq<Equation>, s: Term, t: Term)
    requires Entails(big, small)
    requires Convertible(small, s, t)
    ensures Provable(big, s, t)
  {
    if s == t {
    } else if exists r, sigma :: r in small && s == Apply(r.lhs, sigma) && t == Apply(r.rhs, sigma) {
      var r, sigma :| r in small && s == Apply(r.lhs, sigma) && t == Apply(r.rhs, sigma);
      assert Proves(big, r);
      ConvertibleSubst(big, r.lhs, r.rhs, sigma);
    } else if Convertible#[_k - 1](small, t, s) {
      ConvertibleLift(small, big, t, s);
    } else if s.App? && t.App? && s.f == t.f && |s.args| == |t.args|
              && forall i :: 0 <= i < |s.args| ==> Convertible#[_k - 1](small, s.args[i], t.args[i]) {
      forall i | 0 <= i < |s.args| ensures Provable(big, s.args[i], t.args[i]) {
        ConvertibleLift(small, big, s.args[i], t.args[i]);
      }
      ConvertibleArgs(big, s, t);
    } else {
      var u :| Convertible#[_k - 1](small, s, u) && Convertible#[_k - 1](small, u, t);
      ConvertibleLift(small, big, s, u);
      ConvertibleLift(small, big, u, t);
      ConvertibleTrans(big, s, u, t);
    }
  }

  lemma EntailsTrans(a: seq<Equation>, b: seq<Equation>, c: seq<Equation>)
    requires Entails(a, b) && Entails(b, c)
    ensures Entails(a, c)
  {
    forall r | r in c ensures Proves(a, r) {
      assert Proves(b, r);
      ConvertibleLift(b, a, r.lhs, r.rhs);
    }
  }

  /** A system proves its own equations, and so every part of itself. */
  lemma EntailsPart(big: seq<Equation>, small: seq<Equation>)
    requires forall r :: r in small ==> r in big
    ensures Entails(big, small)
  {
    forall r | r in small ensures Convertible(big, r.lhs, r.rhs) {
      HoldsMember(big, r);
      HoldsConvertible(big, r);
    }
  }

  /** Conversions survive adding rules. */
  lemma ConvertibleWithin(small: seq<Equation>, big: seq<Equation>, s: Term, t: Term)
    requires forall r :: r in small ==> r in big
    requires Convertible(small, s, t)
    ensures Convertible(big, s, t)
  {
    EntailsPart(big, small);
    ConvertibleLift(small, big, s, t);
  }

  /** The two systems prove the same equations. */
  ghost predicate Equivalent(a: seq<Equation>, b: seq<Equation>) {
    Entails(a, b) && Entails(b, a)
  }

  lemma EquivalentTrans(a: seq<Equation>, b: seq<Equation>, c: seq<Equation>)
    requires Equivalent(a, b) && Equivalent(b, c)
    ensures Equivalent(a, c)
  {
    EntailsTrans(a, b, c);
    EntailsTrans(c, b, a);
  }

  /** Systems with the same members are equivalent. */
  lemma EquivalentSameMembers(a: seq<Equation>, b: seq<Equation>)
    requires forall r :: r in a <==> r in b
    ensures Equivalent(a, b)
  {
    EntailsPart(a, b);
    EntailsPart(b, a);
  }

  /** Every member of a system is one of its consequences. */
  lemma ConvertibleMember(rules: seq<Equation>, e: Equation)
    requires e in rules
    ensures Convertible(rules, e.lhs, e.rhs)
  {
    HoldsMember(rules, e);
    HoldsConvertible(rules, e);
  }

  /** A system entails what it contains and what it proves. */
  lemma EntailsMembers(big: seq<Equation>, small: seq<Equation>)
    requires forall x :: x in small ==> x in big || Convertible(big, x.lhs, x.rhs)
    ensures Entails(big, small)
  {
    forall x | x in small ensures Convertible(big, x.lhs, x.rhs) {
      if x in big {
        ConvertibleMember(big, x);
      }
    }
  }

  lemma EquivalentSym(a: seq<Equation>, b: seq<Equation>)
    requires Equivalent(a, b)
    ensures Equivalent(b, a)
  {
  }

  /** What a system entails, it entails of every part. */
  lemma EntailsSub(big: seq<Equation>, small: seq<Equation>, sub: seq<Equation>)
    requires Entails(big, small) && forall x :: x in sub ==> x in small
    ensures Entails(big, sub)
  {
    forall x | x in sub ensures Proves(big, x) {
      assert x in small;
    }
  }

  /** Adding consequences of `a` to it gives an equivalent system. */
  lemma EquivalentExtend(a: seq<Equation>, extra: seq<Equation>, b: seq<Equation>)
    requires Entails(a, extra)
    requires forall x :: x in b <==> x in a || x in extra
    ensures Equivalent(a, b)
  {
    forall x | x in b ensures Proves(a, x) {
      if x in a {
        ConvertibleMember(a, x);
      } else {
        assert x in extra;
      }
    }
    EntailsPart(b, a);
  }

  /** `big` proves the equations of `a` and of `b` exactly when it proves those of `a + b`. */
  lemma EntailsConcat(big: seq<Equation>, a: seq<Equation>, b: seq<Equation>)
    requires Entails(big, a) && Entails(big, b)
    ensures Entails(big, a + b)
  {
    forall x | x in a + b ensures Proves(big, x) {
      if x in a {
        assert Proves(big, x);
      } else {
        assert x in b;
      }
    }
  }
}
