/** Subsumption of equations (`subsumes`, `filterSubsumed`,
    `filterSubsumedBySelf` in KB.java). An equation is subsumed by another when
    it is an instance of it; the check renames the candidate apart first when
    the two share variables. */
module Subsumption {
  import opened Base
  import opened Terms
  import opened Unifier
  import opened Theory
  import opened Renaming
  import opened Lists

  /** `subsumes(cand, other)`: `other` matches `cand`, both sides with one
      substitution. Also returns the advanced fresh-variable counter. */
  function Subsumes(n: nat, cand: Equation, other: Equation): (r: (bool, nat))
    ensures n <= r.1
  {
    var (candX, n1) := if cand.EqVars() !! other.EqVars() then (cand, n) else Freshen(n, cand);
    (FindSubstPair(other.lhs, other.rhs, candX.lhs, candX.rhs).Some?, n1)
  }

  /** The check is exact, whatever the counter: it succeeds precisely when
      `cand` is an instance of `other`. */
  lemma SubsumesIff(n: nat, cand: Equation, other: Equation)
    ensures Subsumes(n, cand, other).0 <==> Instance(other, cand)
  {
    if cand.EqVars() !! other.EqVars() {
      MatchesIffInstance(other, cand);
    } else {
      var candX := Freshen(n, cand).0;
      MatchesIffInstance(other, candX);
      FreshenVariant(n, cand);
      InstanceOfVariant(other, cand, candX);
    }
  }

  lemma MatchesIffInstance(other: Equation, cand: Equation)
    ensures FindSubstPair(other.lhs, other.rhs, cand.lhs, cand.rhs).Some? <==> Instance(other, cand)
  {
    FindSubstPairIffInstance(other.lhs, other.rhs, cand.lhs, cand.rhs);
    if Instance(other, cand) {
      var s :| Apply(other.lhs, s) == cand.lhs && Apply(other.rhs, s) == cand.rhs;
      assert exists sigma :: Apply(other.lhs, sigma) == cand.lhs && Apply(other.rhs, sigma) == cand.rhs;
    }
  }

  /** Variants have the same generalisations. */
  lemma InstanceOfVariant(other: Equation, a: Equation, b: Equation)
    requires Instance(a, b) && Instance(b, a)
    ensures Instance(other, a) <==> Instance(other, b)
  {
    if Instance(other, a) {
      InstanceTransitive(other, a, b);
    }
    if Instance(other, b) {
      InstanceTransitive(other, b, a);
    }
  }

  /** Some equation of `es` subsumes `cand` (the inner loop of `filterSubsumed`). */
  function SubsumedByAny(n: nat, cand: Equation, es: seq<Equation>): (r: (bool, nat))
    ensures n <= r.1
    decreases es
  {
    if es == [] then (false, n)
    else
      var (b, n1) := Subsumes(n, cand, es[0]);
      if b then (true, n1) else SubsumedByAny(n1, cand, es[1..])
  }

  lemma {:induction false} SubsumedByAnyIff(n: nat, cand: Equation, es: seq<Equation>)
    ensures SubsumedByAny(n, cand, es).0 <==> exists e :: e in es && Instance(e, cand)
    decreases es
  {
    if es != [] {
      SubsumesIff(n, cand, es[0]);
      SubsumedByAnyIff(Subsumes(n, cand, es[0]).1, cand, es[1..]);
      assert forall e :: e in es <==> e == es[0] || e in es[1..];
    }
  }

  /** `filterSubsumed`: the candidates, in order, that no equation of `E` subsumes. */
  function FilterSubsumed(n: nat, E: seq<Equation>, cps: seq<Equation>): (r: (seq<Equation>, nat))
    ensures n <= r.1
    ensures multiset(r.0) <= multiset(cps)
    decreases cps
  {
    if cps == [] then ([], n)
    else
      var (b, n1) := SubsumedByAny(n, cps[0], E);
      var (rest, n2) := FilterSubsumed(n1, E, cps[1..]);
      assert cps == [cps[0]] + cps[1..];
      (if b then rest else [cps[0]] + rest, n2)
  }

  /** A candidate survives exactly when no equation of `E` subsumes it. */
  lemma {:induction false} FilterSubsumedIff(n: nat, E: seq<Equation>, cps: seq<Equation>, c: Equation)
    ensures c in FilterSubsumed(n, E, cps).0 <==> c in cps && forall e :: e in E ==> !Instance(e, c)
    decreases cps
  {
    if cps != [] {
      SubsumedByAnyIff(n, cps[0], E);
      FilterSubsumedIff(SubsumedByAny(n, cps[0], E).1, E, cps[1..], c);
      assert forall x :: x in cps <==> x == cps[0] || x in cps[1..];
    }
  }

  /** `e` subsumes `c` in one of the four orientations `filterSubsumedBySelf` tries. */
  ghost predicate SubsumedEitherWay(e: Equation, c: Equation) {
    Instance(e, c) || Instance(e, c.Reverse()) || Instance(e.Reverse(), c) || Instance(e.Reverse(), c.Reverse())
  }

  /** The fourth orientation is the first one again. */
  lemma ReversedBothWays(e: Equation, c: Equation)
    ensures Instance(e.Reverse(), c.Reverse()) <==> Instance(e, c)
  {
    if Instance(e, c) {
      var s :| Apply(e.lhs, s) == c.lhs && Apply(e.rhs, s) == c.rhs;
      assert Apply(e.Reverse().lhs, s) == c.Reverse().lhs;
    }
    if Instance(e.Reverse(), c.Reverse()) {
      var s :| Apply(e.Reverse().lhs, s) == c.Reverse().lhs && Apply(e.Reverse().rhs, s) == c.Reverse().rhs;
      assert Apply(e.lhs, s) == c.lhs;
    }
  }

  /** The four tests `filterSubsumedBySelf` makes of `cand` against one other
      equation `e`, stopping at the first success. */
  function SubsumesSomeWay(n: nat, cand: Equation, e: Equation): (r: (bool, nat))
    ensures n <= r.1
  {
    var (b1, n1) := Subsumes(n, cand, e);
    if b1 then (true, n1) else
    var (b2, n2) := Subsumes(n1, cand.Reverse(), e);
    if b2 then (true, n2) else
    var (b3, n3) := Subsumes(n2, cand, e.Reverse());
    if b3 then (true, n3) else
    Subsumes(n3, cand.Reverse(), e.Reverse())
  }

  lemma SubsumesSomeWayIff(n: nat, cand: Equation, e: Equation)
    ensures SubsumesSomeWay(n, cand, e).0 <==> SubsumedEitherWay(e, cand)
  {
    var (b1, n1) := Subsumes(n, cand, e);
    var (b2, n2) := Subsumes(n1, cand.Reverse(), e);
    var (b3, n3) := Subsumes(n2, cand, e.Reverse());
    SubsumesIff(n, cand, e);
    SubsumesIff(n1, cand.Reverse(), e);
    SubsumesIff(n2, cand, e.Reverse());
    SubsumesIff(n3, cand.Reverse(), e.Reverse());
  }

  /** The inner loop of `filterSubsumedBySelf`: some other equation of `es`
      subsumes `cand`. */
  function SubsumedByOther(n: nat, cand: Equation, es: seq<Equation>): (r: (bool, nat))
    ensures n <= r.1
    decreases es
  {
    if es == [] then (false, n)
    else if cand == es[0] then SubsumedByOther(n, cand, es[1..])
    else
      var (b, n1) := SubsumesSomeWay(n, cand, es[0]);
      if b then (true, n1) else SubsumedByOther(n1, cand, es[1..])
  }

  lemma {:induction false} SubsumedByOtherIff(n: nat, cand: Equation, es: seq<Equation>)
    ensures SubsumedByOther(n, cand, es).0 <==> exists e :: e in es && e != cand && SubsumedEitherWay(e, cand)
    decreases es
  {
    if es != [] {
      assert forall x :: x in es <==> x == es[0] || x in es[1..];
      if cand == es[0] {
        SubsumedByOtherIff(n, cand, es[1..]);
      } else {
        SubsumesSomeWayIff(n, cand, es[0]);
        SubsumedByOtherIff(SubsumesSomeWay(n, cand, es[0]).1, cand, es[1..]);
      }
    }
  }

  /** `filterSubsumedBySelf`, one candidate at a time: `kept` holds the
      survivors so far and `rest` the candidates not yet visited, so the list
      the candidate is compared against is `kept + rest`, as with the source's
      in-place iterator removal. */
  function SelfFilter(n: nat, kept: seq<Equation>, rest: seq<Equation>): (r: (seq<Equation>, nat))
    ensures n <= r.1
    ensures multiset(r.0) <= multiset(kept + rest)
    decreases rest
  {
    if rest == [] then (kept, n)
    else
      ShiftHead(kept, rest);
      var cand := rest[0];
      var (hit, n1) := SubsumedByOther(n, cand, kept + rest);
      if hit then SelfFilter(n1, kept, rest[1..]) else SelfFilter(n1, kept + [cand], rest[1..])
  }

  function FilterSubsumedBySelf(n: nat, cps: seq<Equation>): (r: (seq<Equation>, nat))
    ensures n <= r.1
    ensures multiset(r.0) <= multiset(cps)
  {
    assert [] + cps == cps;
    SelfFilter(n, [], cps)
  }

  /** No survivor is subsumed by another equation of the list it was checked against. */
  ghost predicate SelfFree(kept: seq<Equation>, all: seq<Equation>) {
    forall c, e :: c in kept && e in all && e != c ==> !SubsumedEitherWay(e, c)
  }

  lemma {:induction false} SelfFilterMembers(n: nat, kept: seq<Equation>, rest: seq<Equation>)
    ensures forall c :: c in kept ==> c in SelfFilter(n, kept, rest).0
    ensures forall c :: c in SelfFilter(n, kept, rest).0 ==> c in kept || c in rest
    decreases rest
  {
    if rest != [] {
      var cand := rest[0];
      var (hit, n1) := SubsumedByOther(n, cand, kept + rest);
      var kept' := if hit then kept else kept + [cand];
      var r := SelfFilter(n1, kept', rest[1..]).0;
      assert SelfFilter(n, kept, rest).0 == r;
      SelfFilterMembers(n1, kept', rest[1..]);
      forall c | c in r ensures c in kept || c in rest {
        assert c in kept' || c in rest[1..];
      }
    }
  }

  lemma {:induction false} SelfFilterFree(n: nat, kept: seq<Equation>, rest: seq<Equation>)
    requires SelfFree(kept, kept + rest)
    ensures SelfFree(SelfFilter(n, kept, rest).0, SelfFilter(n, kept, rest).0)
    decreases rest
  {
    if rest == [] {
      assert kept + rest == kept;
    } else {
      var cand := rest[0];
      var (hit, n1) := SubsumedByOther(n, cand, kept + rest);
      SubsumedByOtherIff(n, cand, kept + rest);
      if hit {
        assert SelfFree(kept, kept + rest[1..]) by {
          forall c, e | c in kept && e in kept + rest[1..] && e != c ensures !SubsumedEitherWay(e, c) {
            assert e in kept + rest;
          }
        }
        SelfFilterFree(n1, kept, rest[1..]);
      } else {
        ShiftHead(kept, rest);
        SelfFilterFree(n1, kept + [cand], rest[1..]);
      }
    }
  }

  lemma {:induction false} SelfFilterDropped(n: nat, kept: seq<Equation>, rest: seq<Equation>)
    ensures var r := SelfFilter(n, kept, rest).0;
            forall c :: c in rest && c !in r ==> exists e :: e in kept + rest && e != c && SubsumedEitherWay(e, c)
    decreases rest
  {
    if rest != [] {
      var r := SelfFilter(n, kept, rest).0;
      var cand := rest[0];
      var (hit, n1) := SubsumedByOther(n, cand, kept + rest);
      SubsumedByOtherIff(n, cand, kept + rest);
      var kept' := if hit then kept else kept + [cand];
      assert r == SelfFilter(n1, kept', rest[1..]).0;
      SelfFilterDropped(n1, kept', rest[1..]);
      SelfFilterMembers(n1, kept', rest[1..]);
      forall c | c in rest && c !in r
        ensures exists e :: e in kept + rest && e != c && SubsumedEitherWay(e, c)
      {
        if c != cand {
          assert c in rest[1..];
          var e :| e in kept' + rest[1..] && e != c && SubsumedEitherWay(e, c);
          assert e in kept + rest;
        }
      }
    }
  }

  /** The result keeps only input equations, no survivor subsumes another one,
      and every dropped equation is subsumed by some other equation of the input. */
  lemma FilterSubsumedBySelfSpec(n: nat, cps: seq<Equation>)
    ensures var r := FilterSubsumedBySelf(n, cps).0;
            && (forall c :: c in r ==> c in cps)
            && (forall c, e :: c in r && e in r && e != c ==> !SubsumedEitherWay(e, c))
            && (forall c :: c in cps && c !in r ==>
                  exists e :: e in cps && e != c && SubsumedEitherWay(e, c))
  {
    assert [] + cps == cps;
    SelfFilterMembers(n, [], cps);
    SelfFilterFree(n, [], cps);
    SelfFilterDropped(n, [], cps);
  }
}
