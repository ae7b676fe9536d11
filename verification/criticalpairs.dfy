/** Critical pairs (`cp`, `allcps`, `allcps2`, `reduce` in KB.java). */
module CriticalPairs {
  import opened Base
  import opened Terms
  import opened Theory
  import opened Overlaps
  import opened Lists
  import opened Renaming
  import opened Params
  import opened Rewriting

  /** The test `cp` applies to an overlap's unifier `s`: the overlap is dropped
      when `d·s` is not below `g·s` or `b·s` is not below `a·s`, as far as the
      order (or syntactic equality) tells. */
  predicate Discarded(cfg: Config, ab: Equation, gd: Equation, s: Subst) {
    var g', d' := Apply(gd.lhs, s), Apply(gd.rhs, s);
    var a', b' := Apply(ab.lhs, s), Apply(ab.rhs, s);
    cfg.gt(d', g') || g' == d' || cfg.gt(b', a') || a' == b'
  }

  /** The equation an overlap contributes. */
  function Critical(o: Overlap): Equation {
    Equation(o.left, o.right)
  }

  /** Adds the equations of the overlaps that pass the test to `acc`, as a set. */
  function CollectCps(cfg: Config, ab: Equation, gd: Equation, os: seq<Overlap>, acc: seq<Equation>): (r: seq<Equation>)
    ensures NoDups(acc) ==> NoDups(r)
    ensures forall c :: c in r <==>
              c in acc || exists o :: o in os && !Discarded(cfg, ab, gd, o.sigma) && c == Critical(o)
    decreases os
  {
    if os == [] then acc
    else
      var acc' := if Discarded(cfg, ab, gd, os[0].sigma) then acc else Add(acc, Critical(os[0]));
      assert forall o :: o in os <==> o == os[0] || o in os[1..];
      CollectCps(cfg, ab, gd, os[1..], acc')
  }

  /** `cp(gd0, ab0)`: rename both equations apart (`ab0` first), enumerate the
      overlaps of `ab` into `gd`, keep those passing the test. */
  function Cp(cfg: Config, n: nat, gd0: Equation, ab0: Equation): (r: (seq<Equation>, nat))
    ensures NoDups(r.0) && n <= r.1
  {
    var (ab, n1) := Freshen(n, ab0);
    var (gd, n2) := Freshen(n1, gd0);
    (CollectCps(cfg, ab, gd, Overlaps.Overlaps(gd.lhs, [], ab.lhs, ab.rhs, gd.lhs, gd.rhs), []), n2)
  }

  /** The critical pairs are exactly the overlaps of the renamed `ab` at
      non-variable positions of the renamed `gd` that pass the test. */
  lemma CpIff(cfg: Config, n: nat, gd0: Equation, ab0: Equation, c: Equation)
    ensures var (ab, n1) := Freshen(n, ab0);
            var gd := Freshen(n1, gd0).0;
            c in Cp(cfg, n, gd0, ab0).0 <==>
              exists q, o :: OverlapAt(gd.lhs, q, ab.lhs, ab.rhs, gd.rhs, o)
                             && !Discarded(cfg, ab, gd, o.sigma) && c == Critical(o)
  {
    var (ab, n1) := Freshen(n, ab0);
    var gd := Freshen(n1, gd0).0;
    var os := Overlaps.Overlaps(gd.lhs, [], ab.lhs, ab.rhs, gd.lhs, gd.rhs);
    if c in Cp(cfg, n, gd0, ab0).0 {
      var o :| o in os && !Discarded(cfg, ab, gd, o.sigma) && c == Critical(o);
      OverlapsExact(ab.lhs, ab.rhs, gd.lhs, gd.rhs, o);
    }
    if exists q, o :: OverlapAt(gd.lhs, q, ab.lhs, ab.rhs, gd.rhs, o) && !Discarded(cfg, ab, gd, o.sigma) && c == Critical(o) {
      var q, o :| OverlapAt(gd.lhs, q, ab.lhs, ab.rhs, gd.rhs, o) && !Discarded(cfg, ab, gd, o.sigma) && c == Critical(o);
      OverlapsExact(ab.lhs, ab.rhs, gd.lhs, gd.rhs, o);
    }
  }

  /** Critical pairs are consequences of the two equations they come from. */
  lemma CpSound(rules: seq<Equation>, cfg: Config, n: nat, gd0: Equation, ab0: Equation)
    requires Holds(rules, gd0) && Holds(rules, ab0)
    ensures Entails(rules, Cp(cfg, n, gd0, ab0).0)
  {
    var (ab, n1) := Freshen(n, ab0);
    var gd := Freshen(n1, gd0).0;
    FreshenVariant(n, ab0);
    FreshenVariant(n1, gd0);
    HoldsInstance(rules, ab0, ab);
    HoldsInstance(rules, gd0, gd);
    forall c | c in Cp(cfg, n, gd0, ab0).0 ensures Convertible(rules, c.lhs, c.rhs) {
      CpIff(cfg, n, gd0, ab0, c);
      var q, o :| OverlapAt(gd.lhs, q, ab.lhs, ab.rhs, gd.rhs, o) && !Discarded(cfg, ab, gd, o.sigma) && c == Critical(o);
      OverlapSound(rules, gd.lhs, q, ab.lhs, ab.rhs, gd.rhs, o);
    }
  }

  // ---------------------------------------------------------------------------
  // Visiting pairs of equations once

  /** The critical pairs found so far (a set), the pairs of equations already
      superposed, and the fresh-variable counter. */
  datatype Batch = Batch(cps: seq<Equation>, seen: set<(Equation, Equation)>, next: nat)

  /** One guarded call of `cp` in `allcps`/`allcps2`: skipped when the pair was
      seen, otherwise its critical pairs are added and the pair is marked. */
  function Visit(cfg: Config, b: Batch, x: Equation, y: Equation): (r: Batch)
    ensures r.seen == b.seen + {(x, y)}
    ensures b.cps <= r.cps && b.next <= r.next
    ensures NoDups(b.cps) ==> NoDups(r.cps)
    ensures (x, y) in b.seen ==> r == b
    ensures (x, y) !in b.seen ==> forall c :: c in r.cps <==> c in b.cps || c in Cp(cfg, b.next, x, y).0
  {
    if (x, y) in b.seen then b
    else
      var (cs, n') := Cp(cfg, b.next, x, y);
      Batch(AddAll(b.cps, cs), b.seen + {(x, y)}, n')
  }

  function VisitAll(cfg: Config, b: Batch, pairs: seq<(Equation, Equation)>): (r: Batch)
    ensures r.seen == b.seen + set p | p in pairs
    ensures b.cps <= r.cps && b.next <= r.next
    ensures NoDups(b.cps) ==> NoDups(r.cps)
    decreases pairs
  {
    if pairs == [] then b
    else
      assert forall p :: p in pairs <==> p == pairs[0] || p in pairs[1..];
      VisitAll(cfg, Visit(cfg, b, pairs[0].0, pairs[0].1), pairs[1..])
  }

  /** Pairs already seen produce nothing new. */
  lemma {:induction false} VisitAllSeen(cfg: Config, b: Batch, pairs: seq<(Equation, Equation)>)
    requires forall p :: p in pairs ==> p in b.seen
    ensures VisitAll(cfg, b, pairs) == b
    decreases pairs
  {
    if pairs != [] {
      VisitAllSeen(cfg, b, pairs[1..]);
    }
  }

  /** Visiting pairs of equations that hold adds only consequences. */
  lemma {:induction false} VisitAllSound(rules: seq<Equation>, cfg: Config, b: Batch, pairs: seq<(Equation, Equation)>)
    requires Entails(rules, b.cps)
    requires forall p :: p in pairs ==> Holds(rules, p.0) && Holds(rules, p.1)
    ensures Entails(rules, VisitAll(cfg, b, pairs).cps)
    decreases pairs
  {
    if pairs != [] {
      var (x, y) := pairs[0];
      var b' := Visit(cfg, b, x, y);
      if (x, y) !in b.seen {
        CpSound(rules, cfg, b.next, x, y);
      }
      VisitAllSound(rules, cfg, b', pairs[1..]);
    }
  }

  /** `c` is a critical pair of the pair `p` for some value of the counter,
      that is, up to the names of the fresh variables. */
  ghost predicate CpOf(cfg: Config, p: (Equation, Equation), c: Equation) {
    exists m: nat :: c in Cp(cfg, m, p.0, p.1).0
  }

  /** All critical pairs of `p`, for one value of the counter, are in `cps`. */
  ghost predicate CpsIncluded(cfg: Config, p: (Equation, Equation), cps: seq<Equation>) {
    exists m: nat :: forall c :: c in Cp(cfg, m, p.0, p.1).0 ==> c in cps
  }

  /** Nothing is found but what was there and the critical pairs of pairs
      visited for the first time. */
  lemma {:induction false} VisitAllFrom(cfg: Config, b: Batch, pairs: seq<(Equation, Equation)>, c: Equation)
    requires c in VisitAll(cfg, b, pairs).cps
    ensures c in b.cps || exists p :: p in pairs && p !in b.seen && CpOf(cfg, p, c)
    decreases pairs
  {
    if pairs != [] {
      var b' := Visit(cfg, b, pairs[0].0, pairs[0].1);
      VisitAllFrom(cfg, b', pairs[1..], c);
      if c in b'.cps {
        if c !in b.cps {
          assert c in Cp(cfg, b.next, pairs[0].0, pairs[0].1).0;
          assert CpOf(cfg, pairs[0], c);
        }
      } else {
        var p :| p in pairs[1..] && p !in b'.seen && CpOf(cfg, p, c);
        assert p in pairs;
      }
    }
  }

  /** Every pair not seen before contributes all of its critical pairs. */
  lemma {:induction false} VisitAllCovers(cfg: Config, b: Batch, pairs: seq<(Equation, Equation)>, p: (Equation, Equation))
    requires p in pairs && p !in b.seen
    ensures CpsIncluded(cfg, p, VisitAll(cfg, b, pairs).cps)
    decreases pairs
  {
    var b' := Visit(cfg, b, pairs[0].0, pairs[0].1);
    var r := VisitAll(cfg, b', pairs[1..]);
    assert r == VisitAll(cfg, b, pairs);
    if p == pairs[0] {
      forall c | c in Cp(cfg, b.next, p.0, p.1).0 ensures c in r.cps {
        assert c in b'.cps;
      }
      assert CpsIncluded(cfg, p, r.cps);
    } else {
      assert p in pairs[1..] && p !in b'.seen;
      VisitAllCovers(cfg, b', pairs[1..], p);
    }
  }

  /** The pairs `allcps` superposes: `ab` with every rule, in both roles. */
  function RulePairs(R: seq<Equation>, ab: Equation): (ps: seq<(Equation, Equation)>)
    ensures forall p :: p in ps <==> exists gd :: gd in R && (p == (ab, gd) || p == (gd, ab))
    decreases R
  {
    if R == [] then []
    else
      assert forall gd :: gd in R <==> gd == R[0] || gd in R[1..];
      [(ab, R[0]), (R[0], ab)] + RulePairs(R[1..], ab)
  }

  /** The pairs `allcps2` superposes for one equation `gd`: `ab` and its
      reverse against `gd` and its reverse, in both roles. */
  function EquationPairs(ab: Equation, gd: Equation): seq<(Equation, Equation)> {
    var ba, dg := ab.Reverse(), gd.Reverse();
    [(ab, gd), (gd, ab), (ab, dg), (dg, ab), (ba, gd), (gd, ba), (ba, dg), (dg, ba)]
  }

  function EquationPairsOver(es: seq<Equation>, ab: Equation): (ps: seq<(Equation, Equation)>)
    ensures forall p :: p in ps <==> exists gd :: gd in es && p in EquationPairs(ab, gd)
    decreases es
  {
    if es == [] then []
    else
      assert forall gd :: gd in es <==> gd == es[0] || gd in es[1..];
      EquationPairs(ab, es[0]) + EquationPairsOver(es[1..], ab)
  }

  /** `allcps(seen, ab)` against the rules `R`. */
  function AllCps(cfg: Config, n: nat, seen: set<(Equation, Equation)>, R: seq<Equation>, ab: Equation): (r: Batch)
    ensures NoDups(r.cps) && n <= r.next
    ensures r.seen == seen + set p | p in RulePairs(R, ab)
  {
    VisitAll(cfg, Batch([], seen, n), RulePairs(R, ab))
  }

  /** The pairs of `allcps2(seen, ab)`: every equation of `E` together with
      `ab` and its reverse, then every rule. */
  function AllCps2Pairs(E: seq<Equation>, R: seq<Equation>, ab: Equation): seq<(Equation, Equation)> {
    var E0 := Add(Add(AddAll([], E), ab), ab.Reverse());
    EquationPairsOver(E0, ab) + RulePairs(R, ab) + RulePairs(R, ab.Reverse())
  }

  /** `allcps2` on the reverse of `ab` superposes no pair that `allcps2` on
      `ab` itself does not: both sides of an equation enter every pair in both
      orientations. */
  lemma AllCps2PairsReverse(E: seq<Equation>, R: seq<Equation>, ab: Equation)
    ensures forall p :: p in AllCps2Pairs(E, R, ab.Reverse()) ==> p in AllCps2Pairs(E, R, ab)
  {
    var ba := ab.Reverse();
    assert ba.Reverse() == ab;
    forall p | p in AllCps2Pairs(E, R, ba) ensures p in AllCps2Pairs(E, R, ab) {
      AllCps2PairsIff(E, R, ba, p);
      AllCps2PairsIff(E, R, ab, p);
      if exists gd :: (gd in E || gd == ba || gd == ab) && p in EquationPairs(ba, gd) {
        var gd :| (gd in E || gd == ba || gd == ab) && p in EquationPairs(ba, gd);
        assert p in EquationPairs(ab, gd);
      }
    }
  }

  /** `allcps2(seen, ab)` against the equations `E` and rules `R`. The source
      visits, per rule, `(ab,gd), (gd,ab), (ba,gd), (gd,ba)`; the model visits
      the `ab` pairs of all rules before the `ba` pairs, which only reorders
      the resulting set. */
  function AllCps2(cfg: Config, n: nat, seen: set<(Equation, Equation)>, E: seq<Equation>, R: seq<Equation>, ab: Equation): (r: Batch)
    ensures NoDups(r.cps) && n <= r.next
    ensures r.seen == seen + set p | p in AllCps2Pairs(E, R, ab)
  {
    VisitAll(cfg, Batch([], seen, n), AllCps2Pairs(E, R, ab))
  }

  lemma AllCpsSound(rules: seq<Equation>, cfg: Config, n: nat, seen: set<(Equation, Equation)>, R: seq<Equation>, ab: Equation)
    requires Holds(rules, ab) && forall gd :: gd in R ==> Holds(rules, gd)
    ensures Entails(rules, AllCps(cfg, n, seen, R, ab).cps)
  {
    VisitAllSound(rules, cfg, Batch([], seen, n), RulePairs(R, ab));
  }

  lemma EquationPairsHold(rules: seq<Equation>, ab: Equation, gd: Equation)
    requires Holds(rules, ab) && Holds(rules, gd)
    ensures forall p :: p in EquationPairs(ab, gd) ==> Holds(rules, p.0) && Holds(rules, p.1)
  {
    HoldsReverse(rules, ab);
    HoldsReverse(rules, gd);
  }

  lemma PairsHold(rules: seq<Equation>, E: seq<Equation>, R: seq<Equation>, ab: Equation, p: (Equation, Equation))
    requires Holds(rules, ab)
    requires forall e :: e in E ==> Holds(rules, e)
    requires forall gd :: gd in R ==> Holds(rules, gd)
    requires p in AllCps2Pairs(E, R, ab)
    ensures Holds(rules, p.0) && Holds(rules, p.1)
  {
    var ba := ab.Reverse();
    HoldsReverse(rules, ab);
    var E0 := Add(Add(AddAll([], E), ab), ba);
    if p in EquationPairsOver(E0, ab) {
      var gd :| gd in E0 && p in EquationPairs(ab, gd);
      EquationPairsHold(rules, ab, gd);
    } else if p !in RulePairs(R, ab) {
      assert p in RulePairs(R, ba);
    }
  }

  lemma AllCps2Sound(rules: seq<Equation>, cfg: Config, n: nat, seen: set<(Equation, Equation)>,
                     E: seq<Equation>, R: seq<Equation>, ab: Equation)
    requires Holds(rules, ab)
    requires forall e :: e in E ==> Holds(rules, e)
    requires forall gd :: gd in R ==> Holds(rules, gd)
    ensures Entails(rules, AllCps2(cfg, n, seen, E, R, ab).cps)
  {
    forall p | p in AllCps2Pairs(E, R, ab) ensures Holds(rules, p.0) && Holds(rules, p.1) {
      PairsHold(rules, E, R, ab, p);
    }
    VisitAllSound(rules, cfg, Batch([], seen, n), AllCps2Pairs(E, R, ab));
  }

  /** `allcps` finds exactly the critical pairs of the pairs it superposes
      (`ab` against every rule, in both roles; see `RulePairs`) that were not
      seen before. */
  lemma AllCpsExact(cfg: Config, n: nat, seen: set<(Equation, Equation)>, R: seq<Equation>, ab: Equation)
    ensures forall c :: c in AllCps(cfg, n, seen, R, ab).cps ==>
              exists p :: p in RulePairs(R, ab) && p !in seen && CpOf(cfg, p, c)
    ensures forall p :: p in RulePairs(R, ab) && p !in seen ==> CpsIncluded(cfg, p, AllCps(cfg, n, seen, R, ab).cps)
  {
    var b := Batch([], seen, n);
    forall c | c in AllCps(cfg, n, seen, R, ab).cps
      ensures exists p :: p in RulePairs(R, ab) && p !in seen && CpOf(cfg, p, c)
    {
      VisitAllFrom(cfg, b, RulePairs(R, ab), c);
    }
    forall p | p in RulePairs(R, ab) && p !in seen ensures CpsIncluded(cfg, p, AllCps(cfg, n, seen, R, ab).cps) {
      VisitAllCovers(cfg, b, RulePairs(R, ab), p);
    }
  }

  /** The pairs of `allcps2`: `ab` or its reverse against every equation of
      `E`, `ab` itself and its reverse (each in both orientations and both
      roles), and against every rule in both roles. */
  lemma AllCps2PairsIff(E: seq<Equation>, R: seq<Equation>, ab: Equation, p: (Equation, Equation))
    ensures p in AllCps2Pairs(E, R, ab) <==>
              (exists gd :: (gd in E || gd == ab || gd == ab.Reverse()) && p in EquationPairs(ab, gd)) ||
              (exists gd :: gd in R && (p == (ab, gd) || p == (gd, ab) || p == (ab.Reverse(), gd) || p == (gd, ab.Reverse())))
  {
    var ba := ab.Reverse();
    var E0 := Add(Add(AddAll([], E), ab), ba);
    assert AllCps2Pairs(E, R, ab) == EquationPairsOver(E0, ab) + RulePairs(R, ab) + RulePairs(R, ba);
    assert forall gd :: gd in E0 <==> gd in E || gd == ab || gd == ba;
    if p in EquationPairsOver(E0, ab) {
      var gd :| gd in E0 && p in EquationPairs(ab, gd);
    } else if p in RulePairs(R, ab) {
      var gd :| gd in R && (p == (ab, gd) || p == (gd, ab));
    } else if p in RulePairs(R, ba) {
      var gd :| gd in R && (p == (ba, gd) || p == (gd, ba));
    }
    if exists gd :: (gd in E || gd == ab || gd == ba) && p in EquationPairs(ab, gd) {
      var gd :| (gd in E || gd == ab || gd == ba) && p in EquationPairs(ab, gd);
      assert p in EquationPairsOver(E0, ab);
    }
    if exists gd :: gd in R && (p == (ab, gd) || p == (gd, ab) || p == (ba, gd) || p == (gd, ba)) {
      var gd :| gd in R && (p == (ab, gd) || p == (gd, ab) || p == (ba, gd) || p == (gd, ba));
      if p == (ab, gd) || p == (gd, ab) {
        assert p in RulePairs(R, ab);
      } else {
        assert p in RulePairs(R, ba);
      }
    }
  }

  /** `allcps2` finds exactly the critical pairs of the pairs it superposes
      that were not seen before. */
  lemma AllCps2Exact(cfg: Config, n: nat, seen: set<(Equation, Equation)>, E: seq<Equation>, R: seq<Equation>, ab: Equation)
    ensures forall c :: c in AllCps2(cfg, n, seen, E, R, ab).cps ==>
              exists p :: p in AllCps2Pairs(E, R, ab) && p !in seen && CpOf(cfg, p, c)
    ensures forall p :: p in AllCps2Pairs(E, R, ab) && p !in seen ==> CpsIncluded(cfg, p, AllCps2(cfg, n, seen, E, R, ab).cps)
  {
    var b := Batch([], seen, n);
    forall c | c in AllCps2(cfg, n, seen, E, R, ab).cps
      ensures exists p :: p in AllCps2Pairs(E, R, ab) && p !in seen && CpOf(cfg, p, c)
    {
      VisitAllFrom(cfg, b, AllCps2Pairs(E, R, ab), c);
    }
    forall p | p in AllCps2Pairs(E, R, ab) && p !in seen ensures CpsIncluded(cfg, p, AllCps2(cfg, n, seen, E, R, ab).cps) {
      VisitAllCovers(cfg, b, AllCps2Pairs(E, R, ab), p);
    }
  }

  /** When every pair has been superposed before, nothing is found. */
  lemma AllCpsSeenBefore(cfg: Config, n: nat, seen: set<(Equation, Equation)>, R: seq<Equation>, ab: Equation)
    requires forall gd :: gd in R ==> (ab, gd) in seen && (gd, ab) in seen
    ensures AllCps(cfg, n, seen, R, ab) == Batch([], seen, n)
  {
    VisitAllSeen(cfg, Batch([], seen, n), RulePairs(R, ab));
  }

  // ---------------------------------------------------------------------------
  // reduce

  /** `reduce`: normalise both sides of every equation, dropping those whose
      normal forms coincide, and collect the rest as a set. */
  function Reduce(cfg: Config, n: nat, E: seq<Equation>, R: seq<Equation>, cps: seq<Equation>, acc: seq<Equation>): (r: Result<(seq<Equation>, nat)>)
    ensures r.Err? ==> r.error == ReductionDivergence
    ensures r.Ok? ==> acc <= r.value.0 && (NoDups(acc) ==> NoDups(r.value.0))
    ensures r.Ok? ==> forall c :: c in r.value.0 && c !in acc ==> c.lhs != c.rhs
    decreases cps
  {
    if cps == [] then Ok((acc, n))
    else
      var lr :- Red(cfg, n, E, R, cps[0].lhs);
      var rr :- Red(cfg, lr.1, E, R, cps[0].rhs);
      var acc' := if lr.0 == rr.0 then acc else Add(acc, Equation(lr.0, rr.0));
      Reduce(cfg, rr.1, E, R, cps[1..], acc')
  }

  /** Reduction keeps consequences consequences, and leaves both sides of every
      new equation irreducible. */
  lemma {:induction false} ReduceSound(rules: seq<Equation>, cfg: Config, n: nat, E: seq<Equation>, R: seq<Equation>,
                                       cps: seq<Equation>, acc: seq<Equation>)
    requires Within(E, rules) && Within(R, rules)
    requires Entails(rules, cps) && Entails(rules, acc)
    requires Reduce(cfg, n, E, R, cps, acc).Ok?
    ensures Entails(rules, Reduce(cfg, n, E, R, cps, acc).value.0)
    ensures forall c :: c in Reduce(cfg, n, E, R, cps, acc).value.0 && c !in acc ==>
              Irreducible(cfg, E, R, c.lhs) && Irreducible(cfg, E, R, c.rhs)
    decreases cps
  {
    if cps != [] {
      var c := cps[0];
      var lr := Red(cfg, n, E, R, c.lhs).value;
      var rr := Red(cfg, lr.1, E, R, c.rhs).value;
      RedSound(rules, cfg, n, E, R, c.lhs);
      RedSound(rules, cfg, lr.1, E, R, c.rhs);
      var acc' := if lr.0 == rr.0 then acc else Add(acc, Equation(lr.0, rr.0));
      assert Entails(rules, acc') by {
        assert Proves(rules, c);
        ConvertibleSym(rules, c.lhs, lr.0);
        ConvertibleTrans(rules, lr.0, c.lhs, c.rhs);
        ConvertibleTrans(rules, lr.0, c.rhs, rr.0);
      }
      assert Entails(rules, cps[1..]) by {
        assert forall x :: x in cps[1..] ==> x in cps;
      }
      ReduceSound(rules, cfg, rr.1, E, R, cps[1..], acc');
    }
  }

  /** The converse of `ReduceSound`: every input equation is a consequence of
      the reducing system together with the equations kept. */
  lemma {:induction false} ReduceComplete(rules: seq<Equation>, cfg: Config, n: nat, E: seq<Equation>, R: seq<Equation>,
                                          cps: seq<Equation>, acc: seq<Equation>)
    requires Within(E, rules) && Within(R, rules)
    requires Reduce(cfg, n, E, R, cps, acc).Ok?
    requires forall c :: c in Reduce(cfg, n, E, R, cps, acc).value.0 ==> c in rules
    ensures Entails(rules, cps)
    decreases cps
  {
    if cps != [] {
      var c := cps[0];
      var lr := Red(cfg, n, E, R, c.lhs).value;
      var rr := Red(cfg, lr.1, E, R, c.rhs).value;
      RedSound(rules, cfg, n, E, R, c.lhs);
      RedSound(rules, cfg, lr.1, E, R, c.rhs);
      var acc' := if lr.0 == rr.0 then acc else Add(acc, Equation(lr.0, rr.0));
      ReduceComplete(rules, cfg, rr.1, E, R, cps[1..], acc');
      if lr.0 != rr.0 {
        HoldsMember(rules, Equation(lr.0, rr.0));
        HoldsConvertible(rules, Equation(lr.0, rr.0));
        ConvertibleTrans(rules, c.lhs, lr.0, rr.0);
      }
      ConvertibleSym(rules, c.rhs, rr.0);
      ConvertibleTrans(rules, c.lhs, rr.0, c.rhs);
      forall x | x in cps ensures Proves(rules, x) {
        if x != c {
          assert x in cps[1..];
        }
      }
    }
  }
}
