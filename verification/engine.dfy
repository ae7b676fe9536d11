/** The completion engine of KB.java: its state, one round of completion
    (`step`) with the sub-steps it is made of, and the queries `nf` and `eq`. */
module Engine {
  import opened Base
  import opened Terms
  import opened Theory
  import opened Lists
  import opened Sorting
  import opened Params
  import opened Subsumption
  import opened Rewriting
  import opened CriticalPairs

  /** The mutable fields of `KB`: the equation list `E`, the rule set `R`, the
      pairs of equations already superposed, the fresh-variable counter and
      the two completeness flags. */
  datatype KB = KB(
    E: seq<Equation>,
    R: seq<Equation>,
    seen: set<(Equation, Equation)>,
    next: nat,
    isComplete: bool,
    isCompleteGround: bool)

  /** The theory a state presents: its equations and its rules together. */
  function Axioms(kb: KB): seq<Equation> {
    kb.E + kb.R
  }

  /** The constructor: the initial set of equations becomes the list `E`;
      there are no rules, nothing has been superposed, nothing is complete. */
  function Init(E0: seq<Equation>, n: nat): (kb: KB)
    ensures kb.R == [] && kb.seen == {} && kb.next == n
    ensures !kb.isComplete && !kb.isCompleteGround
    ensures NoDups(kb.E) && forall e :: e in kb.E <==> e in E0
  {
    KB(AddAll([], E0), [], {}, n, false, false)
  }

  /** The initial state presents exactly the theory of the initial equations. */
  lemma InitTheory(E0: seq<Equation>, n: nat)
    ensures Equivalent(Axioms(Init(E0, n)), E0)
  {
    var kb := Init(E0, n);
    assert Axioms(kb) == kb.E;
    EquivalentSameMembers(Axioms(kb), E0);
  }

  // ---------------------------------------------------------------------------
  // pick and orientation

  /** The index of the first orientable equation at or after `i`, if any. */
  function FirstOrientable(cfg: Config, E: seq<Equation>, i: nat): (r: Option<nat>)
    requires i <= |E|
    ensures r.Some? ==> i <= r.value < |E| && Orientable(cfg, E[r.value])
    ensures r.Some? ==> forall j :: i <= j < r.value ==> !Orientable(cfg, E[j])
    ensures r.None? ==> forall j :: i <= j < |E| ==> !Orientable(cfg, E[j])
    decreases |E| - i
  {
    if i == |E| then None
    else if Orientable(cfg, E[i]) then Some(i)
    else FirstOrientable(cfg, E, i + 1)
  }

  /** `pick`: the position of the first orientable equation, or of the first
      equation when none is orientable. The source only picks from a non-empty
      list (`checkEmpty` has returned false). */
  function Pick(cfg: Config, E: seq<Equation>): (k: nat)
    requires E != []
    ensures k < |E|
    ensures forall j :: 0 <= j < k ==> !Orientable(cfg, E[j])
    ensures Orientable(cfg, E[k]) || (k == 0 && forall j :: 0 <= j < |E| ==> !Orientable(cfg, E[j]))
  {
    match FirstOrientable(cfg, E, 0)
    case Some(k) => k
    case None => 0
  }

  /** `orientable` and its negation, as values to filter by. */
  function IsOrientable(cfg: Config): Equation -> bool {
    e => Orientable(cfg, e)
  }

  function IsUnorientable(cfg: Config): Equation -> bool {
    e => !Orientable(cfg, e)
  }

  /** What `step` makes of the picked equation. */
  datatype Orientation = Oriented(ab: Equation) | Trivial | Unoriented

  /** The order is tried left to right first, then right to left; an equation
      it cannot orient is trivial when its sides coincide. */
  function Orient(cfg: Config, st: Equation): (o: Orientation)
    ensures o.Oriented? <==> Orientable(cfg, st)
    ensures o.Oriented? ==> cfg.gt(o.ab.lhs, o.ab.rhs) && (o.ab == st || o.ab == st.Reverse())
    ensures o.Oriented? && cfg.gt(st.lhs, st.rhs) ==> o.ab == st
    ensures o.Trivial? <==> !Orientable(cfg, st) && st.lhs == st.rhs
  {
    if cfg.gt(st.lhs, st.rhs) then Oriented(st)
    else if cfg.gt(st.rhs, st.lhs) then Oriented(st.Reverse())
    else if st.lhs == st.rhs then Trivial
    else Unoriented
  }

  /** Oriented equations follow from the equation they orient, and back. */
  lemma OrientedEquivalent(cfg: Config, st: Equation, rules: seq<Equation>)
    requires Orient(cfg, st).Oriented?
    ensures var ab := Orient(cfg, st).ab;
            Holds(rules, st) <==> Holds(rules, ab)
  {
    var ab := Orient(cfg, st).ab;
    if ab != st {
      assert ab.Reverse() == st;
      if Holds(rules, st) {
        HoldsReverse(rules, st);
      }
      if Holds(rules, ab) {
        HoldsReverse(rules, ab);
      }
    }
  }

  // ---------------------------------------------------------------------------
  // sortByStrLen

  /** `sortByStrLen`: without unfailing completion the whole list is sorted by
      rendering; with it, the orientable equations come first, sorted, and the
      unorientable ones follow in their original order. */
  function SortByStrLen(cfg: Config, l: seq<Equation>): (r: seq<Equation>)
    ensures multiset(r) == multiset(l)
    ensures !cfg.unfailing ==> SortedBy(r, cfg.render)
  {
    if !cfg.unfailing then SortByKey(l, cfg.render)
    else
      FilterSplit(l, IsOrientable(cfg), IsUnorientable(cfg));
      SortByKey(Filter(l, IsOrientable(cfg)), cfg.render) + Filter(l, IsUnorientable(cfg))
  }

  /** Under unfailing completion the result splits into a sorted run of
      orientable equations and, after it, the unorientable equations in the
      order they had. */
  lemma SortByStrLenPartition(cfg: Config, l: seq<Equation>)
    requires cfg.unfailing
    ensures var r := SortByStrLen(cfg, l);
            exists k :: 0 <= k <= |r|
              && SortedBy(r[..k], cfg.render)
              && (forall i :: 0 <= i < k ==> Orientable(cfg, r[i]))
              && (forall i :: k <= i < |r| ==> !Orientable(cfg, r[i]))
              && r[k..] == Filter(l, IsUnorientable(cfg))
  {
    var front := SortByKey(Filter(l, IsOrientable(cfg)), cfg.render);
    var back := Filter(l, IsUnorientable(cfg));
    forall i | 0 <= i < |front| ensures Orientable(cfg, front[i]) {
      FilterMember(l, IsOrientable(cfg), front[i]);
    }
    forall i | 0 <= i < |back| ensures !Orientable(cfg, back[i]) {
      FilterMember(l, IsUnorientable(cfg), back[i]);
    }
    assert SortByStrLen(cfg, l) == front + back;
    PartitionAt(cfg, front, back);
  }

  /** The sort is stable: among equations with the same rendering, the order
      is the original one, orientable equations first under unfailing
      completion. */
  lemma SortByStrLenStable(cfg: Config, l: seq<Equation>, k: string)
    ensures !cfg.unfailing ==> KeyClass(SortByStrLen(cfg, l), cfg.render, k) == KeyClass(l, cfg.render, k)
    ensures cfg.unfailing ==>
              KeyClass(SortByStrLen(cfg, l), cfg.render, k) ==
              KeyClass(Filter(l, IsOrientable(cfg)), cfg.render, k) + KeyClass(Filter(l, IsUnorientable(cfg)), cfg.render, k)
  {
    if cfg.unfailing {
      var front := Filter(l, IsOrientable(cfg));
      var back := Filter(l, IsUnorientable(cfg));
      assert SortByStrLen(cfg, l) == SortByKey(front, cfg.render) + back;
      KeyClassAppend(SortByKey(front, cfg.render), back, cfg.render, k);
      SortByKeyStable(front, cfg.render, k);
    } else {
      SortByKeyStable(l, cfg.render, k);
    }
  }

  /** A sorted run of orientable equations followed by unorientable ones. */
  lemma PartitionAt(cfg: Config, front: seq<Equation>, back: seq<Equation>)
    requires SortedBy(front, cfg.render)
    requires forall i :: 0 <= i < |front| ==> Orientable(cfg, front[i])
    requires forall i :: 0 <= i < |back| ==> !Orientable(cfg, back[i])
    ensures var r := front + back;
            exists k :: 0 <= k <= |r|
              && SortedBy(r[..k], cfg.render)
              && (forall i :: 0 <= i < k ==> Orientable(cfg, r[i]))
              && (forall i :: k <= i < |r| ==> !Orientable(cfg, r[i]))
              && r[k..] == back
  {
    var r := front + back;
    var k := |front|;
    assert r[..k] == front && r[k..] == back;
    assert forall i :: k <= i < |r| ==> r[i] == back[i - k];
  }

  // ---------------------------------------------------------------------------
  // Reduction to a given result

  /** Some value of the counter makes `red` turn `s` into `t`. */
  ghost predicate ReducesTo(cfg: Config, E: seq<Equation>, R: seq<Equation>, s: Term, t: Term) {
    exists m: nat :: Red(cfg, m, E, R, s).Ok? && Red(cfg, m, E, R, s).value.0 == t
  }

  lemma ReducesToSound(rules: seq<Equation>, cfg: Config, E: seq<Equation>, R: seq<Equation>, s: Term, t: Term)
    requires Within(E, rules) && Within(R, rules)
    requires ReducesTo(cfg, E, R, s, t)
    ensures Convertible(rules, s, t)
  {
    var m: nat :| Red(cfg, m, E, R, s).Ok? && Red(cfg, m, E, R, s).value.0 == t;
    RedSound(rules, cfg, m, E, R, s);
  }

  // ---------------------------------------------------------------------------
  // collapseBy

  /** `collapseBy(ab)` over the rules `rs` not yet visited: a rule other than
      `ab` whose left side `ab` rewrites leaves `R`, and the reduced equation
      goes to the front of `E`. `kept` are the rules visited and kept. */
  function CollapseLoop(cfg: Config, n: nat, ab: Equation, rs: seq<Equation>, kept: seq<Equation>, E: seq<Equation>)
    : (r: Result<(seq<Equation>, seq<Equation>, nat)>)
    ensures r.Err? ==> r.error == ReductionDivergence
    ensures r.Ok? ==> kept <= r.value.0 && multiset(r.value.0) <= multiset(kept) + multiset(rs)
    ensures r.Ok? ==> forall e :: e in E ==> e in r.value.1
    decreases rs
  {
    if rs == [] then Ok((kept, E, n))
    else
      var v :- CollapseVisit(cfg, n, ab, rs[0], kept, E);
      var res := CollapseLoop(cfg, v.2, ab, rs[1..], v.0, v.1);
      if res.Ok? then
        CollapseLoopStep(rs, kept, v.0, res.value.0, E, v.1, res.value.1);
        res
      else res
  }

  /** The bookkeeping of one iteration of `CollapseLoop`, kept apart from the
      reductions. */
  lemma CollapseLoopStep(rs: seq<Equation>, kept: seq<Equation>, k1: seq<Equation>, k2: seq<Equation>,
                         E: seq<Equation>, E1: seq<Equation>, E2: seq<Equation>)
    requires rs != [] && (k1 == kept || k1 == kept + [rs[0]])
    requires k1 <= k2 && multiset(k2) <= multiset(k1) + multiset(rs[1..])
    requires forall e :: e in E ==> e in E1
    requires forall e :: e in E1 ==> e in E2
    ensures kept <= k2 && multiset(k2) <= multiset(kept) + multiset(rs)
    ensures forall e :: e in E ==> e in E2
  {
    MultisetCons(rs);
  }

  /** The loop state after visiting `r`: `r` is kept, or `E` grows at the front. */
  function CollapseVisit(cfg: Config, n: nat, ab: Equation, r: Equation, kept: seq<Equation>, E: seq<Equation>)
    : (res: Result<(seq<Equation>, seq<Equation>, nat)>)
    ensures res.Err? ==> res.error == ReductionDivergence
    ensures res.Ok? ==> (res.value.0 == kept || res.value.0 == kept + [r])
    ensures res.Ok? ==> forall e :: e in E ==> e in res.value.1
  {
    if r == ab then Ok((kept + [r], E, n))
    else
      var x :- Red(cfg, n, [], [ab], r.lhs);
      if x.0 != r.lhs then
        Ok((kept, AddFront(E, Equation(x.0, r.rhs)), x.1))
      else Ok((kept + [r], E, x.1))
  }

  /** `r` is kept, or one equation goes to the front of `E`. */
  lemma CollapseVisitFront(cfg: Config, n: nat, ab: Equation, r: Equation, kept: seq<Equation>, E: seq<Equation>)
    requires CollapseVisit(cfg, n, ab, r, kept, E).Ok?
    ensures var E1 := CollapseVisit(cfg, n, ab, r, kept, E).value.1;
            E1 == E || (|E1| == |E| + 1 && E1[1..] == E)
  {
  }

  /** `collapseBy` adds equations at the front of `E` only: the old `E` is a
      suffix of the new one. */
  lemma {:induction false} CollapseSuffix(cfg: Config, n: nat, ab: Equation, rs: seq<Equation>,
                                          kept: seq<Equation>, E: seq<Equation>)
    requires CollapseLoop(cfg, n, ab, rs, kept, E).Ok?
    ensures SuffixOf(E, CollapseLoop(cfg, n, ab, rs, kept, E).value.1)
    decreases rs
  {
    if rs == [] {
      assert E[0..] == E;
    } else {
      CollapseUnfold(cfg, n, ab, rs, kept, E);
      CollapseVisitFront(cfg, n, ab, rs[0], kept, E);
      var v := CollapseVisit(cfg, n, ab, rs[0], kept, E).value;
      CollapseSuffix(cfg, v.2, ab, rs[1..], v.0, v.1);
      SuffixFront(E, v.1, CollapseLoop(cfg, v.2, ab, rs[1..], v.0, v.1).value.1);
    }
  }

  /** `s` ends `t`. */
  predicate SuffixOf(s: seq<Equation>, t: seq<Equation>) {
    |s| <= |t| && t[|t| - |s|..] == s
  }

  lemma SuffixFront(E: seq<Equation>, E1: seq<Equation>, E2: seq<Equation>)
    requires E1 == E || (|E1| == |E| + 1 && E1[1..] == E)
    requires SuffixOf(E1, E2)
    ensures SuffixOf(E, E2)
  {
    if E1 != E {
      assert E2[|E2| - |E|..] == E2[|E2| - |E1|..][1..];
    }
  }

  /** `collapseBy(ab)`: the new rules, the new equations and the counter. */
  function CollapseBy(cfg: Config, n: nat, ab: Equation, R: seq<Equation>, E: seq<Equation>)
    : (r: Result<(seq<Equation>, seq<Equation>, nat)>)
    ensures r.Err? ==> r.error == ReductionDivergence
    ensures r.Ok? ==> multiset(r.value.0) <= multiset(R) && (NoDups(R) ==> NoDups(r.value.0))
    ensures r.Ok? ==> forall e :: e in E ==> e in r.value.1
  {
    var r := CollapseLoop(cfg, n, ab, R, [], E);
    if r.Err? then r
    else
      if NoDups(R) then NoDupsSub(r.value.0, R); r else r
  }

  /** `e` is what `collapseBy(ab)` leaves in `E` for the rule `r`: the
      equation between the left side `ab` rewrote and the right side. */
  ghost predicate Collapsed(cfg: Config, ab: Equation, r: Equation, e: Equation) {
    r != ab && e.rhs == r.rhs && e.lhs != r.lhs && ReducesTo(cfg, [], [ab], r.lhs, e.lhs)
  }

  lemma CollapseUnfold(cfg: Config, n: nat, ab: Equation, rs: seq<Equation>, kept: seq<Equation>, E: seq<Equation>)
    requires rs != [] && CollapseLoop(cfg, n, ab, rs, kept, E).Ok?
    ensures CollapseVisit(cfg, n, ab, rs[0], kept, E).Ok?
    ensures var (k1, E1, n1) := CollapseVisit(cfg, n, ab, rs[0], kept, E).value;
            CollapseLoop(cfg, n, ab, rs, kept, E) == CollapseLoop(cfg, n1, ab, rs[1..], k1, E1)
  {
  }

  /** `ab` itself stays a rule. */
  lemma {:induction false} CollapseKeepsAb(cfg: Config, n: nat, ab: Equation, rs: seq<Equation>,
                                           kept: seq<Equation>, E: seq<Equation>)
    requires CollapseLoop(cfg, n, ab, rs, kept, E).Ok?
    requires ab in kept + rs
    ensures ab in CollapseLoop(cfg, n, ab, rs, kept, E).value.0
    decreases rs
  {
    if rs == [] {
      assert kept + rs == kept;
    } else {
      CollapseUnfold(cfg, n, ab, rs, kept, E);
      var (k1, E1, n1) := CollapseVisit(cfg, n, ab, rs[0], kept, E).value;
      assert ab in k1 + rs[1..] by {
        if ab in kept {
          assert kept <= k1;
        } else if ab != rs[0] {
          assert ab in rs[1..];
        } else {
          assert k1[|kept|] == ab;
        }
      }
      CollapseKeepsAb(cfg, n1, ab, rs[1..], k1, E1);
    }
  }

  /** Every rule kept besides `ab` has a left side `ab` cannot rewrite. */
  lemma {:induction false} CollapseKept(cfg: Config, n: nat, ab: Equation, rs: seq<Equation>,
                                        kept: seq<Equation>, E: seq<Equation>)
    requires CollapseLoop(cfg, n, ab, rs, kept, E).Ok?
    ensures forall r :: r in CollapseLoop(cfg, n, ab, rs, kept, E).value.0 ==>
              r in kept || (r in rs && (r == ab || ReducesTo(cfg, [], [ab], r.lhs, r.lhs)))
    decreases rs
  {
    if rs != [] {
      CollapseUnfold(cfg, n, ab, rs, kept, E);
      var (k1, E1, n1) := CollapseVisit(cfg, n, ab, rs[0], kept, E).value;
      CollapseKept(cfg, n1, ab, rs[1..], k1, E1);
      if rs[0] != ab {
        var x := Red(cfg, n, [], [ab], rs[0].lhs).value;
        assert ReducesTo(cfg, [], [ab], rs[0].lhs, x.0);
      }
      forall r | r in k1 ensures r in kept || (r in rs && (r == ab || ReducesTo(cfg, [], [ab], r.lhs, r.lhs))) {
        if r !in kept {
          assert r == rs[0];
        }
      }
    }
  }

  /** Every rule removed is not `ab`, and leaves behind, in `E`, the equation
      between its reduced left side and its right side. */
  lemma {:induction false} CollapseRemoved(cfg: Config, n: nat, ab: Equation, rs: seq<Equation>,
                                           kept: seq<Equation>, E: seq<Equation>)
    requires CollapseLoop(cfg, n, ab, rs, kept, E).Ok?
    ensures var (R', E', _) := CollapseLoop(cfg, n, ab, rs, kept, E).value;
            forall r :: r in rs && r !in R' ==>
              exists e :: e in E' && Collapsed(cfg, ab, r, e)
    decreases rs
  {
    if rs != [] {
      var (R', E', _) := CollapseLoop(cfg, n, ab, rs, kept, E).value;
      CollapseUnfold(cfg, n, ab, rs, kept, E);
      var (k1, E1, n1) := CollapseVisit(cfg, n, ab, rs[0], kept, E).value;
      CollapseRemoved(cfg, n1, ab, rs[1..], k1, E1);
      assert kept <= k1 && k1 <= R';
      var r := rs[0];
      if r !in R' {
        assert r != ab && r !in k1;
        var x := Red(cfg, n, [], [ab], r.lhs).value;
        assert ReducesTo(cfg, [], [ab], r.lhs, x.0);
        assert Collapsed(cfg, ab, r, Equation(x.0, r.rhs)) && Equation(x.0, r.rhs) in E1;
      }
      forall r1 | r1 in rs && r1 !in R'
        ensures exists e :: e in E' && Collapsed(cfg, ab, r1, e)
      {
        if r1 != r {
          assert r1 in rs[1..];
        }
      }
    }
  }

  /** Nothing else enters `E`. */
  lemma {:induction false} CollapseAdded(cfg: Config, n: nat, ab: Equation, rs: seq<Equation>,
                                         kept: seq<Equation>, E: seq<Equation>)
    requires CollapseLoop(cfg, n, ab, rs, kept, E).Ok?
    ensures forall e :: e in CollapseLoop(cfg, n, ab, rs, kept, E).value.1 ==>
              (e in E ||
               exists r :: r in rs && Collapsed(cfg, ab, r, e))
    decreases rs
  {
    if rs != [] {
      CollapseUnfold(cfg, n, ab, rs, kept, E);
      var (k1, E1, n1) := CollapseVisit(cfg, n, ab, rs[0], kept, E).value;
      var E' := CollapseLoop(cfg, n1, ab, rs[1..], k1, E1).value.1;
      CollapseAdded(cfg, n1, ab, rs[1..], k1, E1);
      CollapseVisitAdded(cfg, n, ab, rs[0], kept, E);
      forall e | e in E' && e !in E
        ensures exists r :: r in rs && Collapsed(cfg, ab, r, e)
      {
        if e in E1 {
          assert rs[0] in rs && Collapsed(cfg, ab, rs[0], e);
        } else {
          var r1 :| r1 in rs[1..] && Collapsed(cfg, ab, r1, e);
          assert r1 in rs;
        }
      }
    }
  }

  /** Visiting `r` adds to `E` at most the equation `r` collapses to. */
  lemma CollapseVisitAdded(cfg: Config, n: nat, ab: Equation, r: Equation, kept: seq<Equation>, E: seq<Equation>)
    requires CollapseVisit(cfg, n, ab, r, kept, E).Ok?
    ensures forall e :: e in CollapseVisit(cfg, n, ab, r, kept, E).value.1 ==> e in E || Collapsed(cfg, ab, r, e)
  {
    if r != ab {
      var x := Red(cfg, n, [], [ab], r.lhs).value;
      assert ReducesTo(cfg, [], [ab], r.lhs, x.0);
    }
  }

  /** Which rules `collapseBy` removes: exactly those other than `ab` whose
      left side `ab` rewrites. Each leaves behind, in `E`, the equation between
      its reduced left side and its right side, and nothing else enters `E`. */
  lemma CollapseBySpec(cfg: Config, n: nat, ab: Equation, R: seq<Equation>, E: seq<Equation>)
    requires CollapseBy(cfg, n, ab, R, E).Ok?
    ensures var (R', E', _) := CollapseBy(cfg, n, ab, R, E).value;
            && (ab in R ==> ab in R')
            && (forall r :: r in R' ==> r in R && (r == ab || ReducesTo(cfg, [], [ab], r.lhs, r.lhs)))
            && (forall r :: r in R && r !in R' ==>
                  exists e :: e in E' && Collapsed(cfg, ab, r, e))
            && (forall e :: e in E' ==>
                  (e in E ||
                   exists r :: r in R && Collapsed(cfg, ab, r, e)))
            && |E| <= |E'| && E'[|E'| - |E|..] == E
  {
    CollapseSuffix(cfg, n, ab, R, [], E);
    assert [] + R == R;
    if ab in R {
      CollapseKeepsAb(cfg, n, ab, R, [], E);
    }
    CollapseKept(cfg, n, ab, R, [], E);
    CollapseRemoved(cfg, n, ab, R, [], E);
    CollapseAdded(cfg, n, ab, R, [], E);
  }

  // ---------------------------------------------------------------------------
  // compose

  /** The left sides of a set of rules. */
  function Lhss(R: seq<Equation>): set<Term> {
    set r | r in R :: r.lhs
  }

  /** One round of `compose`: the first rule, among `rs`, whose right side
      `red` changes when reducing with `E` and the other rules of `R`, with
      the rule that replaces it. */
  function ComposeFind(cfg: Config, n: nat, E: seq<Equation>, R: seq<Equation>, rs: seq<Equation>)
    : (r: Result<(Option<(Equation, Equation)>, nat)>)
    ensures r.Err? ==> r.error == ReductionDivergence
    ensures r.Ok? && r.value.0.None? ==>
              forall x :: x in rs ==> ReducesTo(cfg, E, Remove(R, x), x.rhs, x.rhs)
    ensures r.Ok? && r.value.0.Some? ==>
              var (old_, new_) := r.value.0.value;
              old_ in rs && new_.lhs == old_.lhs && new_.rhs != old_.rhs
              && ReducesTo(cfg, E, Remove(R, old_), old_.rhs, new_.rhs)
    decreases rs
  {
    if rs == [] then Ok((None, n))
    else
      var r := rs[0];
      var x :- Red(cfg, n, E, Remove(R, r), r.rhs);
      assert ReducesTo(cfg, E, Remove(R, r), r.rhs, x.0);
      if x.0 != r.rhs then Ok((Some((r, Equation(r.lhs, x.0))), x.1))
      else
        var rest := ComposeFind(cfg, x.1, E, R, rs[1..]);
        assert forall y :: y in rs <==> y == r || y in rs[1..];
        rest
  }

  /** `compose`: replace right sides by their normal forms until none changes.
      The source loops until then; here `fuel` rounds are allowed. */
  function Compose(cfg: Config, n: nat, E: seq<Equation>, R: seq<Equation>, fuel: nat)
    : (r: Result<(seq<Equation>, nat)>)
    ensures r.Err? ==> r.error == ReductionDivergence || r.error == OutOfFuel
    ensures r.Ok? ==> Lhss(r.value.0) == Lhss(R)
    ensures r.Ok? && NoDups(R) ==> NoDups(r.value.0)
    ensures r.Ok? ==> forall x :: x in r.value.0 ==> ReducesTo(cfg, E, Remove(r.value.0, x), x.rhs, x.rhs)
    ensures r.Ok? ==> Equivalent(E + R, E + r.value.0)
    decreases fuel
  {
    if fuel == 0 then Err(OutOfFuel)
    else
      var f :- ComposeFind(cfg, n, E, R, R);
      match f.0
      case None =>
        EquivalentSameMembers(E + R, E + R);
        Ok((R, f.1))
      case Some((old_, new_)) =>
        var R' := Add(Remove(R, old_), new_);
        RemoveMembers(R, old_);
        assert Lhss(R') == Lhss(R) by {
          assert old_.lhs == new_.lhs;
          forall l | l in Lhss(R) ensures l in Lhss(R') {
            var x :| x in R && x.lhs == l;
            if x != old_ {
              assert x in R';
            } else {
              assert new_ in R';
            }
          }
        }
        ComposeRoundEquivalent(cfg, E, R, old_, new_);
        var res := Compose(cfg, f.1, E, R', fuel - 1);
        if res.Ok? then
          EquivalentTrans(E + R, E + R', E + res.value.0);
          res
        else res
  }

  // ---------------------------------------------------------------------------
  // simplify

  /** `simplify`: both sides of every equation reduced by the rules alone;
      equations whose sides meet are dropped, duplicates are merged. */
  function Simplify(cfg: Config, n: nat, E: seq<Equation>, R: seq<Equation>): (r: Result<(seq<Equation>, nat)>)
    ensures r.Err? ==> r.error == ReductionDivergence
    ensures r.Ok? ==> NoDups(r.value.0) && forall e :: e in r.value.0 ==> e.lhs != e.rhs
  {
    Reduce(cfg, n, [], R, E, [])
  }

  /** The simplified equations are consequences of the old ones and the rules,
      with sides the rules cannot rewrite; the old equations follow from the
      new ones and the rules. */
  lemma SimplifySpec(cfg: Config, n: nat, E: seq<Equation>, R: seq<Equation>)
    requires Simplify(cfg, n, E, R).Ok?
    ensures var E' := Simplify(cfg, n, E, R).value.0;
            && Equivalent(E + R, E' + R)
            && forall e :: e in E' ==> Irreducible(cfg, [], R, e.lhs) && Irreducible(cfg, [], R, e.rhs)
  {
    var E' := Simplify(cfg, n, E, R).value.0;
    assert Within(R, E + R) && Within([], E + R);
    assert Entails(E + R, E) by {
      forall e | e in E ensures Convertible(E + R, e.lhs, e.rhs) {
        HoldsMember(E + R, e);
        HoldsConvertible(E + R, e);
      }
    }
    ReduceSound(E + R, cfg, n, [], R, E, []);
    assert Entails(E + R, E' + R) by {
      forall e | e in E' + R ensures Proves(E + R, e) {
        if e in R {
          HoldsMember(E + R, e);
          HoldsConvertible(E + R, e);
        }
      }
    }
    assert Within(R, E' + R) && Within([], E' + R);
    ReduceComplete(E' + R, cfg, n, [], R, E, []);
    assert Entails(E' + R, E + R) by {
      forall e | e in E + R ensures Proves(E' + R, e) {
        if e in R {
          HoldsMember(E' + R, e);
          HoldsConvertible(E' + R, e);
        }
      }
    }
  }

  // ---------------------------------------------------------------------------
  // checkEmpty

  predicate AllUnorientable(cfg: Config, E: seq<Equation>) {
    forall e :: e in E ==> !Orientable(cfg, e)
  }

  /** Both sides of every pair of `cps` reduce to one common term. */
  ghost predicate PairsJoin(cfg: Config, E: seq<Equation>, R: seq<Equation>, cps: seq<Equation>) {
    forall c :: c in cps ==> exists u :: ReducesTo(cfg, E, R, c.lhs, u) && ReducesTo(cfg, E, R, c.rhs, u)
  }

  /** Some pair of `cps` has sides that reduce to different terms. */
  ghost predicate PairSplits(cfg: Config, E: seq<Equation>, R: seq<Equation>, cps: seq<Equation>) {
    exists c, u, v :: c in cps && ReducesTo(cfg, E, R, c.lhs, u) && ReducesTo(cfg, E, R, c.rhs, v) && u != v
  }

  /** `allCpsConfluent(s, set)`: every pair reduces to a common normal form,
      checked in order and stopping at the first that does not. */
  function Joinable(cfg: Config, n: nat, E: seq<Equation>, R: seq<Equation>, cps: seq<Equation>)
    : (r: Result<(bool, nat)>)
    ensures r.Err? ==> r.error == ReductionDivergence
    ensures r.Ok? && r.value.0 ==> forall c :: c in cps ==> exists u :: ReducesTo(cfg, E, R, c.lhs, u) && ReducesTo(cfg, E, R, c.rhs, u)
    ensures r.Ok? && !r.value.0 ==>
              exists c, u, v :: c in cps && ReducesTo(cfg, E, R, c.lhs, u) && ReducesTo(cfg, E, R, c.rhs, v) && u != v
    decreases cps
  {
    if cps == [] then Ok((true, n))
    else
      var l :- Red(cfg, n, E, R, cps[0].lhs);
      var r :- Red(cfg, l.1, E, R, cps[0].rhs);
      assert ReducesTo(cfg, E, R, cps[0].lhs, l.0) && ReducesTo(cfg, E, R, cps[0].rhs, r.0);
      if l.0 != r.0 then Ok((false, r.1))
      else
        var rest := Joinable(cfg, r.1, E, R, cps[1..]);
        assert forall c :: c in cps ==> c == cps[0] || c in cps[1..];
        rest
  }

  /** The critical pairs `allCpsConfluent` checks for the equation `e`: those of
      `allcps2` against a fresh `seen`, reduced and filtered by `E`. */
  function EquationCps(cfg: Config, n: nat, E: seq<Equation>, R: seq<Equation>, e: Equation)
    : (r: Result<(seq<Equation>, nat)>)
    ensures r.Err? ==> r.error == ReductionDivergence
  {
    var b := AllCps2(cfg, n, {}, E, R, e);
    var red :- Reduce(cfg, b.next, E, R, b.cps, []);
    Ok(FilterSubsumed(red.1, E, red.0))
  }

  /** The same for the rule `e`, from `allcps`. */
  function RuleCps(cfg: Config, n: nat, E: seq<Equation>, R: seq<Equation>, e: Equation)
    : (r: Result<(seq<Equation>, nat)>)
    ensures r.Err? ==> r.error == ReductionDivergence
  {
    var b := AllCps(cfg, n, {}, R, e);
    var red :- Reduce(cfg, b.next, E, R, b.cps, []);
    Ok(FilterSubsumed(red.1, E, red.0))
  }

  /** For some counter value, the critical pairs checked for the equation `e`
      all join. */
  ghost predicate EquationJoins(cfg: Config, E: seq<Equation>, R: seq<Equation>, e: Equation) {
    exists m: nat :: EquationCps(cfg, m, E, R, e).Ok? && PairsJoin(cfg, E, R, EquationCps(cfg, m, E, R, e).value.0)
  }

  /** For some counter value, a critical pair checked for the equation `e`
      does not join. */
  ghost predicate EquationSplits(cfg: Config, E: seq<Equation>, R: seq<Equation>, e: Equation) {
    exists m: nat :: EquationCps(cfg, m, E, R, e).Ok? && PairSplits(cfg, E, R, EquationCps(cfg, m, E, R, e).value.0)
  }

  /** The same for the rule `e`. */
  ghost predicate RuleJoins(cfg: Config, E: seq<Equation>, R: seq<Equation>, e: Equation) {
    exists m: nat :: RuleCps(cfg, m, E, R, e).Ok? && PairsJoin(cfg, E, R, RuleCps(cfg, m, E, R, e).value.0)
  }

  ghost predicate RuleSplits(cfg: Config, E: seq<Equation>, R: seq<Equation>, e: Equation) {
    exists m: nat :: RuleCps(cfg, m, E, R, e).Ok? && PairSplits(cfg, E, R, RuleCps(cfg, m, E, R, e).value.0)
  }

  /** The first loop of `allCpsConfluent`, over the equations `es`. */
  function EquationsConfluent(cfg: Config, n: nat, E: seq<Equation>, R: seq<Equation>, es: seq<Equation>)
    : (r: Result<(bool, nat)>)
    ensures r.Err? ==> r.error == ReductionDivergence
    ensures r.Ok? && r.value.0 ==> forall e :: e in es ==> EquationJoins(cfg, E, R, e)
    ensures r.Ok? && !r.value.0 ==> exists e :: e in es && EquationSplits(cfg, E, R, e)
    decreases es
  {
    if es == [] then Ok((true, n))
    else
      var cps :- EquationCps(cfg, n, E, R, es[0]);
      var j :- Joinable(cfg, cps.1, E, R, cps.0);
      assert forall e :: e in es ==> e == es[0] || e in es[1..];
      if !j.0 then
        assert EquationSplits(cfg, E, R, es[0]);
        Ok(j)
      else
        assert EquationJoins(cfg, E, R, es[0]);
        EquationsConfluent(cfg, j.1, E, R, es[1..])
  }

  /** The second loop of `allCpsConfluent`, over the rules `rs`. */
  function RulesConfluent(cfg: Config, n: nat, E: seq<Equation>, R: seq<Equation>, rs: seq<Equation>)
    : (r: Result<(bool, nat)>)
    ensures r.Err? ==> r.error == ReductionDivergence
    ensures r.Ok? && r.value.0 ==> forall e :: e in rs ==> RuleJoins(cfg, E, R, e)
    ensures r.Ok? && !r.value.0 ==> exists e :: e in rs && RuleSplits(cfg, E, R, e)
    decreases rs
  {
    if rs == [] then Ok((true, n))
    else
      var cps :- RuleCps(cfg, n, E, R, rs[0]);
      var j :- Joinable(cfg, cps.1, E, R, cps.0);
      assert forall e :: e in rs ==> e == rs[0] || e in rs[1..];
      if !j.0 then
        assert RuleSplits(cfg, E, R, rs[0]);
        Ok(j)
      else
        assert RuleJoins(cfg, E, R, rs[0]);
        RulesConfluent(cfg, j.1, E, R, rs[1..])
  }

  /** `allCpsConfluent()`. */
  function AllCpsConfluent(cfg: Config, n: nat, E: seq<Equation>, R: seq<Equation>): (r: Result<(bool, nat)>)
    ensures r.Err? ==> r.error == ReductionDivergence
    ensures r.Ok? && r.value.0 ==>
              (forall e :: e in E ==> EquationJoins(cfg, E, R, e)) && (forall e :: e in R ==> RuleJoins(cfg, E, R, e))
    ensures r.Ok? && !r.value.0 ==>
              (exists e :: e in E && EquationSplits(cfg, E, R, e)) || (exists e :: e in R && RuleSplits(cfg, E, R, e))
  {
    var a :- EquationsConfluent(cfg, n, E, R, E);
    if !a.0 then Ok(a) else RulesConfluent(cfg, a.1, E, R, R)
  }

  /** `checkEmpty`: an empty `E` means the rules are complete; a non-empty `E`
      of unorientable equations whose critical pairs all join means the system
      is complete for ground terms only. The first component says whether
      completion is done. */
  function CheckEmpty(cfg: Config, kb: KB): (r: Result<(bool, KB)>)
    ensures r.Err? ==> r.error == ReductionDivergence && kb.E != [] && AllUnorientable(cfg, kb.E)
    ensures kb.E == [] ==> r == Ok((true, kb.(isComplete := true, isCompleteGround := true)))
    ensures r.Ok? && kb.E != [] && r.value.0 ==>
              AllUnorientable(cfg, kb.E)
              && r.value.1 == kb.(isComplete := false, isCompleteGround := true, next := r.value.1.next)
    ensures r.Ok? && !r.value.0 ==> kb.E != [] && r.value.1 == kb.(next := r.value.1.next)
    ensures !AllUnorientable(cfg, kb.E) ==> r == Ok((false, kb))
    ensures kb.E != [] && AllUnorientable(cfg, kb.E) && AllCpsConfluent(cfg, kb.next, kb.E, kb.R).Ok? ==>
              r.Ok? && r.value.0 == AllCpsConfluent(cfg, kb.next, kb.E, kb.R).value.0
    ensures r.Ok? && kb.E != [] && r.value.0 ==>
              (forall e :: e in kb.E ==> EquationJoins(cfg, kb.E, kb.R, e)) && (forall e :: e in kb.R ==> RuleJoins(cfg, kb.E, kb.R, e))
    ensures r.Ok? && AllUnorientable(cfg, kb.E) && !r.value.0 ==>
              (exists e :: e in kb.E && EquationSplits(cfg, kb.E, kb.R, e)) || (exists e :: e in kb.R && RuleSplits(cfg, kb.E, kb.R, e))
  {
    if kb.E == [] then Ok((true, kb.(isComplete := true, isCompleteGround := true)))
    else if !AllUnorientable(cfg, kb.E) then Ok((false, kb))
    else
      var c :- AllCpsConfluent(cfg, kb.next, kb.E, kb.R);
      if c.0 then Ok((true, kb.(isComplete := false, isCompleteGround := true, next := c.1)))
      else Ok((false, kb.(next := c.1)))
  }

  // ---------------------------------------------------------------------------
  // step

  /** The oriented branch of `step`, up to `collapseBy`: `ab` joins the rules,
      its critical pairs not subsumed by `E` join the equations, and the
      picked equation `st` leaves them. */
  function AddRule(cfg: Config, kb: KB, st: Equation, ab: Equation): (r: Result<KB>)
    ensures r.Err? ==> r.error == ReductionDivergence
    ensures r.Ok? ==> ab in r.value.R && (NoDups(kb.R) ==> NoDups(r.value.R))
    ensures r.Ok? ==> multiset(r.value.R) <= multiset(Add(kb.R, ab))
    ensures r.Ok? ==> Lhss(r.value.R) <= Lhss(kb.R) + {ab.lhs}
    ensures r.Ok? ==> r.value.isComplete == kb.isComplete && r.value.isCompleteGround == kb.isCompleteGround
    ensures r.Ok? ==> forall e :: e in kb.E && e != st ==> e in r.value.E
    ensures r.Ok? ==> forall p :: p in RulePairs(Add(kb.R, ab), ab) && p !in kb.seen ==>
                        JoinedExcept(cfg, p, kb.E, st, r.value.E)
  {
    var R1 := Add(kb.R, ab);
    var b := AllCps(cfg, kb.next, kb.seen, R1, ab);
    var (cps, n1) := FilterSubsumed(b.next, kb.E, b.cps);
    var E1 := Remove(AddAll(kb.E, cps), st);
    var c :- CollapseBy(cfg, n1, ab, R1, E1);
    CollapseBySpec(cfg, n1, ab, R1, E1);
    KeptBut(kb.E, cps, st, c.1);
    BatchJoined(cfg, kb.next, kb.seen, R1, ab, kb.E, st, c.1);
    assert Lhss(c.0) <= Lhss(kb.R) + {ab.lhs} by {
      forall x | x in c.0 ensures x.lhs in Lhss(kb.R) + {ab.lhs} {
        assert x in multiset(c.0);
      }
    }
    Ok(kb.(E := c.1, R := c.0, seen := b.seen, next := c.2))
  }

  /** The unfailing branch of `step` for an unorientable `st`: it moves to the
      end of `E`, and the critical pairs of both of its directions, with the
      rules and with the equations, join `E` unless `E` subsumes them. */
  function Defer(cfg: Config, kb: KB, st: Equation): (r: KB)
    ensures r.R == kb.R && r.isComplete == kb.isComplete && r.isCompleteGround == kb.isCompleteGround
    ensures Remove(kb.E, st) + [st] <= r.E
    ensures var E1 := Add(Remove(kb.E, st), st);
            forall p :: p in DeferPairs(E1, kb.R, st) && p !in kb.seen ==> JoinedExcept(cfg, p, E1, st, r.E)
  {
    var E1 := Add(Remove(kb.E, st), st);
    assert st !in Remove(kb.E, st) by {
      assert multiset(Remove(kb.E, st))[st] == 0;
    }
    var ba := st.Reverse();
    var b1 := AllCps(cfg, kb.next, kb.seen, kb.R, st);
    var f1 := FilterSubsumed(b1.next, E1, b1.cps);
    var b2 := AllCps(cfg, f1.1, b1.seen, kb.R, ba);
    var f2 := FilterSubsumed(b2.next, E1, b2.cps);
    var b3 := AllCps2(cfg, f2.1, b2.seen, E1, kb.R, st);
    var f3 := FilterSubsumed(b3.next, E1, b3.cps);
    var b4 := AllCps2(cfg, f3.1, b3.seen, E1, kb.R, ba);
    var f4 := FilterSubsumed(b4.next, E1, b4.cps);
    var E' := AddAll(E1, f1.0 + f2.0 + f3.0 + f4.0);
    assert forall p :: p in DeferPairs(E1, kb.R, st) && p !in kb.seen ==> JoinedExcept(cfg, p, E1, st, E') by {
      assert forall c :: c in f1.0 || c in f2.0 || c in f3.0 ==> c in E';
      BatchJoined(cfg, kb.next, kb.seen, kb.R, st, E1, st, E');
      BatchJoined(cfg, f1.1, b1.seen, kb.R, ba, E1, st, E');
      Batch2Joined(cfg, f2.1, b2.seen, E1, kb.R, st, E1, st, E');
      DeferPairsJoined(cfg, E1, kb.R, st, kb.seen, b1.seen, b2.seen, E');
    }
    kb.(E := E', seen := b4.seen, next := f4.1)
  }

  // ---------------------------------------------------------------------------
  // The critical pairs a round adds to `E`

  /** For one value of the counter, every critical pair of `p` other than `x`
      that no equation of `F` subsumes is in `E'`. */
  ghost predicate JoinedExcept(cfg: Config, p: (Equation, Equation), F: seq<Equation>, x: Equation, E': seq<Equation>) {
    exists m: nat :: forall c :: c in Cp(cfg, m, p.0, p.1).0 && c != x && (forall f :: f in F ==> !Instance(f, c)) ==> c in E'
  }

  /** `filterSubsumed` passes on every unsubsumed pair of a batch holding all
      critical pairs of `p`. */
  lemma FilterJoined(cfg: Config, n: nat, F: seq<Equation>, cps: seq<Equation>, p: (Equation, Equation),
                     x: Equation, E': seq<Equation>)
    requires CpsIncluded(cfg, p, cps)
    requires forall c :: c in FilterSubsumed(n, F, cps).0 && c != x ==> c in E'
    ensures JoinedExcept(cfg, p, F, x, E')
  {
    var m: nat :| forall c :: c in Cp(cfg, m, p.0, p.1).0 ==> c in cps;
    forall c | c in Cp(cfg, m, p.0, p.1).0 && c != x && (forall f :: f in F ==> !Instance(f, c)) ensures c in E' {
      FilterSubsumedIff(n, F, cps, c);
    }
  }

  /** Conversely, every equation after the oriented branch is an old one other
      than `st`, a critical pair other than `st` of a pair of `ab` with a rule
      not seen before that the old `E` does not subsume, or a rule that
      `collapseBy` moved back. */
  lemma AddRuleFrom(cfg: Config, kb: KB, st: Equation, ab: Equation)
    ensures AddRule(cfg, kb, st, ab).Ok? ==>
              forall e :: e in AddRule(cfg, kb, st, ab).value.E ==>
                (e in kb.E && e != st)
                || (e != st && (forall f :: f in kb.E ==> !Instance(f, e)) &&
                    exists p :: p in RulePairs(Add(kb.R, ab), ab) && p !in kb.seen && CpOf(cfg, p, e))
                || exists r :: r in Add(kb.R, ab) && Collapsed(cfg, ab, r, e)
  {
    if AddRule(cfg, kb, st, ab).Ok? {
      var R1 := Add(kb.R, ab);
      var b := AllCps(cfg, kb.next, kb.seen, R1, ab);
      var f := FilterSubsumed(b.next, kb.E, b.cps);
      var E1 := Remove(AddAll(kb.E, f.0), st);
      var c := CollapseBy(cfg, f.1, ab, R1, E1).value;
      assert AddRule(cfg, kb, st, ab).value.E == c.1;
      CollapseBySpec(cfg, f.1, ab, R1, E1);
      RemoveMembers(AddAll(kb.E, f.0), st);
      AllCpsExact(cfg, kb.next, kb.seen, R1, ab);
      forall e | e in c.1 && e in E1 && e !in kb.E
        ensures e != st && (forall g :: g in kb.E ==> !Instance(g, e)) &&
                exists p :: p in RulePairs(R1, ab) && p !in kb.seen && CpOf(cfg, p, e)
      {
        FilterSubsumedIff(b.next, kb.E, b.cps, e);
      }
    }
  }

  /** Whatever keeps `Remove(AddAll(E, cps), x)` keeps `E` and `cps` but `x`. */
  lemma KeptBut(E: seq<Equation>, cps: seq<Equation>, x: Equation, E': seq<Equation>)
    requires forall e :: e in Remove(AddAll(E, cps), x) ==> e in E'
    ensures forall e :: e in E && e != x ==> e in E'
    ensures forall c :: c in cps && c != x ==> c in E'
  {
    RemoveMembers(AddAll(E, cps), x);
  }

  /** What `filterSubsumed(allcps(seen, ab))` passes on, for every pair of `ab`
      with a rule not seen before. */
  lemma BatchJoined(cfg: Config, n: nat, seen: set<(Equation, Equation)>, R: seq<Equation>, ab: Equation,
                    F: seq<Equation>, x: Equation, E': seq<Equation>)
    requires forall c :: c in FilterSubsumed(AllCps(cfg, n, seen, R, ab).next, F, AllCps(cfg, n, seen, R, ab).cps).0 && c != x ==> c in E'
    ensures forall p :: p in RulePairs(R, ab) && p !in seen ==> JoinedExcept(cfg, p, F, x, E')
  {
    var b := AllCps(cfg, n, seen, R, ab);
    AllCpsExact(cfg, n, seen, R, ab);
    forall p | p in RulePairs(R, ab) && p !in seen ensures JoinedExcept(cfg, p, F, x, E') {
      FilterJoined(cfg, b.next, F, b.cps, p, x, E');
    }
  }

  /** The same for `filterSubsumed(allcps2(seen, ab))`. */
  lemma Batch2Joined(cfg: Config, n: nat, seen: set<(Equation, Equation)>, E: seq<Equation>, R: seq<Equation>, ab: Equation,
                     F: seq<Equation>, x: Equation, E': seq<Equation>)
    requires forall c :: c in FilterSubsumed(AllCps2(cfg, n, seen, E, R, ab).next, F, AllCps2(cfg, n, seen, E, R, ab).cps).0 && c != x ==> c in E'
    ensures forall p :: p in AllCps2Pairs(E, R, ab) && p !in seen ==> JoinedExcept(cfg, p, F, x, E')
  {
    var b := AllCps2(cfg, n, seen, E, R, ab);
    AllCps2Exact(cfg, n, seen, E, R, ab);
    forall p | p in AllCps2Pairs(E, R, ab) && p !in seen ensures JoinedExcept(cfg, p, F, x, E') {
      FilterJoined(cfg, b.next, F, b.cps, p, x, E');
    }
  }

  /** A pair of the unfailing branch not seen before is unseen when the first
      batch that holds it runs; the fourth batch only revisits pairs the third
      one saw. */
  lemma DeferPairsJoined(cfg: Config, E1: seq<Equation>, R: seq<Equation>, st: Equation,
                         seen: set<(Equation, Equation)>, seen1: set<(Equation, Equation)>, seen2: set<(Equation, Equation)>,
                         E': seq<Equation>)
    requires seen1 == seen + set p | p in RulePairs(R, st)
    requires seen2 == seen1 + set p | p in RulePairs(R, st.Reverse())
    requires forall p :: p in RulePairs(R, st) && p !in seen ==> JoinedExcept(cfg, p, E1, st, E')
    requires forall p :: p in RulePairs(R, st.Reverse()) && p !in seen1 ==> JoinedExcept(cfg, p, E1, st, E')
    requires forall p :: p in AllCps2Pairs(E1, R, st) && p !in seen2 ==> JoinedExcept(cfg, p, E1, st, E')
    ensures forall p :: p in DeferPairs(E1, R, st) && p !in seen ==> JoinedExcept(cfg, p, E1, st, E')
  {
    AllCps2PairsReverse(E1, R, st);
    forall p | p in DeferPairs(E1, R, st) && p !in seen ensures JoinedExcept(cfg, p, E1, st, E') {
      if p !in RulePairs(R, st) && p !in RulePairs(R, st.Reverse()) {
        assert p in AllCps2Pairs(E1, R, st);
      }
    }
  }

  /** The pairs the unfailing branch superposes, batch by batch: `st` and its
      reverse with the rules, then with the equations and rules. */
  function DeferPairs(E1: seq<Equation>, R: seq<Equation>, st: Equation): seq<(Equation, Equation)> {
    RulePairs(R, st) + RulePairs(R, st.Reverse()) + AllCps2Pairs(E1, R, st) + AllCps2Pairs(E1, R, st.Reverse())
  }

  /** Conversely, every equation the unfailing branch adds is a critical pair
      of a pair not seen before that the reordered `E` does not subsume. */
  lemma DeferFrom(cfg: Config, kb: KB, st: Equation)
    ensures var E1 := Add(Remove(kb.E, st), st);
            forall e :: e in Defer(cfg, kb, st).E ==>
              e in E1 || ((forall f :: f in E1 ==> !Instance(f, e)) &&
                          exists p :: p in DeferPairs(E1, kb.R, st) && p !in kb.seen && CpOf(cfg, p, e))
  {
    var E1 := Add(Remove(kb.E, st), st);
    var ba := st.Reverse();
    var b1 := AllCps(cfg, kb.next, kb.seen, kb.R, st);
    var f1 := FilterSubsumed(b1.next, E1, b1.cps);
    var b2 := AllCps(cfg, f1.1, b1.seen, kb.R, ba);
    var f2 := FilterSubsumed(b2.next, E1, b2.cps);
    var b3 := AllCps2(cfg, f2.1, b2.seen, E1, kb.R, st);
    var f3 := FilterSubsumed(b3.next, E1, b3.cps);
    var b4 := AllCps2(cfg, f3.1, b3.seen, E1, kb.R, ba);
    var f4 := FilterSubsumed(b4.next, E1, b4.cps);
    var E' := Defer(cfg, kb, st).E;
    var ps := DeferPairs(E1, kb.R, st);
    assert E' == AddAll(E1, f1.0 + f2.0 + f3.0 + f4.0);
    AllCpsExact(cfg, kb.next, kb.seen, kb.R, st);
    AllCpsExact(cfg, f1.1, b1.seen, kb.R, ba);
    AllCps2Exact(cfg, f2.1, b2.seen, E1, kb.R, st);
    AllCps2Exact(cfg, f3.1, b3.seen, E1, kb.R, ba);
    forall e | e in E' && e !in E1
      ensures (forall f :: f in E1 ==> !Instance(f, e)) && exists p :: p in ps && p !in kb.seen && CpOf(cfg, p, e)
    {
      if e in f1.0 {
        FilterSubsumedIff(b1.next, E1, b1.cps, e);
        var p :| p in RulePairs(kb.R, st) && p !in kb.seen && CpOf(cfg, p, e);
        assert p in ps;
      } else if e in f2.0 {
        FilterSubsumedIff(b2.next, E1, b2.cps, e);
        var p :| p in RulePairs(kb.R, ba) && p !in b1.seen && CpOf(cfg, p, e);
        assert p in ps;
      } else if e in f3.0 {
        FilterSubsumedIff(b3.next, E1, b3.cps, e);
        var p :| p in AllCps2Pairs(E1, kb.R, st) && p !in b2.seen && CpOf(cfg, p, e);
        assert p in ps;
      } else {
        // the fourth batch finds nothing: its pairs were all seen by the third
        FilterSubsumedIff(b4.next, E1, b4.cps, e);
        AllCps2PairsReverse(E1, kb.R, st);
        assert false;
      }
    }
  }

  /** The tail of `step`: `compose`, `simplify`, the optional `sortByStrLen`
      and `filterSubsumedBySelf`. */
  function Tidy(cfg: Config, kb: KB): (r: Result<KB>)
    ensures r.Err? ==> r.error == ReductionDivergence || r.error == OutOfFuel
    ensures r.Ok? ==> forall e :: e in r.value.E ==> e.lhs != e.rhs
    ensures r.Ok? ==> NoDups(r.value.E) && (NoDups(kb.R) ==> NoDups(r.value.R))
    ensures r.Ok? ==> Lhss(r.value.R) == Lhss(kb.R)
    ensures r.Ok? ==> r.value.seen == kb.seen
    ensures r.Ok? ==> r.value.isComplete == kb.isComplete && r.value.isCompleteGround == kb.isCompleteGround
  {
    var c :- Compose(cfg, kb.next, kb.E, kb.R, cfg.fuel);
    var s :- Simplify(cfg, c.1, kb.E, c.0);
    var E2 := if cfg.sortCps then SortByStrLen(cfg, s.0) else s.0;
    var (E3, n3) := FilterSubsumedBySelf(s.1, E2);
    NoDupsSub(E2, s.0);
    NoDupsSub(E3, E2);
    assert forall e :: e in E3 ==> e in s.0 by {
      assert forall e :: e in E3 ==> e in multiset(E3);
      assert forall e :: e in multiset(s.0) ==> e in s.0;
    }
    Ok(kb.(E := E3, R := c.0, next := n3))
  }

  /** `step()`: one round of completion. The first component is the value the
      source returns, true when `checkEmpty` finds completion done. */
  function Step(cfg: Config, kb: KB): (r: Result<(bool, KB)>)
    ensures r.Err? ==> r.error in {ReductionDivergence, OutOfFuel, Unorientable}
    ensures r.Ok? && NoDups(kb.E) ==> NoDups(r.value.1.E)
    ensures r.Ok? && NoDups(kb.R) ==> NoDups(r.value.1.R)
    ensures r.Ok? && r.value.0 ==> r.value.1.E == kb.E && r.value.1.R == kb.R && r.value.1.isCompleteGround
    ensures r.Ok? && !r.value.0 ==>
              r.value.1.isComplete == kb.isComplete && r.value.1.isCompleteGround == kb.isCompleteGround
    ensures r.Ok? && !r.value.0 ==>
              kb.E != [] &&
              var o := Orient(cfg, kb.E[Pick(cfg, kb.E)]);
              var R' := r.value.1.R;
              && (o.Trivial? ==> R' == kb.R)
              && (o.Oriented? ==> o.ab.lhs in Lhss(R') && Lhss(R') <= Lhss(kb.R) + {o.ab.lhs})
              && (o.Unoriented? ==> Lhss(R') == Lhss(kb.R))
  {
    var ce :- CheckEmpty(cfg, kb);
    if ce.0 then Ok(ce)
    else
      var kb2 :- StepPicked(cfg, ce.1);
      Ok((false, kb2))
  }

  /** The rest of `step` once `checkEmpty` has returned false: the picked
      equation is dropped when trivial, is an error when unorientable in
      ordinary completion, and is otherwise absorbed. */
  function StepPicked(cfg: Config, kb: KB): (r: Result<KB>)
    requires kb.E != []
    ensures r.Err? ==> r.error in {ReductionDivergence, OutOfFuel, Unorientable}
    ensures r == Err(Unorientable) ==> !cfg.unfailing && Orient(cfg, kb.E[Pick(cfg, kb.E)]).Unoriented?
    ensures r.Ok? && NoDups(kb.E) ==> NoDups(r.value.E)
    ensures r.Ok? && NoDups(kb.R) ==> NoDups(r.value.R)
    ensures r.Ok? ==> r.value.isComplete == kb.isComplete && r.value.isCompleteGround == kb.isCompleteGround
    ensures Orient(cfg, kb.E[Pick(cfg, kb.E)]).Trivial? ==> r == Ok(kb.(E := Remove(kb.E, kb.E[Pick(cfg, kb.E)])))
    ensures r.Ok? && Orient(cfg, kb.E[Pick(cfg, kb.E)]).Oriented? ==>
              var l := Orient(cfg, kb.E[Pick(cfg, kb.E)]).ab.lhs;
              l in Lhss(r.value.R) && Lhss(r.value.R) <= Lhss(kb.R) + {l}
    ensures r.Ok? && Orient(cfg, kb.E[Pick(cfg, kb.E)]).Unoriented? ==> Lhss(r.value.R) == Lhss(kb.R)
  {
    var st := kb.E[Pick(cfg, kb.E)];
    var o := Orient(cfg, st);
    if o.Trivial? then Ok(kb.(E := Remove(kb.E, st)))
    else if o.Unoriented? && !cfg.unfailing then Err(Unorientable)
    else Absorb(cfg, kb, st, o)
  }

  /** A non-trivial picked equation joins the system, as a rule when it is
      oriented and deferred to the end of `E` otherwise, and the system is
      tidied. The oriented rule's left side stays a left side of `R`. */
  function Absorb(cfg: Config, kb: KB, st: Equation, o: Orientation): (r: Result<KB>)
    requires !o.Trivial?
    ensures r.Err? ==> r.error == ReductionDivergence || r.error == OutOfFuel
    ensures r.Ok? ==> NoDups(r.value.E) && (NoDups(kb.R) ==> NoDups(r.value.R))
    ensures r.Ok? ==> r.value.isComplete == kb.isComplete && r.value.isCompleteGround == kb.isCompleteGround
    ensures r.Ok? && o.Oriented? ==> o.ab.lhs in Lhss(r.value.R) && Lhss(r.value.R) <= Lhss(kb.R) + {o.ab.lhs}
    ensures r.Ok? && o.Unoriented? ==> Lhss(r.value.R) == Lhss(kb.R)
  {
    var kb1 :- if o.Oriented? then AddRule(cfg, kb, st, o.ab) else Ok(Defer(cfg, kb, st));
    assert o.Oriented? ==> o.ab.lhs in Lhss(kb1.R) && Lhss(kb1.R) <= Lhss(kb.R) + {o.ab.lhs};
    assert o.Unoriented? ==> kb1.R == kb.R;
    Tidy(cfg, kb1)
  }

  // ---------------------------------------------------------------------------
  // complete

  /** `while (!step())`, cut off after `rounds` rounds: the source runs the
      loop on a thread it stops after a time budget, so a loop that has not
      finished leaves the state it reached. */
  function Run(cfg: Config, kb: KB, rounds: nat): (r: Result<KB>)
    ensures r.Err? ==> r.error in {ReductionDivergence, OutOfFuel, Unorientable}
    ensures r.Ok? ==> Equivalent(Axioms(kb), Axioms(r.value))
    ensures r.Ok? && NoDups(kb.E) ==> NoDups(r.value.E)
    ensures r.Ok? && NoDups(kb.R) ==> NoDups(r.value.R)
    decreases rounds
  {
    if rounds == 0 then
      EquivalentSameMembers(Axioms(kb), Axioms(kb));
      Ok(kb)
    else
      var s :- Step(cfg, kb);
      StepEquivalent(cfg, kb);
      if s.0 then Ok(s.1)
      else
        var res := Run(cfg, s.1, rounds - 1);
        if res.Ok? then
          EquivalentTrans(Axioms(kb), Axioms(s.1), Axioms(res.value));
          res
        else res
  }

  /** `complete`: run completion, then insist on a system complete at least
      for ground terms. */
  function Complete(cfg: Config, kb: KB, rounds: nat): (r: Result<KB>)
    ensures r.Err? ==> r.error in {ReductionDivergence, OutOfFuel, Unorientable, NotGroundComplete}
    ensures r.Ok? ==> r.value.isCompleteGround && Equivalent(Axioms(kb), Axioms(r.value))
    ensures r.Ok? && NoDups(kb.E) ==> NoDups(r.value.E)
    ensures r.Ok? && NoDups(kb.R) ==> NoDups(r.value.R)
  {
    var kb1 :- Run(cfg, kb, rounds);
    if kb1.isCompleteGround then Ok(kb1) else Err(NotGroundComplete)
  }

  /** A state without equations left is complete: one round of completion
      ends the loop with both flags set and the rules as they were. */
  lemma CompleteEmpty(cfg: Config, kb: KB, rounds: nat)
    requires kb.E == [] && rounds > 0
    ensures Complete(cfg, kb, rounds) == Ok(kb.(isComplete := true, isCompleteGround := true))
  {
    assert Step(cfg, kb) == Ok((true, kb.(isComplete := true, isCompleteGround := true)));
  }

  // ---------------------------------------------------------------------------
  // nf and eq

  /** `nf`: the normal form of `t` by the current equations and rules, which
      the source refuses to compute before the system is known to be
      complete (complete for ground terms, when `t` is ground). */
  function Nf(cfg: Config, kb: KB, t: Term): (r: Result<(Term, nat)>)
    ensures Ground(t) && !kb.isCompleteGround ==> r == Err(IncompleteSystem)
    ensures !Ground(t) && !kb.isComplete ==> r == Err(IncompleteSystem)
    ensures r.Err? ==> r.error == IncompleteSystem || r.error == ReductionDivergence
    ensures r.Ok? ==> Convertible(Axioms(kb), t, r.value.0) && Irreducible(cfg, kb.E, kb.R, r.value.0)
    ensures (if Ground(t) then kb.isCompleteGround else kb.isComplete) ==> (r.Err? ==> r.error == ReductionDivergence)
  {
    var r := if Vars(t) == {} then
        if !kb.isCompleteGround then Err(IncompleteSystem) else Red(cfg, kb.next, kb.E, kb.R, t)
      else if !kb.isComplete then Err(IncompleteSystem) else Red(cfg, kb.next, kb.E, kb.R, t);
    if r.Ok? then RedSound(Axioms(kb), cfg, kb.next, kb.E, kb.R, t); r else r
  }

  /** The first half of `eq`: both normal forms, then the verdict they allow
      (`Some(true)` when they coincide, `Some(false)` when they differ in a
      complete system, `None` when completion must go on). Only the counter
      of the state changes. */
  function EqCompare(cfg: Config, kb: KB, lhs: Term, rhs: Term): (r: Result<(Option<bool>, KB)>)
    ensures r.Err? ==> r.error == IncompleteSystem || r.error == ReductionDivergence
    ensures r.Ok? ==> r.value.1 == kb.(next := r.value.1.next)
    ensures r.Ok? && r.value.0 == Some(true) ==> Convertible(Axioms(kb), lhs, rhs)
    ensures r.Ok? && r.value.0 == Some(false) ==> kb.isComplete
    ensures r.Ok? && r.value.0 == None ==> !kb.isComplete
    ensures (if Ground(lhs) then kb.isCompleteGround else kb.isComplete) &&
            (if Ground(rhs) then kb.isCompleteGround else kb.isComplete) ==>
              (r.Err? ==> r.error == ReductionDivergence)
  {
    var l :- Nf(cfg, kb, lhs);
    var r :- Nf(cfg, kb.(next := l.1), rhs);
    var kb1 := kb.(next := r.1);
    assert Axioms(kb.(next := l.1)) == Axioms(kb);
    if l.0 == r.0 then
      ConvertibleSym(Axioms(kb), rhs, r.0);
      ConvertibleTrans(Axioms(kb), lhs, l.0, rhs);
      Ok((Some(true), kb1))
    else if kb1.isComplete then Ok((Some(false), kb1))
    else Ok((None, kb1))
  }

  /** `eq`: normal forms first; if they differ and the system is not known to
      be complete, one more round of completion and try again. The source
      recurses without bound; here `fuel` rounds are allowed. An answer true
      is an equation of the theory, an answer false comes only from a complete
      system, and the rounds run on the way keep the theory. */
  function Eq(cfg: Config, kb: KB, lhs: Term, rhs: Term, fuel: nat): (r: Result<(bool, KB)>)
    ensures r.Ok? ==> Equivalent(Axioms(kb), Axioms(r.value.1))
    ensures r.Ok? && r.value.0 ==> Convertible(Axioms(kb), lhs, rhs)
    ensures r.Ok? && !r.value.0 ==> r.value.1.isComplete
    ensures GroundStuck(cfg, kb, lhs, rhs) ==> r == Err(OutOfFuel)
    ensures EqCompare(cfg, kb, lhs, rhs).Ok? && EqCompare(cfg, kb, lhs, rhs).value.0.Some? ==>
              r.Ok? && r.value.0 == EqCompare(cfg, kb, lhs, rhs).value.0.value
    ensures EqCompare(cfg, kb, lhs, rhs).Err? ==> r == Err(EqCompare(cfg, kb, lhs, rhs).error)
    decreases fuel
  {
    var c :- EqCompare(cfg, kb, lhs, rhs);
    assert Axioms(c.1) == Axioms(kb);
    EquivalentSameMembers(Axioms(kb), Axioms(c.1));
    assert GroundStuck(cfg, kb, lhs, rhs) ==>
             && c.0.None? && Step(cfg, c.1).Ok?
             && GroundStuck(cfg, Step(cfg, c.1).value.1, lhs, rhs) by {
      if GroundStuck(cfg, kb, lhs, rhs) {
        StuckCompare(cfg, kb, lhs, rhs);
        StuckRenumber(cfg, kb, lhs, rhs, c.1.next);
        StuckStep(cfg, c.1, lhs, rhs);
      }
    }
    if c.0.Some? then Ok((c.0.value, c.1))
    else if fuel == 0 then Err(OutOfFuel)
    else
      var s :- Step(cfg, c.1);
      var res := Eq(cfg, s.1, lhs, rhs, fuel - 1);
      if res.Ok? then
        StepEquivalent(cfg, c.1);
        EqRound(Axioms(kb), Axioms(s.1), Axioms(res.value.1), lhs, rhs, res.value.0);
        res
      else res
  }

  /** The same query, but a system complete for ground terms also answers
      false for two ground terms with different normal forms, instead of
      running one more round of completion. */
  function EqGround(cfg: Config, kb: KB, lhs: Term, rhs: Term, fuel: nat): (r: Result<(bool, KB)>)
    ensures r.Ok? ==> Equivalent(Axioms(kb), Axioms(r.value.1))
    ensures r.Ok? && r.value.0 ==> Convertible(Axioms(kb), lhs, rhs)
    ensures r.Ok? && !r.value.0 ==>
              r.value.1.isComplete || (Ground(lhs) && Ground(rhs) && r.value.1.isCompleteGround)
    ensures EqCompare(cfg, kb, lhs, rhs).Ok? && EqCompare(cfg, kb, lhs, rhs).value.0.Some? ==>
              r.Ok? && r.value.0 == EqCompare(cfg, kb, lhs, rhs).value.0.value
    ensures EqCompare(cfg, kb, lhs, rhs).Err? ==> r == Err(EqCompare(cfg, kb, lhs, rhs).error)
    ensures Ground(lhs) && Ground(rhs) && kb.isCompleteGround && EqCompare(cfg, kb, lhs, rhs).Ok? ==> r.Ok?
    decreases fuel
  {
    var c :- EqCompare(cfg, kb, lhs, rhs);
    assert Axioms(c.1) == Axioms(kb);
    EquivalentSameMembers(Axioms(kb), Axioms(c.1));
    if c.0.Some? then Ok((c.0.value, c.1))
    else if Ground(lhs) && Ground(rhs) && c.1.isCompleteGround then Ok((false, c.1))
    else if fuel == 0 then Err(OutOfFuel)
    else
      var s :- Step(cfg, c.1);
      var res := EqGround(cfg, s.1, lhs, rhs, fuel - 1);
      if res.Ok? then
        StepEquivalent(cfg, c.1);
        EqRound(Axioms(kb), Axioms(s.1), Axioms(res.value.1), lhs, rhs, res.value.0);
        res
      else res
  }

  /** A system that is complete for ground terms but not complete, whose
      unorientable equations have only joinable critical pairs, and in which
      two terms keep different normal forms whatever the counter. */
  ghost predicate GroundStuck(cfg: Config, kb: KB, lhs: Term, rhs: Term) {
    && !kb.isComplete && kb.isCompleteGround && kb.E != [] && AllUnorientable(cfg, kb.E)
    && (forall m: nat :: AllCpsConfluent(cfg, m, kb.E, kb.R).Ok? && AllCpsConfluent(cfg, m, kb.E, kb.R).value.0)
    && (forall k: KB {:trigger EqCompare(cfg, k, lhs, rhs)} :: k == kb.(next := k.next) ==>
          EqCompare(cfg, k, lhs, rhs).Ok? && EqCompare(cfg, k, lhs, rhs).value.0.None?)
  }

  /** Such a system keeps the normal forms apart. */
  lemma StuckCompare(cfg: Config, kb: KB, lhs: Term, rhs: Term)
    requires GroundStuck(cfg, kb, lhs, rhs)
    ensures EqCompare(cfg, kb, lhs, rhs).Ok? && EqCompare(cfg, kb, lhs, rhs).value.0.None?
  {
    assert kb.(next := kb.next) == kb;
  }

  /** `eq` as written never answers in such a system: each round `step`
      reports completion done and changes nothing but the counter, and `eq`
      asks again; `Eq` states that no number of rounds suffices. */
  lemma StuckRenumber(cfg: Config, kb: KB, lhs: Term, rhs: Term, n: nat)
    requires GroundStuck(cfg, kb, lhs, rhs)
    ensures GroundStuck(cfg, kb.(next := n), lhs, rhs)
  {
  }

  /** In such a system `step` reports completion done and leaves it as it was. */
  lemma StuckStep(cfg: Config, kb: KB, lhs: Term, rhs: Term)
    requires GroundStuck(cfg, kb, lhs, rhs)
    ensures Step(cfg, kb).Ok? && Step(cfg, kb).value.0
    ensures GroundStuck(cfg, Step(cfg, kb).value.1, lhs, rhs)
  {
    var ce := CheckEmpty(cfg, kb);
    assert ce.Ok? && ce.value.0;
    assert ce.value.1 == kb.(next := ce.value.1.next);
    StuckRenumber(cfg, kb, lhs, rhs, ce.value.1.next);
  }

  /** The corrected query answers false in the same system, without running
      completion, and only for ground terms. */
  lemma EqGroundAnswers(cfg: Config, kb: KB, lhs: Term, rhs: Term, fuel: nat)
    requires GroundStuck(cfg, kb, lhs, rhs)
    ensures Ground(lhs) && Ground(rhs)
    ensures EqGround(cfg, kb, lhs, rhs, fuel).Ok? && !EqGround(cfg, kb, lhs, rhs, fuel).value.0
  {
    StuckCompare(cfg, kb, lhs, rhs);
  }

  /** One round of `eq` that went on completing: the theory is kept on both
      sides of the round, and an equation of the later theory is one of the
      earlier. */
  lemma EqRound(a: seq<Equation>, b: seq<Equation>, c: seq<Equation>, lhs: Term, rhs: Term, joined: bool)
    requires Equivalent(a, b) && Equivalent(b, c)
    requires joined ==> Convertible(b, lhs, rhs)
    ensures Equivalent(a, c)
    ensures joined ==> Convertible(a, lhs, rhs)
  {
    EquivalentTrans(a, b, c);
    if joined {
      ConvertibleLift(b, a, lhs, rhs);
    }
  }

  // ---------------------------------------------------------------------------
  // Each round of completion keeps the theory

  /** Adding consequences or dropping derivable equations leaves the theory
      as it was. */
  lemma EquivalentByMembers(a: seq<Equation>, b: seq<Equation>)
    requires forall x :: x in b ==> x in a || Convertible(a, x.lhs, x.rhs)
    requires forall x :: x in a ==> x in b || Convertible(b, x.lhs, x.rhs)
    ensures Equivalent(a, b)
  {
    EntailsMembers(a, b);
    EntailsMembers(b, a);
  }

  /** `collapseBy(ab)`, for a rule `ab` of `R`, keeps the theory of `E` and `R`. */
  lemma CollapseByEquivalent(cfg: Config, n: nat, ab: Equation, R: seq<Equation>, E: seq<Equation>)
    requires ab in R
    requires CollapseBy(cfg, n, ab, R, E).Ok?
    ensures var (R', E', _) := CollapseBy(cfg, n, ab, R, E).value;
            Equivalent(E + R, E' + R')
  {
    var (R', E', _) := CollapseBy(cfg, n, ab, R, E).value;
    CollapseBySpec(cfg, n, ab, R, E);
    var a, b := E + R, E' + R';
    forall x | x in b && x !in a ensures Convertible(a, x.lhs, x.rhs) {
      var r :| r in R && Collapsed(cfg, ab, r, x);
      assert Within([], a) && Within([ab], a);
      ReducesToSound(a, cfg, [], [ab], r.lhs, x.lhs);
      ConvertibleSym(a, r.lhs, x.lhs);
      ConvertibleMember(a, r);
      ConvertibleTrans(a, x.lhs, r.lhs, r.rhs);
    }
    forall x | x in a && x !in b ensures Convertible(b, x.lhs, x.rhs) {
      assert x in R;
      var e :| e in E' && Collapsed(cfg, ab, x, e);
      assert Within([], b) && Within([ab], b);
      ReducesToSound(b, cfg, [], [ab], x.lhs, e.lhs);
      ConvertibleMember(b, e);
      ConvertibleTrans(b, x.lhs, e.lhs, e.rhs);
    }
    EquivalentByMembers(a, b);
  }

  /** One round of `compose` keeps the theory: the new rule follows from the
      old one and the rest, and the old one from the new one and the rest. */
  lemma ComposeRoundEquivalent(cfg: Config, E: seq<Equation>, R: seq<Equation>, old_: Equation, new_: Equation)
    requires old_ in R && new_.lhs == old_.lhs
    requires ReducesTo(cfg, E, Remove(R, old_), old_.rhs, new_.rhs)
    ensures Equivalent(E + R, E + Add(Remove(R, old_), new_))
  {
    var R' := Add(Remove(R, old_), new_);
    RemoveMembers(R, old_);
    var a, b := E + R, E + R';
    assert Within(E, a) && Within(Remove(R, old_), a);
    assert Within(E, b) && Within(Remove(R, old_), b);
    ReducesToSound(a, cfg, E, Remove(R, old_), old_.rhs, new_.rhs);
    ReducesToSound(b, cfg, E, Remove(R, old_), old_.rhs, new_.rhs);
    forall x | x in b && x !in a ensures Convertible(a, x.lhs, x.rhs) {
      assert x == new_;
      ConvertibleMember(a, old_);
      ConvertibleTrans(a, old_.lhs, old_.rhs, new_.rhs);
    }
    forall x | x in a && x !in b ensures Convertible(b, x.lhs, x.rhs) {
      assert x == old_;
      ConvertibleMember(b, new_);
      ConvertibleSym(b, old_.rhs, new_.rhs);
      ConvertibleTrans(b, old_.lhs, new_.rhs, old_.rhs);
    }
    EquivalentByMembers(a, b);
  }

  /** An equation subsumed, in some direction, by another one follows from it. */
  lemma SubsumedConvertible(rules: seq<Equation>, e: Equation, c: Equation)
    requires e in rules && SubsumedEitherWay(e, c)
    ensures Convertible(rules, c.lhs, c.rhs)
  {
    if Instance(e.Reverse(), c) {
      InstanceReverse(e, c);
    } else if Instance(e.Reverse(), c.Reverse()) {
      ReversedBothWays(e, c);
    }
    assert Holds(rules, c);
    HoldsConvertible(rules, c);
  }

  /** Dropping equations subsumed by others of the list keeps the theory. */
  lemma {:induction false} SelfFilterEquivalent(n: nat, kept: seq<Equation>, rest: seq<Equation>, R: seq<Equation>)
    ensures Equivalent(SelfFilter(n, kept, rest).0 + R, kept + rest + R)
    decreases rest, 1
  {
    if rest == [] {
      assert kept + rest == kept;
      EquivalentSameMembers(SelfFilter(n, kept, rest).0 + R, kept + rest + R);
    } else if SubsumedByOther(n, rest[0], kept + rest).0 {
      SelfFilterDrop(n, kept, rest, R);
    } else {
      SelfFilterKeep(n, kept, rest, R);
    }
  }

  /** The head of `rest` is subsumed by another equation and dropped. */
  lemma {:induction false} SelfFilterDrop(n: nat, kept: seq<Equation>, rest: seq<Equation>, R: seq<Equation>)
    requires rest != [] && SubsumedByOther(n, rest[0], kept + rest).0
    ensures Equivalent(SelfFilter(n, kept, rest).0 + R, kept + rest + R)
    decreases rest, 0
  {
    var n1 := SubsumedByOther(n, rest[0], kept + rest).1;
    var out := SelfFilter(n1, kept, rest[1..]).0;
    assert SelfFilter(n, kept, rest).0 == out;
    SelfFilterEquivalent(n1, kept, rest[1..], R);
    var e := SubsumedWitness(n, rest[0], kept + rest);
    DropSubsumedEquivalent(kept, rest, R, e);
    EquivalentTrans(out + R, kept + rest[1..] + R, kept + rest + R);
  }

  /** The head of `rest` survives and joins `kept`. */
  lemma {:induction false} SelfFilterKeep(n: nat, kept: seq<Equation>, rest: seq<Equation>, R: seq<Equation>)
    requires rest != [] && !SubsumedByOther(n, rest[0], kept + rest).0
    ensures Equivalent(SelfFilter(n, kept, rest).0 + R, kept + rest + R)
    decreases rest, 0
  {
    var n1 := SubsumedByOther(n, rest[0], kept + rest).1;
    var kept' := kept + [rest[0]];
    assert SelfFilter(n, kept, rest).0 == SelfFilter(n1, kept', rest[1..]).0;
    ShiftHead(kept, rest);
    SelfFilterEquivalent(n1, kept', rest[1..], R);
  }

  /** The equation that made `subsumedByOther` answer yes. */
  lemma SubsumedWitness(n: nat, cand: Equation, es: seq<Equation>) returns (e: Equation)
    requires SubsumedByOther(n, cand, es).0
    ensures e in es && e != cand && SubsumedEitherWay(e, cand)
  {
    SubsumedByOtherIff(n, cand, es);
    e :| e in es && e != cand && SubsumedEitherWay(e, cand);
  }

  /** Dropping the head of `rest`, subsumed by another equation, keeps the theory. */
  lemma DropSubsumedEquivalent(kept: seq<Equation>, rest: seq<Equation>, R: seq<Equation>, e: Equation)
    requires rest != [] && e in kept + rest && e != rest[0] && SubsumedEitherWay(e, rest[0])
    ensures Equivalent(kept + rest[1..] + R, kept + rest + R)
  {
    var mid := kept + rest[1..] + R;
    assert rest == [rest[0]] + rest[1..];
    assert e in mid;
    SubsumedConvertible(mid, e, rest[0]);
    EquivalentByMembers(mid, kept + rest + R);
  }

  /** `filterSubsumedBySelf` keeps the theory of `E` and `R`. */
  lemma FilterSubsumedBySelfEquivalent(n: nat, E: seq<Equation>, R: seq<Equation>)
    ensures Equivalent(FilterSubsumedBySelf(n, E).0 + R, E + R)
  {
    SelfFilterEquivalent(n, [], E, R);
    assert [] + E + R == E + R;
  }

  /** The tail of `step` keeps the theory. */
  lemma TidyEquivalent(cfg: Config, kb: KB)
    ensures Tidy(cfg, kb).Ok? ==> Equivalent(Axioms(kb), Axioms(Tidy(cfg, kb).value))
  {
    if Tidy(cfg, kb).Ok? {
      var c := Compose(cfg, kb.next, kb.E, kb.R, cfg.fuel).value;
      var s := Simplify(cfg, c.1, kb.E, c.0).value;
      var E2 := if cfg.sortCps then SortByStrLen(cfg, s.0) else s.0;
      var (E3, n3) := FilterSubsumedBySelf(s.1, E2);
      assert Tidy(cfg, kb).value.E == E3 && Tidy(cfg, kb).value.R == c.0;
      SimplifySpec(cfg, c.1, kb.E, c.0);
      EquivalentTrans(kb.E + kb.R, kb.E + c.0, s.0 + c.0);
      assert forall x :: x in E2 + c.0 <==> x in s.0 + c.0 by {
        assert forall x :: x in E2 <==> x in multiset(E2);
        assert forall x :: x in s.0 <==> x in multiset(s.0);
      }
      EquivalentSameMembers(s.0 + c.0, E2 + c.0);
      EquivalentTrans(kb.E + kb.R, s.0 + c.0, E2 + c.0);
      FilterSubsumedBySelfEquivalent(s.1, E2, c.0);
      EquivalentTrans(kb.E + kb.R, E2 + c.0, E3 + c.0);
    }
  }

  /** Orienting the picked equation `st` of `E` into a new rule keeps the theory. */
  lemma OrientRuleEquivalent(cfg: Config, E: seq<Equation>, R: seq<Equation>, st: Equation)
    requires st in E && Orient(cfg, st).Oriented?
    ensures Equivalent(E + R, E + Add(R, Orient(cfg, st).ab))
  {
    var ab := Orient(cfg, st).ab;
    var a := E + R;
    HoldsMember(a, st);
    OrientedEquivalent(cfg, st, a);
    HoldsConvertible(a, ab);
    assert Entails(a, [ab]) by {
      forall x | x in [ab] ensures Proves(a, x) {
      }
    }
    EquivalentExtend(a, [ab], E + Add(R, ab));
  }

  /** Adding critical pairs of the rules, then dropping the picked equation
      `st` once its rule `ab` is in place, keeps the theory. */
  lemma AddPairsEquivalent(cfg: Config, E: seq<Equation>, R1: seq<Equation>, st: Equation, ab: Equation,
                           cps: seq<Equation>, batch: seq<Equation>)
    requires st in E && Orient(cfg, st) == Oriented(ab) && ab in R1
    requires Entails(E + R1, batch) && multiset(cps) <= multiset(batch)
    ensures Equivalent(E + R1, Remove(AddAll(E, cps), st) + R1)
  {
    var a := E + R1;
    var mid := AddAll(E, cps) + R1;
    MultisetMembers(cps, batch);
    EntailsSub(a, batch, cps);
    EquivalentExtend(a, cps, mid);
    var E1 := Remove(AddAll(E, cps), st);
    var b := E1 + R1;
    RemoveMembers(AddAll(E, cps), st);
    HoldsMember(b, ab);
    OrientedEquivalent(cfg, st, b);
    HoldsConvertible(b, st);
    assert Entails(b, [st]) by {
      forall x | x in [st] ensures Proves(b, x) {
      }
    }
    assert forall x :: x in mid <==> x in b || x in [st] by {
      assert forall x :: x in mid <==> x in AddAll(E, cps) || x in R1;
      assert forall x :: x in b <==> x in E1 || x in R1;
    }
    EquivalentExtend(b, [st], mid);
    EquivalentSym(b, mid);
    EquivalentTrans(a, mid, b);
  }

  /** The oriented branch of `step` up to `collapseBy` keeps the theory. */
  lemma AddRuleEquivalent(cfg: Config, kb: KB, st: Equation)
    requires st in kb.E && Orient(cfg, st).Oriented?
    ensures AddRule(cfg, kb, st, Orient(cfg, st).ab).Ok? ==>
              Equivalent(Axioms(kb), Axioms(AddRule(cfg, kb, st, Orient(cfg, st).ab).value))
  {
    if AddRule(cfg, kb, st, Orient(cfg, st).ab).Ok? {
      var ab := Orient(cfg, st).ab;
      var R1 := Add(kb.R, ab);
      var b := AllCps(cfg, kb.next, kb.seen, R1, ab);
      var (cps, n1) := FilterSubsumed(b.next, kb.E, b.cps);
      var E1 := Remove(AddAll(kb.E, cps), st);
      var c := CollapseBy(cfg, n1, ab, R1, E1).value;
      assert Axioms(AddRule(cfg, kb, st, ab).value) == c.1 + c.0;
      OrientRuleEquivalent(cfg, kb.E, kb.R, st);
      assert Entails(kb.E + R1, b.cps) by {
        HoldsMember(kb.E + R1, ab);
        forall gd | gd in R1 ensures Holds(kb.E + R1, gd) {
          HoldsMember(kb.E + R1, gd);
        }
        AllCpsSound(kb.E + R1, cfg, kb.next, kb.seen, R1, ab);
      }
      AddPairsEquivalent(cfg, kb.E, R1, st, ab, cps, b.cps);
      CollapseByEquivalent(cfg, n1, ab, R1, E1);
      EquivalentTrans(kb.E + kb.R, kb.E + R1, E1 + R1);
      EquivalentTrans(kb.E + kb.R, E1 + R1, c.1 + c.0);
    }
  }

  /** Every equation of `E` and every rule holds in `E + R`. */
  lemma AllHold(E: seq<Equation>, R: seq<Equation>)
    ensures forall e :: e in E ==> Holds(E + R, e)
    ensures forall e :: e in R ==> Holds(E + R, e)
  {
    forall e | e in E + R ensures Holds(E + R, e) {
      HoldsMember(E + R, e);
    }
  }

  /** The unfailing branch for an unorientable `st` keeps the theory: `st`
      only moves within `E`, and every critical pair added is a consequence. */
  lemma DeferEquivalent(cfg: Config, kb: KB, st: Equation)
    requires st in kb.E
    ensures Equivalent(Axioms(kb), Axioms(Defer(cfg, kb, st)))
  {
    var E1 := Add(Remove(kb.E, st), st);
    var a := E1 + kb.R;
    RemoveMembers(kb.E, st);
    EquivalentSameMembers(Axioms(kb), a);
    var ba := st.Reverse();
    AllHold(E1, kb.R);
    HoldsReverse(a, st);
    var b1 := AllCps(cfg, kb.next, kb.seen, kb.R, st);
    var (c1, n1) := FilterSubsumed(b1.next, E1, b1.cps);
    var b2 := AllCps(cfg, n1, b1.seen, kb.R, ba);
    var (c2, n2) := FilterSubsumed(b2.next, E1, b2.cps);
    var b3 := AllCps2(cfg, n2, b2.seen, E1, kb.R, st);
    var (c3, n3) := FilterSubsumed(b3.next, E1, b3.cps);
    var b4 := AllCps2(cfg, n3, b3.seen, E1, kb.R, ba);
    var (c4, n4) := FilterSubsumed(b4.next, E1, b4.cps);
    assert Entails(a, c1) by {
      AllCpsSound(a, cfg, kb.next, kb.seen, kb.R, st);
      MultisetMembers(c1, b1.cps);
      EntailsSub(a, b1.cps, c1);
    }
    assert Entails(a, c2) by {
      AllCpsSound(a, cfg, n1, b1.seen, kb.R, ba);
      MultisetMembers(c2, b2.cps);
      EntailsSub(a, b2.cps, c2);
    }
    assert Entails(a, c3) by {
      AllCps2Sound(a, cfg, n2, b2.seen, E1, kb.R, st);
      MultisetMembers(c3, b3.cps);
      EntailsSub(a, b3.cps, c3);
    }
    assert Entails(a, c4) by {
      AllCps2Sound(a, cfg, n3, b3.seen, E1, kb.R, ba);
      MultisetMembers(c4, b4.cps);
      EntailsSub(a, b4.cps, c4);
    }
    var cs := c1 + c2 + c3 + c4;
    EntailsConcat(a, c1, c2);
    EntailsConcat(a, c1 + c2, c3);
    EntailsConcat(a, c1 + c2 + c3, c4);
    assert Axioms(Defer(cfg, kb, st)) == AddAll(E1, cs) + kb.R;
    EquivalentExtend(a, cs, AddAll(E1, cs) + kb.R);
    EquivalentTrans(Axioms(kb), a, AddAll(E1, cs) + kb.R);
  }

  /** Dropping a trivial equation keeps the theory. */
  lemma TrivialEquivalent(E: seq<Equation>, R: seq<Equation>, st: Equation)
    requires st in E && st.lhs == st.rhs
    ensures Equivalent(E + R, Remove(E, st) + R)
  {
    var b := Remove(E, st) + R;
    RemoveMembers(E, st);
    assert Entails(b, [st]) by {
      forall x | x in [st] ensures Proves(b, x) {
        assert Convertible(b, x.lhs, x.rhs);
      }
    }
    EquivalentExtend(b, [st], E + R);
    EquivalentSym(b, E + R);
  }

  /** Whatever `step` does after `checkEmpty` keeps the theory. */
  lemma StepPickedEquivalent(cfg: Config, kb: KB)
    requires kb.E != []
    ensures StepPicked(cfg, kb).Ok? ==> Equivalent(Axioms(kb), Axioms(StepPicked(cfg, kb).value))
  {
    if StepPicked(cfg, kb).Ok? {
      var st := kb.E[Pick(cfg, kb.E)];
      var o := Orient(cfg, st);
      if o.Trivial? {
        TrivialEquivalent(kb.E, kb.R, st);
      } else {
        AbsorbEquivalent(cfg, kb, st, o);
      }
    }
  }

  /** Absorbing an equation of `E` keeps the theory. */
  lemma AbsorbEquivalent(cfg: Config, kb: KB, st: Equation, o: Orientation)
    requires st in kb.E && o == Orient(cfg, st) && !o.Trivial?
    ensures Absorb(cfg, kb, st, o).Ok? ==> Equivalent(Axioms(kb), Axioms(Absorb(cfg, kb, st, o).value))
  {
    if Absorb(cfg, kb, st, o).Ok? {
      var kb1 := if o.Oriented? then AddRule(cfg, kb, st, o.ab).value else Defer(cfg, kb, st);
      if o.Oriented? {
        AddRuleEquivalent(cfg, kb, st);
      } else {
        DeferEquivalent(cfg, kb, st);
      }
      TidyEquivalent(cfg, kb1);
      EquivalentTrans(Axioms(kb), Axioms(kb1), Axioms(Tidy(cfg, kb1).value));
    }
  }

  /** Each round of completion keeps the equational theory: the equations and
      rules after `step` prove exactly what those before it proved. */
  lemma StepEquivalent(cfg: Config, kb: KB)
    ensures Step(cfg, kb).Ok? ==> Equivalent(Axioms(kb), Axioms(Step(cfg, kb).value.1))
  {
    if Step(cfg, kb).Ok? {
      var ce := CheckEmpty(cfg, kb).value;
      assert Axioms(ce.1) == Axioms(kb);
      if ce.0 {
        EquivalentSameMembers(Axioms(kb), Axioms(ce.1));
      } else {
        StepPickedEquivalent(cfg, ce.1);
      }
    }
  }

  /** `step` throws `Unorientable` exactly when completion is not unfailing,
      `checkEmpty` returned false, no equation is orientable and the first
      one is not trivial. */
  lemma StepUnorientable(cfg: Config, kb: KB)
    ensures Step(cfg, kb) == Err(Unorientable) <==>
              && !cfg.unfailing
              && CheckEmpty(cfg, kb).Ok? && !CheckEmpty(cfg, kb).value.0
              && kb.E != [] && AllUnorientable(cfg, kb.E) && kb.E[0].lhs != kb.E[0].rhs
  {
    var ce := CheckEmpty(cfg, kb);
    if ce.Ok? && !ce.value.0 {
      assert ce.value.1.E == kb.E;
      StepPickedUnorientable(cfg, ce.value.1);
    }
  }

  lemma StepPickedUnorientable(cfg: Config, kb: KB)
    requires kb.E != []
    ensures StepPicked(cfg, kb) == Err(Unorientable) <==>
              !cfg.unfailing && AllUnorientable(cfg, kb.E) && kb.E[0].lhs != kb.E[0].rhs
  {
    if !cfg.unfailing && AllUnorientable(cfg, kb.E) && kb.E[0].lhs != kb.E[0].rhs {
      UnorientableFirst(cfg, kb);
    } else if StepPicked(cfg, kb) == Err(Unorientable) {
      UnorientableOnly(cfg, kb);
    }
  }

  /** With no orientable equation and a non-trivial first one, `step` picks
      that one and cannot orient it. */
  lemma UnorientableFirst(cfg: Config, kb: KB)
    requires kb.E != [] && AllUnorientable(cfg, kb.E) && kb.E[0].lhs != kb.E[0].rhs
    ensures Pick(cfg, kb.E) == 0 && Orient(cfg, kb.E[0]).Unoriented?
  {
    assert !Orientable(cfg, kb.E[Pick(cfg, kb.E)]);
  }

  /** The only way `step` throws `Unorientable`. */
  lemma UnorientableOnly(cfg: Config, kb: KB)
    requires kb.E != [] && StepPicked(cfg, kb) == Err(Unorientable)
    ensures !cfg.unfailing && AllUnorientable(cfg, kb.E) && kb.E[0].lhs != kb.E[0].rhs
  {
    assert forall j :: 0 <= j < |kb.E| ==> !Orientable(cfg, kb.E[j]);
  }

}
