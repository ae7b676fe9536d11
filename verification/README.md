# Unfailing Knuth–Bendix completion, modelled in Dafny

This project models the core of the Knuth–Bendix completion engine in catdata's
`catdata.algs.kb` package:

- `KBExp`: first-order terms. They cover variables, function applications,
  substitution, positions and replacement, freezing, critical pairs, and the
  subterm test.
- `KB`: the completion state and its operations:
  - the equation list `E`, the rule set `R`, the pairs already superposed, and
    the two completeness flags;
  - one round of completion (`step`). A round picks an equation, orients it
    into a rule or keeps it as an unorientable equation, adds critical pairs,
    and then runs `collapseBy`, `compose`, `simplify`, `sortByStrLen` and
    `filterSubsumedBySelf`;
  - the completion loop `complete`;
  - the queries `nf` and `eq`.

Plain completion fails on an equation that the reduction order cannot orient.
Unfailing (ordered) completion keeps such an equation and rewrites with its
instances only when the order makes them decrease.

The model is purely functional:

- A state is an immutable `Engine.KB` value.
- Every operation returns a `Base.Result`. An exception of the source becomes
  an `Err` carrying the kind of failure.
- The source's fresh-variable iterator becomes a counter, threaded through
  every operation that renames apart.
- The reduction order and the string rendering used for sorting are fields of
  `Params.Config`.

Equational meaning is stated by the congruence `Theory.Convertible`: the terms
that instances of a list of equations prove equal.

- `Theory.Equivalent(a, b)` holds when `a` and `b` prove each other's
  equations.
- The central invariant is that every operation on the state presents a
  theory equivalent to the one it started from: `Engine.StepEquivalent`,
  `Engine.Run`, and the lemmas for each sub-step.
- When `eq` answers true, the two terms are convertible in the starting
  theory.

Modules, in dependency order:

- `Base`: `Option`, `Result`, the failure kinds.
- `Terms`: terms, substitution, positions, replacement, freeze and unfreeze.
- `Theory`: equations, instances, `Convertible`, `Entails`, `Equivalent`.
- `Lists` and `Sorting`: the collection helpers, and the comparator of
  `sortByStrLen`.
- `Params` and `Renaming`: the configuration, and `freshen`/`freshenMap`.
- `Unifier`: matching (`findSubst`) and syntactic unification (`unify0`).
- `Overlaps` and `CriticalPairs`: `KBExp.cp`, `KB.cp`, `allcps`, `allcps2`,
  `reduce`.
- `Rewriting`: `step1`, `step1Es`, `step1EsX`, `step`, `red`.
- `Subsumption`: `subsumes`, `filterSubsumed`, `filterSubsumedBySelf`.
- `Engine`: the state, `step` and its sub-steps, `complete`, `nf`, `eq`.

All source paths below are under `catdata_algs/src/catdata/algs/kb/`.

## Model

| member | source | states |
|---|---|---|
| Terms.OccursIffVars | catdata_algs/src/catdata/algs/kb/KBExp.java:244-251 | The occurs check holds exactly when the variable is in the term's variable set (`vars`), in both directions. |
| Terms.VarsOfMember | catdata_algs/src/catdata/algs/kb/KBExp.java:263-267 | A variable is in the variables of an argument list exactly when some argument contains it. |
| Terms.ApplyShape | catdata_algs/src/catdata/algs/kb/KBExp.java:254-260 | Substitution replaces a variable in the map by its image and leaves any other variable alone. On an application it keeps the symbol and arity and substitutes each argument. |
| Terms.ApplyEmpty | catdata_algs/src/catdata/algs/kb/KBExp.java:254-260 | The empty substitution leaves every term unchanged. |
| Terms.ApplyAgree | catdata_algs/src/catdata/algs/kb/KBExp.java:254-260 | Two substitutions that agree on a term's variables give the same instance. |
| Terms.ApplyCompose | catdata_algs/src/catdata/algs/kb/KBExp.java:254-260 | Substituting twice equals substituting once with the composed map. |
| Terms.VarsApply | catdata_algs/src/catdata/algs/kb/KBExp.java:254-267 | A variable of an instance is either an unmapped variable of the term or comes from the image of a mapped one. |
| Terms.VarsApplyImage | catdata_algs/src/catdata/algs/kb/KBExp.java:254-267 | The variables of a mapped variable's image occur in the instance. |
| Terms.VarsApplyKeep | catdata_algs/src/catdata/algs/kb/KBExp.java:254-267 | An unmapped variable of the term survives in the instance. |
| Terms.AtAppend | catdata_algs/src/catdata/algs/kb/KBExp.java:290-304 | The subterm at `p + q` is the subterm at `q` of the subterm at `p`, and is absent when either is absent. |
| Terms.ReplaceApp | catdata_algs/src/catdata/algs/kb/KBExp.java:290-304 | Replacing below an application keeps its symbol and arity and changes only the argument named by the first index, by replacing inside it. An index past the arity leaves the term unchanged. |
| Terms.ReplaceVar | catdata_algs/src/catdata/algs/kb/KBExp.java:134-139 | Replacing at a non-empty position below a variable fails with `CannotReplace`. |
| Terms.AtReplace | catdata_algs/src/catdata/algs/kb/KBExp.java:290-304 | Replacing at an existing position succeeds, and the new subterm is then found at that position. |
| Terms.ReplaceAtSelf | catdata_algs/src/catdata/algs/kb/KBExp.java:290-304 | Replacing a subterm by itself gives back the whole term. |
| Terms.ApplyAt | catdata_algs/src/catdata/algs/kb/KBExp.java:254-260 | Substitution commutes with taking a subterm. |
| Terms.ApplyReplace | catdata_algs/src/catdata/algs/kb/KBExp.java:290-304 | Substitution commutes with replacement at a position. |
| Terms.HasAsSubtermIffAt | catdata_algs/src/catdata/algs/kb/KBExp.java:340-350 | `hasAsSubterm` holds exactly when some position of the term holds the subterm. |
| Terms.AtHasAsSubterm | catdata_algs/src/catdata/algs/kb/KBExp.java:340-350 | Whatever sits at a position is a subterm in the sense of `hasAsSubterm`. |
| Terms.SubtermInherited | catdata_algs/src/catdata/algs/kb/KBExp.java:340-350 | A subterm of an argument is a subterm of the application. |
| Terms.FreezeGround | catdata_algs/src/catdata/algs/kb/KBExp.java:308-318 | A frozen term has no variables. |
| Terms.FreezeStable | catdata_algs/src/catdata/algs/kb/KBExp.java:308-318 | No substitution changes a frozen term. |
| Terms.UnfreezeFreeze | catdata_algs/src/catdata/algs/kb/KBExp.java:324-337 | Unfreezing undoes freezing on every term built from ordinary symbols. |
| Terms.UnfreezeVar | catdata_algs/src/catdata/algs/kb/KBExp.java:324-337 | Unfreezing a variable is an error. |
| Lists.Remove | catdata_algs/src/catdata/algs/kb/KB.java:104-106 | `remove` deletes every occurrence of the element and nothing else, as multisets. It keeps a duplicate-free list duplicate-free. |
| Lists.RemoveMembers | catdata_algs/src/catdata/algs/kb/KB.java:104-106 | After `remove`, the members are exactly the old members other than the removed one. |
| Lists.Add | catdata_algs/src/catdata/algs/kb/KB.java:108-112 | `add` appends an absent element, keeps the old list as a prefix, adds no other member, and leaves the list alone when the element is present. |
| Lists.AddFront | catdata_algs/src/catdata/algs/kb/KB.java:114-118 | `addFront` puts an absent element at the head in front of the old list, adds no other member, and leaves the list alone when the element is present. |
| Lists.AddAll | catdata_algs/src/catdata/algs/kb/KB.java:120-124 | `addAll` keeps the old list as a prefix, ends with exactly the union of the members, and keeps the list duplicate-free. |
| Sorting.KeyTotal | catdata_algs/src/catdata/algs/kb/KB.java:797-807 | The comparator (length first, then `compareTo`) is total and antisymmetric on renderings. |
| Sorting.SortByKey | catdata_algs/src/catdata/algs/kb/KB.java:126-128 | Sorting by rendering gives a permutation of the list that is ordered by the comparator. |
| Sorting.SortByKeyStable | catdata_algs/src/catdata/algs/kb/KB.java:126-128 | The sort is stable: for every rendering, the elements with that rendering appear in the result in their original order. |
| Engine.SortByStrLen | catdata_algs/src/catdata/algs/kb/KB.java:126-144 | `sortByStrLen` permutes `E`. Outside unfailing mode the result is ordered by the comparator. |
| Engine.SortByStrLenPartition | catdata_algs/src/catdata/algs/kb/KB.java:129-142 | In unfailing mode the result is the orientable equations, sorted, followed by the unorientable ones in their original order. |
| Engine.SortByStrLenStable | catdata_algs/src/catdata/algs/kb/KB.java:126-144 | `sortByStrLen` is stable. Outside unfailing mode, equations with the same rendering keep their order. In unfailing mode, per rendering, the orientable equations come first in their order, then the unorientable ones in theirs. |
| Renaming.EqVarList | catdata_algs/src/catdata/algs/kb/KB.java:86-101 | The variables to rename are listed once each, and are exactly the variables of the equation. |
| Renaming.FreshenMapRange | catdata_algs/src/catdata/algs/kb/KB.java:86-101 | `freshenMap` sends every variable of the equation, and only those, to a fresh variable drawn from the counter's new range. |
| Renaming.FreshenApart | catdata_algs/src/catdata/algs/kb/KB.java:81-84 | A freshened equation shares no variable with any term whose fresh variables predate the counter. |
| Renaming.FreshenRoundTrip | catdata_algs/src/catdata/algs/kb/KB.java:86-101 | The inverse map of `freshenMap` undoes the renaming on both sides. |
| Renaming.FreshenVariant | catdata_algs/src/catdata/algs/kb/KB.java:81-84 | A freshened equation and the original are instances of each other. |
| Unifier.FindSubst | catdata_algs/src/catdata/algs/kb/KB.java:580 | A matcher found for a pattern turns the pattern into the target and binds only the pattern's variables. |
| Unifier.FindSubstIffInstance | catdata_algs/src/catdata/algs/kb/KB.java:580 | Matching succeeds exactly when the target is an instance of the pattern. |
| Unifier.FindSubstPairIffInstance | catdata_algs/src/catdata/algs/kb/KB.java:190-198 | Matching a pair of patterns against a pair of terms with one substitution succeeds exactly when such a substitution exists. |
| Unifier.Unify0 | catdata_algs/src/catdata/algs/kb/KBExp.java:280 | A unifier found for two terms makes them equal. |
| Overlaps.OverlapsVar | catdata_algs/src/catdata/algs/kb/KBExp.java:128-131 | A variable position contributes no critical pair. |
| Overlaps.OverlapsExact | catdata_algs/src/catdata/algs/kb/KBExp.java:270-287 | The overlaps collected from the root are exactly the unifying non-variable positions. Each pairs the instance of the other rule's right side with the instance of the replaced left side. |
| Overlaps.OverlapSound | catdata_algs/src/catdata/algs/kb/KBExp.java:276-285 | Both sides of every overlap are convertible in any theory where the two overlapping equations hold. |
| CriticalPairs.CpIff | catdata_algs/src/catdata/algs/kb/KB.java:538-564 | A pair is in `cp`'s result exactly when it comes from an overlap of the two renamed-apart equations that the order does not discard. |
| CriticalPairs.CpSound | catdata_algs/src/catdata/algs/kb/KB.java:538-564 | The critical pairs of two valid equations follow from the theory. |
| CriticalPairs.CollectCps | catdata_algs/src/catdata/algs/kb/KB.java:547-562 | The result holds the accumulator plus exactly the non-discarded overlaps, without duplicates. |
| CriticalPairs.Visit | catdata_algs/src/catdata/algs/kb/KB.java:433-515 | A pair already seen changes nothing. A new pair is recorded as seen, and the pairs found become exactly the old ones plus the critical pairs `cp` gives for it at the current counter. |
| CriticalPairs.VisitAllSeen | catdata_algs/src/catdata/algs/kb/KB.java:433-515 | Pairs that are all already seen add no critical pair. |
| CriticalPairs.VisitAllFrom | catdata_algs/src/catdata/algs/kb/KB.java:517-536 | Every critical pair found after visiting a list of pairs was there before or is a critical pair, up to fresh-variable names, of a visited pair that was not seen before. |
| CriticalPairs.VisitAllCovers | catdata_algs/src/catdata/algs/kb/KB.java:517-536 | Every visited pair not seen before contributes all of its critical pairs, for one value of the counter. |
| CriticalPairs.RulePairs | catdata_algs/src/catdata/algs/kb/KB.java:517-536 | `allcps` visits exactly the pairs of the new rule with each rule, in both orders. |
| CriticalPairs.EquationPairsOver | catdata_algs/src/catdata/algs/kb/KB.java:433-515 | `allcps2` visits exactly the eight orientation combinations of the new equation with each equation. |
| CriticalPairs.AllCps | catdata_algs/src/catdata/algs/kb/KB.java:517-536 | `allcps` records every visited pair as seen and returns duplicate-free pairs. |
| CriticalPairs.AllCps2 | catdata_algs/src/catdata/algs/kb/KB.java:433-515 | `allcps2` records every visited pair as seen and returns duplicate-free pairs. |
| CriticalPairs.AllCpsExact | catdata_algs/src/catdata/algs/kb/KB.java:517-536 | `allcps` finds exactly the critical pairs of the unseen pairs of the new rule with a rule, in either role: each pair found comes from one of them, and each contributes all of its pairs. |
| CriticalPairs.AllCps2PairsIff | catdata_algs/src/catdata/algs/kb/KB.java:433-515 | The pairs `allcps2` visits are the new equation or its reverse against every equation of `E`, the new equation and its reverse, in all eight combinations, and the new equation or its reverse against every rule in either role. |
| CriticalPairs.AllCps2Exact | catdata_algs/src/catdata/algs/kb/KB.java:433-515 | `allcps2` finds exactly the critical pairs of the unseen pairs it visits: each pair found comes from one of them, and each contributes all of its pairs. |
| CriticalPairs.AllCpsSound | catdata_algs/src/catdata/algs/kb/KB.java:517-536 | Every critical pair `allcps` produces follows from the theory. |
| CriticalPairs.AllCps2Sound | catdata_algs/src/catdata/algs/kb/KB.java:433-515 | Every critical pair `allcps2` produces follows from the theory. |
| CriticalPairs.AllCpsSeenBefore | catdata_algs/src/catdata/algs/kb/KB.java:517-536 | Once all of a rule's pairs are seen, `allcps` produces nothing. |
| CriticalPairs.Reduce | catdata_algs/src/catdata/algs/kb/KB.java:627-639 | `reduce` keeps what it had and adds only non-trivial pairs. |
| CriticalPairs.ReduceSound | catdata_algs/src/catdata/algs/kb/KB.java:627-639 | Reduced pairs still follow from the theory, and both sides of each new pair are in normal form. |
| CriticalPairs.ReduceComplete | catdata_algs/src/catdata/algs/kb/KB.java:627-639 | Conversely, a theory holding the reduced pairs proves the original pairs. |
| Rewriting.RewriteOrdered | catdata_algs/src/catdata/algs/kb/KB.java:603-624 | `step1EsX` either leaves the term alone or yields a strictly smaller term in the order. |
| Rewriting.RewriteOrderedInstance | catdata_algs/src/catdata/algs/kb/KB.java:603-624 | When `step1EsX` rewrites, the old and new terms are an instance of the equation. |
| Rewriting.RewriteOrderedProgress | catdata_algs/src/catdata/algs/kb/KB.java:603-624 | Conversely, when the renamed equation's left side matches and the order puts the matching right side below the term, `step1EsX` does rewrite the term to that right side. |
| Rewriting.RewriteByEquations | catdata_algs/src/catdata/algs/kb/KB.java:593-601 | Outside unfailing mode, equations never rewrite. |
| Rewriting.RulePassProgress | catdata_algs/src/catdata/algs/kb/KB.java:572-585 | A rule whose renamed left side matches the term rewrites it to the matching instance of its right side, whatever the order says. |
| Rewriting.Step1Sound | catdata_algs/src/catdata/algs/kb/KB.java:566-591 | One root rewrite by rules or equations stays within the congruence of the theory. |
| Rewriting.StepTermSound | catdata_algs/src/catdata/algs/kb/KB.java:386-399 | The parallel rewrite of `step` stays within the congruence. |
| Rewriting.RedSound | catdata_algs/src/catdata/algs/kb/KB.java:367-384 | A successful `red` ends in a term convertible with the start that one more pass leaves unchanged. |
| Rewriting.RedLoopMonotone | catdata_algs/src/catdata/algs/kb/KB.java:367-384 | A larger pass budget gives the same answer as any budget that already succeeded. |
| Rewriting.RedLoopFixed | catdata_algs/src/catdata/algs/kb/KB.java:367-384 | On a term already in normal form, `red` returns it after one pass and fails only with no budget. |
| Rewriting.RedLoopErrChanges | catdata_algs/src/catdata/algs/kb/KB.java:367-384 | When `red` gives up, each of its `red_its` passes changed the term. |
| Rewriting.RedLoopChangesErr | catdata_algs/src/catdata/algs/kb/KB.java:367-384 | When each of the `red_its` passes changes the term, `red` gives up. |
| Rewriting.RedLoopFails | catdata_algs/src/catdata/algs/kb/KB.java:367-384 | `red` fails exactly when each of its first `red_its` passes changes the term, with the counter threaded from pass to pass. |
| Rewriting.StepTermInert | catdata_algs/src/catdata/algs/kb/KB.java:386-399 | With no rules, and no equations that may be used, `step` changes nothing. |
| Subsumption.SubsumesIff | catdata_algs/src/catdata/algs/kb/KB.java:178-199 | `subsumes(cand, other)` holds exactly when `cand` is an instance of `other`. |
| Subsumption.SubsumedByAnyIff | catdata_algs/src/catdata/algs/kb/KB.java:201-213 | A candidate is subsumed by a list exactly when it is an instance of some member. |
| Subsumption.FilterSubsumed | catdata_algs/src/catdata/algs/kb/KB.java:201-213 | `filterSubsumed` keeps a sub-multiset of the candidates. |
| Subsumption.FilterSubsumedIff | catdata_algs/src/catdata/algs/kb/KB.java:201-213 | A candidate survives `filterSubsumed` exactly when it is not an instance of any equation of `E`. |
| Subsumption.SubsumesSomeWayIff | catdata_algs/src/catdata/algs/kb/KB.java:227-243 | The four-way test holds exactly when the candidate or its reverse is an instance of the equation or its reverse. |
| Subsumption.SubsumedByOtherIff | catdata_algs/src/catdata/algs/kb/KB.java:216-247 | The self-filter drops a candidate exactly when some other member subsumes it in one of the four ways. |
| Subsumption.FilterSubsumedBySelfSpec | catdata_algs/src/catdata/algs/kb/KB.java:216-247 | `filterSubsumedBySelf` keeps only members of the list, and no survivor subsumes another. Each dropped equation is subsumed by some other member. |
| Engine.Init | catdata_algs/src/catdata/algs/kb/KB.java:65-75 | The constructor starts with the given equations, each once, no rules, nothing seen, and neither flag set. |
| Engine.InitTheory | catdata_algs/src/catdata/algs/kb/KB.java:65-75 | The initial state presents exactly the theory of the given equations. |
| Engine.Pick | catdata_algs/src/catdata/algs/kb/KB.java:717-725 | `pick` chooses the first orientable equation, or the head when none is orientable. |
| Engine.Orient | catdata_algs/src/catdata/algs/kb/KB.java:668-687 | An equation is oriented exactly when the order decides it, left to right first. The resulting rule decreases in the order. An equation is trivial exactly when it is unorientable with equal sides. |
| Engine.OrientedEquivalent | catdata_algs/src/catdata/algs/kb/KB.java:670-675 | Orienting an equation does not change whether it holds in a theory. |
| Engine.CollapseBySpec | catdata_algs/src/catdata/algs/kb/KB.java:417-431 | `collapseBy` keeps the new rule and keeps exactly the rules whose left side it does not rewrite. Each removed rule comes back in `E` as the equation of its rewritten left side and its right side, and `E` gains nothing else. New equations go to the front: the old `E` is a suffix of the new one. |
| Engine.CollapseByEquivalent | catdata_algs/src/catdata/algs/kb/KB.java:417-431 | `collapseBy` leaves the theory of `E` and `R` unchanged. |
| Engine.Compose | catdata_algs/src/catdata/algs/kb/KB.java:250-271 | `compose` keeps the set of left sides and leaves every rule's right side irreducible by `E` and the other rules. It does not change the theory. |
| Engine.ComposeFind | catdata_algs/src/catdata/algs/kb/KB.java:256-265 | One round finds a rule whose right side reduces to something different and gives its replacement; none found means every right side is already in normal form. |
| Engine.Simplify | catdata_algs/src/catdata/algs/kb/KB.java:402-414 | `simplify` leaves `E` duplicate-free, with no equation whose two sides are equal. |
| Engine.SimplifySpec | catdata_algs/src/catdata/algs/kb/KB.java:402-414 | `simplify` does not change the theory, and leaves both sides of every equation in normal form for the rules. |
| Engine.Joinable | catdata_algs/src/catdata/algs/kb/KB.java:778-787 | A true answer means both sides of every pair reduce to one common term. A false answer means some pair has sides that reduce to different terms. |
| Engine.EquationsConfluent | catdata_algs/src/catdata/algs/kb/KB.java:760-766 | A true answer means that, for each listed equation, all critical pairs checked for it join (for some counter value). A false answer means one of them has a pair whose sides reduce to different terms. |
| Engine.RulesConfluent | catdata_algs/src/catdata/algs/kb/KB.java:767-772 | The same for the rules and their `allcps` pairs. |
| Engine.AllCpsConfluent | catdata_algs/src/catdata/algs/kb/KB.java:759-774 | A true answer means the critical pairs of every equation and every rule join. A false answer means some equation or rule has a pair that does not join. |
| Engine.CheckEmpty | catdata_algs/src/catdata/algs/kb/KB.java:737-749 | With no equations, the state becomes complete. With a non-empty `E` of only unorientable equations, the answer is exactly `allCpsConfluent`'s. A true answer sets the ground flag only, and means every equation's and rule's critical pairs join. A false answer there means some pair does not join. A state with an orientable equation is left as it is. |
| Engine.TidyEquivalent | catdata_algs/src/catdata/algs/kb/KB.java:702-711 | The closing sub-steps of a round (`compose`, `simplify`, sorting, `filterSubsumedBySelf`) do not change the theory. |
| Engine.Tidy | catdata_algs/src/catdata/algs/kb/KB.java:702-711 | After the closing sub-steps, `E` is duplicate-free with no trivial equation, the rule left sides are unchanged, and the flags are kept. |
| Engine.AddRuleEquivalent | catdata_algs/src/catdata/algs/kb/KB.java:689-694 | Adding the oriented rule with its critical pairs, removing the picked equation and collapsing does not change the theory. |
| Engine.AddRule | catdata_algs/src/catdata/algs/kb/KB.java:689-694 | The new rule is in `R`. The new `R` is a sub-multiset of the old `R` plus the new rule, so its left sides are old ones or the new rule's. The flags are kept. `E` keeps every old equation but the picked one. It gains every critical pair that the old `E` does not subsume, other than the picked equation, of each pair of the new rule with a rule that was not seen before. |
| Engine.AddRuleFrom | catdata_algs/src/catdata/algs/kb/KB.java:689-694 | Conversely, every equation of the new `E` is an old one other than the picked equation, or such an unsubsumed critical pair, or a rule that the new rule collapsed. |
| Engine.Defer | catdata_algs/src/catdata/algs/kb/KB.java:680-700 | The rules and flags are unchanged. The new `E` starts with the old `E` without the picked equation, then the picked equation. It gains every critical pair that the reordered `E` does not subsume, other than the picked equation, of each pair of the four batches that was not seen before. |
| Engine.FilterJoined | catdata_algs/src/catdata/algs/kb/KB.java:201-213 | If a batch holds all critical pairs of a pair, every one of them that `filterSubsumed` does not drop reaches `E`. |
| Engine.BatchJoined | catdata_algs/src/catdata/algs/kb/KB.java:518-536 | Every critical pair of an unseen pair of `allcps` that `filterSubsumed` keeps reaches `E`. |
| Engine.Batch2Joined | catdata_algs/src/catdata/algs/kb/KB.java:432-515 | The same for `allcps2`. |
| Engine.DeferFrom | catdata_algs/src/catdata/algs/kb/KB.java:680-700 | Conversely, every equation the unfailing branch adds to `E` is such an unsubsumed critical pair. |
| CriticalPairs.AllCps2PairsReverse | catdata_algs/src/catdata/algs/kb/KB.java:432-515 | `allcps2` on the reversed equation visits no pair that `allcps2` on the equation does not. So the fourth batch of the unfailing branch finds nothing new. |
| Engine.DeferEquivalent | catdata_algs/src/catdata/algs/kb/KB.java:680-683 | Moving an unorientable equation to the back of `E` and adding its critical pairs does not change the theory. |
| Engine.TrivialEquivalent | catdata_algs/src/catdata/algs/kb/KB.java:676-677 | Removing an equation with equal sides does not change the theory. |
| Engine.StepPicked | catdata_algs/src/catdata/algs/kb/KB.java:664-714 | A trivial picked equation is just removed from `E`. A round fails as `Unorientable` only outside unfailing mode, when the picked equation cannot be oriented. An oriented rule's left side joins the rule left sides, and no other left side appears. Deferring an unoriented equation keeps the left sides. Duplicate-freedom and the flags are kept. |
| Engine.Absorb | catdata_algs/src/catdata/algs/kb/KB.java:688-714 | Adding a rule or deferring an equation keeps `E` duplicate-free and the flags unchanged. An oriented rule's left side joins the rule left sides and no other left side appears. Deferring keeps the left sides. |
| Engine.Step | catdata_algs/src/catdata/algs/kb/KB.java:655-714 | A finished round (true) leaves `E` and `R` alone and the state ground-complete. Any other round keeps the flags, and changes `R` by the picked equation: unchanged when it is trivial, one new left side at most when it is oriented, the same left sides when it is deferred. Duplicate-freedom is kept. |
| Engine.StepEquivalent | catdata_algs/src/catdata/algs/kb/KB.java:655-714 | A successful round of completion does not change the theory. |
| Engine.StepUnorientable | catdata_algs/src/catdata/algs/kb/KB.java:660-686 | `step` fails as `Unorientable` exactly when all of these hold: unfailing mode is off; `checkEmpty` does not finish; every equation is unorientable; and the first equation has distinct sides. |
| Engine.StepPickedUnorientable | catdata_algs/src/catdata/algs/kb/KB.java:664-686 | After `checkEmpty`, a round fails as `Unorientable` exactly when unfailing mode is off, every equation is unorientable, and the head has distinct sides. |
| Engine.Run | catdata_algs/src/catdata/algs/kb/KB.java:149-159 | The completion loop never changes the theory, and keeps `E` and `R` duplicate-free. |
| Engine.Complete | catdata_algs/src/catdata/algs/kb/KB.java:147-175 | A completed state is ground-complete and presents the theory it started from. Otherwise the result is the error the loop raised, or `NotGroundComplete`. |
| Engine.CompleteEmpty | catdata_algs/src/catdata/algs/kb/KB.java:739-743 | A state with no equations completes to itself with both flags set. |
| Engine.Nf | catdata_algs/src/catdata/algs/kb/KB.java:289-300 | `nf` refuses a ground term before ground completion and any other term before completion. Once the relevant flag is set it refuses nothing, and the only failure left is a divergent reduction. A result is convertible to the input and in normal form. |
| Engine.EqCompare | catdata_algs/src/catdata/algs/kb/KB.java:274-284 | Equal normal forms mean the terms are convertible. Different normal forms give false only in a complete system, and give "undecided" otherwise. When the flags allow both normal forms, only a divergent reduction can fail. |
| Engine.Eq | catdata_algs/src/catdata/algs/kb/KB.java:274-287 | As written: `eq` keeps the theory and answers true only for convertible terms. It answers false only once the system is complete. Whenever the normal-form comparison decides, `eq` returns that answer at once, and it passes on the comparison's failure. It never answers in a ground-complete, non-complete system whose normal forms differ. |
| Engine.EqGround | catdata_algs/src/catdata/algs/kb/KB.java:274-287 | Corrected `eq`: it has the same theory and true-answer guarantees, and answers at once whenever the comparison decides. It also answers for two ground terms whenever the system is ground-complete and the normal forms can be computed. |
| Engine.EqGroundAnswers | catdata_algs/src/catdata/algs/kb/KB.java:274-287 | On every system where the original `eq` stalls, the corrected one answers false. |

## Left out

- Threads and time: `complete` runs `step` on a thread that it stops after `iterations` milliseconds. `Engine.Run` stands for it with a bound on the number of rounds, and a bounded loop ends with the state it reached, as the stopped thread does.
- Printing: `printKB`, `toString`, `sep` and the exception messages are left out. The rendering `sortByStrLen` sorts by is a function in `Params.Config`, not Java's `toString`.
- Caches: the reduction caches of `red`, `simplify` and `step1` are dropped. A cache hit in `step1` (KB.java:569-570) returns a stored result without renaming rules apart (KB.java:575-577), so the source can reach terms that differ from the model's in the names of fresh variables, and its fresh-variable iterator advances differently. Apart from those names the results agree.
- Unused members: the `count` statistic is left out, and so are the `hashCode`, `equals` and `accept` (visitor) plumbing of `KBExp`. Term equality is Dafny's structural equality.
- `Triple.java` is not part of this model.
- `KBUnifier` is not part of this model. `Unifier` supplies its own implementations of `findSubst` and `unify0`. The matcher is proved sound and complete. The unifier is proved sound; that it returns a most general unifier is not proved, and only completeness of the critical-pair enumeration would depend on it.
- The reduction order `gt` is a parameter. Nothing here assumes it is well founded or closed under substitution. The properties proved are therefore the equational ones: soundness, and preservation of the theory.
- The fresh-variable iterator becomes a counter, and fresh variables are `Fresh(n)`. The model assumes the caller's variables are never of that form, as the source assumes its iterator never repeats a variable in use.
- Hash-set order: `R`, and the sets built in `allcps`/`allcps2`/`cp`, are duplicate-free lists in a fixed order. The order matters, and the model fixes one order. `allcps` and `allcps2` return hash sets (KB.java:436, 520), and `filterSubsumed` lists them in that order (KB.java:204). `addAll` appends them to `E` in the same order, and `pick` takes the first orientable equation of `E` (KB.java:717-725). So hash order decides which equation later rounds process. `compose` (KB.java:256) and `collapseBy` (KB.java:419-427) also follow the order of `R`. `CriticalPairs.AllCps2` visits all pairs of the new equation before those of its reverse. This reorders the pairs, not the set.
- Unbounded loops: `compose` loops until nothing changes, and `eq` recurses until it can answer. `Engine.Compose` is bounded by `Config.fuel`. `Engine.Eq` and `Engine.EqGround` take a `fuel` argument of their own. Running out is `Err(OutOfFuel)`. `red_its` is a natural number; a negative budget is not modelled.
- Sorting.KeyLess: the comparator compares strings as sequences of Unicode scalar values, while Java's `length()` and `compareTo` count and compare UTF-16 code units. The two can order renderings differently when they contain characters outside the Basic Multilingual Plane. `Sorting.LexLess` has the same limit.
- Partial updates on failure: in the source an exception leaves `E`, `R` and `seen` as far as they were updated. For example, `compose` can throw after `R.add(ab)` and `collapseBy` (KB.java:689-702). The model's `Err` carries no state, so nothing is said about the state an error leaves behind.
- `removeOrientable` is never called by the rest of the source, so it is not modelled.
- Completeness of answers is not proved: the model does not show that a false answer from `eq` means the terms are not convertible. That would need the order to be a reduction order and a confluence argument.
- Engine.EquationCps: states only the failure kind; the pairs it reduces are described by `CriticalPairs.AllCps2Exact`.
- Engine.RuleCps: states only the failure kind; the pairs it reduces are described by `CriticalPairs.AllCpsExact`.
- Right sides in `compose`: `Engine.Compose` reduces each right side with `E` as well as the other rules, because KB.java:259 passes `E` to `red`. In unfailing mode, equations may therefore rewrite right sides.

## Findings

| source | as written | input that shows it | evidently intended | confidence | as-written member | corrected member |
|---|---|---|---|---|---|---|
| catdata_algs/src/catdata/algs/kb/KB.java:274-287 | `eq` answers false only when `isComplete`. Otherwise it calls `step()` and asks again. Suppose `checkEmpty` has found every equation unorientable with joinable critical pairs, so the system is ground-complete but not complete. Then `step()` returns true at once without changing `E` or `R`, and `eq` recurses forever on two ground terms with different normal forms. | `E = {x*y = y*x}` under an order total on ground terms, queried with `eq(a*b, a)`. | The class comment (KB.java:28-29) documents this limit: completion stops for complete systems, not for ground-complete ones, and `eq` is not a semi-decision procedure for systems that are only ground-complete. The corrected member shows one way past the limit, using what `nf` already accepts for ground terms: different ground normal forms give false. | documented limitation rather than an unintended bug; not executed | Engine.Eq | Engine.EqGround, Engine.EqGroundAnswers |
