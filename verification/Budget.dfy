/** The proposal budget: votes, the greedy allocation and the finalized payment list (masternode-budget.cpp). */
module Budget {
  import opened Bytes
  import opened Collections
  import opened Digits
  import opened Sorting

  /** Hash of a proposal or of the output a vote is bound to. */
  datatype Id = Id(value: nat)

  datatype Choice = Abstain | Yes | No

  datatype Vote = Vote(choice: Choice, fValid: bool)

  datatype Proposal = Proposal(fValid: bool, start: int, end: int, amount: int, payee: nat, time: int, feeHash: nat,
                               votes: map<Id, Vote>, allotted: int)

  /**
   The chain, the clock, the masternode list and the payments as the budget code sees them.  A proposal
   is payable when it has an address that is no script hash and its collateral is good.
   */
  datatype Env = Env(tip: Option<nat>, cycle: nat, enabled: nat, bornBefore: int, window: int,
                     total: int -> int, signed: (Id, Vote) -> bool, payable: Proposal -> bool)

  const COIN: int := 100_000_000

  /** The least amount a proposal may ask for. */
  const MIN_AMOUNT: int := 10 * COIN

  type Proposals = map<Id, Proposal>

  ///////////////////////////////////////////////////////////////////////////////////////////////
  // Votes
  ///////////////////////////////////////////////////////////////////////////////////////////////

  function Counted(votes: map<Id, Vote>, choice: Choice): set<Id> {
    set h | h in votes && votes[h].choice == choice && votes[h].fValid
  }

  function Score(p: Proposal): int {
    |Counted(p.votes, Yes)| - |Counted(p.votes, No)|
  }

  /** GetYeas, GetNays and GetAbstains. */
  method CountVotes(votes: map<Id, Vote>, choice: Choice) returns (ret: nat)
    ensures ret == |Counted(votes, choice)|
  {
    ret := 0;
    var rest := votes.Keys;
    ghost var done: set<Id> := {};
    while rest != {}
      invariant rest <= votes.Keys && done == Counted(votes, choice) - rest && ret == |done|
      decreases |rest|
    {
      var h :| h in rest;
      rest := rest - {h};
      if votes[h].choice == choice && votes[h].fValid {
        ret := ret + 1;
        assert Counted(votes, choice) - rest == done + {h};
        done := done + {h};
      } else {
        assert Counted(votes, choice) - rest == done;
      }
    }
    assert done == Counted(votes, choice);
  }

  function Cleaned(p: Proposal, signed: (Id, Vote) -> bool): Proposal {
    p.(votes := map h | h in p.votes :: p.votes[h].(fValid := signed(h, p.votes[h])))
  }

  /** Marks every vote by whether its signature is still good. */
  method CleanAndRemove(p: Proposal, signed: (Id, Vote) -> bool) returns (r: Proposal)
    ensures r == Cleaned(p, signed)
  {
    var votes := p.votes;
    var rest := votes.Keys;
    while rest != {}
      invariant rest <= p.votes.Keys == votes.Keys
      invariant forall h :: h in votes ==> votes[h] == if h in rest then p.votes[h] else Cleaned(p, signed).votes[h]
      decreases |rest|
    {
      var h :| h in rest;
      votes := votes[h := votes[h].(fValid := signed(h, votes[h]))];
      rest := rest - {h};
    }
    r := p.(votes := votes);
    assert r.votes == Cleaned(p, signed).votes;
  }

  ///////////////////////////////////////////////////////////////////////////////////////////////
  // The order of proposals and the greedy allocation
  ///////////////////////////////////////////////////////////////////////////////////////////////

  datatype Ranked = Ranked(id: Id, score: int, feeHash: nat)

  /** More net votes first, then the larger fee transaction hash. */
  predicate ByVotes(a: Ranked, b: Ranked) {
    a.score > b.score || (a.score == b.score && a.feeHash >= b.feeHash)
  }

  function BlockStart(height: nat, cycle: nat): nat
    requires cycle > 0
  {
    height - height % cycle + cycle
  }

  predicate Qualifies(p: Proposal, height: nat, env: Env)
    requires env.cycle > 0
  {
    var first := BlockStart(height, env.cycle);
    && p.fValid && p.start <= first && p.end >= first + env.cycle - 1
    && Score(p) > env.enabled / 10 && p.time < env.bornBefore
  }

  function PaymentCount(p: Proposal, cycle: nat): int
    requires cycle > 0
  {
    (p.end - (p.start - p.start % cycle)) / cycle
  }

  /** CBudgetProposal::IsValid: what a proposal must be to be held. */
  predicate Acceptable(p: Proposal, env: Env)
    requires env.cycle > 0
  {
    && -Score(p) <= env.enabled / 10
    && 0 <= p.start <= p.end
    && MIN_AMOUNT <= p.amount <= env.total(p.start)
    && env.payable(p)
    && (env.tip.Some? ==> p.start + env.cycle * PaymentCount(p, env.cycle) >= env.tip.value)
  }

  /** What the allocation looks at in a ranked proposal. */
  datatype Ask = Ask(id: Id, amount: int, qualified: bool)

  predicate Accepts(a: Ask, spent: int, limit: int) {
    a.qualified && a.amount + spent <= limit
  }

  /** What is spent after the first n asks when each that qualifies and still fits is taken. */
  function Spent(asks: seq<Ask>, limit: int, n: nat): int
    requires n <= |asks|
  {
    if n == 0 then 0
    else
      var spent := Spent(asks, limit, n - 1);
      spent + if Accepts(asks[n - 1], spent, limit) then asks[n - 1].amount else 0
  }

  predicate Takes(asks: seq<Ask>, limit: int, i: nat)
    requires i < |asks|
  {
    Accepts(asks[i], Spent(asks, limit, i), limit)
  }

  /** The proposals taken, in the order of the ranking. */
  function Picked(asks: seq<Ask>, limit: int, n: nat): seq<Id>
    requires n <= |asks|
  {
    if n == 0 then [] else Picked(asks, limit, n - 1) + if Takes(asks, limit, n - 1) then [asks[n - 1].id] else []
  }

  /** Never more than the budget is handed out. */
  lemma {:induction false} SpentFits(asks: seq<Ask>, limit: int, n: nat)
    requires n <= |asks| && limit >= 0
    ensures Spent(asks, limit, n) <= limit
    decreases n
  {
    if n > 0 {
      SpentFits(asks, limit, n - 1);
    }
  }

  ghost predicate NoneNegative(asks: seq<Ask>) {
    forall i :: 0 <= i < |asks| ==> asks[i].amount >= 0
  }

  lemma {:induction false} SpentGrows(asks: seq<Ask>, limit: int, m: nat, n: nat)
    requires m <= n <= |asks| && NoneNegative(asks)
    ensures Spent(asks, limit, m) <= Spent(asks, limit, n)
    decreases n
  {
    if m < n {
      SpentGrows(asks, limit, m, n - 1);
    }
  }

  /** With no negative amounts, nothing that qualifies and was left out still fits at the end. */
  lemma LeftOutDoesNotFit(asks: seq<Ask>, limit: int, i: nat)
    requires NoneNegative(asks) && i < |asks| && asks[i].qualified && !Takes(asks, limit, i)
    ensures asks[i].amount + Spent(asks, limit, |asks|) > limit
  {
    SpentGrows(asks, limit, i, |asks|);
  }

  ghost predicate AllAtLeast(asks: seq<Ask>, m: int) {
    forall i :: 0 <= i < |asks| ==> asks[i].amount >= m
  }

  /** No proposal asks twice. */
  ghost predicate OncePerId(asks: seq<Ask>) {
    forall i, j :: 0 <= i < j < |asks| ==> asks[i].id != asks[j].id
  }

  lemma NothingYet(asks: seq<Ask>, limit: int)
    ensures Picked(asks, limit, 0) == [] && Spent(asks, limit, 0) == 0
  {}

  lemma {:induction false} PickedCost(asks: seq<Ask>, limit: int, m: int, n: nat)
    requires n <= |asks| && AllAtLeast(asks, m)
    ensures |Picked(asks, limit, n)| * m <= Spent(asks, limit, n)
    decreases n
  {
    if n > 0 {
      PickedCost(asks, limit, m, n - 1);
      AskStep(asks, limit, n - 1);
      var k := |Picked(asks, limit, n - 1)|;
      assert (k + 1) * m == k * m + m;
    }
  }

  lemma Multiples(n: nat, k: nat, m: nat)
    requires n <= k
    ensures n * m <= k * m && (n - 1) * m + m == n * m
  {
    assert k * m == n * m + (k - n) * m;
  }

  /** Qualified asks for the same amount are all taken when the budget covers them all. */
  lemma {:induction false} AllTaken(asks: seq<Ask>, limit: int, m: nat, n: nat)
    requires n <= |asks| && |asks| * m <= limit
    requires forall i :: 0 <= i < |asks| ==> asks[i].amount == m && asks[i].qualified
    ensures |Picked(asks, limit, n)| == n && Spent(asks, limit, n) == n * m
    decreases n
  {
    hide Spent, Picked, Takes;
    NothingYet(asks, limit);
    if n > 0 {
      AllTaken(asks, limit, m, n - 1);
      AskStep(asks, limit, n - 1);
      Multiples(n, |asks|, m);
    }
  }

  lemma FewPicked(asks: seq<Ask>, limit: int)
    requires AllAtLeast(asks, MIN_AMOUNT) && limit < 101 * MIN_AMOUNT
    ensures |Picked(asks, limit, |asks|)| <= 100
  {
    PickedCost(asks, limit, MIN_AMOUNT, |asks|);
    if limit >= 0 {
      SpentFits(asks, limit, |asks|);
    } else {
      NegativeBudget(asks, limit, |asks|);
    }
  }

  lemma {:induction false} NegativeBudget(asks: seq<Ask>, limit: int, n: nat)
    requires n <= |asks| && AllAtLeast(asks, MIN_AMOUNT) && limit < 0
    ensures Picked(asks, limit, n) == []
    ensures Spent(asks, limit, n) == 0
    decreases n
  {
    if n > 0 {
      NegativeBudget(asks, limit, n - 1);
    }
  }

  /**
   Proposals ask for at least the minimal amount, so a budget below 101 times that amount is the exact
   condition under which never more than 100 are taken.
   */
  lemma AtMostHundredIff(limit: int)
    ensures (forall asks :: AllAtLeast(asks, MIN_AMOUNT) && OncePerId(asks) ==> |Picked(asks, limit, |asks|)| <= 100)
      <==> limit < 101 * MIN_AMOUNT
  {
    if limit < 101 * MIN_AMOUNT {
      forall asks | AllAtLeast(asks, MIN_AMOUNT) && OncePerId(asks) ensures |Picked(asks, limit, |asks|)| <= 100 {
        FewPicked(asks, limit);
      }
    } else {
      var asks := seq(101, (i: nat) => Ask(Id(i), MIN_AMOUNT, true));
      AllTaken(asks, limit, MIN_AMOUNT, 101);
      assert AllAtLeast(asks, MIN_AMOUNT) && OncePerId(asks) && |Picked(asks, limit, |asks|)| == 101;
    }
  }

  /** What a rival selection costs among the first n asks. */
  function Cost(asks: seq<Ask>, chosen: seq<bool>, n: nat): int
    requires n <= |asks| == |chosen|
  {
    if n == 0 then 0 else Cost(asks, chosen, n - 1) + if chosen[n - 1] then asks[n - 1].amount else 0
  }

  lemma {:induction false} CostGrows(asks: seq<Ask>, chosen: seq<bool>, m: nat, n: nat)
    requires m <= n <= |asks| == |chosen| && NoneNegative(asks)
    ensures Cost(asks, chosen, m) <= Cost(asks, chosen, n)
    decreases n
  {
    if m < n {
      CostGrows(asks, chosen, m, n - 1);
    }
  }

  lemma {:induction false} SameCost(asks: seq<Ask>, limit: int, chosen: seq<bool>, n: nat)
    requires n <= |asks| == |chosen| && forall i :: 0 <= i < n ==> chosen[i] == Takes(asks, limit, i)
    ensures Cost(asks, chosen, n) == Spent(asks, limit, n)
    decreases n
  {
    if n > 0 {
      SameCost(asks, limit, chosen, n - 1);
      assert chosen[n - 1] == Takes(asks, limit, n - 1);
    }
  }

  /**
   Votes come first: where any other affordable selection of qualified proposals first differs from
   the allocation, it is the allocation that contains the proposal.
   */
  lemma VotesComeFirst(asks: seq<Ask>, limit: int, chosen: seq<bool>, j: nat)
    requires NoneNegative(asks) && j < |asks| == |chosen| && Cost(asks, chosen, |asks|) <= limit
    requires forall i :: 0 <= i < |asks| && chosen[i] ==> asks[i].qualified
    requires forall i :: 0 <= i < j ==> chosen[i] == Takes(asks, limit, i)
    ensures chosen[j] ==> Takes(asks, limit, j)
  {
    SameCost(asks, limit, chosen, j);
    CostGrows(asks, chosen, j + 1, |asks|);
  }

  ///////////////////////////////////////////////////////////////////////////////////////////////
  // The budget manager
  ///////////////////////////////////////////////////////////////////////////////////////////////

  function AskOf(r: Ranked, ps: Proposals, height: nat, env: Env): Ask
    requires env.cycle > 0 && r.id in ps
  {
    Ask(r.id, ps[r.id].amount, Qualifies(ps[r.id], height, env))
  }

  ghost predicate Known(ranked: seq<Ranked>, ps: Proposals) {
    forall i :: 0 <= i < |ranked| ==> ranked[i].id in ps
  }

  function Asks(ranked: seq<Ranked>, ps: Proposals, height: nat, env: Env): (asks: seq<Ask>)
    requires env.cycle > 0 && Known(ranked, ps)
    ensures |asks| == |ranked|
  {
    seq(|ranked|, i requires 0 <= i < |ranked| && Known(ranked, ps) => AskOf(ranked[i], ps, height, env))
  }

  /** Every proposal once, with its net votes, the best first. */
  ghost predicate Ranking(ranked: seq<Ranked>, ps: Proposals) {
    && Sorted(ranked, ByVotes) && Distinct(ranked) && Known(ranked, ps)
    && (forall i :: 0 <= i < |ranked| ==> ranked[i] == RankOf(ranked[i].id, ps[ranked[i].id]))
    && (forall id :: id in ps ==> RankOf(id, ps[id]) in ranked)
  }

  function RankOf(id: Id, p: Proposal): Ranked {
    Ranked(id, Score(p), p.feeHash)
  }

  /** Only the votes' flags may differ, and they are up to date. */
  ghost predicate AllCleaned(before: Proposals, after: Proposals, env: Env) {
    after.Keys == before.Keys && forall id :: id in after ==> after[id] == Cleaned(before[id], env.signed)
  }

  /** Every proposal asks for at least the minimal amount. */
  ghost predicate AllHeld(ps: Proposals) {
    forall id :: id in ps ==> ps[id].amount >= MIN_AMOUNT
  }

  /** A copy of a proposal is marked valid and has any allotment, because copying leaves it out. */
  ghost predicate IsCopy(p: Proposal, q: Proposal) {
    q == p.(fValid := true, allotted := q.allotted)
  }

  /** The proposals outside `rest` are copied when they are acceptable and dropped otherwise. */
  ghost predicate Rechecked(before: Proposals, after: Proposals, rest: set<Id>, env: Env)
    requires env.cycle > 0
  {
    && (forall id :: id in after <==> id in before && id !in rest && Acceptable(before[id], env))
    && (forall id :: id in after ==> IsCopy(before[id], after[id]))
  }

  /** More net votes, or as many and a fee transaction hash that is not smaller. */
  ghost predicate Beats(p: Proposal, q: Proposal) {
    Score(p) > Score(q) || (Score(p) == Score(q) && p.feeHash >= q.feeHash)
  }

  ghost predicate AllIn(ids: seq<Id>, ps: Proposals) {
    forall x :: 0 <= x < |ids| ==> ids[x] in ps
  }

  ghost function AskedFor(ids: seq<Id>, ps: Proposals): int
    requires AllIn(ids, ps)
  {
    if ids == [] then 0 else AskedFor(ids[..|ids| - 1], ps) + ps[ids[|ids| - 1]].amount
  }

  /** What those of the proposals ask for that come before the given one. */
  ghost function AskedAhead(ids: seq<Id>, ps: Proposals, q: Proposal): int
    requires AllIn(ids, ps)
  {
    if ids == [] then 0
    else
      var last := ps[ids[|ids| - 1]];
      AskedAhead(ids[..|ids| - 1], ps, q) + if Beats(last, q) then last.amount else 0
  }

  /**
   A selection that gives the money to votes: distinct qualified proposals in the order of their votes that the
   budget covers, and whatever qualifies and is left out does not fit beside those selected that beat it.
   */
  ghost predicate Fair(ids: seq<Id>, ps: Proposals, height: nat, limit: int, env: Env)
    requires env.cycle > 0
  {
    && AllIn(ids, ps)
    && (forall x, y :: 0 <= x < y < |ids| ==> ids[x] != ids[y] && Beats(ps[ids[x]], ps[ids[y]]))
    && (forall x :: 0 <= x < |ids| ==> Qualifies(ps[ids[x]], height, env))
    && (ids != [] ==> AskedFor(ids, ps) <= limit)
    && (forall id :: id in ps && id !in ids && Qualifies(ps[id], height, env) ==>
          ps[id].amount + AskedAhead(ids, ps, ps[id]) > limit)
  }

  /** The proposals a budget pays are those of the allocation on the cleaned and ranked proposals. */
  ghost predicate Selected(before: Proposals, env: Env, ids: seq<Id>)
    requires env.cycle > 0 && env.tip.Some?
  {
    exists ps, ranked :: (
      && AllCleaned(before, ps, env) && Ranking(ranked, ps)
      && Fair(ids, ps, env.tip.value, env.total(BlockStart(env.tip.value, env.cycle)), env)
      && ids == Picked(Asks(ranked, ps, env.tip.value, env), env.total(BlockStart(env.tip.value, env.cycle)), |ranked|))
  }

  lemma AskedAppended(ids: seq<Id>, id: Id, ps: Proposals, q: Proposal)
    requires AllIn(ids, ps) && id in ps
    ensures AllIn(ids + [id], ps)
    ensures AskedFor(ids + [id], ps) == AskedFor(ids, ps) + ps[id].amount
    ensures AskedAhead(ids + [id], ps, q) == AskedAhead(ids, ps, q) + if Beats(ps[id], q) then ps[id].amount else 0
  {
    assert (ids + [id])[..|ids|] == ids;
  }

  lemma RankedBeats(ranked: seq<Ranked>, ps: Proposals, i: nat, j: nat)
    requires Ranking(ranked, ps) && i < j < |ranked|
    ensures Beats(ps[ranked[i].id], ps[ranked[j].id]) && ranked[i].id != ranked[j].id
  {
    hide Score;
    IdsDistinct(ranked, ps);
    assert ByVotes(ranked[i], ranked[j]);
  }

  /** The places in the ranking of the proposals picked. */
  lemma {:induction false} PickedPlaces(asks: seq<Ask>, limit: int, n: nat) returns (places: seq<nat>)
    requires n <= |asks|
    ensures |places| == |Picked(asks, limit, n)|
    ensures forall x :: 0 <= x < |places| ==>
      places[x] < n && Takes(asks, limit, places[x]) && Picked(asks, limit, n)[x] == asks[places[x]].id
    ensures forall x, y :: 0 <= x < y < |places| ==> places[x] < places[y]
    decreases n
  {
    if n == 0 {
      places := [];
    } else {
      places := PickedPlaces(asks, limit, n - 1);
      if Takes(asks, limit, n - 1) {
        places := places + [n - 1];
      }
    }
  }

  /** What is asked for are the amounts of proposals, and the first i beat the given one. */
  ghost predicate Answers(asks: seq<Ask>, ps: Proposals, i: nat, q: Proposal) {
    && (forall k :: 0 <= k < |asks| ==> asks[k].id in ps && asks[k].amount == ps[asks[k].id].amount >= MIN_AMOUNT)
    && (forall k :: 0 <= k < |asks| && k < i ==> Beats(ps[asks[k].id], q))
  }

  lemma {:induction false} PickedCosts(asks: seq<Ask>, ps: Proposals, limit: int, i: nat, q: Proposal, n: nat)
    requires n <= |asks| && i <= |asks| && Answers(asks, ps, i, q)
    ensures var ids := Picked(asks, limit, n);
      && AllIn(ids, ps) && AskedFor(ids, ps) == Spent(asks, limit, n)
      && AskedAhead(ids, ps, q) >= Spent(asks, limit, if n < i then n else i)
    decreases n
  {
    hide Picked, Spent, Takes, AskedFor, AskedAhead, Beats, AllIn;
    NothingPicked(asks, limit, ps);
    NothingAsked(ps, q);
    if n > 0 {
      PickedCosts(asks, ps, limit, i, q, n - 1);
      AskStep(asks, limit, n - 1);
      AskedAppended(Picked(asks, limit, n - 1), asks[n - 1].id, ps, q);
      assert Picked(asks, limit, n - 1) + [] == Picked(asks, limit, n - 1);
    }
  }

  lemma RankedAnswers(ranked: seq<Ranked>, ps: Proposals, height: nat, env: Env, i: nat)
    requires env.cycle > 0 && Ranking(ranked, ps) && AllHeld(ps) && i < |ranked|
    ensures var asks := Asks(ranked, ps, height, env);
      Answers(asks, ps, i, ps[ranked[i].id]) && AllAtLeast(asks, MIN_AMOUNT)
  {
    hide Beats, Qualifies;
    forall k | 0 <= k < |ranked|
      ensures var a := Asks(ranked, ps, height, env)[k];
        && a.id == ranked[k].id && a.id in ps && a.amount == ps[a.id].amount >= MIN_AMOUNT
        && (k < i ==> Beats(ps[a.id], ps[ranked[i].id]))
    {
      AskAt(ranked, ps, height, env, k);
      if k < i {
        RankedBeats(ranked, ps, k, i);
      }
    }
  }

  lemma NothingAsked(ps: Proposals, q: Proposal)
    ensures AllIn([], ps) && AskedFor([], ps) == 0 && AskedAhead([], ps, q) == 0
  {}

  /** The allocation is fair. */
  lemma PickedIsFair(ranked: seq<Ranked>, ps: Proposals, height: nat, env: Env, limit: int)
    requires env.cycle > 0 && Ranking(ranked, ps) && AllHeld(ps)
    ensures Fair(Picked(Asks(ranked, ps, height, env), limit, |ranked|), ps, height, limit, env)
  {
    hide Picked, Spent, AskedFor, AskedAhead, Beats, Qualifies, ByVotes;
    var asks := Asks(ranked, ps, height, env);
    var ids := Picked(asks, limit, |ranked|);
    var places := PickedPlaces(asks, limit, |asks|);
    forall x | 0 <= x < |ids| ensures ids[x] == ranked[places[x]].id && ids[x] in ps && Qualifies(ps[ids[x]], height, env) {
      AskAt(ranked, ps, height, env, places[x]);
    }
    forall x, y | 0 <= x < y < |ids| ensures ids[x] != ids[y] && Beats(ps[ids[x]], ps[ids[y]]) {
      RankedBeats(ranked, ps, places[x], places[y]);
    }
    if ids != [] {
      RankedAnswers(ranked, ps, height, env, places[0]);
      PickedCosts(asks, ps, limit, places[0], ps[ranked[places[0]].id], |asks|);
      PickedAffordable(asks, limit);
    }
    forall id | id in ps && id !in ids && Qualifies(ps[id], height, env)
      ensures ps[id].amount + AskedAhead(ids, ps, ps[id]) > limit
    {
      var i :| 0 <= i < |ranked| && ranked[i] == RankOf(id, ps[id]);
      AskAt(ranked, ps, height, env, i);
      if Takes(asks, limit, i) {
        TakenIsPicked(asks, limit, i, |asks|);
      }
      RankedAnswers(ranked, ps, height, env, i);
      PickedCosts(asks, ps, limit, i, ps[id], |asks|);
    }
  }

  /** The qualified proposals selected are allotted what they ask for, the other qualified ones nothing. */
  ghost predicate AllotsTo(ps: Proposals, after: Proposals, ids: seq<Id>, height: nat, env: Env)
    requires env.cycle > 0
  {
    && after.Keys == ps.Keys
    && forall id :: id in ps ==> after[id] == ps[id].(allotted :=
         if !Qualifies(ps[id], height, env) then ps[id].allotted else if id in ids then ps[id].amount else 0)
  }

  lemma AllottedIs(ps: Proposals, after: Proposals, ranked: seq<Ranked>, height: nat, env: Env, limit: int)
    requires env.cycle > 0 && Ranking(ranked, ps)
    requires var asks := Asks(ranked, ps, height, env); AllAllotted(ps, after, ranked, asks, limit, |asks|)
    ensures AllotsTo(ps, after, Picked(Asks(ranked, ps, height, env), limit, |ranked|), height, env)
  {
    hide Picked, Takes, Spent, Qualifies, Score;
    var asks := Asks(ranked, ps, height, env);
    var ids := Picked(asks, limit, |asks|);
    var places := PickedPlaces(asks, limit, |asks|);
    IdsDistinct(ranked, ps);
    forall id | id in ps
      ensures after[id].allotted ==
        if !Qualifies(ps[id], height, env) then ps[id].allotted else if id in ids then ps[id].amount else 0
    {
      var i :| 0 <= i < |ranked| && ranked[i] == RankOf(id, ps[id]);
      AskAt(ranked, ps, height, env, i);
      if Takes(asks, limit, i) {
        TakenIsPicked(asks, limit, i, |asks|);
      } else if id in ids {
        var x :| 0 <= x < |ids| && ids[x] == id;
        AskAt(ranked, ps, height, env, places[x]);
        assert places[x] == i;
      }
    }
  }

  lemma PickedAffordable(asks: seq<Ask>, limit: int)
    requires AllAtLeast(asks, MIN_AMOUNT) && Picked(asks, limit, |asks|) != []
    ensures Spent(asks, limit, |asks|) <= limit
  {
    if limit >= 0 {
      SpentFits(asks, limit, |asks|);
    } else {
      NegativeBudget(asks, limit, |asks|);
    }
  }

  /** What qualifies and was left out does not fit beside what was spent. */
  ghost predicate Maximal(asks: seq<Ask>, limit: int, ids: seq<Id>) {
    forall i :: 0 <= i < |asks| && asks[i].qualified && asks[i].id !in ids ==> asks[i].amount + Spent(asks, limit, |asks|) > limit
  }

  lemma {:induction false} TakenIsPicked(asks: seq<Ask>, limit: int, i: nat, n: nat)
    requires i < n <= |asks| && Takes(asks, limit, i)
    ensures asks[i].id in Picked(asks, limit, n)
    decreases n
  {
    AskStep(asks, limit, n - 1);
    if i < n - 1 {
      TakenIsPicked(asks, limit, i, n - 1);
    }
  }

  lemma PickedIsMaximal(asks: seq<Ask>, limit: int)
    requires NoneNegative(asks)
    ensures Maximal(asks, limit, Picked(asks, limit, |asks|))
  {
    forall i | 0 <= i < |asks| && asks[i].qualified && asks[i].id !in Picked(asks, limit, |asks|)
      ensures asks[i].amount + Spent(asks, limit, |asks|) > limit
    {
      if Takes(asks, limit, i) {
        TakenIsPicked(asks, limit, i, |asks|);
      } else {
        LeftOutDoesNotFit(asks, limit, i);
      }
    }
  }

  lemma HeldAsks(before: Proposals, ps: Proposals, ranked: seq<Ranked>, height: nat, env: Env)
    requires env.cycle > 0 && AllHeld(before) && AllCleaned(before, ps, env) && Known(ranked, ps)
    ensures AllHeld(ps)
    ensures AllAtLeast(Asks(ranked, ps, height, env), MIN_AMOUNT) && NoneNegative(Asks(ranked, ps, height, env))
  {
    hide Qualifies;
    forall id | id in ps ensures ps[id].amount >= MIN_AMOUNT {
      assert ps[id] == Cleaned(before[id], env.signed);
    }
    forall i | 0 <= i < |ranked| ensures Asks(ranked, ps, height, env)[i].amount >= MIN_AMOUNT {
      AskAt(ranked, ps, height, env, i);
    }
  }

  lemma FewSelected(before: Proposals, env: Env, ids: seq<Id>)
    requires env.cycle > 0 && env.tip.Some? && AllHeld(before) && Selected(before, env, ids)
    requires env.total(BlockStart(env.tip.value, env.cycle)) < 101 * MIN_AMOUNT
    ensures |ids| <= 100
  {
    hide AllHeld, AllCleaned, Sorted, Distinct, Asks, Picked, BlockStart;
    var limit := env.total(BlockStart(env.tip.value, env.cycle));
    var ps, ranked :| AllCleaned(before, ps, env) && Ranking(ranked, ps)
      && ids == Picked(Asks(ranked, ps, env.tip.value, env), limit, |ranked|);
    HeldAsks(before, ps, ranked, env.tip.value, env);
    FewPicked(Asks(ranked, ps, env.tip.value, env), limit);
  }

  /** The allotment each proposal ends up with. */
  function Allotted(a: Ask, taken: bool, before: int): int {
    if !a.qualified then before else if taken then a.amount else 0
  }

  class CBudgetManager {
    var mapProposals: Proposals

    ghost predicate Valid()
      reads this
    {
      AllHeld(mapProposals)
    }

    constructor ()
      ensures Valid() && mapProposals == map[]
    {
      mapProposals := map[];
    }

    /** Takes a proposal that is acceptable and not yet held. */
    method AddProposal(id: Id, p: Proposal, env: Env) returns (ok: bool)
      requires Valid() && env.cycle > 0
      modifies this
      ensures Valid()
      ensures ok <==> Acceptable(p, env) && id !in old(mapProposals)
      ensures !ok ==> mapProposals == old(mapProposals)
      ensures ok ==> id in mapProposals && IsCopy(p, mapProposals[id]) && mapProposals == old(mapProposals)[id := mapProposals[id]]
    {
      var fValid := CheckProposal(p, env);
      if !fValid {
        return false;
      }
      if id in mapProposals {
        return false;
      }
      var junk: int := *;
      mapProposals := mapProposals[id := p.(fValid := true, allotted := junk)];
      return true;
    }

    /** Keeps a copy of each acceptable proposal, in whatever state the manager was. */
    method CheckAndRemove(env: Env)
      requires env.cycle > 0
      modifies this
      ensures Valid() && Rechecked(old(mapProposals), mapProposals, {}, env)
    {
      mapProposals := KeepAcceptable(mapProposals, env);
    }

    /** CBudgetDB::Read: whatever the file holds is checked. */
    method Read(stored: Proposals, env: Env)
      requires env.cycle > 0
      modifies this
      ensures Valid() && Rechecked(stored, mapProposals, {}, env)
    {
      mapProposals := stored;
      CheckAndRemove(env);
    }

    /** The first loop of GetBudget: cleans every proposal and notes its net votes; then sorts. */
    method RankProposals(env: Env) returns (ranked: seq<Ranked>)
      requires Valid() && env.cycle > 0
      modifies this
      ensures Valid()
      ensures AllCleaned(old(mapProposals), mapProposals, env)
      ensures Ranking(ranked, mapProposals)
      ensures forall i, j :: 0 <= i < j < |ranked| ==>
        var (p, q) := (mapProposals[ranked[i].id], mapProposals[ranked[j].id]);
        Score(p) > Score(q) || (Score(p) == Score(q) && p.feeHash >= q.feeHash)
    {
      var unsorted: seq<Ranked>;
      mapProposals, unsorted := GatherProposals(mapProposals, env);
      ranked := Sort(unsorted, ByVotes);
      SortedIsRanking(unsorted, mapProposals);
      forall i, j | 0 <= i < j < |ranked| ensures Beats(mapProposals[ranked[i].id], mapProposals[ranked[j].id]) {
        RankedBeats(ranked, mapProposals, i, j);
      }
      HeldAsks(old(mapProposals), mapProposals, ranked, 0, env);
    }

    /**
     The proposals to pay in the next cycle, best votes first, each while it fits; none without a
     chain.  The votes of all proposals are cleaned and the allotments of the qualified ones set.
     Nothing that qualifies and was left out would fit at the end.
     */
    method GetBudget(env: Env) returns (ret: seq<Id>, ghost ranked: seq<Ranked>)
      requires Valid() && env.cycle > 0
      modifies this
      ensures Valid()
      ensures var height := if env.tip.None? then 0 else env.tip.value;
        var limit := env.total(BlockStart(height, env.cycle));
        exists ps :: (
          && AllCleaned(old(mapProposals), ps, env) && Ranking(ranked, ps)
          && var asks := Asks(ranked, ps, height, env);
             if env.tip.None? then ret == [] && mapProposals == ps
             else
               && ret == Picked(asks, limit, |asks|) && Maximal(asks, limit, ret) && Fair(ret, ps, height, limit, env)
               && AllAllotted(ps, mapProposals, ranked, asks, limit, |asks|) && AllotsTo(ps, mapProposals, ret, height, env))
    {
      ranked := [];
      var order := RankProposals(env);
      ranked := order;
      ret := [];
      if env.tip.None? {
        assert Known(ranked, mapProposals);
        return;
      }
      var height := env.tip.value;
      var limit := env.total(BlockStart(height, env.cycle));
      ghost var ps := mapProposals;
      assert Known(ranked, ps);
      ghost var asks := Asks(ranked, ps, height, env);
      HeldAsks(old(mapProposals), ps, ranked, height, env);
      PickedIsMaximal(asks, limit);
      PickedIsFair(ranked, ps, height, env, limit);
      mapProposals, ret := Allocate(mapProposals, order, height, limit, env);
      StillHeld(ps, mapProposals, ranked, asks, limit);
      AllottedIs(ps, mapProposals, ranked, height, env, limit);
      assert AllCleaned(old(mapProposals), ps, env) && Ranking(ranked, ps);
    }

    /** The payment list of SubmitFinalBudget. */
    method ListPayments(vBudgetProposals: seq<Id>) returns (payments: seq<Payment>)
      requires forall i :: 0 <= i < |vBudgetProposals| ==> vBudgetProposals[i] in mapProposals
      ensures payments == PaymentsFor(vBudgetProposals, mapProposals)
    {
      payments := [];
      assert vBudgetProposals[..0] == [];
      for i := 0 to |vBudgetProposals|
        invariant payments == PaymentsFor(vBudgetProposals[..i], mapProposals)
      {
        var p := mapProposals[vBudgetProposals[i]];
        payments := payments + [Payment(vBudgetProposals[i], p.payee, p.allotted)];
        assert vBudgetProposals[..i + 1][..i] == vBudgetProposals[..i];
      }
      assert vBudgetProposals[..|vBudgetProposals|] == vBudgetProposals;
    }

    /** The payments for the proposals that GetBudget selects. */
    method BudgetPayments(env: Env) returns (payments: seq<Payment>)
      requires Valid() && env.cycle > 0 && env.tip.Some?
      modifies this
      ensures Valid() && Selected(old(mapProposals), env, PaidProposals(payments))
      ensures PaysInFull(payments, old(mapProposals))
      ensures var limit := env.total(BlockStart(env.tip.value, env.cycle)); limit >= 0 ==> PayoutOf(payments) <= limit
    {
      hide AllCleaned, AllAllotted, PaysInFull, PaymentsFor, PayoutOf, Asks, Picked, BlockStart, Sorted, Distinct, Score;
      ghost var before := mapProposals;
      var ids, ranked := GetBudget(env);
      ghost var limit := env.total(BlockStart(env.tip.value, env.cycle));
      ghost var ps :| AllCleaned(before, ps, env) && Ranking(ranked, ps)
        && var asks := Asks(ranked, ps, env.tip.value, env);
           ids == Picked(asks, limit, |asks|) && AllAllotted(ps, mapProposals, ranked, asks, limit, |asks|);
      BudgetPays(before, ps, mapProposals, ranked, env.tip.value, env, limit);
      payments := ListPayments(ids);
      PaidAre(ids, mapProposals);
    }

    /**
     Builds the budget of the next cycle inside the finalization window.  Given a fee, a good collateral
     and a nonnegative budget, the result is valid exactly when it pays at most 100 proposals, which is
     certain when the budget is below 101 times the minimal amount.
     */
    method SubmitFinalBudget(env: Env, nSubmittedHeight: int, feeHash: nat, collateralGood: bool) returns (outcome: Outcome)
      requires Valid() && env.cycle > 0
      modifies this
      ensures Valid()
      ensures env.tip.None? <==> outcome == NoChain
      ensures env.tip.Some? ==>
        var first := BlockStart(env.tip.value, env.cycle);
        && (outcome == AlreadySubmitted <==> nSubmittedHeight >= first)
        && (nSubmittedHeight < first ==> (outcome == TooEarly <==> first - env.tip.value > env.window))
        && (outcome == NoProposals ==> Selected(old(mapProposals), env, []))
        && (outcome.Built? ==>
              && outcome.budget.start == first && outcome.budget.feeHash == feeHash && outcome.budget.payments != []
              && PaysInFull(outcome.budget.payments, old(mapProposals))
              && Selected(old(mapProposals), env, PaidProposals(outcome.budget.payments)))
        && (outcome.Built? && env.total(first) >= 0 ==>
              PayoutOf(outcome.budget.payments) <= env.total(first)
              && (outcome.valid <==> feeHash != 0 && collateralGood && |outcome.budget.payments| <= 100))
        && (outcome.Built? && env.total(first) < 101 * MIN_AMOUNT ==> |outcome.budget.payments| <= 100)
    {
      if env.tip.None? {
        return NoChain;
      }
      var height := env.tip.value;
      var first := BlockStart(height, env.cycle);
      if nSubmittedHeight >= first {
        return AlreadySubmitted;
      }
      if first - height > env.window {
        return TooEarly;
      }
      var payments := BudgetPayments(env);
      if |payments| < 1 {
        return NoProposals;
      }
      var built := FinalizedBudget("main", first, payments, feeHash);
      var error := IsValid(built, env, collateralGood);
      StartIsAligned(height, env.cycle);
      if env.total(first) < 101 * MIN_AMOUNT {
        FewSelected(old(mapProposals), env, PaidProposals(payments));
      }
      return Built(built, error == Fine);
    }
  }

  datatype Payment = Payment(proposal: Id, payee: nat, amount: int)

  datatype FinalizedBudget = FinalizedBudget(name: string, start: int, payments: seq<Payment>, feeHash: nat)
  {
    function BlockEnd(): int { start + |payments| - 1 }
  }

  datatype Verdict =
    | Fine | InvalidBlockStart | InvalidBlockEnd | TooManyPayments | InvalidName | ZeroBlockStart | NoFee
    | PayoutTooLarge | InvalidCollateral | Obsolete

  datatype Outcome = NoChain | AlreadySubmitted | TooEarly | NoProposals | Built(budget: FinalizedBudget, valid: bool)

  function PaymentsFor(ids: seq<Id>, ps: Proposals): (payments: seq<Payment>)
    requires forall i :: 0 <= i < |ids| ==> ids[i] in ps
    ensures |payments| == |ids|
  {
    if ids == [] then []
    else
      var id := ids[|ids| - 1];
      PaymentsFor(ids[..|ids| - 1], ps) + [Payment(id, ps[id].payee, ps[id].allotted)]
  }

  /** The proposals that are paid. */
  function PaidProposals(payments: seq<Payment>): (ids: seq<Id>)
    ensures |ids| == |payments|
  {
    seq(|payments|, i requires 0 <= i < |payments| => payments[i].proposal)
  }

  lemma PaidAre(ids: seq<Id>, ps: Proposals)
    requires forall i :: 0 <= i < |ids| ==> ids[i] in ps
    ensures PaidProposals(PaymentsFor(ids, ps)) == ids
  {
    PaymentsAre(ids, ps);
  }

  /** Every payment goes to the payee of a proposal and has the amount it asked for. */
  ghost predicate PaysInFull(payments: seq<Payment>, ps: Proposals) {
    forall x :: 0 <= x < |payments| ==>
      payments[x].proposal in ps && payments[x].payee == ps[payments[x].proposal].payee
      && payments[x].amount == ps[payments[x].proposal].amount
  }

  lemma {:induction false} PaymentsAre(ids: seq<Id>, ps: Proposals)
    requires forall i :: 0 <= i < |ids| ==> ids[i] in ps
    ensures forall x :: 0 <= x < |ids| ==> PaymentsFor(ids, ps)[x] == Payment(ids[x], ps[ids[x]].payee, ps[ids[x]].allotted)
    decreases ids
  {
    if ids != [] {
      PaymentsAre(ids[..|ids| - 1], ps);
    }
  }

  ghost predicate InFull(ids: seq<Id>, before: Proposals, after: Proposals) {
    forall x :: 0 <= x < |ids| ==> (
      && ids[x] in after && ids[x] in before
      && after[ids[x]].allotted == before[ids[x]].amount && after[ids[x]].payee == before[ids[x]].payee)
  }

  lemma BudgetPays(before: Proposals, ps: Proposals, after: Proposals, ranked: seq<Ranked>, height: nat, env: Env, limit: int)
    requires env.cycle > 0 && Known(ranked, ps) && AllCleaned(before, ps, env)
    requires var asks := Asks(ranked, ps, height, env); AllAllotted(ps, after, ranked, asks, limit, |asks|)
    ensures var ids := Picked(Asks(ranked, ps, height, env), limit, |ranked|);
      && (forall i :: 0 <= i < |ids| ==> ids[i] in after)
      && PaysInFull(PaymentsFor(ids, after), before)
      && (limit >= 0 ==> PayoutOf(PaymentsFor(ids, after)) <= limit)
  {
    var asks := Asks(ranked, ps, height, env);
    hide AllCleaned, AllAllotted, PaymentsFor, PayoutOf, Picked, Spent, Qualifies;
    PickedInFull(before, ps, after, ranked, height, env, limit, |ranked|);
    PayoutIsSpent(ps, after, ranked, asks, limit, |ranked|);
    PaymentsAre(Picked(asks, limit, |ranked|), after);
    if limit >= 0 {
      SpentFits(asks, limit, |ranked|);
    }
  }

  lemma {:induction false} PickedInFull(before: Proposals, ps: Proposals, after: Proposals, ranked: seq<Ranked>,
                                        height: nat, env: Env, limit: int, n: nat)
    requires env.cycle > 0 && n <= |ranked| && Known(ranked, ps) && AllCleaned(before, ps, env)
    requires var asks := Asks(ranked, ps, height, env); AllAllotted(ps, after, ranked, asks, limit, |asks|)
    ensures InFull(Picked(Asks(ranked, ps, height, env), limit, n), before, after)
    decreases n
  {
    hide Picked, Takes, Spent, Qualifies;
    var asks := Asks(ranked, ps, height, env);
    if n > 0 {
      PickedInFull(before, ps, after, ranked, height, env, limit, n - 1);
      AskStep(asks, limit, n - 1);
      AskAt(ranked, ps, height, env, n - 1);
      if Takes(asks, limit, n - 1) {
        assert ps[asks[n - 1].id] == Cleaned(before[asks[n - 1].id], env.signed);
      }
    } else {
      NothingPicked(asks, limit, ps);
    }
  }

  function PayoutOf(payments: seq<Payment>): int {
    if payments == [] then 0 else PayoutOf(payments[..|payments| - 1]) + payments[|payments| - 1].amount
  }

  method GetTotalPayout(payments: seq<Payment>) returns (ret: int)
    ensures ret == PayoutOf(payments)
  {
    ret := 0;
    assert payments[..0] == [];
    for i := 0 to |payments|
      invariant ret == PayoutOf(payments[..i])
    {
      assert payments[..i + 1][..i] == payments[..i];
      ret := ret + payments[i].amount;
    }
    assert payments[..|payments|] == payments;
  }

  /** The tests of CFinalizedBudget::IsValid, in their order. */
  method IsValid(b: FinalizedBudget, env: Env, collateralGood: bool) returns (error: Verdict)
    requires env.cycle > 0
    ensures error == Fine <==>
      && b.start % env.cycle == 0 && b.start != 0 && |b.payments| <= 100 && b.name != "" && b.feeHash != 0
      && PayoutOf(b.payments) <= env.total(b.start) && collateralGood
      && (env.tip.Some? ==> b.BlockEnd() >= BlockStart(env.tip.value, env.cycle) - 2 * env.cycle)
    ensures error == TooManyPayments <==> b.start % env.cycle == 0 && |b.payments| == 101
  {
    if b.start % env.cycle != 0 {
      return InvalidBlockStart;
    }
    if b.BlockEnd() - b.start > 100 {
      return InvalidBlockEnd;
    }
    if |b.payments| > 100 {
      return TooManyPayments;
    }
    if b.name == "" {
      return InvalidName;
    }
    if b.start == 0 {
      return ZeroBlockStart;
    }
    if b.feeHash == 0 {
      return NoFee;
    }
    var payout := GetTotalPayout(b.payments);
    if payout > env.total(b.start) {
      return PayoutTooLarge;
    }
    if !collateralGood {
      return InvalidCollateral;
    }
    if env.tip.None? {
      return Fine;
    }
    var nMaxAge := BlockStart(env.tip.value, env.cycle) - 2 * env.cycle;
    if b.BlockEnd() < nMaxAge {
      return Obsolete;
    }
    return Fine;
  }

  lemma StartIsAligned(height: nat, cycle: nat)
    requires cycle > 0
    ensures BlockStart(height, cycle) % cycle == 0 && BlockStart(height, cycle) > height
  {
    var q := height / cycle;
    assert height == q * cycle + height % cycle;
    Distribute(q, 1, cycle);
    DivModOf(q + 1, 0, cycle);
  }

  /** The payments are the allotments of the proposals taken, so they add up to what was spent. */
  lemma {:induction false} PayoutIsSpent(ps: Proposals, after: Proposals, ranked: seq<Ranked>, asks: seq<Ask>, limit: int, n: nat)
    requires n <= |asks| == |ranked| && AllAllotted(ps, after, ranked, asks, limit, |asks|)
    requires forall i :: 0 <= i < |asks| ==> asks[i].id == ranked[i].id
    ensures forall i :: 0 <= i < |Picked(asks, limit, n)| ==> Picked(asks, limit, n)[i] in after
    ensures PayoutOf(PaymentsFor(Picked(asks, limit, n), after)) == Spent(asks, limit, n)
    decreases n
  {
    hide Picked, Spent, PaymentsFor, PayoutOf, Takes;
    if n > 0 {
      PayoutIsSpent(ps, after, ranked, asks, limit, n - 1);
      AskStep(asks, limit, n - 1);
      var ids, id := Picked(asks, limit, n - 1), asks[n - 1].id;
      if Takes(asks, limit, n - 1) {
        PaymentAppended(ids, id, after);
      } else {
        assert ids + [] == ids;
      }
    } else {
      NothingPicked(asks, limit, after);
    }
  }

  lemma NothingPicked(asks: seq<Ask>, limit: int, ps: Proposals)
    ensures Picked(asks, limit, 0) == [] && PayoutOf(PaymentsFor([], ps)) == 0 && Spent(asks, limit, 0) == 0
  {}

  lemma PaymentAppended(ids: seq<Id>, id: Id, ps: Proposals)
    requires (forall i :: 0 <= i < |ids| ==> ids[i] in ps) && id in ps
    ensures forall i :: 0 <= i < |ids + [id]| ==> (ids + [id])[i] in ps
    ensures PayoutOf(PaymentsFor(ids + [id], ps)) == PayoutOf(PaymentsFor(ids, ps)) + ps[id].allotted
  {
    assert (ids + [id])[..|ids|] == ids;
    var payments := PaymentsFor(ids + [id], ps);
    assert payments[..|payments| - 1] == PaymentsFor(ids, ps);
  }

  /** The proposals outside the rest are cleaned. */
  ghost predicate PartlyCleaned(before: Proposals, ps: Proposals, rest: set<Id>, env: Env) {
    && rest <= before.Keys == ps.Keys
    && forall id :: id in before ==> ps[id] == if id in rest then before[id] else Cleaned(before[id], env.signed)
  }

  lemma CleanOne(before: Proposals, ps: Proposals, rest: set<Id>, env: Env, id: Id)
    requires PartlyCleaned(before, ps, rest, env) && id in rest
    ensures id in ps && PartlyCleaned(before, ps[id := Cleaned(ps[id], env.signed)], rest - {id}, env)
  {
    hide Cleaned;
  }

  lemma CleanedOrNot(before: Proposals, ps: Proposals, env: Env)
    ensures PartlyCleaned(before, before, before.Keys, env)
    ensures PartlyCleaned(before, ps, {}, env) ==> AllCleaned(before, ps, env)
  {}

  lemma NoneGathered(ps: Proposals)
    ensures Gathered([], ps, ps.Keys)
  {}

  /** The cleaning loop, over the proposals in any order. */
  method GatherProposals(before: Proposals, env: Env) returns (ps: Proposals, unsorted: seq<Ranked>)
    ensures AllCleaned(before, ps, env) && Gathered(unsorted, ps, {})
  {
    hide Score, Cleaned, PartlyCleaned, AllCleaned, Gathered;
    ps, unsorted := before, [];
    var rest := before.Keys;
    CleanedOrNot(before, ps, env);
    NoneGathered(ps);
    while rest != {}
      invariant PartlyCleaned(before, ps, rest, env) && Gathered(unsorted, ps, rest)
      decreases |rest|
    {
      var id :| id in rest;
      CleanOne(before, ps, rest, env, id);
      var p := CleanAndRemove(ps[id], env.signed);
      var yeas := CountVotes(p.votes, Yes);
      var nays := CountVotes(p.votes, No);
      var net: int := yeas;
      net := net - nays;
      ScoreIs(p, yeas, nays);
      GatherOne(unsorted, ps, rest, id, p);
      ps := ps[id := p];
      unsorted := unsorted + [Ranked(id, net, p.feeHash)];
      rest := rest - {id};
    }
    CleanedOrNot(before, ps, env);
  }

  /** Allotments of the first n proposals of the ranking are set, nothing else is changed. */
  ghost predicate AllAllotted(ps: Proposals, after: Proposals, ranked: seq<Ranked>, asks: seq<Ask>, limit: int, n: nat)
    requires n <= |asks| == |ranked|
  {
    && after.Keys == ps.Keys
    && (forall id :: id in ps ==> after[id] == ps[id].(allotted := after[id].allotted))
    && (forall i :: 0 <= i < |ranked| ==> ranked[i].id in ps)
    && (forall i :: 0 <= i < n ==>
          after[ranked[i].id].allotted == Allotted(asks[i], Takes(asks, limit, i), ps[ranked[i].id].allotted))
    && (forall i :: n <= i < |ranked| ==> after[ranked[i].id] == ps[ranked[i].id])
  }

  lemma StillHeld(ps: Proposals, after: Proposals, ranked: seq<Ranked>, asks: seq<Ask>, limit: int)
    requires |asks| == |ranked| && AllHeld(ps) && AllAllotted(ps, after, ranked, asks, limit, |asks|)
    ensures AllHeld(after)
  {
    forall id | id in after ensures after[id].amount >= MIN_AMOUNT {
      assert after[id] == ps[id].(allotted := after[id].allotted);
    }
  }

  /** The tests of CBudgetProposal::IsValid, in their order. */
  method CheckProposal(p: Proposal, env: Env) returns (ok: bool)
    requires env.cycle > 0
    ensures ok <==> Acceptable(p, env)
  {
    var yeas := CountVotes(p.votes, Yes);
    var nays := CountVotes(p.votes, No);
    hide Counted;
    if nays - yeas > env.enabled / 10 {
      return false;
    }
    if p.start < 0 {
      return false;
    }
    if p.end < p.start {
      return false;
    }
    if p.amount < 10 * COIN {
      return false;
    }
    if !env.payable(p) {
      return false;
    }
    if p.amount > env.total(p.start) {
      return false;
    }
    if env.tip.None? {
      return true;
    }
    var nProposalEnd := p.start + env.cycle * PaymentCount(p, env.cycle);
    return nProposalEnd >= env.tip.value;
  }

  /** The loop of CheckAndRemove, over the proposals in any order. */
  method KeepAcceptable(before: Proposals, env: Env) returns (after: Proposals)
    requires env.cycle > 0
    ensures AllHeld(after) && Rechecked(before, after, {}, env)
  {
    hide Score, PaymentCount;
    after := map[];
    var rest := before.Keys;
    while rest != {}
      invariant rest <= before.Keys && Rechecked(before, after, rest, env)
      decreases |rest|
    {
      var id :| id in rest;
      var fValid := CheckProposal(before[id], env);
      if fValid {
        var junk: int := *;
        after := after[id := before[id].(fValid := true, allotted := junk)];
      }
      rest := rest - {id};
    }
    forall id | id in after ensures after[id].amount >= MIN_AMOUNT {
      assert IsCopy(before[id], after[id]);
    }
  }

  lemma AllotOne(ps: Proposals, after: Proposals, ranked: seq<Ranked>, asks: seq<Ask>, limit: int, i: nat, v: int)
    requires i < |asks| == |ranked| && AllAllotted(ps, after, ranked, asks, limit, i)
    requires forall j, k :: 0 <= j < k < |ranked| ==> ranked[j].id != ranked[k].id
    requires v == Allotted(asks[i], Takes(asks, limit, i), ps[ranked[i].id].allotted)
    ensures ranked[i].id in after && after[ranked[i].id] == ps[ranked[i].id]
    ensures AllAllotted(ps, after[ranked[i].id := ps[ranked[i].id].(allotted := v)], ranked, asks, limit, i + 1)
    ensures !asks[i].qualified ==> AllAllotted(ps, after, ranked, asks, limit, i + 1)
  {
    hide Takes;
  }

  /** The allocation loop. */
  method Allocate(ps: Proposals, ranked: seq<Ranked>, height: nat, limit: int, env: Env) returns (after: Proposals, ret: seq<Id>)
    requires env.cycle > 0 && Ranking(ranked, ps)
    ensures var asks := Asks(ranked, ps, height, env);
      ret == Picked(asks, limit, |asks|) && AllAllotted(ps, after, ranked, asks, limit, |asks|)
  {
    hide Qualifies, Ranking, AllAllotted, Spent, Picked, Takes, Asks;
    IdsDistinct(ranked, ps);
    ghost var asks := Asks(ranked, ps, height, env);
    NoneAllotted(ps, ranked, asks, limit);
    after, ret := ps, [];
    var nBudgetAllocated: int := 0;
    for i := 0 to |ranked|
      invariant nBudgetAllocated == Spent(asks, limit, i) && ret == Picked(asks, limit, i)
      invariant AllAllotted(ps, after, ranked, asks, limit, i)
    {
      var id := ranked[i].id;
      AskAt(ranked, ps, height, env, i);
      AskStep(asks, limit, i);
      AllotOne(ps, after, ranked, asks, limit, i, Allotted(asks[i], Takes(asks, limit, i), ps[id].allotted));
      if Qualifies(after[id], height, env) {
        if after[id].amount + nBudgetAllocated <= limit {
          after := after[id := after[id].(allotted := after[id].amount)];
          nBudgetAllocated := nBudgetAllocated + after[id].amount;
          ret := ret + [id];
        } else {
          after := after[id := after[id].(allotted := 0)];
        }
      }
    }
  }

  lemma NoneAllotted(ps: Proposals, ranked: seq<Ranked>, asks: seq<Ask>, limit: int)
    requires |asks| == |ranked| && forall i :: 0 <= i < |ranked| ==> ranked[i].id in ps
    ensures AllAllotted(ps, ps, ranked, asks, limit, 0) && Spent(asks, limit, 0) == 0 && Picked(asks, limit, 0) == []
  {}

  lemma AskAt(ranked: seq<Ranked>, ps: Proposals, height: nat, env: Env, i: nat)
    requires env.cycle > 0 && Known(ranked, ps) && i < |ranked|
    ensures Asks(ranked, ps, height, env)[i] == AskOf(ranked[i], ps, height, env)
  {}

  lemma AskStep(asks: seq<Ask>, limit: int, i: nat)
    requires i < |asks|
    ensures Takes(asks, limit, i) == Accepts(asks[i], Spent(asks, limit, i), limit)
    ensures Spent(asks, limit, i + 1) == Spent(asks, limit, i) + if Takes(asks, limit, i) then asks[i].amount else 0
    ensures Picked(asks, limit, i + 1) == Picked(asks, limit, i) + if Takes(asks, limit, i) then [asks[i].id] else []
  {}

  lemma IdsDistinct(ranked: seq<Ranked>, ps: Proposals)
    requires Ranking(ranked, ps)
    ensures forall i, j :: 0 <= i < j < |ranked| ==> ranked[i].id != ranked[j].id
    ensures forall i :: 0 <= i < |ranked| ==> ranked[i].id in ps
  {
    forall i, j | 0 <= i < j < |ranked| ensures ranked[i].id != ranked[j].id {
      assert ranked[i] != ranked[j];
    }
  }

  lemma ScoreIs(p: Proposal, yeas: nat, nays: nat)
    requires yeas == |Counted(p.votes, Yes)| && nays == |Counted(p.votes, No)|
    ensures Score(p) == yeas - nays
  {}

  /** The pairs gathered so far: one for every proposal outside the rest. */
  ghost predicate Gathered(unsorted: seq<Ranked>, ps: Proposals, rest: set<Id>) {
    && Distinct(unsorted)
    && (forall i :: 0 <= i < |unsorted| ==> unsorted[i].id in ps && unsorted[i].id !in rest)
    && (forall i :: 0 <= i < |unsorted| ==> unsorted[i] == RankOf(unsorted[i].id, ps[unsorted[i].id]))
    && (forall id :: id in ps && id !in rest ==> RankOf(id, ps[id]) in unsorted)
  }

  lemma GatherOne(unsorted: seq<Ranked>, ps: Proposals, rest: set<Id>, id: Id, p: Proposal)
    requires Gathered(unsorted, ps, rest) && id in rest && id in ps
    ensures Gathered(unsorted + [RankOf(id, p)], ps[id := p], rest - {id})
  {
    hide Score;
    var more := unsorted + [RankOf(id, p)];
    forall k | k in ps[id := p] && k !in rest - {id} ensures RankOf(k, ps[id := p][k]) in more {
      if k == id {
        assert more[|unsorted|] == RankOf(id, p);
      } else {
        var i :| 0 <= i < |unsorted| && unsorted[i] == RankOf(k, ps[k]);
        assert more[i] == RankOf(k, ps[k]);
      }
    }
  }

  lemma {:induction false} SortedIsRanking(unsorted: seq<Ranked>, ps: Proposals)
    requires Gathered(unsorted, ps, {})
    ensures Ranking(Sort(unsorted, ByVotes), ps)
  {
    hide Score, Sort;
    SortIs(unsorted, ByVotes);
    var ranked := Sort(unsorted, ByVotes);
    DistinctKept(unsorted, ranked);
    forall i | 0 <= i < |ranked| ensures ranked[i].id in ps && ranked[i] == RankOf(ranked[i].id, ps[ranked[i].id]) {
      var j := Occurs(ranked, unsorted, i);
    }
    forall id | id in ps ensures RankOf(id, ps[id]) in ranked {
      var i :| 0 <= i < |unsorted| && unsorted[i] == RankOf(id, ps[id]);
      var j := Occurs(unsorted, ranked, i);
    }
  }

  ///////////////////////////////////////////////////////////////////////////////////////////////
  // A budget that pays too many proposals
  ///////////////////////////////////////////////////////////////////////////////////////////////

  /** GetTotalBudget, for a chain whose proof-of-work and second zerocoin phases end and start as given. */
  function GetTotalBudget(hasTip: bool, testnet: bool, lastPow: int, zerocoinV2: int, height: int): int {
    if !hasTip then 0
    else if testnet then 500 * COIN / 100 * 10 * 146
    else
      var subsidy :=
        if 151200 <= height <= lastPow then 50 * COIN
        else if lastPow < height <= 302399 then 50 * COIN
        else if 302400 <= height <= 345599 then 45 * COIN
        else if 345600 <= height <= 388799 then 40 * COIN
        else if 388800 <= height <= 431999 then 35 * COIN
        else if 432000 <= height <= 475199 then 30 * COIN
        else if 475200 <= height <= 518399 then 25 * COIN
        else if 518400 <= height <= 561599 then 20 * COIN
        else if 561600 <= height <= 604799 then 15 * COIN
        else if 604800 <= height <= 647999 then 10 * COIN
        else if height >= zerocoinV2 then 10 * COIN
        else 5 * COIN;
      if height <= 172800 then 648000 * COIN else subsidy / 100 * 10 * 1440 * 30
  }

  /** On any chain with a tip the budget covers 101 minimal amounts, so the limit of 100 can be exceeded. */
  lemma TotalBudgetIsAmple(testnet: bool, lastPow: int, zerocoinV2: int, height: int)
    ensures GetTotalBudget(true, testnet, lastPow, zerocoinV2, height) >= 101 * MIN_AMOUNT
  {}

  /** All proposals are payable and all votes are signed. */
  ghost predicate Lenient(env: Env) {
    (forall p :: env.payable(p)) && forall h, v :: env.signed(h, v)
  }

  function Electorate(n: nat): map<Id, Vote> {
    if n == 0 then map[] else Electorate(n - 1)[Id(n) := Vote(Yes, true)]
  }

  lemma OneMoreVote(votes: map<Id, Vote>, h: Id)
    requires h !in votes
    ensures Counted(votes[h := Vote(Yes, true)], Yes) == Counted(votes, Yes) + {h} && h !in Counted(votes, Yes)
    ensures Counted(votes[h := Vote(Yes, true)], No) == Counted(votes, No)
  {}

  lemma NoVotes()
    ensures Counted(map[], Yes) == Counted(map[], No) == {}
  {}

  lemma {:induction false} ElectorateCounts(n: nat)
    ensures forall h :: h in Electorate(n) ==> h.value <= n && Electorate(n)[h] == Vote(Yes, true)
    ensures |Counted(Electorate(n), Yes)| == n && Counted(Electorate(n), No) == {}
  {
    hide Counted;
    NoVotes();
    if n > 0 {
      ElectorateCounts(n - 1);
      OneMoreVote(Electorate(n - 1), Id(n));
    }
  }

  /** A popular proposal for the minimal amount in the next cycle. */
  function Popular(env: Env): Proposal
    requires env.cycle > 0 && env.tip.Some?
  {
    var first := BlockStart(env.tip.value, env.cycle);
    Proposal(true, first, first + env.cycle - 1, MIN_AMOUNT, 0, env.bornBefore - 1, 0, Electorate(env.enabled / 10 + 1), 0)
  }

  function Crowd(p: Proposal, n: nat): Proposals {
    if n == 0 then map[] else Crowd(p, n - 1)[Id(n) := p]
  }

  lemma {:induction false} CrowdIs(p: Proposal, n: nat)
    ensures forall id :: id in Crowd(p, n) ==> 0 < id.value <= n && Crowd(p, n)[id] == p
    decreases n
  {
    if n > 0 {
      CrowdIs(p, n - 1);
      var smaller, id := Crowd(p, n - 1), Id(n);
      assert Crowd(p, n) == smaller[id := p];
    }
  }

  lemma {:induction false} CrowdSize(p: Proposal, n: nat)
    ensures |Crowd(p, n).Keys| == n
    decreases n
  {
    if n > 0 {
      CrowdSize(p, n - 1);
      CrowdIs(p, n - 1);
      assert Crowd(p, n).Keys == Crowd(p, n - 1).Keys + {Id(n)};
    }
  }

  lemma PopularIs(env: Env)
    requires env.cycle > 0 && env.tip.Some? && Lenient(env)
    requires env.total(BlockStart(env.tip.value, env.cycle)) >= MIN_AMOUNT
    ensures Acceptable(Popular(env), env)
    ensures forall q :: IsCopy(Popular(env), q) ==>
      Qualifies(Cleaned(q, env.signed), env.tip.value, env) && Cleaned(q, env.signed).amount == MIN_AMOUNT
  {
    var p := Popular(env);
    var votes := p.votes;
    ElectorateCounts(env.enabled / 10 + 1);
    StartIsAligned(env.tip.value, env.cycle);
    MulSwap(env.cycle, PaymentCount(p, env.cycle), 1);
    assert env.cycle * PaymentCount(p, env.cycle) >= 0;
    forall q | IsCopy(p, q) ensures Cleaned(q, env.signed).votes == votes {
      assert q.votes == votes;
    }
  }

  ghost function IdsOf(ranked: seq<Ranked>, n: nat): (ids: set<Id>)
    requires n <= |ranked|
    ensures forall i :: 0 <= i < n ==> ranked[i].id in ids
  {
    if n == 0 then {} else IdsOf(ranked, n - 1) + {ranked[n - 1].id}
  }

  lemma {:induction false} InIds(ranked: seq<Ranked>, n: nat, id: Id)
    requires n <= |ranked| && id in IdsOf(ranked, n)
    ensures exists i :: 0 <= i < n && ranked[i].id == id
    decreases n
  {
    if id != ranked[n - 1].id {
      InIds(ranked, n - 1, id);
    }
  }

  lemma {:induction false} IdsCounted(ranked: seq<Ranked>, n: nat)
    requires n <= |ranked| && forall i, j :: 0 <= i < j < |ranked| ==> ranked[i].id != ranked[j].id
    ensures |IdsOf(ranked, n)| == n
    decreases n
  {
    if n > 0 {
      IdsCounted(ranked, n - 1);
      if ranked[n - 1].id in IdsOf(ranked, n - 1) {
        InIds(ranked, n - 1, ranked[n - 1].id);
      }
    }
  }

  /** A ranking is as long as there are proposals. */
  lemma RankingSize(ranked: seq<Ranked>, ps: Proposals)
    requires Ranking(ranked, ps)
    ensures |ranked| == |ps.Keys|
  {
    IdsDistinct(ranked, ps);
    IdsCounted(ranked, |ranked|);
    forall id | id in ps ensures id in IdsOf(ranked, |ranked|) {
      var i :| 0 <= i < |ranked| && ranked[i] == RankOf(id, ps[id]);
    }
    forall id | id in IdsOf(ranked, |ranked|) ensures id in ps {
      InIds(ranked, |ranked|, id);
    }
    assert IdsOf(ranked, |ranked|) == ps.Keys;
  }

  lemma CrowdSelected(before: Proposals, env: Env, ids: seq<Id>)
    requires env.cycle > 0 && env.tip.Some? && Lenient(env) && Selected(before, env, ids) && |before.Keys| == 101
    requires forall id :: id in before ==> IsCopy(Popular(env), before[id])
    requires env.total(BlockStart(env.tip.value, env.cycle)) >= 101 * MIN_AMOUNT
    ensures |ids| == 101
  {
    hide Picked, BlockStart, Sorted, Distinct, Qualifies, Cleaned, Popular, Lenient;
    var height := env.tip.value;
    var limit := env.total(BlockStart(height, env.cycle));
    var ps: Proposals, ranked: seq<Ranked> :| AllCleaned(before, ps, env) && Ranking(ranked, ps)
      && ids == Picked(Asks(ranked, ps, height, env), limit, |ranked|);
    PopularIs(env);
    RankingSize(ranked, ps);
    var asks := Asks(ranked, ps, height, env);
    forall i | 0 <= i < |asks| ensures asks[i].amount == MIN_AMOUNT && asks[i].qualified {
      AskAt(ranked, ps, height, env, i);
      assert ps[ranked[i].id] == Cleaned(before[ranked[i].id], env.signed);
    }
    AllTaken(asks, limit, MIN_AMOUNT, 101);
  }

  /**
   Whenever the budget covers 101 times the minimal amount, 101 popular proposals for it make the
   finalized budget invalid.
   */
  method TooPopular(env: Env, feeHash: nat) returns (outcome: Outcome)
    requires env.cycle > 0 && env.tip.Some? && Lenient(env)
    requires BlockStart(env.tip.value, env.cycle) - env.tip.value <= env.window
    requires env.total(BlockStart(env.tip.value, env.cycle)) >= 101 * MIN_AMOUNT
    ensures outcome.Built? && |outcome.budget.payments| == 101 && !outcome.valid
  {
    hide BlockStart, Picked, Lenient, Popular, Acceptable, Selected, PaysInFull;
    var manager := new CBudgetManager();
    PopularIs(env);
    StartIsAligned(env.tip.value, env.cycle);
    var crowd := Crowd(Popular(env), 101);
    CrowdIs(Popular(env), 101);
    CrowdSize(Popular(env), 101);
    manager.Read(crowd, env);
    ghost var held := manager.mapProposals;
    assert held.Keys == crowd.Keys;
    outcome := manager.SubmitFinalBudget(env, 0, feeHash, true);
    if outcome.NoProposals? {
      CrowdSelected(held, env, []);
    }
    CrowdSelected(held, env, PaidProposals(outcome.budget.payments));
  }
}
