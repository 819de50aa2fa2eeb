/** What the conditions on proposals and the table of budgets mean (masternode-budget.cpp). */
module BudgetLaws {
  import opened Budget
  import opened Digits

  /** The blocks of the payment cycle after the one of the tip. */
  predicate InNextCycle(block: nat, height: nat, cycle: nat)
    requires cycle > 0
  {
    block / cycle == height / cycle + 1
  }

  lemma NextCycleIs(block: nat, height: nat, cycle: nat)
    requires cycle > 0
    ensures InNextCycle(block, height, cycle) <==>
      BlockStart(height, cycle) <= block <= BlockStart(height, cycle) + cycle - 1
  {
    var q, first := height / cycle, BlockStart(height, cycle);
    assert height == q * cycle + height % cycle;
    Distribute(q, 1, cycle);
    assert first == (q + 1) * cycle;
    if first <= block < first + cycle {
      DivModOf(q + 1, block - first, cycle);
    }
  }

  lemma TenthIs(score: int, enabled: nat)
    ensures score > enabled / 10 <==> 10 * score > enabled
    ensures -score <= enabled / 10 <==> -10 * score <= enabled
  {}

  /**
   A proposal is paid in the next cycle only if it is marked valid and covers all blocks of that cycle, more than a
   tenth of the enabled masternodes are net in favour, and it is old enough.
   */
  lemma QualifiesIff(p: Proposal, height: nat, env: Env)
    requires env.cycle > 0
    ensures Qualifies(p, height, env) <==>
      && p.fValid && p.time < env.bornBefore && 10 * Score(p) > env.enabled
      && forall block: nat :: InNextCycle(block, height, env.cycle) ==> p.start <= block <= p.end
  {
    hide Score, InNextCycle, BlockStart;
    var first := BlockStart(height, env.cycle);
    TenthIs(Score(p), env.enabled);
    forall block: nat ensures InNextCycle(block, height, env.cycle) <==> first <= block <= first + env.cycle - 1 {
      NextCycleIs(block, height, env.cycle);
    }
    assert InNextCycle(first, height, env.cycle) && InNextCycle(first + env.cycle - 1, height, env.cycle);
  }

  /** The number of payments: the whole cycles from the start of the first cycle up to the last block. */
  lemma PaymentCountIs(p: Proposal, cycle: nat, n: nat)
    requires cycle > 0 && 0 <= p.start <= p.end
    ensures PaymentCount(p, cycle) == n <==> n * cycle <= p.end - (p.start / cycle) * cycle < (n + 1) * cycle
  {
    var start := (p.start / cycle) * cycle;
    assert p.start == start + p.start % cycle;
    var d := p.end - start;
    var k := d / cycle;
    assert d == k * cycle + d % cycle;
    Distribute(n, 1, cycle);
    if n * cycle <= d < (n + 1) * cycle {
      DivModOf(n, d - n * cycle, cycle);
    }
  }

  /**
   A proposal may be held when not more than a tenth of the enabled masternodes are net against it, its blocks and
   its amount are in range, it can be paid, and its payments reach up to the tip.
   */
  lemma AcceptableIff(p: Proposal, env: Env)
    requires env.cycle > 0
    ensures Acceptable(p, env) <==>
      && -10 * Score(p) <= env.enabled && 0 <= p.start <= p.end && env.payable(p)
      && 1_000_000_000 <= p.amount <= env.total(p.start)
      && (env.tip.Some? ==> forall n: nat ::
            n * env.cycle <= p.end - (p.start / env.cycle) * env.cycle < (n + 1) * env.cycle ==>
            p.start + n * env.cycle >= env.tip.value)
  {
    hide Score, PaymentCount;
    TenthIs(Score(p), env.enabled);
    if 0 <= p.start <= p.end {
      var count := PaymentCount(p, env.cycle);
      assert count >= 0 by { SomePayments(p, env.cycle); }
      PaymentCountIs(p, env.cycle, count);
      MulSwap(env.cycle, count, 1);
      forall n: nat | n * env.cycle <= p.end - (p.start / env.cycle) * env.cycle < (n + 1) * env.cycle ensures n == count {
        PaymentCountIs(p, env.cycle, n);
      }
    }
  }

  lemma SomePayments(p: Proposal, cycle: nat)
    requires cycle > 0 && 0 <= p.start <= p.end
    ensures PaymentCount(p, cycle) >= 0
  {}

  /** Votes count once each: a valid yes for, a valid no against, anything else not at all. */
  lemma OneMoreVoteCounts(p: Proposal, h: Id, v: Vote)
    requires h !in p.votes
    ensures Score(p.(votes := p.votes[h := v])) ==
      Score(p) + if !v.fValid then 0 else match v.choice case Yes => 1 case No => -1 case Abstain => 0
  {
    CountedWith(p.votes, h, v, Yes);
    CountedWith(p.votes, h, v, No);
    hide Counted;
  }

  lemma CountedWith(votes: map<Id, Vote>, h: Id, v: Vote, choice: Choice)
    requires h !in votes
    ensures |Counted(votes[h := v], choice)| == |Counted(votes, choice)| + if v.fValid && v.choice == choice then 1 else 0
  {
    var before, after := Counted(votes, choice), Counted(votes[h := v], choice);
    forall x ensures x in after <==> x in before || (x == h && v.fValid && v.choice == choice) {
      CountedHas(votes, x, choice);
      CountedHas(votes[h := v], x, choice);
    }
    CountedHas(votes, h, choice);
    hide Counted;
    if v.fValid && v.choice == choice {
      assert after == before + {h};
    } else {
      assert after == before;
    }
  }

  lemma CountedHas(votes: map<Id, Vote>, x: Id, choice: Choice)
    ensures x in Counted(votes, choice) <==> x in votes && votes[x].choice == choice && votes[x].fValid
  {}

  /** A new proposal without votes is neutral. */
  lemma NoVoteCounts(p: Proposal)
    requires p.votes == map[]
    ensures Score(p) == 0
  {
    assert Counted(p.votes, Yes) == {} && Counted(p.votes, No) == {};
  }

  /**
   The budget of a month of blocks is a tenth of their subsidy, which is 50 coins at first and then 5 coins less
   every 43200 blocks until 10 are left; up to block 172800 it is fixed.
   */
  lemma BudgetFalls(lastPow: int, zerocoinV2: int, height: int)
    requires 151200 <= height < 648000 && lastPow < 302400
    ensures 43200 == 60 * 24 * 30
    ensures GetTotalBudget(true, false, lastPow, zerocoinV2, height) ==
      if height <= 172800 then 648000 * COIN
      else if height < 302400 then 5 * COIN * 43200
      else (45 - 5 * ((height - 302400) / 43200)) * COIN / 10 * 43200
  {
    if height >= 302400 {
      var k := (height - 302400) / 43200;
      assert 0 <= k <= 7 && 302400 + k * 43200 <= height < 302400 + (k + 1) * 43200;
    }
  }
}
