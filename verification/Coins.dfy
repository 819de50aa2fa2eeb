/** CCoins: the unspent outputs of one transaction. */
module Coins {
  import opened Bytes

  datatype TxOut = TxOut(value: int, script: seq<byte>)
  {
    predicate IsNull() { value == -1 }
  }

  const NULL_OUT := TxOut(-1, [])

  datatype CCoins = CCoins(coinBase: bool, coinStake: bool, vout: seq<TxOut>, height: int, version: int)
  {
    predicate IsPruned() {
      forall i :: 0 <= i < |vout| ==> vout[i].IsNull()
    }

    /** No spent output at the end of the array. */
    predicate IsCleaned() {
      vout == [] || !vout[|vout| - 1].IsNull()
    }

    function Trimmed(): CCoins {
      this.(vout := DropNullTail(vout))
    }
  }

  const EMPTY := CCoins(false, false, [], 0, 0)

  /** The array without its maximal null suffix. */
  function DropNullTail(vout: seq<TxOut>): (r: seq<TxOut>)
    ensures r <= vout
    ensures r == [] || !r[|r| - 1].IsNull()
    ensures forall i :: |r| <= i < |vout| ==> vout[i].IsNull()
  {
    if vout == [] || !vout[|vout| - 1].IsNull() then vout
    else DropNullTail(vout[..|vout| - 1])
  }

  /** Removes spent outputs at the end of vout. */
  method Cleanup(c: CCoins) returns (r: CCoins)
    ensures r == c.Trimmed()
  {
    r := c;
    while |r.vout| > 0 && r.vout[|r.vout| - 1].IsNull()
      invariant r == c.(vout := r.vout) && DropNullTail(r.vout) == DropNullTail(c.vout)
      decreases |r.vout|
    {
      r := r.(vout := r.vout[..|r.vout| - 1]);
    }
  }

  /** Undo information: the output, and the transaction's metadata when its last output is spent. */
  datatype TxInUndo = TxInUndo(txout: TxOut, height: int, coinBase: bool, coinStake: bool, version: int)

  function Spent(c: CCoins, n: nat): CCoins
    requires n < |c.vout|
  {
    c.(vout := c.vout[n := NULL_OUT]).Trimmed()
  }

  function UndoFor(c: CCoins, n: nat): TxInUndo
    requires n < |c.vout|
  {
    if Spent(c, n).vout != [] then TxInUndo(c.vout[n], 0, false, false, 0)
    else TxInUndo(c.vout[n], c.height, c.coinBase, c.coinStake, c.version)
  }

  predicate Unspent(c: CCoins, n: nat) {
    n < |c.vout| && !c.vout[n].IsNull()
  }

  function SpentIfThere(c: CCoins, n: nat): CCoins {
    if Unspent(c, n) then Spent(c, n) else c
  }

  /**
   After an output was spent it is spent, every other one is as before, and nothing else has changed
   except that null outputs at the end are gone.
   */
  lemma SpentIsSpent(c: CCoins, n: nat)
    requires Unspent(c, n)
    ensures var r := Spent(c, n);
      && !Unspent(r, n)
      && |r.vout| <= |c.vout| && r == c.(vout := r.vout) && r.IsCleaned()
      && forall i: nat :: i != n && i < |c.vout| ==> if i < |r.vout| then r.vout[i] == c.vout[i] else c.vout[i].IsNull()
  {
    var cleared := c.vout[n := NULL_OUT];
    var rest := DropNullTail(cleared);
    hide DropNullTail;
    forall i: nat | i != n && i < |c.vout| ensures if i < |rest| then rest[i] == c.vout[i] else c.vout[i].IsNull() {
      assert cleared[i] == c.vout[i];
    }
  }

  function SpentInTurn(c: CCoins, ns: seq<nat>): CCoins
    decreases ns
  {
    if ns == [] then c else SpentInTurn(SpentIfThere(c, ns[0]), ns[1..])
  }

  /** After any spends, in any order, an output is left exactly if it was there and is not among them. */
  lemma {:induction false} SpentInTurnIs(c: CCoins, ns: seq<nat>, i: nat)
    ensures Unspent(SpentInTurn(c, ns), i) <==> Unspent(c, i) && i !in ns
    decreases ns
  {
    if ns != [] {
      if Unspent(c, ns[0]) {
        SpentIsSpent(c, ns[0]);
      }
      SpentInTurnIs(SpentIfThere(c, ns[0]), ns[1..], i);
      assert i in ns <==> i == ns[0] || i in ns[1..];
    }
  }

  /**
   Marks an output spent and builds undo information; fails when it does not exist or is already
   spent.  The metadata is part of the undo information exactly when no output is left.
   */
  method Spend(c: CCoins, n: nat) returns (ok: bool, r: CCoins, undo: TxInUndo)
    ensures ok <==> Unspent(c, n)
    ensures r == SpentIfThere(c, n) && (ok ==> undo == UndoFor(c, n))
    ensures ok ==> !Unspent(r, n) && r.IsCleaned() && |r.vout| <= |c.vout| && r == c.(vout := r.vout)
    ensures ok ==> forall i: nat :: i != n && i < |c.vout| ==>
      if i < |r.vout| then r.vout[i] == c.vout[i] else c.vout[i].IsNull()
    ensures ok && r.vout != [] ==> undo == TxInUndo(c.vout[n], 0, false, false, 0)
    ensures ok && r.vout == [] ==> undo == TxInUndo(c.vout[n], c.height, c.coinBase, c.coinStake, c.version)
    ensures !ok ==> r == c
  {
    undo := TxInUndo(NULL_OUT, 0, false, false, 0);
    if n >= |c.vout| || c.vout[n].IsNull() {
      return false, c, undo;
    }
    SpentIsSpent(c, n);
    undo := undo.(txout := c.vout[n]);
    r := Cleanup(c.(vout := c.vout[n := NULL_OUT]));
    if |r.vout| == 0 {
      undo := undo.(height := r.height, coinBase := r.coinBase, coinStake := r.coinStake, version := r.version);
    }
    ok := true;
  }

  /** How disconnecting a block puts a spent output back. */
  function Restored(c: CCoins, n: nat, undo: TxInUndo): CCoins {
    var base :=
      if undo.height != 0 then EMPTY.(coinBase := undo.coinBase, height := undo.height, version := undo.version)
      else c;
    var vout := if |base.vout| < n + 1 then base.vout + seq(n + 1 - |base.vout|, _ => NULL_OUT) else base.vout;
    base.(vout := vout[n := undo.txout])
  }

  /** Spent outputs carry no left-over script. */
  ghost predicate NullsAreBlank(c: CCoins) {
    forall i :: 0 <= i < |c.vout| && c.vout[i].IsNull() ==> c.vout[i] == NULL_OUT
  }

  /**
   What a view may hold for a transaction after a spend: the cleaned coins, or, when no output is
   left, any entry without outputs, since fully spent transactions are dropped and re-created.
   */
  ghost predicate MayHold(c: CCoins, n: nat, held: CCoins)
    requires n < |c.vout|
  {
    if Spent(c, n).vout != [] then held == Spent(c, n) else held.vout == []
  }

  /** Where an output is put back: after nothing, or after the outputs held, padded with null ones. */
  lemma RestoredAt(c: CCoins, n: nat, undo: TxInUndo, i: nat)
    ensures var vout, r := if undo.height != 0 then [] else c.vout, Restored(c, n, undo).vout;
      && |r| == (if |vout| < n + 1 then n + 1 else |vout|)
      && (i < |r| ==> r[i] == if i == n then undo.txout else if i < |vout| then vout[i] else NULL_OUT)
  {}

  lemma SpentAt(c: CCoins, n: nat, i: nat)
    requires c.IsCleaned() && NullsAreBlank(c) && n < |c.vout| && i < |c.vout| && i != n
    ensures var rest := Spent(c, n).vout;
      && |rest| <= |c.vout| && (n < |c.vout| - 1 ==> |rest| == |c.vout|)
      && c.vout[i] == if i < |rest| then rest[i] else NULL_OUT
  {
    var cleared := c.vout[n := NULL_OUT];
    var rest := DropNullTail(cleared);
    hide DropNullTail;
    assert rest == cleared[..|rest|];
    assert n < |c.vout| - 1 ==> cleared[|c.vout| - 1] == c.vout[|c.vout| - 1];
    if i >= |rest| {
      assert cleared[i].IsNull();
    }
  }

  /** The outputs always come back, whatever happens to the metadata. */
  lemma RestoredOutputs(c: CCoins, n: nat, held: CCoins)
    requires c.IsCleaned() && NullsAreBlank(c) && n < |c.vout| && !c.vout[n].IsNull() && MayHold(c, n, held)
    ensures Restored(held, n, UndoFor(c, n)).vout == c.vout
  {
    var undo, rest := UndoFor(c, n), Spent(c, n).vout;
    assert undo.txout == c.vout[n] && rest == if undo.height != 0 then [] else held.vout;
    assert |rest| <= |c.vout| && (n < |c.vout| - 1 ==> |rest| == |c.vout|) by {
      if |c.vout| > 1 {
        SpentAt(c, n, if n == 0 then 1 else 0);
      }
    }
    hide Spent, UndoFor, Restored;
    RestoredAt(held, n, undo, 0);
    forall i | 0 <= i < |c.vout| ensures Restored(held, n, undo).vout[i] == c.vout[i] {
      RestoredAt(held, n, undo, i);
      if i != n {
        SpentAt(c, n, i);
      }
    }
  }

  /**
   Undoing a spend gives the transaction back exactly when some output survived the spend, or,
   when none did, it is no coinstake and sits above height 0, or it sits at height 0 and the view
   still has its metadata.  The coinstake flag is recorded in the undo information but not
   restored from it, and a recorded height of 0 reads as "not the last output".
   */
  lemma SpendIsUndone(c: CCoins, n: nat, held: CCoins)
    requires c.IsCleaned() && NullsAreBlank(c) && n < |c.vout| && !c.vout[n].IsNull() && MayHold(c, n, held)
    ensures Restored(held, n, UndoFor(c, n)) == c <==>
      || Spent(c, n).vout != []
      || (c.height != 0 && !c.coinStake)
      || (c.height == 0 && held.(vout := c.vout) == c)
  {
    RestoredOutputs(c, n, held);
  }

  /** Undoing the spend of the last output of a coinstake always forgets that it was one. */
  lemma LastSpendForgetsCoinStake(c: CCoins, n: nat, held: CCoins)
    requires c.IsCleaned() && NullsAreBlank(c) && n < |c.vout| && !c.vout[n].IsNull() && MayHold(c, n, held)
    requires c.coinStake && c.height != 0 && Spent(c, n).vout == []
    ensures Restored(held, n, UndoFor(c, n)) == c.(coinStake := false)
  {
    RestoredOutputs(c, n, held);
  }

  /** For one whose empty first output, the mark of a coinstake, was spent before. */
  lemma UndoForgetsCoinStake()
    ensures var c := CCoins(false, true, [NULL_OUT, TxOut(5, [1])], 7, 1);
      c.IsCleaned() && Restored(Spent(c, 1), 1, UndoFor(c, 1)) == c.(coinStake := false)
  {
    var c := CCoins(false, true, [NULL_OUT, TxOut(5, [1])], 7, 1);
    assert c.vout[1 := NULL_OUT] == [NULL_OUT, NULL_OUT];
    assert [NULL_OUT, NULL_OUT][..1] == [NULL_OUT] && [NULL_OUT][..0] == [];
    assert Spent(c, 1).vout == [];
    LastSpendForgetsCoinStake(c, 1, Spent(c, 1));
  }

  lemma TrimmedKeepsOutputs(c: CCoins)
    ensures c.Trimmed().IsCleaned() && (c.Trimmed().IsPruned() <==> c.IsPruned())
    ensures c.IsCleaned() ==> c.Trimmed() == c
  {
    assert c.Trimmed().vout == c.vout[..|c.Trimmed().vout|];
  }
}
