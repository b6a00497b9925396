/** `CCoins` (src/coins.h): the unspent outputs of one transaction. */
module TxCoins {
  import opened Basics

  datatype TxOut = TxOut(nValue: int, script: seq<Byte>) {
    predicate IsNull() { nValue == -1 }
  }

  /** What CTxOut::SetNull leaves. */
  const NULL_OUT := TxOut(-1, [])

  datatype Coins = Coins(fCoinBase: bool, vout: seq<TxOut>, nHeight: int, nVersion: int) {
    predicate IsPruned() { forall o <- vout :: o.IsNull() }

    predicate IsAvailable(nPos: nat) { nPos < |vout| && !vout[nPos].IsNull() }

    /** No spent output at the end: what Cleanup establishes. */
    predicate IsClean() { vout == [] || !vout[|vout| - 1].IsNull() }
  }

  /** A freshly constructed or cleared CCoins. */
  const NO_COINS := Coins(false, [], 0, 0)

  function Trim(vout: seq<TxOut>): seq<TxOut> {
    if vout != [] && vout[|vout| - 1].IsNull() then Trim(vout[..|vout| - 1]) else vout
  }

  /** Trimming drops null outputs at the end and nothing else. */
  lemma {:induction false} TrimOnlyDropsNulls(vout: seq<TxOut>)
    ensures Trim(vout) <= vout
    ensures Trim(vout) == [] || !Trim(vout)[|Trim(vout)| - 1].IsNull()
    ensures forall i :: |Trim(vout)| <= i < |vout| ==> vout[i].IsNull()
  {
    if vout != [] && vout[|vout| - 1].IsNull() {
      TrimOnlyDropsNulls(vout[..|vout| - 1]);
    }
  }

  function Cleanup(c: Coins): (r: Coins)
    ensures r.IsClean()
    ensures r.IsPruned() <==> c.IsPruned()
    ensures forall i: nat :: r.IsAvailable(i) <==> c.IsAvailable(i)
    ensures c.IsClean() ==> r == c
  {
    TrimOnlyDropsNulls(c.vout);
    assert forall i :: 0 <= i < |Trim(c.vout)| ==> Trim(c.vout)[i] == c.vout[i];
    c.(vout := Trim(c.vout))
  }

  /** In a clean CCoins, having no outputs at all is the same as having no unspent one. */
  lemma CleanPruned(c: Coins)
    requires c.IsClean()
    ensures c.IsPruned() <==> c.vout == []
  {
    if c.vout != [] {
      assert c.vout[|c.vout| - 1] in c.vout;
    }
  }

  /** Lines 137-142 of src/coins.h. */
  method RunCleanup(c: Coins) returns (r: Coins)
    ensures r == Cleanup(c)
  {
    var vout := c.vout;
    while |vout| > 0 && vout[|vout| - 1].IsNull()
      invariant Trim(vout) == Trim(c.vout)
    {
      vout := vout[..|vout| - 1];
    }
    r := c.(vout := vout);
  }

  /** CCoins::Spend: spends exactly output nPos, and only if it was unspent. */
  method Spend(c: Coins, nPos: nat) returns (ok: bool, r: Coins)
    ensures ok <==> c.IsAvailable(nPos)
    ensures !ok ==> r == c
    ensures ok ==> r.IsClean() && forall i: nat ::
              && (r.IsAvailable(i) <==> c.IsAvailable(i) && i != nPos)
              && (r.IsAvailable(i) ==> r.vout[i] == c.vout[i])
  {
    if nPos >= |c.vout| || c.vout[nPos].IsNull() {
      return false, c;
    }
    var spent := c.(vout := c.vout[nPos := NULL_OUT]);
    TrimOnlyDropsNulls(spent.vout);
    r := RunCleanup(spent);
    ok := true;
  }
}
