/** Balances as sums over the history: the cache, each address's net receipts, and the coins in existence. */
module LedgerSums {
  import opened Ledger

  function Inflow(transactions: seq<Transaction>, address: string): int {
    if transactions == [] then 0
    else
      var last := transactions[|transactions| - 1];
      Inflow(transactions[..|transactions| - 1], address) + if last.receiver == address then last.amount else 0
  }

  /** What an address has received and not spent. The mint spends nothing. */
  function Net(transactions: seq<Transaction>, address: string): int {
    Inflow(transactions, address) - if address == SYSTEM then 0 else Outflow(transactions, address)
  }

  /** What the mint has sent. */
  function Minted(transactions: seq<Transaction>): int {
    Outflow(transactions, SYSTEM)
  }

  lemma {:induction false} OutflowConcat(a: seq<Transaction>, b: seq<Transaction>, address: string)
    ensures Outflow(a + b, address) == Outflow(a, address) + Outflow(b, address)
  {
    if b == [] {
      assert a + b == a;
    } else {
      assert (a + b)[..|a + b| - 1] == a + b[..|b| - 1];
      OutflowConcat(a, b[..|b| - 1], address);
    }
  }

  lemma {:induction false} InflowConcat(a: seq<Transaction>, b: seq<Transaction>, address: string)
    ensures Inflow(a + b, address) == Inflow(a, address) + Inflow(b, address)
  {
    if b == [] {
      assert a + b == a;
    } else {
      assert (a + b)[..|a + b| - 1] == a + b[..|b| - 1];
      InflowConcat(a, b[..|b| - 1], address);
    }
  }

  lemma NetConcat(a: seq<Transaction>, b: seq<Transaction>, address: string)
    ensures Net(a + b, address) == Net(a, address) + Net(b, address)
  {
    OutflowConcat(a, b, address);
    InflowConcat(a, b, address);
  }

  ghost predicate Positive(transactions: seq<Transaction>) {
    forall i :: 0 <= i < |transactions| ==> transactions[i].amount > 0
  }

  lemma {:induction false} SumsNonNegative(transactions: seq<Transaction>, address: string)
    requires Positive(transactions)
    ensures Inflow(transactions, address) >= 0 && Outflow(transactions, address) >= 0
  {
    if transactions != [] {
      SumsNonNegative(transactions[..|transactions| - 1], address);
    }
  }

  /** The cache gives every address its net receipts. */
  lemma {:induction false} CacheIsNet(history: seq<Transaction>, address: string)
    ensures BalanceOf(Replayed(history), address) == Net(history, address)
  {
    if history != [] {
      CacheIsNet(history[..|history| - 1], address);
    }
  }

  // ---------- Conservation ----------

  /** The sum of all balances in the cache. */
  ghost function Total(balances: Balances): int {
    if balances == map[] then 0
    else
      var address :| address in balances;
      balances[address] + Total(balances - {address})
  }

  lemma {:induction false} TotalWithout(balances: Balances, address: string)
    requires address in balances
    ensures Total(balances) == balances[address] + Total(balances - {address})
    decreases |balances|
  {
    var picked :| picked in balances && Total(balances) == balances[picked] + Total(balances - {picked});
    if picked != address {
      TotalWithout(balances - {picked}, address);
      TotalWithout(balances - {address}, picked);
      assert balances - {picked} - {address} == balances - {address} - {picked};
    }
  }

  lemma CreditTotal(balances: Balances, address: string, amount: int)
    ensures Total(Credit(balances, address, amount)) == Total(balances) + amount
  {
    var credited := Credit(balances, address, amount);
    TotalWithout(credited, address);
    assert credited - {address} == balances - {address};
    if address in balances {
      TotalWithout(balances, address);
    } else {
      assert balances - {address} == balances;
    }
  }

  lemma AppliedTotal(balances: Balances, t: Transaction)
    ensures Total(Applied(balances, t)) == Total(balances) + if t.sender == SYSTEM then t.amount else 0
  {
    hide Total, Credit;
    CreditTotal(balances, t.receiver, t.amount);
    CreditTotal(Credit(balances, t.receiver, t.amount), t.sender, -t.amount);
  }

  /** Transfers conserve: the balances always add up to what the mint has sent. */
  lemma {:induction false} TotalIsMinted(history: seq<Transaction>)
    ensures Total(Replayed(history)) == Minted(history)
  {
    if history == [] {
      assert Replayed(history) == map[];
    } else {
      TotalIsMinted(history[..|history| - 1]);
      AppliedTotal(Replayed(history[..|history| - 1]), history[|history| - 1]);
    }
  }

  // ---------- Solvency ----------

  /** At no point of the history has any address spent more than it had received. */
  ghost predicate NeverOverdrawn(history: seq<Transaction>) {
    forall n, address :: 0 <= n <= |history| ==> Net(history[..n], address) >= 0
  }

  /** Every sender can pay for all of its given transactions out of what the history left it. */
  ghost predicate Covered(history: seq<Transaction>, transactions: seq<Transaction>) {
    forall address :: address != SYSTEM ==> Outflow(transactions, address) <= Net(history, address)
  }

  lemma PrefixNet(history: seq<Transaction>, more: seq<Transaction>, n: nat, address: string)
    requires n <= |more| && Positive(more) && Covered(history, more)
    requires Net(history, address) >= 0
    ensures Net(history + more[..n], address) >= 0
  {
    var a, b := more[..n], more[n..];
    assert more == a + b;
    NetConcat(history, a, address);
    OutflowConcat(a, b, address);
    SumsNonNegative(a, address);
    SumsNonNegative(b, address);
  }

  /** Appending covered transactions keeps the history from ever being overdrawn. */
  lemma CoveredKeepsHistory(history: seq<Transaction>, more: seq<Transaction>)
    requires NeverOverdrawn(history) && Positive(more) && Covered(history, more)
    ensures NeverOverdrawn(history + more)
  {
    hide Net, Positive;
    forall n, address | 0 <= n <= |history + more|
      ensures Net((history + more)[..n], address) >= 0
    {
      if n <= |history| {
        assert (history + more)[..n] == history[..n];
      } else {
        assert (history + more)[..n] == history + more[..n - |history|];
        assert history[..|history|] == history;
        PrefixNet(history, more, n - |history|, address);
      }
    }
  }

  lemma CoveredByBalances(balances: Balances, history: seq<Transaction>, transactions: seq<Transaction>)
    requires balances == Replayed(history)
    ensures Covered(history, transactions)
       <==> forall address :: address != SYSTEM ==> Outflow(transactions, address) <= BalanceOf(balances, address)
  {
    forall address
      ensures BalanceOf(balances, address) == Net(history, address)
    {
      CacheIsNet(history, address);
    }
  }

  // ---------- Width ----------

  predicate ValidAmounts(history: seq<Transaction>) {
    forall i :: 0 <= i < |history| ==> ValidAmount(history[i].amount)
  }

  lemma {:induction false} SumsBounded(history: seq<Transaction>, address: string)
    requires ValidAmounts(history)
    ensures 0 <= Inflow(history, address) <= MAX_MONEY * |history|
    ensures 0 <= Outflow(history, address) <= MAX_MONEY * |history|
  {
    if history != [] {
      var n := |history| - 1;
      SumsBounded(history[..n], address);
      assert ValidAmount(history[n].amount);
    }
  }

  /** How many transactions a history may have before a balance could leave 64 bits. */
  const SAFE_LENGTH: nat := 4392

  /**
   Amounts within the cap keep every balance within the cap times the number of transactions,
   and so within 64 signed bits, at every point of a history of up to 4392 transactions: also
   between the credit and the debit of one transfer.
   */
  lemma BalancesFit(history: seq<Transaction>, n: nat, address: string)
    requires ValidAmounts(history) && n < |history|
    ensures
      var before, t := Replayed(history[..n]), history[n];
      var credited := Credit(before, t.receiver, t.amount);
      && -MAX_MONEY * n <= BalanceOf(before, address) <= MAX_MONEY * n
      && (|history| <= SAFE_LENGTH ==>
            Fits64(BalanceOf(before, address)) && Fits64(BalanceOf(credited, address)) && Fits64(BalanceOf(Applied(before, t), address)))
  {
    hide Replayed, Outflow, Inflow, Credit, Applied, BalanceOf, Fits64;
    var before, t := Replayed(history[..n]), history[n];
    PrefixBounded(history, n, address);
    assert ValidAmount(t.amount);
    TransferMoves(before, t, address);
    NearbyFits(BalanceOf(before, address), n, BalanceOf(before, address));
    NearbyFits(BalanceOf(before, address), n, BalanceOf(Credit(before, t.receiver, t.amount), address));
    NearbyFits(BalanceOf(before, address), n, BalanceOf(Applied(before, t), address));
  }

  lemma PrefixBounded(history: seq<Transaction>, n: nat, address: string)
    requires ValidAmounts(history) && n <= |history|
    ensures -MAX_MONEY * n <= BalanceOf(Replayed(history[..n]), address) <= MAX_MONEY * n
  {
    hide Replayed, Outflow, Inflow, BalanceOf;
    CacheIsNet(history[..n], address);
    SumsBounded(history[..n], address);
  }

  lemma NearbyFits(b: int, n: nat, near: int)
    requires -MAX_MONEY * n <= b <= MAX_MONEY * n && b - MAX_MONEY <= near <= b + MAX_MONEY
    ensures n < SAFE_LENGTH ==> Fits64(near)
  {
  }

  lemma TransferMoves(before: Balances, t: Transaction, address: string)
    requires t.amount > 0
    ensures BalanceOf(before, address) <= BalanceOf(Credit(before, t.receiver, t.amount), address) <= BalanceOf(before, address) + t.amount
    ensures BalanceOf(before, address) - t.amount <= BalanceOf(Applied(before, t), address) <= BalanceOf(before, address) + t.amount
  {
  }

  predicate Fits64(x: int) {
    -0x8000_0000_0000_0000 <= x < 0x8000_0000_0000_0000
  }
}
