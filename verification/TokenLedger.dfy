/** Balances of one token, transfers between accounts, and the total they conserve. */
module TokenLedger {
  import opened Wrappers

  type Balances = map<Address, int>

  function BalanceOf(balances: Balances, account: Address): int {
    if account in balances then balances[account] else 0
  }

  function Credit(balances: Balances, account: Address, amount: int): Balances {
    balances[account := BalanceOf(balances, account) + amount]
  }

  /** A transfer fails on a negative amount or an insufficient balance. */
  function Transfer(balances: Balances, from: Address, to: Address, amount: int): Option<Balances> {
    if amount < 0 || BalanceOf(balances, from) < amount then None
    else Some(Credit(Credit(balances, from, -amount), to, amount))
  }

  /** A transfer that is only made for a positive amount. */
  function TransferPositive(balances: Balances, from: Address, to: Address, amount: int): Option<Balances> {
    if amount > 0 then Transfer(balances, from, to, amount) else Some(balances)
  }

  /** Total over all accounts. */
  ghost function Total(m: map<Address, int>): int {
    if m == map[] then 0
    else
      var k :| k in m;
      m[k] + Total(m - {k})
  }

  lemma {:induction false} TotalWithout(m: map<Address, int>, k: Address)
    requires k in m
    ensures Total(m) == m[k] + Total(m - {k})
    decreases |m|
  {
    var j :| j in m && Total(m) == m[j] + Total(m - {j});
    if j != k {
      assert |m - {j}| < |m| && |m - {k}| < |m| by {
        assert (m - {j}).Keys == m.Keys - {j} && (m - {k}).Keys == m.Keys - {k};
      }
      TotalWithout(m - {j}, k);
      TotalWithout(m - {k}, j);
      assert m - {j} - {k} == m - {k} - {j};
    }
  }

  lemma TotalUpdate(m: map<Address, int>, k: Address, v: int)
    ensures Total(m[k := v]) == Total(m) - BalanceOf(m, k) + v
  {
    TotalWithout(m[k := v], k);
    if k in m {
      TotalWithout(m, k);
      assert m[k := v] - {k} == m - {k};
    } else {
      assert m[k := v] - {k} == m;
    }
  }

  lemma TransferConserves(balances: Balances, from: Address, to: Address, amount: int)
    requires Transfer(balances, from, to, amount).Some?
    ensures Total(Transfer(balances, from, to, amount).value) == Total(balances)
  {
    TotalUpdate(balances, from, BalanceOf(balances, from) - amount);
    var debited := Credit(balances, from, -amount);
    TotalUpdate(debited, to, BalanceOf(debited, to) + amount);
  }
}
