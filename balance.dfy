/**
 The balance of the ledger, as the transactions repository computes it:
 the transactions of type "income" and those of type "outcome" are
 filtered out and each group is reduced to the sum of its values; the
 total is income minus outcome. A transaction of any other type counts
 in neither sum.
 */
module Balance {
  import opened LedgerTypes

  datatype Balance = Balance(income: int, outcome: int, total: int)

  /** `transactions.filter(({ type }) => type === kind)` */
  function OfKind(txs: seq<Transaction>, kind: string): seq<Transaction>
  {
    if txs == [] then []
    else (if txs[0].kind == kind then [txs[0]] else []) + OfKind(txs[1..], kind)
  }

  /** `.reduce((sum, record) => sum + record.value, 0)`: a left fold, so the
      last element is added last. */
  function Reduce(txs: seq<Transaction>): int
  {
    if txs == [] then 0 else Reduce(txs[..|txs| - 1]) + txs[|txs| - 1].value
  }

  /** What one transaction contributes to the sum for `kind`. */
  function Share(t: Transaction, kind: string): int
  {
    if t.kind == kind then t.value else 0
  }

  /** Reference definition: the sum of the values of the transactions of
      type `kind`, in a single pass from the front. */
  function KindSum(txs: seq<Transaction>, kind: string): int
  {
    if txs == [] then 0 else Share(txs[0], kind) + KindSum(txs[1..], kind)
  }

  /** By how much a transaction moves the total. */
  function Signed(t: Transaction): int
  {
    Share(t, INCOME) - Share(t, OUTCOME)
  }

  /** `TransactionsRepository.getBalance` over the fetched transactions.
      It only reads them. */
  function GetBalance(txs: seq<Transaction>): (b: Balance)
    ensures b.income == KindSum(txs, INCOME)
    ensures b.outcome == KindSum(txs, OUTCOME)
    ensures b.total == b.income - b.outcome
  {
    FilterReduceIsKindSum(txs, INCOME);
    FilterReduceIsKindSum(txs, OUTCOME);
    var income := Reduce(OfKind(txs, INCOME));
    var outcome := Reduce(OfKind(txs, OUTCOME));
    Balance(income, outcome, income - outcome)
  }

  lemma {:induction false} ReduceAppend(a: seq<Transaction>, b: seq<Transaction>)
    ensures Reduce(a + b) == Reduce(a) + Reduce(b)
  {
    if b != [] {
      var n := |b| - 1;
      assert (a + b)[..|a + b| - 1] == a + b[..n];
      ReduceAppend(a, b[..n]);
    } else {
      assert a + b == a;
    }
  }

  lemma {:induction false} KindSumAppend(a: seq<Transaction>, b: seq<Transaction>, kind: string)
    ensures KindSum(a + b, kind) == KindSum(a, kind) + KindSum(b, kind)
  {
    if a == [] {
      assert a + b == b;
    } else {
      assert (a + b)[1..] == a[1..] + b;
      KindSumAppend(a[1..], b, kind);
    }
  }

  /** Filtering by type and then reducing gives the reference sum. */
  lemma {:induction false} FilterReduceIsKindSum(txs: seq<Transaction>, kind: string)
    ensures Reduce(OfKind(txs, kind)) == KindSum(txs, kind)
  {
    if txs != [] {
      var head := if txs[0].kind == kind then [txs[0]] else [];
      assert Reduce(head) == Share(txs[0], kind) by {
        if txs[0].kind == kind { assert head[..0] == []; }
      }
      ReduceAppend(head, OfKind(txs[1..], kind));
      FilterReduceIsKindSum(txs[1..], kind);
    }
  }

  /** Removing the element at `i` takes exactly its share off the sum. */
  lemma KindSumRemove(txs: seq<Transaction>, i: nat, kind: string)
    requires i < |txs|
    ensures KindSum(txs[..i] + txs[i + 1..], kind) == KindSum(txs, kind) - Share(txs[i], kind)
  {
    assert txs == txs[..i] + ([txs[i]] + txs[i + 1..]);
    KindSumAppend(txs[..i], [txs[i]] + txs[i + 1..], kind);
    KindSumAppend(txs[..i], txs[i + 1..], kind);
    assert ([txs[i]] + txs[i + 1..])[1..] == txs[i + 1..];
  }

  /** The sum for a type does not depend on the order of the transactions. */
  lemma {:induction false} KindSumPermutation(a: seq<Transaction>, b: seq<Transaction>, kind: string)
    requires multiset(a) == multiset(b)
    ensures KindSum(a, kind) == KindSum(b, kind)
    decreases |a|
  {
    if a == [] {
      assert |b| == |multiset(b)| == 0;
    } else {
      assert a[0] in multiset(b);
      var i :| 0 <= i < |b| && b[i] == a[0];
      var rest := b[..i] + b[i + 1..];
      assert b == b[..i] + [b[i]] + b[i + 1..];
      assert a == [a[0]] + a[1..];
      assert multiset(b) == multiset(b[..i]) + multiset{b[i]} + multiset(b[i + 1..]);
      assert multiset(a) == multiset{a[0]} + multiset(a[1..]);
      assert multiset(rest) == multiset(b[..i]) + multiset(b[i + 1..]);
      assert multiset(a[1..]) == multiset(a) - multiset{a[0]};
      assert multiset(rest) == multiset(b) - multiset{b[i]};
      KindSumPermutation(a[1..], rest, kind);
      KindSumRemove(b, i, kind);
    }
  }

  /** The balance is the same for any ordering of the same transactions. */
  lemma BalanceIsOrderIndependent(a: seq<Transaction>, b: seq<Transaction>)
    requires multiset(a) == multiset(b)
    ensures GetBalance(a) == GetBalance(b)
  {
    KindSumPermutation(a, b, INCOME);
    KindSumPermutation(a, b, OUTCOME);
  }

  /** Appending one transaction moves income or outcome by its value,
      according to its type, and the total by its signed value. */
  lemma BalanceAppend(txs: seq<Transaction>, t: Transaction)
    ensures GetBalance(txs + [t]).income == GetBalance(txs).income + Share(t, INCOME)
    ensures GetBalance(txs + [t]).outcome == GetBalance(txs).outcome + Share(t, OUTCOME)
    ensures GetBalance(txs + [t]).total == GetBalance(txs).total + Signed(t)
  {
    KindSumAppend(txs, [t], INCOME);
    KindSumAppend(txs, [t], OUTCOME);
  }

  /** Removing the transaction at `i` takes its signed value off the total. */
  lemma BalanceRemove(txs: seq<Transaction>, i: nat)
    requires i < |txs|
    ensures GetBalance(txs[..i] + txs[i + 1..]).total == GetBalance(txs).total - Signed(txs[i])
  {
    KindSumRemove(txs, i, INCOME);
    KindSumRemove(txs, i, OUTCOME);
  }
}
