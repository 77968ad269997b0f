/**
 The ledger: the transaction store and the category store, both updated in
 place by the three services (create, delete, import). Identifiers come
 from one counter. The balance is read through `GetBalance`, which only
 reads the transactions.
 */
module Ledger {
  import opened LedgerTypes
  import opened Balance
  import opened ImportRecords

  predicate UniqueTransactionIds(txs: seq<Transaction>)
  {
    forall i, j :: 0 <= i < j < |txs| ==> txs[i].id != txs[j].id
  }

  predicate UniqueCategoryIds(cats: seq<Category>)
  {
    forall i, j :: 0 <= i < j < |cats| ==> cats[i].id != cats[j].id
  }

  predicate HasCategory(cats: seq<Category>, id: Id)
  {
    exists j :: 0 <= j < |cats| && cats[j].id == id
  }

  /** The store invariant: identifiers are unique per store and below the
      counter, category titles are unique, and every transaction refers to
      a stored category. */
  predicate Consistent(txs: seq<Transaction>, cats: seq<Category>, nextId: Id)
  {
    UniqueTitles(cats) && UniqueCategoryIds(cats) && UniqueTransactionIds(txs) &&
    (forall j :: 0 <= j < |cats| ==> cats[j].id < nextId) &&
    (forall i :: 0 <= i < |txs| ==> txs[i].id < nextId) &&
    (forall i :: 0 <= i < |txs| ==> HasCategory(cats, txs[i].categoryId))
  }

  /** Saving categories with distinct, new titles under fresh identifiers
      keeps the store consistent. */
  lemma SaveCategoriesKeepsConsistent(txs: seq<Transaction>, cats: seq<Category>, nextId: Id, added: seq<string>)
    requires Consistent(txs, cats, nextId)
    requires Distinct(added)
    requires forall t :: t in added ==> t !in TitlesOf(cats)
    ensures Consistent(txs, cats + MakeCategories(added, nextId), nextId + |added|)
  {
    var all := cats + MakeCategories(added, nextId);
    AppendKeepsTitlesUnique(cats, added, nextId);
    forall i | 0 <= i < |txs| ensures HasCategory(all, txs[i].categoryId) {
      var j :| 0 <= j < |cats| && cats[j].id == txs[i].categoryId;
      assert all[j] == cats[j];
    }
  }

  /** Saving transactions under fresh identifiers that refer to stored
      categories keeps the store consistent. */
  lemma SaveTransactionsKeepsConsistent(txs: seq<Transaction>, cats: seq<Category>, nextId: Id, added: seq<Transaction>)
    requires Consistent(txs, cats, nextId)
    requires forall k :: 0 <= k < |added| ==> added[k].id == nextId + k && HasCategory(cats, added[k].categoryId)
    ensures Consistent(txs + added, cats, nextId + |added|)
  {
  }

  /** The transactions without those whose identifier is `id`, others kept
      in their order. */
  function WithoutId(txs: seq<Transaction>, id: Id): seq<Transaction>
  {
    if txs == [] then []
    else (if txs[0].id == id then [] else [txs[0]]) + WithoutId(txs[1..], id)
  }

  /** Afterwards no transaction has identifier `id`, and every other one is
      still there. */
  lemma {:induction false} WithoutIdMembers(txs: seq<Transaction>, id: Id)
    ensures forall t :: t in WithoutId(txs, id) <==> t in txs && t.id != id
  {
    if txs != [] {
      WithoutIdMembers(txs[1..], id);
      assert txs == [txs[0]] + txs[1..];
    }
  }

  lemma {:induction false} WithoutIdAppend(a: seq<Transaction>, b: seq<Transaction>, id: Id)
    ensures WithoutId(a + b, id) == WithoutId(a, id) + WithoutId(b, id)
  {
    if a == [] {
      assert a + b == b;
    } else {
      assert (a + b)[1..] == a[1..] + b;
      WithoutIdAppend(a[1..], b, id);
    }
  }

  lemma {:induction false} WithoutAbsentId(txs: seq<Transaction>, id: Id)
    requires forall i :: 0 <= i < |txs| ==> txs[i].id != id
    ensures WithoutId(txs, id) == txs
  {
    if txs != [] {
      WithoutAbsentId(txs[1..], id);
    }
  }

  /** Removing the transaction at `i`, when no other one shares its
      identifier, is removing every transaction with that identifier: the
      others stay, in their relative order. */
  lemma {:induction false} RemoveAtIsWithoutId(txs: seq<Transaction>, i: nat)
    requires i < |txs|
    requires forall k :: 0 <= k < |txs| && k != i ==> txs[k].id != txs[i].id
    ensures txs[..i] + txs[i + 1..] == WithoutId(txs, txs[i].id)
  {
    var id := txs[i].id;
    if i == 0 {
      WithoutAbsentId(txs[1..], id);
    } else {
      var tail := txs[1..];
      assert tail[i - 1] == txs[i];
      RemoveAtIsWithoutId(tail, i - 1);
      assert txs[..i] == [txs[0]] + tail[..i - 1];
      assert txs[i + 1..] == tail[i..];
    }
  }

  /** `findOne({ where: { id } })` on the transaction store: the position of
      the transaction with identifier `id`, if there is one. */
  method FindTransaction(txs: seq<Transaction>, id: Id) returns (r: Option<nat>)
    ensures r.None? <==> id !in IdsOf(txs)
    ensures r.Some? ==> r.value < |txs| && txs[r.value].id == id
  {
    var i := 0;
    while i < |txs|
      invariant 0 <= i <= |txs|
      invariant id !in IdsOf(txs)[..i]
    {
      if txs[i].id == id {
        assert IdsOf(txs)[i] == id;
        return Some(i);
      }
      assert IdsOf(txs)[..i + 1] == IdsOf(txs)[..i] + [txs[i].id];
      i := i + 1;
    }
    assert IdsOf(txs)[..i] == IdsOf(txs);
    return None;
  }

  /** `findOne({ where: { title } })` on the category store. */
  method FindCategory(cats: seq<Category>, title: string) returns (r: Option<Category>)
    ensures r == FindByTitle(cats, title)
  {
    var i := 0;
    while i < |cats|
      invariant 0 <= i <= |cats|
      invariant FindByTitle(cats[i..], title) == FindByTitle(cats, title)
    {
      if cats[i].title == title {
        return Some(cats[i]);
      }
      assert cats[i..][1..] == cats[i + 1..];
      i := i + 1;
    }
    return None;
  }

  /** The solvency rule as the create service applies it: an outcome whose
      value is strictly above the current total is refused. */
  predicate Refused(txs: seq<Transaction>, kind: string, value: int)
  {
    kind == OUTCOME && value > GetBalance(txs).total
  }

  /** A transaction the rule lets through, with a non-negative value, never
      takes a non-negative total below zero: an income raises it, an outcome
      of at most the total lowers it to zero at the least. */
  lemma AcceptedKeepsTotalNonNegative(txs: seq<Transaction>, t: Transaction)
    requires GetBalance(txs).total >= 0 && t.value >= 0
    requires !Refused(txs, t.kind, t.value)
    ensures GetBalance(txs + [t]).total >= 0
  {
    BalanceAppend(txs, t);
  }

  /** A category found among the newly saved ones and the fetched stored
      ones is in the store after the save. */
  lemma BoundInStore(cats: seq<Category>, added: seq<Category>, fetched: seq<Category>, id: Id, title: string)
    requires forall c :: c in fetched ==> c in cats
    requires BoundTo(added + fetched, id, title)
    ensures BoundTo(cats + added, id, title) && HasCategory(cats + added, id)
  {
    var all, found := cats + added, added + fetched;
    var j :| 0 <= j < |found| && found[j].id == id && found[j].title == title;
    if j < |added| {
      assert all[|cats| + j] == found[j];
    } else {
      assert found[j] in fetched;
      var m :| 0 <= m < |cats| && cats[m] == found[j];
      assert all[m] == found[j];
    }
  }

  class Ledger {
    var transactions: seq<Transaction>
    var categories: seq<Category>
    var nextId: Id

    ghost predicate Valid()
      reads this
    {
      Consistent(transactions, categories, nextId)
    }

    constructor ()
      ensures Valid()
      ensures transactions == [] && categories == []
    {
      transactions, categories, nextId := [], [], 0;
    }

    /** `categoryRepository.save` of new categories: they are appended under
        the next identifiers of the counter. */
    method SaveCategories(titles: seq<string>) returns (saved: seq<Category>)
      requires Valid()
      requires Distinct(titles)
      requires forall t :: t in titles ==> t !in TitlesOf(categories)
      modifies this
      ensures Valid()
      ensures saved == MakeCategories(titles, old(nextId))
      ensures categories == old(categories) + saved
      ensures transactions == old(transactions) && nextId == old(nextId) + |titles|
    {
      saved := MakeCategories(titles, nextId);
      SaveCategoriesKeepsConsistent(transactions, categories, nextId, titles);
      categories := categories + saved;
      nextId := nextId + |titles|;
    }

    /** `transactionsRepository.save` of new transactions carrying the next
        identifiers of the counter and referring to stored categories. */
    method SaveTransactions(batch: seq<Transaction>)
      requires Valid()
      requires forall k :: 0 <= k < |batch| ==> batch[k].id == nextId + k && HasCategory(categories, batch[k].categoryId)
      modifies this
      ensures Valid()
      ensures transactions == old(transactions) + batch
      ensures categories == old(categories) && nextId == old(nextId) + |batch|
    {
      SaveTransactionsKeepsConsistent(transactions, categories, nextId, batch);
      transactions := transactions + batch;
      nextId := nextId + |batch|;
    }

    /** `CreateTransactionService.execute`. The solvency rule comes first:
        an outcome above the current total is refused before anything is
        written. Otherwise the category with the given title is looked up,
        created if missing, and one transaction referring to it is saved. */
    method CreateTransaction(title: string, value: int, kind: string, category: string)
      returns (r: Outcome<Transaction>)
      requires Valid()
      modifies this
      ensures Valid()
      ensures r.Err? <==> Refused(old(transactions), kind, value)
      ensures r.Err? ==> r.error == InsufficientFunds &&
                         transactions == old(transactions) && categories == old(categories) && nextId == old(nextId)
      ensures r.Ok? ==> transactions == old(transactions) + [r.value] &&
                        r.value.title == title && r.value.kind == kind && r.value.value == value &&
                        r.value.id !in IdsOf(old(transactions)) &&
                        BoundTo(categories, r.value.categoryId, category)
      ensures r.Ok? && category in TitlesOf(old(categories)) ==>
                categories == old(categories) &&
                r.value.categoryId == FindByTitle(old(categories), category).value.id
      ensures r.Ok? && category !in TitlesOf(old(categories)) ==>
                categories == old(categories) + [Category(r.value.categoryId, category)] &&
                !HasCategory(old(categories), r.value.categoryId)
    {
      var balance := GetBalance(transactions);
      if kind == OUTCOME && value > balance.total {
        // neither store is touched
        return Err(InsufficientFunds);
      }
      var existing := FindCategory(categories, category);
      if existing.None? {
        var saved := SaveCategories([category]);
        var t := Transaction(nextId, title, kind, value, saved[0].id);
        assert categories[|categories| - 1] == saved[0];
        SaveTransactions([t]);
        r := Ok(t);
      } else {
        var t := Transaction(nextId, title, kind, value, existing.value.id);
        SaveTransactions([t]);
        r := Ok(t);
      }
    }

    /** `DeleteTransactionService.execute`: look the transaction up by
        identifier, refuse when it is missing, otherwise remove it. The
        categories are left alone, so a category may end up unused. */
    method DeleteTransaction(id: Id) returns (r: Outcome<()>)
      requires Valid()
      modifies this
      ensures Valid()
      ensures r.Err? <==> id !in IdsOf(old(transactions))
      ensures r.Err? ==> r.error == NotFound && transactions == old(transactions)
      ensures r.Ok? ==> transactions == WithoutId(old(transactions), id)
      ensures categories == old(categories) && nextId == old(nextId)
    {
      var found := FindTransaction(transactions, id);
      if found.None? {
        return Err(NotFound);
      }
      var i := found.value;
      RemoveAtIsWithoutId(transactions, i);
      transactions := transactions[..i] + transactions[i + 1..];
      r := Ok(());
    }

    /** `ImportTransactionsService.execute` on the records the CSV parser
        yields. The 'data' handler collects the candidates; the stored
        categories named in the batch are fetched; the titles neither stored
        nor repeated are saved as new categories; then one transaction per
        candidate is saved, bound to the category of the same title among
        the new and the fetched ones. `toNumber` is the conversion of the
        value field. No solvency check is made and the type is not checked. */
    method ImportTransactions(rows: seq<Record>, toNumber: string -> int) returns (created: seq<Transaction>)
      requires Valid()
      modifies this
      ensures Valid()
      ensures categories ==
                old(categories) +
                MakeCategories(NewTitles(CategoryTitles(Candidates(rows)), TitlesOf(old(categories))), old(nextId))
      ensures transactions == old(transactions) + created
      ensures |created| == |Candidates(rows)|
      ensures forall k :: 0 <= k < |created| ==>
                var c := Candidates(rows)[k];
                created[k].title == c.title && created[k].kind == c.kind &&
                created[k].value == toNumber(c.value) &&
                created[k].id !in IdsOf(old(transactions)) &&
                BoundTo(categories, created[k].categoryId, c.category)
    {
      var candidates, titles := CollectCandidates(rows);
      // find({ where: { title: In(categories) } })
      var existent := Matching(categories, titles);
      var added := NewTitles(titles, TitlesOf(existent));
      NewTitlesFromMatching(categories, titles);
      ghost var before, firstId := categories, nextId;
      var newCategories := SaveCategories(added);
      var final := newCategories + existent;
      EveryCandidateResolves(before, candidates, firstId);
      created := Bind(candidates, final, nextId, toNumber);
      forall k | 0 <= k < |created|
        ensures created[k].id == nextId + k && HasCategory(categories, created[k].categoryId)
        ensures BoundTo(categories, created[k].categoryId, candidates[k].category)
      {
        BoundInStore(before, newCategories, existent, created[k].categoryId, candidates[k].category);
      }
      SaveTransactions(created);
    }
  }
}

/** What a caller of the services can rely on, on the examples of the
    ledger's documentation. */
module LedgerScenarios {
  import opened LedgerTypes
  import opened Balance
  import opened Ledger

  method SolvencyScenario()
  {
    var ledger := new Ledger();

    // An income on an empty ledger is accepted.
    var salary := ledger.CreateTransaction("Salary", 5000, INCOME, "Job");
    assert salary.Ok? && ledger.transactions == [salary.value];
    BalanceAppend([], salary.value);
    assert GetBalance(ledger.transactions) == Balance(5000, 0, 5000);

    // An outcome above the total is refused and changes nothing.
    var rent := ledger.CreateTransaction("Rent", 6000, OUTCOME, "Housing");
    assert rent == Err(InsufficientFunds);
    assert ledger.transactions == [salary.value];

    // An outcome equal to the total is accepted and brings it to zero.
    var all := ledger.CreateTransaction("Rent", 5000, OUTCOME, "Housing");
    assert all.Ok? && ledger.transactions == [salary.value] + [all.value];
    BalanceAppend([salary.value], all.value);
    assert GetBalance(ledger.transactions) == Balance(5000, 5000, 0);
  }

  method NotFoundScenario()
  {
    var ledger := new Ledger();
    var salary := ledger.CreateTransaction("Salary", 5000, INCOME, "Job");
    assert ledger.transactions == [salary.value];
    ghost var categories := ledger.categories;

    // Deleting an identifier no transaction carries fails and changes nothing.
    var missing := ledger.DeleteTransaction(salary.value.id + 1);
    assert missing == Err(NotFound) && ledger.transactions == [salary.value];

    // Deleting the stored one empties the transactions and keeps the categories.
    assert IdsOf(ledger.transactions)[0] == salary.value.id;
    var deleted := ledger.DeleteTransaction(salary.value.id);
    assert [salary.value][1..] == [];
    assert deleted.Ok? && ledger.transactions == [] && ledger.categories == categories;
  }
}
