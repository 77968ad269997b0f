/**
 The two entities the ledger stores, Transaction and Category, the
 failures its services report, and the lookup of a category by title.
 Identifiers are natural numbers handed out by the ledger's counter.
 */
module LedgerTypes {

  datatype Option<+T> = None | Some(value: T)

  /** The failures of the services. Both are raised in the source as one
      application error with the same message and status 400; the model
      keeps them apart by cause. */
  datatype Error = InsufficientFunds | NotFound

  datatype Outcome<+T> = Ok(value: T) | Err(error: Error)

  type Id = nat

  /** The two type tags the balance recognises. */
  const INCOME: string := "income"
  const OUTCOME: string := "outcome"

  datatype Category = Category(id: Id, title: string)

  /** A stored transaction. `kind` is the source's `type` column: a create
      request passes "income" or "outcome", an imported record any
      non-empty text. */
  datatype Transaction = Transaction(id: Id, title: string, kind: string, value: int, categoryId: Id)

  function TitlesOf(cats: seq<Category>): seq<string>
  {
    seq(|cats|, i requires 0 <= i < |cats| => cats[i].title)
  }

  function IdsOf(txs: seq<Transaction>): seq<Id>
  {
    seq(|txs|, i requires 0 <= i < |txs| => txs[i].id)
  }

  /** No two categories share a title (exact, case-sensitive comparison). */
  predicate UniqueTitles(cats: seq<Category>)
  {
    forall i, j :: 0 <= i < j < |cats| ==> cats[i].title != cats[j].title
  }

  /** Some category in `cats` has identifier `id` and title `title`. */
  predicate BoundTo(cats: seq<Category>, id: Id, title: string)
  {
    exists j :: 0 <= j < |cats| && cats[j].id == id && cats[j].title == title
  }

  /** The first category whose title equals `title` exactly, as the
      JavaScript `Array.prototype.find` with `cat.title === title` returns it. */
  function FindByTitle(cats: seq<Category>, title: string): (r: Option<Category>)
    ensures r.None? <==> title !in TitlesOf(cats)
    ensures r.Some? ==> exists i :: 0 <= i < |cats| && cats[i] == r.value && r.value.title == title &&
                                    title !in TitlesOf(cats[..i])
  {
    if cats == [] then None
    else if cats[0].title == title then
      assert cats[..0] == [] && TitlesOf(cats)[0] == title;
      Some(cats[0])
    else
      var r := FindByTitle(cats[1..], title);
      assert TitlesOf(cats) == [cats[0].title] + TitlesOf(cats[1..]);
      if r.Some? then
        var i :| 0 <= i < |cats[1..]| && cats[1..][i] == r.value && r.value.title == title &&
                 title !in TitlesOf(cats[1..][..i]);
        assert TitlesOf(cats[..i + 1]) == [cats[0].title] + TitlesOf(cats[1..][..i]);
        r
      else r
  }

  /** In a store whose titles are unique, the category found for a title is
      the only one carrying it. */
  lemma {:induction false} FindByTitleUnique(cats: seq<Category>, title: string, j: nat)
    requires UniqueTitles(cats)
    requires j < |cats| && cats[j].title == title
    ensures FindByTitle(cats, title) == Some(cats[j])
  {
    var r := FindByTitle(cats, title);
    assert title in TitlesOf(cats) by { assert TitlesOf(cats)[j] == title; }
    var i :| 0 <= i < |cats| && cats[i] == r.value && r.value.title == title && title !in TitlesOf(cats[..i]);
    if i < j {
      assert cats[i].title == cats[j].title;
    }
  }
}
