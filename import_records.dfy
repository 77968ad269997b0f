/**
 The value-level steps of the import service: turning already tokenised
 records into candidate transactions (the stream's 'data' handler), the
 computation of the category titles to create, and the binding of each
 candidate to its category. The store updates are in module Ledger.
 */
module ImportRecords {
  import opened LedgerTypes
  import opened Text

  /** One record of the delimited file, already split into fields. */
  type Record = seq<string>

  /** A record that passed validation: its first four trimmed fields. */
  datatype Candidate = Candidate(title: string, kind: string, value: string, category: string)

  /** `line.map((cell: string) => cell.trim())` */
  function TrimCells(rec: Record): seq<string>
  {
    seq(|rec|, i requires 0 <= i < |rec| => Trim(rec[i]))
  }

  /** The decision the 'data' handler takes for one record: trim the cells,
      take the first four as title, type, value and category, and drop the
      record when any of them is empty or missing. Cells after the fourth
      are trimmed by the source and then ignored; the model skips them. */
  function ParseRecord(rec: Record): Option<Candidate>
  {
    if |rec| < 4 then None
    else
      var title, kind, value, category := Trim(rec[0]), Trim(rec[1]), Trim(rec[2]), Trim(rec[3]);
      if title == [] || kind == [] || value == [] || category == [] then None
      else Some(Candidate(title, kind, value, category))
  }

  /** A record is accepted exactly when it has at least four fields and none
      of the first four is empty after trimming; the candidate holds those
      four fields trimmed, so each is non-empty with no white space at
      either end. */
  lemma ParseRecordSpec(rec: Record)
    ensures ParseRecord(rec).Some? <==>
              (|rec| >= 4 && Trim(rec[0]) != [] && Trim(rec[1]) != [] && Trim(rec[2]) != [] && Trim(rec[3]) != [])
    ensures ParseRecord(rec).Some? ==>
              var c := ParseRecord(rec).value;
              c == Candidate(Trim(rec[0]), Trim(rec[1]), Trim(rec[2]), Trim(rec[3])) &&
              c.title != [] && c.kind != [] && c.value != [] && c.category != [] &&
              IsTrimmed(c.title) && IsTrimmed(c.kind) && IsTrimmed(c.value) && IsTrimmed(c.category)
  {
  }

  /** Validation looks only at the trimmed cells: a record and its trimmed
      version are accepted or dropped alike, with the same fields. */
  lemma {:induction false} ParseIgnoresPadding(rec: Record)
    ensures ParseRecord(TrimCells(rec)) == ParseRecord(rec)
  {
    if |rec| >= 4 {
      TrimIdempotent(rec[0]);
      TrimIdempotent(rec[1]);
      TrimIdempotent(rec[2]);
      TrimIdempotent(rec[3]);
    }
  }

  function Emit(o: Option<Candidate>): seq<Candidate>
  {
    if o.Some? then [o.value] else []
  }

  /** The per-record decisions, one per record, in order. */
  function ParseAll(records: seq<Record>): seq<Option<Candidate>>
  {
    seq(|records|, j requires 0 <= j < |records| => ParseRecord(records[j]))
  }

  /** The accepted candidates of a sequence of decisions, in order. */
  function Accepted(parsed: seq<Option<Candidate>>): seq<Candidate>
  {
    if parsed == [] then []
    else Accepted(parsed[..|parsed| - 1]) + Emit(parsed[|parsed| - 1])
  }

  /** The candidates of `records` in input order, dropped records skipped:
      what the 'data' handler has pushed after the last record. */
  function KeepValid(records: seq<Record>): seq<Candidate>
  {
    Accepted(ParseAll(records))
  }

  /** The parser starts at the second line: the header record is skipped. */
  function Candidates(rows: seq<Record>): seq<Candidate>
  {
    if rows == [] then [] else KeepValid(rows[1..])
  }

  /** The `categories` array: the category field of every candidate, repeats
      included. */
  function CategoryTitles(cands: seq<Candidate>): seq<string>
  {
    seq(|cands|, i requires 0 <= i < |cands| => cands[i].category)
  }

  /** The header record never yields a candidate, whatever it holds. */
  lemma HeaderSkipped(header: Record, records: seq<Record>)
    ensures Candidates([header] + records) == KeepValid(records)
  {
    assert ([header] + records)[1..] == records;
  }

  lemma {:induction false} AcceptedAppend(a: seq<Option<Candidate>>, b: seq<Option<Candidate>>)
    ensures Accepted(a + b) == Accepted(a) + Accepted(b)
    decreases |b|
  {
    if b == [] {
      assert a + b == a;
    } else {
      var n := |b| - 1;
      assert (a + b)[..|a + b| - 1] == a + b[..n];
      assert (a + b)[|a + b| - 1] == b[n];
      AcceptedAppend(a, b[..n]);
    }
  }

  lemma ParseAllAppend(a: seq<Record>, b: seq<Record>)
    ensures ParseAll(a + b) == ParseAll(a) + ParseAll(b)
  {
    var l, r := ParseAll(a + b), ParseAll(a) + ParseAll(b);
    forall j | 0 <= j < |l| ensures l[j] == r[j] {
      if j < |a| { assert (a + b)[j] == a[j]; } else { assert (a + b)[j] == b[j - |a|]; }
    }
  }

  /** Splitting the records splits the candidates the same way: each record
      is judged on its own and the candidates keep the order of the records. */
  lemma KeepValidAppend(a: seq<Record>, b: seq<Record>)
    ensures KeepValid(a + b) == KeepValid(a) + KeepValid(b)
  {
    ParseAllAppend(a, b);
    AcceptedAppend(ParseAll(a), ParseAll(b));
  }

  /** A dropped record contributes nothing and does not disturb the others. */
  lemma DroppedRecordIsInvisible(a: seq<Record>, bad: Record, b: seq<Record>)
    requires ParseRecord(bad).None?
    ensures KeepValid(a + [bad] + b) == KeepValid(a + b)
  {
    KeepValidAppend(a + [bad], b);
    KeepValidAppend(a, [bad]);
    KeepValidAppend(a, b);
    KeepValidSingle(bad);
  }

  lemma KeepValidSingle(rec: Record)
    ensures KeepValid([rec]) == Emit(ParseRecord(rec))
  {
    var one := ParseAll([rec]);
    assert one == [ParseRecord(rec)];
    assert one[..0] == [];
    assert Accepted(one) == Accepted(one[..0]) + Emit(one[0]);
  }

  /** The positions of the accepted decisions, in increasing order. */
  ghost function KeptPositions(parsed: seq<Option<Candidate>>): seq<nat>
  {
    if parsed == [] then []
    else KeptPositions(parsed[..|parsed| - 1]) +
         (if parsed[|parsed| - 1].Some? then [|parsed| - 1] else [])
  }

  lemma {:induction false} AcceptedPositions(parsed: seq<Option<Candidate>>)
    ensures |Accepted(parsed)| == |KeptPositions(parsed)|
    ensures forall p, q :: 0 <= p < q < |KeptPositions(parsed)| ==> KeptPositions(parsed)[p] < KeptPositions(parsed)[q]
    ensures forall p :: 0 <= p < |KeptPositions(parsed)| ==>
              KeptPositions(parsed)[p] < |parsed| && parsed[KeptPositions(parsed)[p]] == Some(Accepted(parsed)[p])
    ensures forall j :: 0 <= j < |parsed| ==> (parsed[j].Some? <==> j in KeptPositions(parsed))
  {
    if parsed != [] {
      var n := |parsed| - 1;
      var init := parsed[..n];
      AcceptedPositions(init);
      var pos0, kv0 := KeptPositions(init), Accepted(init);
      var pos, kv := KeptPositions(parsed), Accepted(parsed);
      assert pos == pos0 + (if parsed[n].Some? then [n] else []);
      assert kv == kv0 + Emit(parsed[n]);
      assert forall j :: 0 <= j < n ==> parsed[j] == init[j];
      assert forall p :: 0 <= p < |pos0| ==> pos[p] == pos0[p] && kv[p] == kv0[p];
    }
  }

  /** Exactly the accepted records yield candidates, one each, in the order
      of the records. */
  lemma OneCandidatePerKeptRecord(records: seq<Record>)
    ensures var pos := KeptPositions(ParseAll(records));
            |KeepValid(records)| == |pos| &&
            (forall p, q :: 0 <= p < q < |pos| ==> pos[p] < pos[q]) &&
            (forall p :: 0 <= p < |pos| ==> pos[p] < |records| && ParseRecord(records[pos[p]]) == Some(KeepValid(records)[p])) &&
            (forall j :: 0 <= j < |records| ==> (ParseRecord(records[j]).Some? <==> j in pos))
  {
    AcceptedPositions(ParseAll(records));
  }

  lemma {:induction false} AllAccepted(parsed: seq<Option<Candidate>>)
    requires forall j :: 0 <= j < |parsed| ==> parsed[j].Some?
    ensures |Accepted(parsed)| == |parsed|
    ensures forall j :: 0 <= j < |parsed| ==> Accepted(parsed)[j] == parsed[j].value
  {
    if parsed != [] {
      var n := |parsed| - 1;
      AllAccepted(parsed[..n]);
      assert Accepted(parsed) == Accepted(parsed[..n]) + [parsed[n].value];
    }
  }

  /** With every record valid, the candidates are the parsed records. */
  lemma AllValidAllKept(records: seq<Record>)
    requires forall j :: 0 <= j < |records| ==> ParseRecord(records[j]).Some?
    ensures |KeepValid(records)| == |records|
    ensures forall j :: 0 <= j < |records| ==> KeepValid(records)[j] == ParseRecord(records[j]).value
  {
    AllAccepted(ParseAll(records));
  }

  lemma KeepValidStep(records: seq<Record>, i: nat)
    requires i < |records|
    ensures KeepValid(records[..i + 1]) == KeepValid(records[..i]) + Emit(ParseRecord(records[i]))
  {
    assert records[..i + 1] == records[..i] + [records[i]];
    KeepValidAppend(records[..i], [records[i]]);
    KeepValidSingle(records[i]);
  }

  /** The stream's 'data' handler applied to every record after the header,
      pushing onto the `transactions` and `categories` arrays. */
  method CollectCandidates(rows: seq<Record>) returns (candidates: seq<Candidate>, titles: seq<string>)
    ensures candidates == Candidates(rows)
    ensures titles == CategoryTitles(candidates)
  {
    candidates, titles := [], [];
    if rows == [] {
      return;
    }
    var records := rows[1..];
    var i := 0;
    while i < |records|
      invariant 0 <= i <= |records|
      invariant candidates == KeepValid(records[..i])
      invariant titles == CategoryTitles(candidates)
    {
      var parsed := ParseRecord(records[i]);
      KeepValidStep(records, i);
      if parsed.Some? {
        assert CategoryTitles(candidates + [parsed.value]) == titles + [parsed.value.category];
        titles := titles + [parsed.value.category];
        candidates := candidates + [parsed.value];
      }
      i := i + 1;
    }
    assert records[..i] == records;
  }

  // ---------------------------------------------------------------------
  // Categories to create

  predicate Distinct(s: seq<string>)
  {
    forall p, q :: 0 <= p < q < |s| ==> s[p] != s[q]
  }

  /** `find({ where: { title: In(titles) } })`: the stored categories whose
      title occurs in `titles`, in store order. */
  function Matching(cats: seq<Category>, titles: seq<string>): (r: seq<Category>)
    ensures forall c :: c in r <==> c in cats && c.title in titles
  {
    if cats == [] then []
    else (if cats[0].title in titles then [cats[0]] else []) + Matching(cats[1..], titles)
  }

  /** `.filter(category => !existentTitles.includes(category))` */
  function Absent(titles: seq<string>, existent: seq<string>): (r: seq<string>)
    ensures forall t :: t in r <==> t in titles && t !in existent
  {
    if titles == [] then []
    else (if titles[0] !in existent then [titles[0]] else []) + Absent(titles[1..], existent)
  }

  /** `Array.prototype.indexOf`: the first position of `v`, or -1. */
  function IndexOf(s: seq<string>, v: string): (r: int)
    ensures -1 <= r
    ensures r == -1 <==> v !in s
    ensures 0 <= r ==> r < |s| && s[r] == v && v !in s[..r]
  {
    if s == [] then -1
    else if s[0] == v then 0
    else
      var r := IndexOf(s[1..], v);
      if r == -1 then -1
      else
        assert s[..r + 1] == [s[0]] + s[1..][..r];
        r + 1
  }

  /** `.filter((value, index, self) => self.indexOf(value) === index)` over
      the positions from `i` on: the elements at their first occurrence. */
  function FirstOccurrences(s: seq<string>, i: nat): (r: seq<string>)
    requires i <= |s|
    ensures forall x :: x in r <==> x in s[i..] && IndexOf(s, x) >= i
    ensures forall p, q :: 0 <= p < q < |r| ==> IndexOf(s, r[p]) < IndexOf(s, r[q])
    ensures Distinct(r)
    decreases |s| - i
  {
    if i == |s| then []
    else
      var rest := FirstOccurrences(s, i + 1);
      assert s[i..] == [s[i]] + s[i + 1..];
      assert IndexOf(s, s[i]) <= i;
      if IndexOf(s, s[i]) == i then
        assert forall x :: x in rest ==> IndexOf(s, x) > i;
        [s[i]] + rest
      else rest
  }

  /** The titles of the categories to create (`addCategories`): those not
      already stored, each once, in the order of their first occurrence. */
  function NewTitles(titles: seq<string>, existent: seq<string>): (r: seq<string>)
    ensures Distinct(r)
    ensures forall t :: t in r <==> t in titles && t !in existent
  {
    var absent := Absent(titles, existent);
    assert absent[0..] == absent;
    FirstOccurrences(absent, 0)
  }

  lemma {:induction false} AbsentCongruent(titles: seq<string>, a: seq<string>, b: seq<string>)
    requires forall t :: t in titles ==> (t in a <==> t in b)
    ensures Absent(titles, a) == Absent(titles, b)
  {
    if titles != [] {
      assert forall t :: t in titles[1..] ==> t in titles;
      AbsentCongruent(titles[1..], a, b);
    }
  }

  lemma InTitlesOf(cats: seq<Category>, t: string)
    ensures t in TitlesOf(cats) <==> exists c :: c in cats && c.title == t
  {
    if t in TitlesOf(cats) {
      var i :| 0 <= i < |cats| && TitlesOf(cats)[i] == t;
      assert cats[i] in cats;
    }
    if exists c :: c in cats && c.title == t {
      var c :| c in cats && c.title == t;
      var i :| 0 <= i < |cats| && cats[i] == c;
      assert TitlesOf(cats)[i] == t;
    }
  }

  /** Looking up only the stored categories named in the batch, as the
      service does, gives the same titles to create as looking at every
      stored category. */
  lemma NewTitlesFromMatching(cats: seq<Category>, titles: seq<string>)
    ensures NewTitles(titles, TitlesOf(Matching(cats, titles))) == NewTitles(titles, TitlesOf(cats))
  {
    forall t | t in titles
      ensures t in TitlesOf(Matching(cats, titles)) <==> t in TitlesOf(cats)
    {
      InTitlesOf(Matching(cats, titles), t);
      InTitlesOf(cats, t);
    }
    AbsentCongruent(titles, TitlesOf(Matching(cats, titles)), TitlesOf(cats));
  }

  /** `categoriesRepository.create(addCategories.map(title => ({ title })))`
      with the identifiers the store hands out on save. */
  function MakeCategories(titles: seq<string>, firstId: Id): (r: seq<Category>)
    ensures TitlesOf(r) == titles
    ensures forall k :: 0 <= k < |r| ==> r[k] == Category(firstId + k, titles[k])
  {
    seq(|titles|, k requires 0 <= k < |titles| => Category(firstId + k, titles[k]))
  }

  /** Appending categories whose titles are distinct and new keeps every
      stored title unique. */
  lemma AppendKeepsTitlesUnique(cats: seq<Category>, added: seq<string>, firstId: Id)
    requires UniqueTitles(cats)
    requires Distinct(added)
    requires forall t :: t in added ==> t !in TitlesOf(cats)
    ensures UniqueTitles(cats + MakeCategories(added, firstId))
  {
    var all := cats + MakeCategories(added, firstId);
    forall i, j | 0 <= i < j < |all| ensures all[i].title != all[j].title {
      if j >= |cats| {
        assert all[j].title == added[j - |cats|] && added[j - |cats|] in added;
        if i < |cats| {
          assert TitlesOf(cats)[i] == all[i].title;
        } else {
          assert all[i].title == added[i - |cats|];
        }
      }
    }
  }

  // ---------------------------------------------------------------------
  // Binding candidates to categories

  /** `transactionsRepository.create(transactions.map(...))`: one
      transaction per candidate, in order, with the identifiers the store
      hands out on save and the category `finalCategories.find` returns. */
  function Bind(cands: seq<Candidate>, final: seq<Category>, firstId: Id, toNumber: string -> int): (r: seq<Transaction>)
    requires forall k :: 0 <= k < |cands| ==> FindByTitle(final, cands[k].category).Some?
    ensures |r| == |cands|
    ensures forall k :: 0 <= k < |r| ==>
              r[k].id == firstId + k && r[k].title == cands[k].title && r[k].kind == cands[k].kind &&
              r[k].value == toNumber(cands[k].value) && BoundTo(final, r[k].categoryId, cands[k].category)
  {
    seq(|cands|, k requires 0 <= k < |cands| =>
      Transaction(firstId + k, cands[k].title, cands[k].kind, toNumber(cands[k].value),
                  FindByTitle(final, cands[k].category).value.id))
  }

  /** Every candidate finds its category among the newly created ones
      followed by the stored ones that matched. */
  lemma {:induction false} EveryCandidateResolves(cats: seq<Category>, cands: seq<Candidate>, firstId: Id)
    ensures var titles := CategoryTitles(cands);
            var existent := Matching(cats, titles);
            var final := MakeCategories(NewTitles(titles, TitlesOf(existent)), firstId) + existent;
            forall k :: 0 <= k < |cands| ==> FindByTitle(final, cands[k].category).Some?
  {
    var titles := CategoryTitles(cands);
    var existent := Matching(cats, titles);
    var created := MakeCategories(NewTitles(titles, TitlesOf(existent)), firstId);
    var final := created + existent;
    assert TitlesOf(final) == TitlesOf(created) + TitlesOf(existent);
    forall k | 0 <= k < |cands| ensures cands[k].category in TitlesOf(final) {
      assert titles[k] == cands[k].category;
    }
  }
}
