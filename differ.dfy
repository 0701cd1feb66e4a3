/** `compare`: walks the new summary and reports IDs that are new and IDs
    whose row count changed or that gained titles. IDs that disappeared are
    not reported. The order of the report follows the iteration order of the
    new summary, which is not part of the model: the method may visit the IDs
    in any order, and the specification constrains only which rows appear. */
module Differ {
  import opened Order
  import opened Paths
  import opened Loader
  import opened Summarizer

  datatype ChangeType = NewId | CountOrTitleChange

  /** One output row, with the columns change_type, ID, old_count, new_count
      and new_titles_added. */
  datatype DiffRow = DiffRow(
    changeType: ChangeType,
    id: string,
    oldCount: nat,
    newCount: nat,
    newTitlesAdded: seq<string>)

  /** `sorted(set(n["titles"]) - set(o["titles"]))`. */
  function AddedTitles(after: Group, before: Group): seq<string> {
    SortedDifference(after.titles, before.titles)
  }

  /** Whether an ID of the new summary gets a row: it is new, or its count
      differs, or it gained a title. */
  predicate Reported(before: Summary, after: Summary, id: string)
    requires id in after
  {
    id !in before
    || after[id].count != before[id].count
    || AddedTitles(after[id], before[id]) != []
  }

  /** The row built for an ID of the new summary when it is reported. */
  function RowFor(before: Summary, after: Summary, id: string): DiffRow
    requires id in after
  {
    if id !in before then
      DiffRow(NewId, id, 0, after[id].count, after[id].titles)
    else
      DiffRow(CountOrTitleChange, id, before[id].count, after[id].count, AddedTitles(after[id], before[id]))
  }

  /** `rows` is a report of the changes from `before` to `after`, in some
      order: every row belongs to an ID of `after` and is the row built for
      it, no ID has two rows, and an ID of `after` has a row exactly when it
      is reported. */
  predicate IsDiff(before: Summary, after: Summary, rows: seq<DiffRow>) {
    && (forall i :: 0 <= i < |rows| ==> rows[i].id in after && rows[i] == RowFor(before, after, rows[i].id))
    && (forall i, j :: 0 <= i < j < |rows| ==> rows[i].id != rows[j].id)
    && (forall id :: id in after ==>
          (Reported(before, after, id) <==> exists i :: 0 <= i < |rows| && rows[i].id == id))
  }

  /** An ID of the new summary is reported exactly when it is absent from the
      old one, or its count changed, or one of its titles is not among the old
      titles. */
  lemma ReportedIff(before: Summary, after: Summary, id: string)
    requires id in after
    ensures Reported(before, after, id) <==>
      || id !in before
      || after[id].count != before[id].count
      || exists t :: t in after[id].titles && t !in before[id].titles
  {
    if id in before {
      EmptyIffNoMember(AddedTitles(after[id], before[id]));
    }
  }

  /** The content of each row: a `new_id` row for exactly the IDs missing
      from the old summary, with old count 0 and all of the new titles; a
      `count_or_title_change` row otherwise, with both counts and the titles
      of the new summary missing from the old one, ascending. */
  lemma RowMeaning(before: Summary, after: Summary, id: string)
    requires id in after
    ensures var r := RowFor(before, after, id);
      && r.id == id
      && r.newCount == after[id].count
      && (r.changeType == NewId <==> id !in before)
      && (id !in before ==> r.oldCount == 0 && r.newTitlesAdded == after[id].titles)
      && (id in before ==>
            && r.oldCount == before[id].count
            && StrictlySorted(r.newTitlesAdded)
            && forall t :: t in r.newTitlesAdded <==> t in after[id].titles && t !in before[id].titles)
  {
  }

  /** An ID whose count and title set are unchanged is not reported, and a
      shrinking title set alone is not reported either. */
  lemma UnchangedNotReported(before: Summary, after: Summary, id: string)
    requires id in after && id in before
    requires after[id].count == before[id].count
    requires forall t :: t in after[id].titles ==> t in before[id].titles
    ensures !Reported(before, after, id)
  {
    EmptyIffNoMember(AddedTitles(after[id], before[id]));
  }

  /** Removals are ignored: an ID present only in the old summary never gets
      a row. */
  lemma RemovalsIgnored(before: Summary, after: Summary, rows: seq<DiffRow>, id: string)
    requires IsDiff(before, after, rows)
    requires id !in after
    ensures forall i :: 0 <= i < |rows| ==> rows[i].id != id
  {
  }

  /** Comparing a summary with itself reports nothing. */
  lemma SelfDiffEmpty(s: Summary, rows: seq<DiffRow>)
    requires IsDiff(s, s, rows)
    ensures rows == []
  {
    forall id | id in s
      ensures !Reported(s, s, id)
    {
      UnchangedNotReported(s, s, id);
    }
    assert ReportedIds(s, s) == {};
    DiffSize(s, s, rows);
  }

  /** The IDs of a list of rows. */
  function RowIds(rows: seq<DiffRow>): set<string> {
    set i | 0 <= i < |rows| :: rows[i].id
  }

  lemma {:induction false} DistinctIdsCount(rows: seq<DiffRow>)
    requires forall i, j :: 0 <= i < j < |rows| ==> rows[i].id != rows[j].id
    ensures |RowIds(rows)| == |rows|
    decreases |rows|
  {
    if rows != [] {
      var init := rows[..|rows| - 1];
      DistinctIdsCount(init);
      assert RowIds(rows) == RowIds(init) + {rows[|rows| - 1].id};
      assert rows[|rows| - 1].id !in RowIds(init);
    }
  }

  /** The IDs that get a row. */
  function ReportedIds(before: Summary, after: Summary): set<string> {
    set id | id in after && Reported(before, after, id)
  }

  /** A report has one row per reported ID. */
  lemma DiffSize(before: Summary, after: Summary, rows: seq<DiffRow>)
    requires IsDiff(before, after, rows)
    ensures RowIds(rows) == ReportedIds(before, after)
    ensures |rows| == |ReportedIds(before, after)|
  {
    DistinctIdsCount(rows);
  }

  /** A report is determined up to order: two reports of the same change have
      the same length and the same rows. */
  lemma DiffUniqueUpToOrder(before: Summary, after: Summary, rows1: seq<DiffRow>, rows2: seq<DiffRow>)
    requires IsDiff(before, after, rows1) && IsDiff(before, after, rows2)
    ensures |rows1| == |rows2|
    ensures forall r :: r in rows1 <==> r in rows2
  {
    DiffSize(before, after, rows1);
    DiffSize(before, after, rows2);
    forall r | r in rows1
      ensures r in rows2
    {
      var i :| 0 <= i < |rows1| && rows1[i] == r;
      var j :| 0 <= j < |rows2| && rows2[j].id == r.id;
    }
    forall r | r in rows2
      ensures r in rows1
    {
      var j :| 0 <= j < |rows2| && rows2[j] == r;
      var i :| 0 <= i < |rows1| && rows1[i].id == r.id;
    }
  }

  /** The loop of `compare` over the IDs of the new summary. */
  method Compare(before: Summary, after: Summary) returns (rows: seq<DiffRow>)
    ensures IsDiff(before, after, rows)
  {
    rows := [];
    var pending := after.Keys;
    while pending != {}
      invariant pending <= after.Keys
      invariant forall i :: 0 <= i < |rows| ==>
        rows[i].id in after && rows[i].id !in pending && rows[i] == RowFor(before, after, rows[i].id)
      invariant forall i, j :: 0 <= i < j < |rows| ==> rows[i].id != rows[j].id
      invariant forall id :: id in after && id !in pending ==>
        (Reported(before, after, id) <==> exists i :: 0 <= i < |rows| && rows[i].id == id)
      decreases pending
    {
      var id :| id in pending;
      ghost var prev := rows;
      var n := after[id];
      if id !in before {
        rows := rows + [DiffRow(NewId, id, 0, n.count, n.titles)];
      } else {
        var o := before[id];
        var added := SortedDifference(n.titles, o.titles);
        if n.count != o.count || added != [] {
          rows := rows + [DiffRow(CountOrTitleChange, id, o.count, n.count, added)];
        }
      }
      assert forall i :: 0 <= i < |prev| ==> rows[i] == prev[i];
      assert |rows| > |prev| ==> rows[|rows| - 1].id == id;
      pending := pending - {id};
    }
  }

  /** `compare(old_path, new_path)`: load and summarise the old file, then
      the new one, then compare; the first loading error is the result. */
  method CompareFiles(oldPath: Path, newPath: Path, files: map<Path, Table>)
    returns (r: Result<seq<DiffRow>>)
    requires Readable(files)
    ensures Load(oldPath, files).Failure? ==> r == Failure(Load(oldPath, files).error)
    ensures Load(oldPath, files).Success? && Load(newPath, files).Failure? ==>
      r == Failure(Load(newPath, files).error)
    ensures Load(oldPath, files).Success? && Load(newPath, files).Success? ==>
      && r.Success?
      && IsDiff(SummarizeById(Load(oldPath, files).value), SummarizeById(Load(newPath, files).value), r.value)
  {
    var oldTable := ReadCsvRequired(oldPath, files);
    if oldTable.Failure? {
      return Failure(oldTable.error);
    }
    var before := SummarizeById(oldTable.value);
    var newTable := ReadCsvRequired(newPath, files);
    if newTable.Failure? {
      return Failure(newTable.error);
    }
    var after := SummarizeById(newTable.value);
    var rows := Compare(before, after);
    return Success(rows);
  }

  /** Two identical snapshots give an empty report. */
  lemma SameFileNoChanges(path: Path, files: map<Path, Table>)
    requires Readable(files) && Load(path, files).Success?
    ensures var s := SummarizeById(Load(path, files).value);
      forall rows :: IsDiff(s, s, rows) ==> rows == []
  {
    var s := SummarizeById(Load(path, files).value);
    forall rows | IsDiff(s, s, rows)
      ensures rows == []
    {
      SelfDiffEmpty(s, rows);
    }
  }

  /** A report with a single reported ID consists of that ID's row alone. */
  lemma SingleReport(before: Summary, after: Summary, rows: seq<DiffRow>, id: string)
    requires IsDiff(before, after, rows)
    requires ReportedIds(before, after) == {id}
    ensures id in after && rows == [RowFor(before, after, id)]
  {
    DiffSize(before, after, rows);
    assert rows[0].id in RowIds(rows);
  }

  lemma WelderSummary()
    ensures Summarize([Entry("A1", "Welder")]) == map["A1" := Group(1, ["Welder"])]
  {
    assert [Entry("A1", "Welder")][..0] == [];
  }

  lemma WelderPipefitterSummary()
    ensures Summarize([Entry("A1", "Welder"), Entry("A1", "Pipefitter")])
         == map["A1" := Group(2, ["Pipefitter", "Welder"])]
  {
    var rows := [Entry("A1", "Welder"), Entry("A1", "Pipefitter")];
    assert rows[..1] == [Entry("A1", "Welder")];
    WelderSummary();
    assert Less("Pipefitter", "Welder");
    assert Insert(["Welder"], "Pipefitter") == ["Pipefitter", "Welder"];
  }

  lemma PipefitterAdded()
    ensures SortedDifference(["Pipefitter", "Welder"], ["Welder"]) == ["Pipefitter"]
  {
    assert ["Pipefitter", "Welder"][..1] == ["Pipefitter"];
    assert ["Pipefitter"][..0] == [];
  }

  /** Old snapshot: A1 once as Welder; new snapshot: A1 as Welder and as
      Pipefitter. One `count_or_title_change` row: 1 to 2 rows, Pipefitter
      added. */
  lemma ScenarioTitleAdded(rows: seq<DiffRow>)
    requires IsDiff(Summarize([Entry("A1", "Welder")]),
                    Summarize([Entry("A1", "Welder"), Entry("A1", "Pipefitter")]), rows)
    ensures rows == [DiffRow(CountOrTitleChange, "A1", 1, 2, ["Pipefitter"])]
  {
    WelderSummary();
    WelderPipefitterSummary();
    PipefitterAdded();
    var before := map["A1" := Group(1, ["Welder"])];
    var after := map["A1" := Group(2, ["Pipefitter", "Welder"])];
    assert ReportedIds(before, after) == {"A1"};
    SingleReport(before, after, rows, "A1");
  }

  /** B2 does not occur in the old snapshot and occurs once, as Electrician,
      in the new one. One `new_id` row: 0 to 1 rows, Electrician added. */
  lemma ScenarioNewId(rows: seq<DiffRow>)
    requires IsDiff(Summarize([Entry("A1", "Welder")]),
                    Summarize([Entry("B2", "Electrician")]), rows)
    ensures rows == [DiffRow(NewId, "B2", 0, 1, ["Electrician"])]
  {
    var oldRows := [Entry("A1", "Welder")];
    var newRows := [Entry("B2", "Electrician")];
    assert oldRows[..0] == [] && newRows[..0] == [];
    var before, after := Summarize(oldRows), Summarize(newRows);
    assert before == map["A1" := Group(1, ["Welder"])];
    assert after == map["B2" := Group(1, ["Electrician"])];
    assert ReportedIds(before, after) == {"B2"};
    SingleReport(before, after, rows, "B2");
  }
}
