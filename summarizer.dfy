/** `summarize_by_id`: rows grouped by their ID, each group reduced to its
    number of rows and the ascending list of its distinct non-empty titles. */
module Summarizer {
  import opened Text
  import opened Order
  import opened Paths
  import opened Loader

  /** The two cells of one row the summary looks at. */
  datatype Entry = Entry(id: string, title: string)

  /** One summary line: `count` and `titles` of one ID. */
  datatype Group = Group(count: nat, titles: seq<string>)

  /** The summary, indexed by ID (`set_index("ID")`). */
  type Summary = map<string, Group>

  /** The ID and Title cells of a loaded table, row by row. */
  function Entries(t: Table): (r: seq<Entry>)
    requires Loaded(t)
    ensures |r| == |t.rows|
  {
    seq(|t.rows|, i requires 0 <= i < |t.rows| => Entry(t.rows[i][ID], t.rows[i][TITLE]))
  }

  /** What the summariser sees of a loaded file: row by row, the ID and the
      Title of the file with surrounding whitespace removed, so IDs and titles
      that differ only in such whitespace fall together. */
  lemma LoadedEntries(path: Path, files: map<Path, Table>)
    requires Readable(files) && Load(path, files).Success?
    ensures var raw, es := files[path], Entries(Load(path, files).value);
      && |es| == |raw.rows|
      && forall i :: 0 <= i < |es| ==>
           ID in raw.rows[i] && TITLE in raw.rows[i]
           && es[i] == Entry(Strip(raw.rows[i][ID]), Strip(raw.rows[i][TITLE]))
  {
    LoadSucceedsIff(path, files);
    var raw := files[path];
    NormalizeCells(raw);
    forall i | 0 <= i < |raw.rows|
      ensures ID in raw.rows[i] && TITLE in raw.rows[i]
      ensures Entries(Load(path, files).value)[i] == Entry(Strip(raw.rows[i][ID]), Strip(raw.rows[i][TITLE]))
    {
      NormalizeRowMeaning(raw.rows[i]);
    }
  }

  /** The IDs that occur in `rows`. */
  function Ids(rows: seq<Entry>): set<string>
    decreases |rows|
  {
    if rows == [] then {} else Ids(rows[..|rows| - 1]) + {rows[|rows| - 1].id}
  }

  /** The number of rows whose ID is `id`, whatever their title. */
  function Count(rows: seq<Entry>, id: string): nat
    decreases |rows|
  {
    if rows == [] then 0
    else Count(rows[..|rows| - 1], id) + (if rows[|rows| - 1].id == id then 1 else 0)
  }

  /** The non-empty titles of the rows whose ID is `id`. */
  function TitlesOf(rows: seq<Entry>, id: string): set<string>
    decreases |rows|
  {
    if rows == [] then {}
    else
      var e := rows[|rows| - 1];
      TitlesOf(rows[..|rows| - 1], id) + (if e.id == id && e.title != "" then {e.title} else {})
  }

  /** What every group of a summary looks like: at least one row, titles
      strictly ascending (hence distinct), no empty title. */
  predicate ValidGroup(g: Group) {
    g.count >= 1 && StrictlySorted(g.titles) && "" !in g.titles
  }

  predicate ValidSummary(s: Summary) {
    forall id :: id in s ==> ValidGroup(s[id])
  }

  /** Adds one row to a summary: one more row for its ID, and its title, when
      non-empty, joins that ID's titles. */
  function Tally(s: Summary, e: Entry): (r: Summary)
    requires ValidSummary(s)
    ensures ValidSummary(r)
    ensures r.Keys == s.Keys + {e.id}
  {
    var g := if e.id in s then s[e.id] else Group(0, []);
    s[e.id := Group(g.count + 1, if e.title == "" then g.titles else Insert(g.titles, e.title))]
  }

  /** The grouping of `summarize_by_id`, one row at a time in file order. Its
      keys are exactly the IDs of the rows. */
  function Summarize(rows: seq<Entry>): (s: Summary)
    ensures ValidSummary(s)
    ensures s.Keys == Ids(rows)
    decreases |rows|
  {
    if rows == [] then map[] else Tally(Summarize(rows[..|rows| - 1]), rows[|rows| - 1])
  }

  /** `summarize_by_id(df).set_index("ID")` for a loaded table. */
  function SummarizeById(t: Table): Summary
    requires Loaded(t)
  {
    Summarize(Entries(t))
  }

  /** An ID is summarised exactly when some row carries it; its count is the
      number of such rows (empty titles included) and its titles are exactly
      the non-empty titles of those rows. */
  lemma {:induction false} SummarizeGroup(rows: seq<Entry>, id: string)
    ensures id in Summarize(rows) <==> Count(rows, id) > 0
    ensures id !in Summarize(rows) ==> TitlesOf(rows, id) == {}
    ensures id in Summarize(rows) ==>
      && Summarize(rows)[id].count == Count(rows, id)
      && forall t :: t in Summarize(rows)[id].titles <==> t in TitlesOf(rows, id)
    decreases |rows|
  {
    if rows != [] {
      var init, e := rows[..|rows| - 1], rows[|rows| - 1];
      SummarizeGroup(init, id);
      var before := Summarize(init);
      assert Summarize(rows) == Tally(before, e);
      if e.id == id && id in before {
        var g := before[id];
        if e.title != "" {
          assert Summarize(rows)[id].titles == Insert(g.titles, e.title);
        }
      }
    }
  }

  /** Each summary title list is `sorted({t for t in titles if t})`: the one
      strictly ascending list holding exactly the non-empty titles of the ID. */
  lemma SummaryTitlesAreSortedSet(rows: seq<Entry>, id: string, ts: seq<string>)
    requires id in Summarize(rows)
    requires StrictlySorted(ts) && forall t :: t in ts <==> t in TitlesOf(rows, id)
    ensures Summarize(rows)[id].titles == ts
  {
    SummarizeGroup(rows, id);
    SortedUnique(Summarize(rows)[id].titles, ts);
  }

  /** The sum of the counts of a summary. */
  ghost function TotalCount(s: Summary): nat
    decreases |s|
  {
    if s == map[] then 0
    else
      var k :| k in s;
      assert (s - {k}).Keys == s.Keys - {k};
      s[k].count + TotalCount(s - {k})
  }

  /** The total does not depend on which key is taken first. */
  lemma {:induction false} TotalCountPick(s: Summary, k: string)
    requires k in s
    ensures TotalCount(s) == s[k].count + TotalCount(s - {k})
    decreases |s|
  {
    var j :| j in s && TotalCount(s) == s[j].count + TotalCount(s - {j});
    if j != k {
      assert (s - {j}).Keys == s.Keys - {j};
      assert (s - {k}).Keys == s.Keys - {k};
      TotalCountPick(s - {j}, k);
      TotalCountPick(s - {k}, j);
      assert s - {j} - {k} == s - {k} - {j};
    }
  }

  lemma TallyTotal(s: Summary, e: Entry)
    requires ValidSummary(s)
    ensures TotalCount(Tally(s, e)) == TotalCount(s) + 1
  {
    var r := Tally(s, e);
    TotalCountPick(r, e.id);
    if e.id in s {
      TotalCountPick(s, e.id);
      assert r - {e.id} == s - {e.id};
    } else {
      assert r - {e.id} == s;
    }
  }

  /** Every row is counted once: the counts of a summary add up to the number
      of rows summarised. */
  lemma {:induction false} SummarizeTotal(rows: seq<Entry>)
    ensures TotalCount(Summarize(rows)) == |rows|
    decreases |rows|
  {
    if rows != [] {
      SummarizeTotal(rows[..|rows| - 1]);
      TallyTotal(Summarize(rows[..|rows| - 1]), rows[|rows| - 1]);
    }
  }
}
