/**
 * The row loop of `import_excel` in both servers (server.py:631-730,
 * api/server.py:1003-1074): each spreadsheet row either updates the live row of
 * its title-cased word on the importing device, inserts a new one, or is skipped.
 */
module ExcelImport {
  import opened Wrappers
  import opened Text
  import opened Schema
  import opened Store

  /** Rows per transaction in server.py (server.py:627). */
  const ChunkSize := 50

  /** The two servers differ only in how they fill in a category. */
  datatype Variant =
    | Root  // server.py: a missing or blank category becomes the default
    | Api   // api/server.py: only a missing column becomes the default; a blank cell stays blank

  /** One spreadsheet row's cells as text; `None` when the sheet has no such column. */
  datatype Cells = Cells(
    word: string,
    meaningBangla: Option<string>,
    meaningEnglish: Option<string>,
    synonyms: Option<string>,
    exampleSentence: Option<string>,
    category: Option<string>)

  function CategoryOf(c: Cells, v: Variant): string {
    match v
    case Root => var k := Strip(c.category.GetOr("")); if k == "" then GeneralVocabulary else k
    case Api => Strip(c.category.GetOr(GeneralVocabulary))
  }

  function PayloadFor(c: Cells, v: Variant): Payload {
    Payload(
      Strip(c.meaningBangla.GetOr("")),
      Strip(c.meaningEnglish.GetOr("")),
      Strip(c.synonyms.GetOr("")),
      Strip(c.exampleSentence.GetOr("")),
      CategoryOf(c, v))
  }

  /** The live row of the word is refreshed in place and marked edited and pending. */
  function Refreshed(r: Row, p: Payload, now: string): Row {
    r.(payload := p, lastSynced := now, syncStatus := Pending, isEdited := true)
  }

  function Fresh(word: string, p: Payload, dev: string, now: string): Row {
    Row(word, p, now, dev, now, false, false, None, Pending)
  }

  datatype RowStep = RowStep(table: Table, imported: bool)

  /** One pass of the row loop body; a row whose insert raises is counted as skipped. */
  function ImportOne(t: Table, c: Cells, dev: string, now: string, policy: Policy, v: Variant): (s: RowStep)
    requires WellFormed(t)
    ensures WellFormed(s.table)
  {
    var w := Strip(c.word);
    if w == "" then RowStep(t, false)
    else
      var word := Title(w);
      var p := PayloadFor(c, v);
      match ActiveHead(t.rows, word, dev)
      case Some(h) => RowStep(Put(t, h, Refreshed(t.rows[h], p, now)), true)
      case None =>
        match Insert(t, Fresh(word, p, dev, now), policy)
        case Inserted(t', _) => RowStep(t', true)
        case Rejected => RowStep(t, false)
  }

  datatype Tally = Tally(table: Table, imported: nat, skipped: nat)

  /** One more row imported: the row's step on the table, and one more in the counter it lands in. */
  function Advance(prev: Tally, c: Cells, dev: string, now: string, policy: Policy, v: Variant): (r: Tally)
    requires WellFormed(prev.table)
    ensures WellFormed(r.table) && r.imported + r.skipped == prev.imported + prev.skipped + 1
  {
    var s := ImportOne(prev.table, c, dev, now, policy, v);
    if s.imported then Tally(s.table, prev.imported + 1, prev.skipped)
    else Tally(s.table, prev.imported, prev.skipped + 1)
  }

  /** The rows imported one after another; every row lands in exactly one counter. */
  function ImportAll(t: Table, rows: seq<Cells>, dev: string, now: string, policy: Policy, v: Variant): (r: Tally)
    requires WellFormed(t)
    ensures WellFormed(r.table)
    ensures r.imported + r.skipped == |rows|
    decreases |rows|
  {
    if rows == [] then Tally(t, 0, 0)
    else Advance(ImportAll(t, rows[..|rows| - 1], dev, now, policy, v), rows[|rows| - 1], dev, now, policy, v)
  }

  /** The import after each prefix of the rows: entry `i` is `ImportAll` of the first `i` rows. */
  ghost function Progress(t: Table, rows: seq<Cells>, dev: string, now: string, policy: Policy, v: Variant): (h: seq<Tally>)
    requires WellFormed(t)
    ensures |h| == |rows| + 1
  {
    seq(|rows| + 1, i requires 0 <= i <= |rows| => ImportAll(t, rows[..i], dev, now, policy, v))
  }

  /** Entry `i + 1` of `h` is entry `i` advanced by row `i`. */
  ghost predicate Stepped(h: seq<Tally>, rows: seq<Cells>, i: int, dev: string, now: string, policy: Policy, v: Variant) {
    && 0 <= i < |rows| && i + 1 < |h| && WellFormed(h[i].table)
    && h[i + 1] == Advance(h[i], rows[i], dev, now, policy, v)
  }

  /** `h` records an import of `rows`, one well-formed tally per row boundary. */
  ghost predicate Records(h: seq<Tally>, rows: seq<Cells>, dev: string, now: string, policy: Policy, v: Variant) {
    && |h| == |rows| + 1
    && (forall i :: 0 <= i < |h| ==> WellFormed(h[i].table))
    && (forall i :: 0 <= i < |rows| ==> Stepped(h, rows, i, dev, now, policy, v))
  }

  /** The prefixes of an import record it, from the untouched table to the whole import. */
  lemma ProgressRecords(t: Table, rows: seq<Cells>, dev: string, now: string, policy: Policy, v: Variant)
    requires WellFormed(t)
    ensures var h := Progress(t, rows, dev, now, policy, v);
      && Records(h, rows, dev, now, policy, v)
      && h[0] == Tally(t, 0, 0)
      && h[|rows|] == ImportAll(t, rows, dev, now, policy, v)
  {
    var h := Progress(t, rows, dev, now, policy, v);
    forall i | 0 <= i < |rows| ensures Stepped(h, rows, i, dev, now, policy, v) {
      assert rows[..i + 1][..i] == rows[..i];
    }
    assert rows[..0] == [];
    assert rows[..|rows|] == rows;
  }

  /** One row, statement by statement, on the database. */
  method ImportRow(db: Database, c: Cells, dev: string, now: string, policy: Policy, v: Variant) returns (imported: bool)
    requires db.Valid()
    modifies db`words, db`nextId
    ensures db.Valid()
    ensures RowStep(db.Words(), imported) == ImportOne(old(db.Words()), c, dev, now, policy, v)
  {
    var w := Strip(c.word);
    if w == "" {
      return false;
    }
    var word := Title(w);
    var p := PayloadFor(c, v);
    var head := ActiveHead(db.words, word, dev);
    match head
    case Some(h) =>
      db.words := Put(db.Words(), h, Refreshed(db.words[h], p, now)).rows;
      imported := true;
    case None =>
      var id := db.InsertWord(Fresh(word, p, dev, now), policy);
      imported := id.Some?;
  }

  /** Row `k` imported on the database, moving the counters one entry along `h`. */
  method ImportNext(db: Database, rows: seq<Cells>, k: nat, dev: string, now: string, policy: Policy,
                    v: Variant, ghost h: seq<Tally>, imported0: nat, skipped0: nat)
    returns (imported: nat, skipped: nat)
    requires Records(h, rows, dev, now, policy, v) && k < |rows|
    requires h[k] == Tally(db.Words(), imported0, skipped0)
    modifies db`words, db`nextId
    ensures h[k + 1] == Tally(db.Words(), imported, skipped)
  {
    assert Stepped(h, rows, k, dev, now, policy, v);
    var ok := ImportRow(db, rows[k], dev, now, policy, v);
    if ok {
      imported, skipped := imported0 + 1, skipped0;
    } else {
      imported, skipped := imported0, skipped0 + 1;
    }
  }

  /** Rows `start..end` in one transaction, continuing the counters of the rows before. */
  method ImportRange(db: Database, rows: seq<Cells>, start: nat, end: nat, dev: string, now: string, policy: Policy,
                     v: Variant, ghost h: seq<Tally>, imported0: nat, skipped0: nat)
    returns (imported: nat, skipped: nat)
    requires Records(h, rows, dev, now, policy, v) && start <= end <= |rows|
    requires h[start] == Tally(db.Words(), imported0, skipped0)
    modifies db`words, db`nextId
    ensures h[end] == Tally(db.Words(), imported, skipped)
  {
    imported, skipped := imported0, skipped0;
    for k := start to end
      invariant h[k] == Tally(db.Words(), imported, skipped)
    {
      imported, skipped := ImportNext(db, rows, k, dev, now, policy, v, h, imported, skipped);
    }
  }

  /** server.py:620-730: the rows in chunks of fifty, each chunk its own transaction. */
  method ImportChunked(db: Database, rows: seq<Cells>, dev: string, now: string, policy: Policy)
    returns (imported: nat, skipped: nat)
    requires db.Valid()
    modifies db`words, db`nextId
    ensures db.Valid()
    ensures ImportAll(old(db.Words()), rows, dev, now, policy, Root) == Tally(db.Words(), imported, skipped)
  {
    ghost var h := Progress(db.Words(), rows, dev, now, policy, Root);
    ProgressRecords(db.Words(), rows, dev, now, policy, Root);
    imported, skipped := 0, 0;
    var i := 0;
    while i < |rows|
      invariant 0 <= i <= |rows|
      invariant h[i] == Tally(db.Words(), imported, skipped)
    {
      var end := if i + ChunkSize < |rows| then i + ChunkSize else |rows|;
      imported, skipped := ImportRange(db, rows, i, end, dev, now, policy, Root, h, imported, skipped);
      i := end;
    }
  }

  /** api/server.py:1003-1074: all rows in one transaction. */
  method ImportAtOnce(db: Database, rows: seq<Cells>, dev: string, now: string, policy: Policy)
    returns (imported: nat, skipped: nat)
    requires db.Valid()
    modifies db`words, db`nextId
    ensures db.Valid()
    ensures ImportAll(old(db.Words()), rows, dev, now, policy, Api) == Tally(db.Words(), imported, skipped)
  {
    ghost var h := Progress(db.Words(), rows, dev, now, policy, Api);
    ProgressRecords(db.Words(), rows, dev, now, policy, Api);
    imported, skipped := ImportRange(db, rows, 0, |rows|, dev, now, policy, Api, h, 0, 0);
  }

  /** A row whose word cell is blank is skipped and changes nothing. */
  lemma BlankRowSkipped(t: Table, c: Cells, dev: string, now: string, policy: Policy, v: Variant)
    requires WellFormed(t) && AllSpace(c.word)
    ensures ImportOne(t, c, dev, now, policy, v) == RowStep(t, false)
  {
    StripEmptyIff(c.word);
  }

  /**
   * A row for a word that already has a live row on the device refreshes that
   * row under the same id: the new columns, `last_synced` now, edited and
   * pending, with word, device, date and lineage kept; it adds no row.
   */
  lemma ExistingWordRefreshed(t: Table, c: Cells, dev: string, now: string, policy: Policy, v: Variant, h: int)
    requires WellFormed(t) && Strip(c.word) != ""
    requires h in ActiveMatches(t.rows, Title(Strip(c.word)), dev)
    ensures var s := ImportOne(t, c, dev, now, policy, v);
      && s.imported
      && s.table.nextId == t.nextId && s.table.rows.Keys == t.rows.Keys
      && s.table.rows[h].isEdited && s.table.rows[h].syncStatus == Pending && !s.table.rows[h].isDeleted
      && s.table.rows[h].payload == PayloadFor(c, v) && s.table.rows[h].dateAdded == t.rows[h].dateAdded
      && s.table.rows[h] == Refreshed(t.rows[h], PayloadFor(c, v), now)
      && (forall k :: k in t.rows && k != h ==> s.table.rows[k] == t.rows[k])
  {
    UniqueHead(t.rows, Title(Strip(c.word)), dev, h);
  }

  /**
   * A word with no live row on the device is inserted unedited and pending,
   * title-cased, under a new id. Only tombstones can still hold the key: under
   * the aborting index they make the INSERT raise and the row is skipped with
   * nothing changed; under REPLACE they are removed.
   */
  lemma NewWordInserted(t: Table, c: Cells, dev: string, now: string, policy: Policy, v: Variant)
    requires WellFormed(t) && Strip(c.word) != ""
    requires ActiveMatches(t.rows, Title(Strip(c.word)), dev) == {}
    ensures var s := ImportOne(t, c, dev, now, policy, v);
      var dead := KeyHolders(t.rows, Title(Strip(c.word)), dev);
      && (forall k :: k in dead ==> t.rows[k].isDeleted)
      && if policy == Reject && dead != {} then !s.imported && s.table == t
         else
           && s.imported
           && s.table.rows.Keys == t.rows.Keys - dead + {t.nextId}
           && s.table.rows[t.nextId] == Fresh(Title(Strip(c.word)), PayloadFor(c, v), dev, now)
           && Title(s.table.rows[t.nextId].word) == s.table.rows[t.nextId].word
           && (forall k :: k in t.rows && k !in dead ==> s.table.rows[k] == t.rows[k])
  {
    TitleIdempotent(Strip(c.word));
  }

  /** Rows whose word cell is not blank. */
  function Filled(rows: seq<Cells>): (n: nat)
    ensures n <= |rows|
  {
    if rows == [] then 0 else Filled(rows[..|rows| - 1]) + (if Strip(rows[|rows| - 1].word) != "" then 1 else 0)
  }

  /**
   * When collisions resolve by REPLACE, the imported count is exactly the rows
   * with a word; otherwise it is at most that.
   */
  lemma {:induction false} ImportedCount(t: Table, rows: seq<Cells>, dev: string, now: string, policy: Policy, v: Variant)
    requires WellFormed(t)
    ensures ImportAll(t, rows, dev, now, policy, v).imported <= Filled(rows)
    ensures policy == Replace ==> ImportAll(t, rows, dev, now, policy, v).imported == Filled(rows)
    decreases |rows|
  {
    if rows != [] {
      ImportedCount(t, rows[..|rows| - 1], dev, now, policy, v);
    }
  }

  /** The two servers store the same category exactly when the cell is not blank. */
  lemma CategoryVariants(c: Cells)
    ensures c.category.None? ==> CategoryOf(c, Root) == CategoryOf(c, Api) == GeneralVocabulary
    ensures c.category.Some? && Strip(c.category.value) != "" ==> CategoryOf(c, Root) == CategoryOf(c, Api)
    ensures c.category.Some? && Strip(c.category.value) == "" ==> CategoryOf(c, Root) == GeneralVocabulary && CategoryOf(c, Api) == ""
  {
    assert GeneralVocabulary[0] == 'G' && GeneralVocabulary[|GeneralVocabulary| - 1] == 'y';
    StripKeepsTrimmed(GeneralVocabulary);
  }
}
