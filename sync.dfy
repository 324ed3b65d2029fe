/**
 * The multi-device merge behind `POST /api/sync` (server.py:897-1088): every
 * mutation of the request is a create, an edit or a delete, applied in input
 * order, twenty to a transaction, and the request ends with a device upsert
 * and one `sync_log` line.
 */
module SyncMerge {
  import opened Wrappers
  import opened Text
  import opened Schema
  import opened Store

  /** Items per transaction (server.py:916). */
  const BatchSize := 20

  /** One element of the request's `words` list; a missing key is `None`. */
  datatype Mutation = Mutation(
    word: Option<string>,
    meaningBangla: Option<string>,
    meaningEnglish: Option<string>,
    synonyms: Option<string>,
    exampleSentence: Option<string>,
    category: Option<string>,
    serverId: Option<int>,
    originalId: Option<int>,
    isDeleted: bool,
    isEdited: bool,
    timestamp: Option<string>)

  /** The payload columns written for a mutation: missing texts are '' and a missing category is the default. */
  function PayloadOf(m: Mutation): Payload {
    Payload(
      m.meaningBangla.GetOr(""),
      m.meaningEnglish.GetOr(""),
      m.synonyms.GetOr(""),
      m.exampleSentence.GetOr(""),
      m.category.GetOr(GeneralVocabulary))
  }

  /** `word.get('word', '').strip()` */
  function WordText(m: Mutation): string {
    Strip(m.word.GetOr(""))
  }

  /** What happened to one item. */
  datatype Outcome =
    | Skipped                    // empty word: `continue` before anything runs
    | Deleted(touched: set<int>) // the rows the delete's UPDATE hit (its rowcount)
    | Written(id: int)           // the id appended to `server_ids`
    | Failed                     // an insert raised; caught by the per-item `except`

  datatype Step = Step(table: Table, outcome: Outcome)

  /** `WHERE (id = ? OR original_id = ?) AND is_deleted = 0`, on any device. */
  function LineageMatches(rows: map<int, Row>, sid: int): set<int> {
    set id | id in rows && !rows[id].isDeleted && (id == sid || rows[id].originalId == Some(sid))
  }

  /** The row inserted when an un-edited head receives its first edit (server.py:986-1006). */
  function EditedRow(m: Mutation, w: string, dev: string, now: string, head: int): Row {
    Row(w, PayloadOf(m), m.timestamp.GetOr(now), dev, now, false, true,
        Some(if Truthy(m.originalId) then m.originalId.value else head), Synced)
  }

  /** The row inserted when no live head exists (server.py:1034-1054). */
  function FreshRow(m: Mutation, w: string, dev: string, now: string): Row {
    Row(w, PayloadOf(m), m.timestamp.GetOr(now), dev, now, false, m.isEdited, m.originalId, Synced)
  }

  /** The in-place overwrite of an existing head (server.py:1010-1030). */
  function Overwritten(r: Row, m: Mutation, now: string): Row {
    r.(payload := PayloadOf(m), isEdited := m.isEdited, lastSynced := now, syncStatus := Synced)
  }

  /** The table after the edit branch's pre-step at server.py:957-968. */
  function EditPrelude(t: Table, m: Mutation, now: string): (t': Table)
    requires WellFormed(t)
    ensures WellFormed(t')
  {
    if m.isEdited && Truthy(m.originalId) then
      TombstoneAll(t, ActiveById(t.rows, m.originalId.value), now, true)
    else t
  }

  /** One pass of the loop body at server.py:922-1061 for device `dev` at time `now`. */
  function Merge(t: Table, m: Mutation, dev: string, now: string, policy: Policy): (s: Step)
    requires WellFormed(t)
    ensures WellFormed(s.table)
  {
    var w := WordText(m);
    if w == "" then Step(t, Skipped)
    else if m.isDeleted then
      var hit := if Truthy(m.serverId) then LineageMatches(t.rows, m.serverId.value)
                 else ActiveMatches(t.rows, w, dev);
      Step(TombstoneAll(t, hit, now, false), Deleted(hit))
    else WriteWord(EditPrelude(t, m, now), m, w, dev, now, policy)
  }

  /**
   * The write path after the pre-step (server.py:970-1055): the live row of the
   * word on this device is overwritten, or gets an edited successor, or the word
   * is inserted afresh.
   */
  function WriteWord(t1: Table, m: Mutation, w: string, dev: string, now: string, policy: Policy): (s: Step)
    requires WellFormed(t1)
    ensures WellFormed(s.table)
  {
    match ActiveHead(t1.rows, w, dev)
    case Some(h) =>
      if m.isEdited && !t1.rows[h].isEdited then
        match Insert(t1, EditedRow(m, w, dev, now, h), policy)
        case Inserted(t2, id) => Step(t2, Written(id))
        case Rejected => Step(t1, Failed)
      else
        Step(Put(t1, h, Overwritten(t1.rows[h], m, now)), Written(h))
    case None =>
      match Insert(t1, FreshRow(m, w, dev, now), policy)
      case Inserted(t2, id) => Step(t2, Written(id))
      case Rejected => Step(t1, Failed)
  }

  /** `synced_count` contribution of one item (server.py:952-953, 1057). */
  function Counted(o: Outcome): nat {
    match o
    case Deleted(hit) => if hit != {} then 1 else 0
    case Written(_) => 1
    case _ => 0
  }

  /** `server_ids` contribution of one item (server.py:1007, 1031, 1055). */
  function NewIds(o: Outcome): seq<int> {
    if o.Written? then [o.id] else []
  }

  function SyncedCount(os: seq<Outcome>): nat {
    if os == [] then 0 else SyncedCount(os[..|os| - 1]) + Counted(os[|os| - 1])
  }

  function ServerIds(os: seq<Outcome>): seq<int> {
    if os == [] then [] else ServerIds(os[..|os| - 1]) + NewIds(os[|os| - 1])
  }

  /** The table after a run, each item's outcome, and the two counters the response reports. */
  datatype Trace = Trace(table: Table, outcomes: seq<Outcome>, synced: nat, serverIds: seq<int>)

  /** The run carried one item further: its merge, its outcome, and what it adds to the counters. */
  function Extend(prev: Trace, m: Mutation, dev: string, now: string, policy: Policy): (r: Trace)
    requires WellFormed(prev.table)
    ensures WellFormed(r.table) && |r.outcomes| == |prev.outcomes| + 1
  {
    var s := Merge(prev.table, m, dev, now, policy);
    Trace(s.table, prev.outcomes + [s.outcome], prev.synced + Counted(s.outcome), prev.serverIds + NewIds(s.outcome))
  }

  /** The items merged one after another, in input order, continuing the run `r`. */
  function RunFrom(r: Trace, items: seq<Mutation>, dev: string, now: string, policy: Policy): (r': Trace)
    requires WellFormed(r.table)
    ensures WellFormed(r'.table) && |r'.outcomes| == |r.outcomes| + |items|
    decreases |items|
  {
    if items == [] then r
    else Extend(RunFrom(r, items[..|items| - 1], dev, now, policy), items[|items| - 1], dev, now, policy)
  }

  /** A request's items merged from the table `t`, with no outcome and both counters at zero to start. */
  function Run(t: Table, items: seq<Mutation>, dev: string, now: string, policy: Policy): (r: Trace)
    requires WellFormed(t)
    ensures WellFormed(r.table) && |r.outcomes| == |items|
  {
    RunFrom(Trace(t, [], 0, []), items, dev, now, policy)
  }

  /** The merge of one item, statement by statement, on the database. */
  method ApplyItem(db: Database, m: Mutation, dev: string, now: string, policy: Policy) returns (o: Outcome)
    requires db.Valid()
    modifies db`words, db`nextId
    ensures db.Valid()
    ensures Step(db.Words(), o) == Merge(old(db.Words()), m, dev, now, policy)
  {
    var w := Strip(m.word.GetOr(""));
    if w == "" {
      return Skipped;
    }
    if m.isDeleted {
      var hit: set<int>;
      if Truthy(m.serverId) {
        hit := LineageMatches(db.words, m.serverId.value);
      } else {
        hit := ActiveMatches(db.words, w, dev);
      }
      db.words := TombstoneAll(db.Words(), hit, now, false).rows;
      return Deleted(hit);
    }
    if m.isEdited && Truthy(m.originalId) {
      db.words := TombstoneAll(db.Words(), ActiveById(db.words, m.originalId.value), now, true).rows;
    }
    assert db.Words() == EditPrelude(old(db.Words()), m, now);
    var head := ActiveHead(db.words, w, dev);
    match head
    case Some(h) =>
      if m.isEdited && !db.words[h].isEdited {
        var id := db.InsertWord(EditedRow(m, w, dev, now, h), policy);
        o := if id.Some? then Written(id.value) else Failed;
      } else {
        db.words := Put(db.Words(), h, Overwritten(db.words[h], m, now)).rows;
        o := Written(h);
      }
    case None =>
      var id := db.InsertWord(FreshRow(m, w, dev, now), policy);
      o := if id.Some? then Written(id.value) else Failed;
  }

  /** The parsed request body; `None` stands for a missing or empty JSON body. */
  datatype SyncRequest = SyncRequest(deviceId: Option<string>, deviceName: Option<string>, words: Option<seq<Mutation>>)

  datatype SyncResponse =
    | Success(synced: nat, serverIds: seq<int>, timestamp: string)
    | NoData

  /** `f"Device-{device_id[:8]}"` */
  function DefaultDeviceName(deviceId: string): (r: string)
    ensures |r| == 7 + (if |deviceId| < 8 then |deviceId| else 8)
    ensures r[..7] == "Device-" && r[7..] == deviceId[..|r| - 7]
  {
    "Device-" + deviceId[..if |deviceId| < 8 then |deviceId| else 8]
  }

  /** The run after each prefix of the items: entry `i` is `Run` of the first `i` items. */
  ghost function Progress(t: Table, items: seq<Mutation>, dev: string, now: string, policy: Policy): (h: seq<Trace>)
    requires WellFormed(t)
    ensures |h| == |items| + 1
  {
    seq(|items| + 1, i requires 0 <= i <= |items| => Run(t, items[..i], dev, now, policy))
  }

  /** Entry `i + 1` of `h` is entry `i` carried on by item `i`. */
  ghost predicate Stepped(h: seq<Trace>, items: seq<Mutation>, i: int, dev: string, now: string, policy: Policy) {
    && 0 <= i < |items| && i + 1 < |h| && WellFormed(h[i].table)
    && h[i + 1] == Extend(h[i], items[i], dev, now, policy)
  }

  /** `h` records a run of `items`, one well-formed state per item boundary. */
  ghost predicate Records(h: seq<Trace>, items: seq<Mutation>, dev: string, now: string, policy: Policy) {
    && |h| == |items| + 1
    && (forall i :: 0 <= i < |h| ==> WellFormed(h[i].table))
    && (forall i :: 0 <= i < |items| ==> Stepped(h, items, i, dev, now, policy))
  }

  /** The prefixes of a run record it, from the untouched table to the whole run. */
  lemma ProgressRecords(t: Table, items: seq<Mutation>, dev: string, now: string, policy: Policy)
    requires WellFormed(t)
    ensures var h := Progress(t, items, dev, now, policy);
      && Records(h, items, dev, now, policy)
      && h[0] == Trace(t, [], 0, [])
      && h[|items|] == Run(t, items, dev, now, policy)
  {
    var h := Progress(t, items, dev, now, policy);
    forall i | 0 <= i < |items| ensures Stepped(h, items, i, dev, now, policy) {
      assert items[..i + 1][..i] == items[..i];
    }
    assert items[..0] == [];
    assert items[..|items|] == items;
  }

  lemma CountsAppend(os: seq<Outcome>, o: Outcome)
    ensures SyncedCount(os + [o]) == SyncedCount(os) + Counted(o)
    ensures ServerIds(os + [o]) == ServerIds(os) + NewIds(o)
  {
    assert (os + [o])[..|os|] == os;
  }

  /** The counters kept during a run are the counts of its outcomes. */
  lemma {:induction false} RunCounts(t: Table, items: seq<Mutation>, dev: string, now: string, policy: Policy)
    requires WellFormed(t)
    ensures var r := Run(t, items, dev, now, policy);
      r.synced == SyncedCount(r.outcomes) && r.serverIds == ServerIds(r.outcomes)
    decreases |items|
  {
    if items != [] {
      var prev := Run(t, items[..|items| - 1], dev, now, policy);
      RunCounts(t, items[..|items| - 1], dev, now, policy);
      CountsAppend(prev.outcomes, Merge(prev.table, items[|items| - 1], dev, now, policy).outcome);
    }
  }

  /**
   * Merging `a + b` is merging `a`, then merging `b` from where `a` left the
   * table and the counters: cutting the items into chunks changes neither the
   * table, nor the outcomes, nor the counters.
   */
  lemma {:induction false} RunConcat(r: Trace, a: seq<Mutation>, b: seq<Mutation>, dev: string, now: string, policy: Policy)
    requires WellFormed(r.table)
    ensures RunFrom(r, a + b, dev, now, policy) == RunFrom(RunFrom(r, a, dev, now, policy), b, dev, now, policy)
    decreases |b|
  {
    if b == [] {
      assert a + b == a;
    } else {
      var b', x := b[..|b| - 1], b[|b| - 1];
      RunConcat(r, a, b', dev, now, policy);
      assert (a + b)[..|a + b| - 1] == a + b' && (a + b)[|a + b| - 1] == x;
      assert RunFrom(r, a + b, dev, now, policy) == Extend(RunFrom(r, a + b', dev, now, policy), x, dev, now, policy);
    }
  }

  /** Item `k` merged on the database, moving the run one entry along `h`. */
  method ApplyNext(db: Database, items: seq<Mutation>, k: nat, dev: string, now: string, policy: Policy,
                   ghost h: seq<Trace>, ghost done: seq<Outcome>, synced0: nat, serverIds0: seq<int>)
    returns (synced: nat, serverIds: seq<int>, ghost outcomes: seq<Outcome>)
    requires Records(h, items, dev, now, policy) && k < |items|
    requires h[k] == Trace(db.Words(), done, synced0, serverIds0)
    modifies db`words, db`nextId
    ensures h[k + 1] == Trace(db.Words(), outcomes, synced, serverIds)
  {
    assert Stepped(h, items, k, dev, now, policy);
    var o := ApplyItem(db, items[k], dev, now, policy);
    outcomes := done + [o];
    synced := synced0 + Counted(o);
    serverIds := serverIds0 + NewIds(o);
  }

  /**
   * One `with get_db_cursor()` block: the items `start..end` merged in order,
   * continuing the run of the items before `start`.
   */
  method ApplyBatch(db: Database, items: seq<Mutation>, start: nat, end: nat, dev: string, now: string, policy: Policy,
                    ghost h: seq<Trace>, ghost done: seq<Outcome>, synced0: nat, serverIds0: seq<int>)
    returns (synced: nat, serverIds: seq<int>, ghost outcomes: seq<Outcome>)
    requires Records(h, items, dev, now, policy) && start <= end <= |items|
    requires h[start] == Trace(db.Words(), done, synced0, serverIds0)
    modifies db`words, db`nextId
    ensures h[end] == Trace(db.Words(), outcomes, synced, serverIds)
  {
    outcomes, synced, serverIds := done, synced0, serverIds0;
    for k := start to end
      invariant h[k] == Trace(db.Words(), outcomes, synced, serverIds)
    {
      synced, serverIds, outcomes := ApplyNext(db, items, k, dev, now, policy, h, outcomes, synced, serverIds);
    }
  }

  /** The loop over chunks at server.py:916-1061: every chunk of `BatchSize` items is one transaction. */
  method MergeAll(db: Database, items: seq<Mutation>, dev: string, now: string, policy: Policy)
    returns (synced: nat, serverIds: seq<int>, ghost outcomes: seq<Outcome>)
    requires db.Valid()
    modifies db`words, db`nextId
    ensures db.Valid()
    ensures Run(old(db.Words()), items, dev, now, policy) == Trace(db.Words(), outcomes, synced, serverIds)
  {
    ghost var h := Progress(db.Words(), items, dev, now, policy);
    ProgressRecords(db.Words(), items, dev, now, policy);
    outcomes := [];
    synced, serverIds := 0, [];
    var i := 0;
    while i < |items|
      invariant 0 <= i <= |items|
      invariant h[i] == Trace(db.Words(), outcomes, synced, serverIds)
    {
      var end := if i + BatchSize < |items| then i + BatchSize else |items|;
      synced, serverIds, outcomes := ApplyBatch(db, items, i, end, dev, now, policy, h, outcomes, synced, serverIds);
      i := end;
    }
  }

  /**
   * `sync_words`: the items merged chunk by chunk, then the device row upserted
   * (INSERT OR REPLACE, so `created_at` restarts) and one log line appended.
   * `now` is the server's `datetime.now()`, `dbNow` SQLite's CURRENT_TIMESTAMP,
   * `ip` the peer address.
   */
  method Sync(db: Database, data: Option<SyncRequest>, now: string, dbNow: string, ip: string, policy: Policy)
    returns (resp: SyncResponse)
    requires db.Valid()
    modifies db`words, db`nextId, db`devices, db`syncLog
    ensures db.Valid()
    ensures data.None? ==> resp == NoData && unchanged(db)
    ensures data.Some? ==>
      var dev := data.value.deviceId.GetOr("unknown");
      var name := data.value.deviceName.GetOr(DefaultDeviceName(dev));
      var run := Run(old(db.Words()), data.value.words.GetOr([]), dev, now, policy);
      var n := SyncedCount(run.outcomes);
      && resp == Success(n, ServerIds(run.outcomes), now)
      && db.Words() == run.table
      && db.devices == old(db.devices)[dev := Device(name, now, dbNow, ip)]
      && db.syncLog == old(db.syncLog) + [LogEntry(dev, "sync", "Synced " + NatToString(n) + " items", dbNow)]
  {
    if data.None? {
      return NoData;
    }
    var dev := data.value.deviceId.GetOr("unknown");
    var name := data.value.deviceName.GetOr(DefaultDeviceName(dev));
    var synced, serverIds, outcomes := MergeAll(db, data.value.words.GetOr([]), dev, now, policy);
    RunCounts(old(db.Words()), data.value.words.GetOr([]), dev, now, policy);
    db.devices := db.devices[dev := Device(name, now, dbNow, ip)];
    db.syncLog := db.syncLog + [LogEntry(dev, "sync", "Synced " + NatToString(synced) + " items", dbNow)];
    resp := Success(synced, serverIds, now);
  }
}
