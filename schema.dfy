/**
 * The `words` table (server.py:91-113) as a value: rows keyed by their
 * AUTOINCREMENT id, and the (word, device_id) uniqueness constraint together
 * with the two ways SQLite may resolve a collision with it.
 */
module Schema {
  import opened Wrappers

  /** The default value of the `category` column and the fallback category everywhere. */
  const GeneralVocabulary := "General Vocabulary"

  /** The columns the merge logic copies around without interpreting them. */
  datatype Payload = Payload(
    meaningBangla: string,
    meaningEnglish: string,
    synonyms: string,
    exampleSentence: string,
    category: string)

  datatype SyncStatus = Pending | Synced

  /** One row of `words`; its `id` is the key under which the table stores it. */
  datatype Row = Row(
    word: string,
    payload: Payload,
    dateAdded: string,
    deviceId: string,
    lastSynced: string,
    isDeleted: bool,
    isEdited: bool,
    originalId: Option<int>,
    syncStatus: SyncStatus)

  /** The table's rows and the next id AUTOINCREMENT will hand out (ids are never reused). */
  datatype Table = Table(rows: map<int, Row>, nextId: int)

  /**
   * How an INSERT or UPDATE that collides on (word, device_id) is resolved. The
   * table constraint says ON CONFLICT REPLACE (server.py:107), the separate unique
   * index aborts (server.py:113); which one SQLite applies first depends on its version.
   */
  datatype Policy =
    | Replace  // the colliding rows are deleted outright, the statement goes through
    | Reject   // the statement raises an integrity error and changes nothing

  /** Python truthiness of an optional id: missing and 0 are both false. */
  predicate Truthy(x: Option<int>) {
    x.Some? && x.value != 0
  }

  predicate SameKey(a: Row, b: Row) {
    a.word == b.word && a.deviceId == b.deviceId
  }

  /** Rows `a` and `b` are two different rows holding the same (word, device_id). */
  ghost predicate Clash(rows: map<int, Row>, a: int, b: int) {
    a in rows && b in rows && a != b && SameKey(rows[a], rows[b])
  }

  /** UNIQUE(word, device_id): over all rows, tombstones included. */
  ghost predicate Unique(rows: map<int, Row>) {
    forall a, b :: !Clash(rows, a, b)
  }

  /** Two different rows of a unique table hold different keys. */
  lemma Distinguished(rows: map<int, Row>, a: int, b: int)
    requires Unique(rows) && a in rows && b in rows && a != b
    ensures !SameKey(rows[a], rows[b])
  {
    assert !Clash(rows, a, b);
  }

  /** Dropping rows, or rewriting rows without touching their keys, keeps the table unique. */
  lemma KeysKeptUnique(rows: map<int, Row>, rows': map<int, Row>)
    requires Unique(rows)
    requires forall id :: id in rows' ==> id in rows && SameKey(rows'[id], rows[id])
    ensures Unique(rows')
  {
    forall a, b ensures !Clash(rows', a, b) {
      assert !Clash(rows, a, b);
    }
  }

  /** Storing a row under `id` keeps the table unique when no other row holds its key. */
  lemma StoreUnique(rows: map<int, Row>, id: int, r: Row)
    requires Unique(rows)
    requires forall k :: k in rows && k != id ==> !SameKey(rows[k], r)
    ensures Unique(rows[id := r])
  {
    var rows' := rows[id := r];
    forall a, b ensures !Clash(rows', a, b) {
      assert !Clash(rows, a, b);
    }
  }

  ghost predicate WellFormed(t: Table) {
    && 0 < t.nextId
    && (forall id :: id in t.rows ==> 0 < id < t.nextId)
    && Unique(t.rows)
  }

  /** Ids of the rows, live or tombstoned, that hold the key (word, device). */
  function KeyHolders(rows: map<int, Row>, word: string, device: string): set<int> {
    set id | id in rows && rows[id].word == word && rows[id].deviceId == device
  }

  /** `WHERE word = ? AND device_id = ? AND is_deleted = 0` */
  function ActiveMatches(rows: map<int, Row>, word: string, device: string): set<int> {
    set id | id in rows && rows[id].word == word && rows[id].deviceId == device && !rows[id].isDeleted
  }

  /** `WHERE id = ? AND is_deleted = 0` */
  function ActiveById(rows: map<int, Row>, id: int): (s: set<int>)
    ensures s <= {id}
    ensures id in s <==> id in rows && !rows[id].isDeleted
  {
    if id in rows && !rows[id].isDeleted then {id} else {}
  }

  /** The row a `SELECT ... WHERE word = ? AND device_id = ? AND is_deleted = 0` fetches. */
  function ActiveHead(rows: map<int, Row>, word: string, device: string): (r: Option<int>)
    requires Unique(rows)
    ensures r.None? <==> ActiveMatches(rows, word, device) == {}
    ensures r.Some? ==> ActiveMatches(rows, word, device) == {r.value}
  {
    var m := ActiveMatches(rows, word, device);
    if m == {} then None
    else
      NonEmptyHasMember(m);
      var id :| id in m;
      UniqueHead(rows, word, device, id);
      Some(id)
  }

  lemma NonEmptyHasMember(s: set<int>)
    requires s != {}
    ensures exists x :: x in s
  {
    if forall x :: x !in s {
      assert false;
    }
  }

  lemma UniqueHead(rows: map<int, Row>, word: string, device: string, id: int)
    requires Unique(rows) && id in ActiveMatches(rows, word, device)
    ensures ActiveMatches(rows, word, device) == {id}
  {
    forall k | k in ActiveMatches(rows, word, device) ensures k == id {
      assert !Clash(rows, k, id);
    }
  }

  datatype InsertResult = Inserted(table: Table, id: int) | Rejected

  /**
   * `INSERT INTO words ...`: the row gets an id above every id issued so far.
   * A collision on (word, device_id) either removes the holders of that key
   * (Replace) or aborts the statement (Reject).
   */
  function Insert(t: Table, r: Row, policy: Policy): (res: InsertResult)
    requires WellFormed(t)
    ensures res.Rejected? <==> policy == Reject && KeyHolders(t.rows, r.word, r.deviceId) != {}
    ensures res.Inserted? ==>
      var clash := KeyHolders(t.rows, r.word, r.deviceId);
      && WellFormed(res.table)
      && (forall id :: id in t.rows ==> id < res.id)
      && res.table.nextId > res.id
      && res.table.rows.Keys == t.rows.Keys - clash + {res.id}
      && res.table.rows[res.id] == r
      && (forall id :: id in t.rows && id !in clash ==> res.table.rows[id] == t.rows[id])
  {
    var clash := KeyHolders(t.rows, r.word, r.deviceId);
    if policy == Reject && clash != {} then Rejected
    else
      var rows := (t.rows - clash)[t.nextId := r];
      KeysKeptUnique(t.rows, t.rows - clash);
      StoreUnique(t.rows - clash, t.nextId, r);
      Inserted(Table(rows, t.nextId + 1), t.nextId)
  }

  /**
   * `UPDATE words SET word = ?, ... WHERE id = ?`: the row keeps its id. Other
   * rows already holding the new key are removed (Replace) or the update aborts (Reject).
   */
  function Rewrite(t: Table, id: int, r: Row, policy: Policy): (res: Option<Table>)
    requires WellFormed(t) && id in t.rows
    ensures res.None? <==> policy == Reject && KeyHolders(t.rows, r.word, r.deviceId) - {id} != {}
    ensures res.Some? ==>
      var clash := KeyHolders(t.rows, r.word, r.deviceId) - {id};
      && WellFormed(res.value)
      && res.value.nextId == t.nextId
      && res.value.rows.Keys == t.rows.Keys - clash
      && res.value.rows[id] == r
      && (forall k :: k in t.rows && k !in clash && k != id ==> res.value.rows[k] == t.rows[k])
  {
    var clash := KeyHolders(t.rows, r.word, r.deviceId) - {id};
    if policy == Reject && clash != {} then None
    else
      var rows := (t.rows - clash)[id := r];
      KeysKeptUnique(t.rows, t.rows - clash);
      StoreUnique(t.rows - clash, id, r);
      Some(Table(rows, t.nextId))
  }

  /** An in-place UPDATE that leaves word and device_id alone cannot collide. */
  function Put(t: Table, id: int, r: Row): (t': Table)
    requires WellFormed(t) && id in t.rows && SameKey(t.rows[id], r)
    ensures WellFormed(t') && t'.nextId == t.nextId && t'.rows.Keys == t.rows.Keys
    ensures t'.rows == t.rows[id := r]
  {
    KeysKeptUnique(t.rows, t.rows[id := r]);
    Table(t.rows[id := r], t.nextId)
  }

  /** `SET is_deleted = 1, last_synced = ?, sync_status = 'synced'` (and `is_edited = 1` when asked). */
  function Tombstone(r: Row, now: string, markEdited: bool): Row {
    r.(isDeleted := true, isEdited := r.isEdited || markEdited, lastSynced := now, syncStatus := Synced)
  }

  /** Tombstones the rows `ids`; every other row is left as it was. */
  function TombstoneAll(t: Table, ids: set<int>, now: string, markEdited: bool): (t': Table)
    requires WellFormed(t)
    ensures WellFormed(t') && t'.nextId == t.nextId && t'.rows.Keys == t.rows.Keys
    ensures forall id :: id in t.rows ==>
      t'.rows[id] == if id in ids then Tombstone(t.rows[id], now, markEdited) else t.rows[id]
  {
    var rows := map id | id in t.rows :: if id in ids then Tombstone(t.rows[id], now, markEdited) else t.rows[id];
    KeysKeptUnique(t.rows, rows);
    Table(rows, t.nextId)
  }

  /** Rows that survive a step keep their id, word and device, and stay tombstoned once tombstoned. */
  ghost predicate Evolves(t: Table, t': Table) {
    && t.nextId <= t'.nextId
    && (forall id :: id in t'.rows ==> id in t.rows || t.nextId <= id)
    && (forall id :: id in t.rows && id in t'.rows ==>
          && SameKey(t.rows[id], t'.rows[id])
          && (t.rows[id].isDeleted ==> t'.rows[id].isDeleted))
  }

  lemma InsertEvolves(t: Table, r: Row, policy: Policy)
    requires WellFormed(t) && Insert(t, r, policy).Inserted?
    ensures Evolves(t, Insert(t, r, policy).table)
  {
  }

  lemma TombstoneAllEvolves(t: Table, ids: set<int>, now: string, markEdited: bool)
    requires WellFormed(t)
    ensures Evolves(t, TombstoneAll(t, ids, now, markEdited))
  {
  }

  lemma PutEvolves(t: Table, id: int, r: Row)
    requires WellFormed(t) && id in t.rows && SameKey(t.rows[id], r)
    requires t.rows[id].isDeleted ==> r.isDeleted
    ensures Evolves(t, Put(t, id, r))
  {
  }

  lemma EvolvesTransitive(t1: Table, t2: Table, t3: Table)
    requires WellFormed(t1) && Evolves(t1, t2) && Evolves(t2, t3)
    ensures Evolves(t1, t3)
  {
    forall id | id in t1.rows && id in t3.rows ensures id in t2.rows {
      assert id < t1.nextId <= t2.nextId;
    }
  }
}
