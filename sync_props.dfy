/**
 * What the merge of `sync_words` (server.py:897-1088) guarantees, and what it
 * does not: one item at a time (Merge) and over a whole request (Run).
 */
module SyncProperties {
  import opened Wrappers
  import opened Text
  import opened Schema
  import opened SyncMerge

  /** An item whose word is blank once stripped is skipped and changes nothing. */
  lemma BlankWordSkipped(t: Table, m: Mutation, dev: string, now: string, policy: Policy)
    requires WellFormed(t) && AllSpace(m.word.GetOr(""))
    ensures Merge(t, m, dev, now, policy) == Step(t, Skipped)
  {
    StripEmptyIff(m.word.GetOr(""));
  }

  /** Each kind of item ends in its own kind of outcome; only an aborted insert fails. */
  lemma OutcomeKind(t: Table, m: Mutation, dev: string, now: string, policy: Policy)
    requires WellFormed(t)
    ensures var o := Merge(t, m, dev, now, policy).outcome;
      && (o.Skipped? <==> WordText(m) == "")
      && (o.Deleted? <==> WordText(m) != "" && m.isDeleted)
      && (o.Written? || o.Failed? <==> WordText(m) != "" && !m.isDeleted)
      && (o.Failed? ==> policy == Reject)
  {
  }

  /**
   * A delete that names a server id tombstones exactly the live rows with that id
   * or with that id as their `original_id`, whichever device they belong to.
   */
  lemma DeleteByServerId(t: Table, m: Mutation, dev: string, now: string, policy: Policy)
    requires WellFormed(t) && WordText(m) != "" && m.isDeleted && Truthy(m.serverId)
    ensures var s := Merge(t, m, dev, now, policy);
      var sid := m.serverId.value;
      && s.outcome.Deleted?
      && s.table.nextId == t.nextId && s.table.rows.Keys == t.rows.Keys
      && (forall id :: id in s.outcome.touched <==>
            id in t.rows && !t.rows[id].isDeleted && (id == sid || t.rows[id].originalId == Some(sid)))
      && (forall id :: id in t.rows ==>
            s.table.rows[id] == if id in s.outcome.touched then Tombstone(t.rows[id], now, false) else t.rows[id])
  {
  }

  /** A delete without a server id hits at most the one live row of (word, device). */
  lemma DeleteByWord(t: Table, m: Mutation, dev: string, now: string, policy: Policy)
    requires WellFormed(t) && WordText(m) != "" && m.isDeleted && !Truthy(m.serverId)
    ensures var s := Merge(t, m, dev, now, policy);
      && s.outcome == Deleted(match ActiveHead(t.rows, WordText(m), dev) case None => {} case Some(h) => {h})
      && s.table.nextId == t.nextId && s.table.rows.Keys == t.rows.Keys
      && (forall id :: id in t.rows ==>
            s.table.rows[id] == if id in s.outcome.touched then Tombstone(t.rows[id], now, false) else t.rows[id])
  {
  }

  /**
   * Replaying a delete, at any later time, touches nothing, counts nothing and
   * leaves the table as the first delete left it.
   */
  lemma DeleteReplayIsNoop(t: Table, m: Mutation, dev: string, now: string, later: string, policy: Policy)
    requires WellFormed(t) && m.isDeleted
    ensures var t1 := Merge(t, m, dev, now, policy).table;
      Merge(t1, m, dev, later, policy) == Step(t1, if WordText(m) == "" then Skipped else Deleted({}))
  {
    var w := WordText(m);
    var t1 := Merge(t, m, dev, now, policy).table;
    if w != "" {
      var hit := if Truthy(m.serverId) then LineageMatches(t1.rows, m.serverId.value)
                 else ActiveMatches(t1.rows, w, dev);
      assert hit == {};
      assert TombstoneAll(t1, hit, later, false).rows == t1.rows;
      assert Merge(t1, m, dev, later, policy) == Step(TombstoneAll(t1, hit, later, false), Deleted(hit));
    }
  }

  /** One item never renumbers, re-keys or revives a row, and new rows get fresh ids. */
  lemma MergeEvolves(t: Table, m: Mutation, dev: string, now: string, policy: Policy)
    requires WellFormed(t)
    ensures Evolves(t, Merge(t, m, dev, now, policy).table)
  {
    var w := WordText(m);
    if w == "" {
      assert Merge(t, m, dev, now, policy).table == t;
    } else if m.isDeleted {
      var hit := if Truthy(m.serverId) then LineageMatches(t.rows, m.serverId.value)
                 else ActiveMatches(t.rows, w, dev);
      TombstoneAllEvolves(t, hit, now, false);
    } else {
      WriteEvolves(t, m, dev, now, policy);
    }
  }

  /** The create and edit paths: the pre-step's tombstone, then the write. */
  lemma WriteEvolves(t: Table, m: Mutation, dev: string, now: string, policy: Policy)
    requires WellFormed(t) && WordText(m) != "" && !m.isDeleted
    ensures Evolves(t, Merge(t, m, dev, now, policy).table)
  {
    var t1 := EditPrelude(t, m, now);
    if m.isEdited && Truthy(m.originalId) {
      TombstoneAllEvolves(t, ActiveById(t.rows, m.originalId.value), now, true);
    } else {
      assert Evolves(t, t);
    }
    WriteWordEvolves(t1, m, WordText(m), dev, now, policy);
    EvolvesTransitive(t, t1, WriteWord(t1, m, WordText(m), dev, now, policy).table);
  }

  /** The write itself: an overwrite in place, or an insert under a fresh id. */
  lemma WriteWordEvolves(t1: Table, m: Mutation, w: string, dev: string, now: string, policy: Policy)
    requires WellFormed(t1)
    ensures Evolves(t1, WriteWord(t1, m, w, dev, now, policy).table)
  {
    match ActiveHead(t1.rows, w, dev)
    case Some(h) =>
      if m.isEdited && !t1.rows[h].isEdited {
        var r := EditedRow(m, w, dev, now, h);
        if Insert(t1, r, policy).Inserted? {
          InsertEvolves(t1, r, policy);
        }
      } else {
        PutEvolves(t1, h, Overwritten(t1.rows[h], m, now));
      }
    case None =>
      var r := FreshRow(m, w, dev, now);
      if Insert(t1, r, policy).Inserted? {
        InsertEvolves(t1, r, policy);
      }
  }

  /**
   * A plain create or re-sync of a word that has a live row on this device
   * overwrites that row in place: same id, the item's columns, `is_edited`
   * cleared, `last_synced` now and the status synced; every other row as it was.
   */
  lemma ResyncOverwritesHead(t: Table, m: Mutation, dev: string, now: string, policy: Policy, h: int)
    requires WellFormed(t) && WordText(m) != "" && !m.isDeleted && !m.isEdited
    requires h in ActiveMatches(t.rows, WordText(m), dev)
    ensures var s := Merge(t, m, dev, now, policy);
      && s.outcome == Written(h)
      && s.table.nextId == t.nextId && s.table.rows.Keys == t.rows.Keys
      && s.table.rows[h].payload == PayloadOf(m) && !s.table.rows[h].isEdited && !s.table.rows[h].isDeleted
      && s.table.rows[h].word == t.rows[h].word && s.table.rows[h].deviceId == dev
      && s.table.rows[h].dateAdded == t.rows[h].dateAdded && s.table.rows[h].originalId == t.rows[h].originalId
      && s.table.rows[h] == Overwritten(t.rows[h], m, now)
      && s.table.rows[h].lastSynced == now && s.table.rows[h].syncStatus == Synced
      && (forall id :: id in t.rows && id != h ==> s.table.rows[id] == t.rows[id])
  {
    UniqueHead(t.rows, WordText(m), dev, h);
  }

  /**
   * The first edit of a live, never-edited row when the table resolves the
   * (word, device_id) collision by REPLACE: the edited version gets a new id
   * above all others and points back to its original, and the old row is gone.
   */
  lemma FirstEditUnderReplace(t: Table, m: Mutation, dev: string, now: string, h: int)
    requires WellFormed(t) && WordText(m) != "" && !m.isDeleted && m.isEdited
    requires h in ActiveMatches(t.rows, WordText(m), dev) && !t.rows[h].isEdited
    requires !(Truthy(m.originalId) && m.originalId.value == h)
    ensures var s := Merge(t, m, dev, now, Replace);
      var id := t.nextId;
      && s.outcome == Written(id)
      && (forall k :: k in t.rows ==> k < id)
      && h !in s.table.rows
      && s.table.rows[id] == EditedRow(m, WordText(m), dev, now, h)
      && s.table.rows[id].originalId == Some(if Truthy(m.originalId) then m.originalId.value else h)
      && (forall k :: k in t.rows && k != h ==> k in s.table.rows && s.table.rows[k] == EditPrelude(t, m, now).rows[k])
  {
    var w := WordText(m);
    var t1 := EditPrelude(t, m, now);
    assert h in ActiveMatches(t1.rows, w, dev);
    UniqueHead(t1.rows, w, dev, h);
    forall k | k in KeyHolders(t1.rows, w, dev) ensures k == h {
      assert !Clash(t1.rows, k, h);
    }
  }

  /**
   * The same first edit when the unique index aborts: the insert collides with
   * the still-live original, so the item always fails and only the pre-step
   * (tombstoning `original_id`) takes effect.
   */
  lemma FirstEditUnderAbort(t: Table, m: Mutation, dev: string, now: string, h: int)
    requires WellFormed(t) && WordText(m) != "" && !m.isDeleted && m.isEdited
    requires h in ActiveMatches(t.rows, WordText(m), dev) && !t.rows[h].isEdited
    requires !(Truthy(m.originalId) && m.originalId.value == h)
    ensures Merge(t, m, dev, now, Reject) == Step(EditPrelude(t, m, now), Failed)
  {
    var w := WordText(m);
    var t1 := EditPrelude(t, m, now);
    assert h in ActiveMatches(t1.rows, w, dev);
    UniqueHead(t1.rows, w, dev, h);
    assert h in KeyHolders(t1.rows, w, dev);
  }

  /**
   * A further edit of a row that is already an edited version overwrites it in
   * place (server.py:1008-1031): same id, the item's columns, every other row as
   * the pre-step left it, and no new row.
   */
  lemma EditOfEditedHead(t: Table, m: Mutation, dev: string, now: string, policy: Policy, h: int)
    requires WellFormed(t) && WordText(m) != "" && !m.isDeleted && m.isEdited
    requires var t1 := EditPrelude(t, m, now);
      h in ActiveMatches(t1.rows, WordText(m), dev) && t1.rows[h].isEdited
    ensures var t1 := EditPrelude(t, m, now);
      var s := Merge(t, m, dev, now, policy);
      && s.outcome == Written(h)
      && s.table.nextId == t.nextId && s.table.rows.Keys == t1.rows.Keys == t.rows.Keys
      && s.table.rows[h] == Overwritten(t1.rows[h], m, now)
      && s.table.rows[h].payload == PayloadOf(m) && s.table.rows[h].isEdited && !s.table.rows[h].isDeleted
      && (forall k :: k in t1.rows && k != h ==> s.table.rows[k] == t1.rows[k])
  {
    UniqueHead(EditPrelude(t, m, now).rows, WordText(m), dev, h);
  }

  /**
   * An edit for a word with no live row on this device once the pre-step has
   * run inserts the item as a new row under the next id, carrying the item's
   * `is_edited` and `original_id` (server.py:1032-1055), unless a tombstone
   * still holds the key and the index aborts the insert.
   */
  lemma EditWithoutHead(t: Table, m: Mutation, dev: string, now: string, policy: Policy)
    requires WellFormed(t) && WordText(m) != "" && !m.isDeleted && m.isEdited
    requires ActiveMatches(EditPrelude(t, m, now).rows, WordText(m), dev) == {}
    ensures var t1 := EditPrelude(t, m, now);
      var s := Merge(t, m, dev, now, policy);
      var dead := KeyHolders(t1.rows, WordText(m), dev);
      if policy == Reject && dead != {} then s == Step(t1, Failed)
      else
        && s.outcome == Written(t.nextId)
        && s.table.rows[t.nextId] == FreshRow(m, WordText(m), dev, now)
        && s.table.rows[t.nextId].isEdited && s.table.rows[t.nextId].originalId == m.originalId
        && s.table.rows.Keys == t1.rows.Keys - dead + {t.nextId}
        && (forall k :: k in t1.rows && k !in dead ==> s.table.rows[k] == t1.rows[k])
  {
  }

  /**
   * An edit whose `original_id` is the live row of its own (word, device):
   * the pre-step tombstones that row, so the lookup finds nothing and a fresh
   * insert follows. Under REPLACE it purges the tombstone; under abort it fails
   * and the word is left with no live row at all.
   */
  lemma EditNamingItsOwnHead(t: Table, m: Mutation, dev: string, now: string, policy: Policy)
    requires WellFormed(t) && WordText(m) != "" && !m.isDeleted && m.isEdited && Truthy(m.originalId)
    requires m.originalId.value in ActiveMatches(t.rows, WordText(m), dev)
    ensures var s := Merge(t, m, dev, now, policy);
      var h := m.originalId.value;
      match policy
      case Reject =>
        && s == Step(TombstoneAll(t, {h}, now, true), Failed)
        && ActiveMatches(s.table.rows, WordText(m), dev) == {}
      case Replace =>
        && s.outcome == Written(t.nextId)
        && h !in s.table.rows
        && s.table.rows[t.nextId] == FreshRow(m, WordText(m), dev, now)
  {
    var w := WordText(m);
    var h := m.originalId.value;
    UniqueHead(t.rows, w, dev, h);
    var t1 := EditPrelude(t, m, now);
    assert t1 == TombstoneAll(t, {h}, now, true);
    assert ActiveMatches(t1.rows, w, dev) == {};
    assert h in KeyHolders(t1.rows, w, dev);
  }

  /**
   * A create for a word with no live row on this device: a new row with the next
   * id, unless a tombstone still holds the key and the index aborts the insert.
   */
  lemma CreateWithoutHead(t: Table, m: Mutation, dev: string, now: string, policy: Policy)
    requires WellFormed(t) && WordText(m) != "" && !m.isDeleted && !m.isEdited
    requires ActiveMatches(t.rows, WordText(m), dev) == {}
    ensures var s := Merge(t, m, dev, now, policy);
      var dead := KeyHolders(t.rows, WordText(m), dev);
      if policy == Reject && dead != {} then s == Step(t, Failed)
      else
        && s.outcome == Written(t.nextId)
        && s.table.rows[t.nextId] == FreshRow(m, WordText(m), dev, now)
        && s.table.rows.Keys == t.rows.Keys - dead + {t.nextId}
        && (forall id :: id in dead ==> t.rows[id].isDeleted)
        && (forall id :: id in t.rows && id !in dead ==> s.table.rows[id] == t.rows[id])
  {
  }

  /**
   * Sending the same create again, at any later time, writes the same id and
   * changes nothing but that row's `last_synced`.
   */
  lemma ReplayedCreateIsIdempotent(t: Table, m: Mutation, dev: string, now: string, later: string, policy: Policy)
    requires WellFormed(t) && !m.isDeleted && !m.isEdited
    requires Merge(t, m, dev, now, policy).outcome.Written?
    ensures var s := Merge(t, m, dev, now, policy);
      var id := s.outcome.id;
      && id in s.table.rows
      && Merge(s.table, m, dev, later, policy) ==
           Step(Table(s.table.rows[id := s.table.rows[id].(lastSynced := later)], s.table.nextId), Written(id))
  {
    var w := WordText(m);
    var s := Merge(t, m, dev, now, policy);
    var id := s.outcome.id;
    var r := s.table.rows[id];
    assert id in ActiveMatches(s.table.rows, w, dev);
    UniqueHead(s.table.rows, w, dev, id);
    assert Overwritten(r, m, later) == r.(lastSynced := later);
  }

  /**
   * Without a server id on a delete, or an `original_id` on an edit, an item
   * only ever changes rows of its own device.
   */
  lemma OtherDevicesUntouched(t: Table, m: Mutation, dev: string, now: string, policy: Policy)
    requires WellFormed(t)
    requires if m.isDeleted then !Truthy(m.serverId) else !(m.isEdited && Truthy(m.originalId))
    ensures var s := Merge(t, m, dev, now, policy);
      forall id :: id in t.rows && t.rows[id].deviceId != dev ==> id in s.table.rows && s.table.rows[id] == t.rows[id]
  {
  }

  /** Items that reach the write path: a word that is not blank and no delete flag. */
  function Upserts(items: seq<Mutation>): (n: nat)
    ensures n <= |items|
  {
    if items == [] then 0
    else Upserts(items[..|items| - 1]) + (if WordText(items[|items| - 1]) != "" && !items[|items| - 1].isDeleted then 1 else 0)
  }

  function Failures(os: seq<Outcome>): nat {
    if os == [] then 0 else Failures(os[..|os| - 1]) + (if os[|os| - 1].Failed? then 1 else 0)
  }

  /** Deletes whose UPDATE touched at least one row. */
  function EffectiveDeletes(os: seq<Outcome>): nat {
    if os == [] then 0
    else EffectiveDeletes(os[..|os| - 1]) + (if os[|os| - 1].Deleted? && os[|os| - 1].touched != {} then 1 else 0)
  }

  /**
   * The response's bookkeeping: every write-path item either contributes an id
   * or fails, and `synced` is those ids plus the deletes that hit something.
   */
  lemma {:induction false} RunAccounting(t: Table, items: seq<Mutation>, dev: string, now: string, policy: Policy)
    requires WellFormed(t)
    ensures var os := Run(t, items, dev, now, policy).outcomes;
      && |ServerIds(os)| + Failures(os) == Upserts(items)
      && SyncedCount(os) == |ServerIds(os)| + EffectiveDeletes(os)
      && SyncedCount(os) <= |items|
    decreases |items|
  {
    if items != [] {
      var init := items[..|items| - 1];
      RunAccounting(t, init, dev, now, policy);
      var prev := Run(t, init, dev, now, policy);
      var o := Merge(prev.table, items[|items| - 1], dev, now, policy).outcome;
      OutcomeKind(prev.table, items[|items| - 1], dev, now, policy);
      CountsAppend(prev.outcomes, o);
      var os := prev.outcomes + [o];
      assert os[..|os| - 1] == prev.outcomes;
    }
  }

  /** When collisions resolve by REPLACE no item of a request fails. */
  lemma {:induction false} ReplaceNeverFails(t: Table, items: seq<Mutation>, dev: string, now: string)
    requires WellFormed(t)
    ensures Failures(Run(t, items, dev, now, Replace).outcomes) == 0
    decreases |items|
  {
    if items != [] {
      var init := items[..|items| - 1];
      ReplaceNeverFails(t, init, dev, now);
      var prev := Run(t, init, dev, now, Replace);
      OutcomeKind(prev.table, items[|items| - 1], dev, now, Replace);
      var o := Merge(prev.table, items[|items| - 1], dev, now, Replace).outcome;
      var os := prev.outcomes + [o];
      assert os[..|os| - 1] == prev.outcomes;
    }
  }

  /** A whole request never renumbers, re-keys or revives a row. */
  lemma {:induction false} RunEvolves(t: Table, items: seq<Mutation>, dev: string, now: string, policy: Policy)
    requires WellFormed(t)
    ensures Evolves(t, Run(t, items, dev, now, policy).table)
    decreases |items|
  {
    if items != [] {
      var init := items[..|items| - 1];
      RunEvolves(t, init, dev, now, policy);
      var prev := Run(t, init, dev, now, policy);
      MergeEvolves(prev.table, items[|items| - 1], dev, now, policy);
      EvolvesTransitive(t, prev.table, Run(t, items, dev, now, policy).table);
    } else {
      assert Run(t, items, dev, now, policy).table == t;
    }
  }
}
