/**
 * The word endpoints of the API server (api/server.py:249-414): add a word,
 * edit a word by id, soft-delete a word by id.
 */
module WordApi {
  import opened Wrappers
  import opened Text
  import opened Schema
  import opened Store

  /** The JSON body of `/api/words/add`, `/edit` and `/delete`; a missing key is `None`. */
  datatype WordForm = WordForm(
    id: Option<int>,
    word: Option<string>,
    meaningBangla: Option<string>,
    meaningEnglish: Option<string>,
    synonyms: Option<string>,
    exampleSentence: Option<string>,
    category: Option<string>,
    deviceId: Option<string>)

  datatype Failure =
    | IdRequired                   // 400 "Word ID is required"
    | FieldRequired(field: string) // 400 "Field '...' is required"
    | AlreadyExists(word: string)  // 400 "Word '...' already exists for this device"
    | NotFound                     // 404 "Word not found"
    | StoreError                   // the statement raised; 500 with the exception text

  datatype Reply = Added(id: int) | Done | Refused(failure: Failure)

  /** The table after a request and what the client is told. */
  datatype Change = Change(table: Table, reply: Reply)

  /** The fields checked, in the order they are checked. */
  const RequiredFields: seq<string> := ["word", "meaning_bangla", "meaning_english", "synonyms", "example_sentence"]

  /** `data.get(field, '')` for each required field, in the same order. */
  function RequiredValues(f: WordForm): (vs: seq<string>)
    ensures |vs| == |RequiredFields|
  {
    [f.word.GetOr(""), f.meaningBangla.GetOr(""), f.meaningEnglish.GetOr(""),
     f.synonyms.GetOr(""), f.exampleSentence.GetOr("")]
  }

  /** `not value.strip()` */
  predicate Blank(s: string) {
    Strip(s) == ""
  }

  /** The position of the first blank value, if any. */
  function FirstBlank(vs: seq<string>): (r: Option<nat>)
    ensures r.Some? ==> r.value < |vs| && Blank(vs[r.value]) && forall j :: 0 <= j < r.value ==> !Blank(vs[j])
    ensures r.None? ==> forall j :: 0 <= j < |vs| ==> !Blank(vs[j])
  {
    if vs == [] then None
    else if Blank(vs[0]) then Some(0)
    else match FirstBlank(vs[1..])
      case None => None
      case Some(k) => Some(k + 1)
  }

  /** The name of the first required field that is missing or blank. */
  function MissingField(f: WordForm): Option<string> {
    match FirstBlank(RequiredValues(f))
    case None => None
    case Some(i) => Some(RequiredFields[i])
  }

  /** The validation loop at api/server.py:257-264 and 340-347. */
  method CheckRequired(f: WordForm) returns (missing: Option<string>)
    ensures missing == MissingField(f)
  {
    var vs := RequiredValues(f);
    var i := 0;
    while i < |RequiredFields|
      invariant 0 <= i <= |RequiredFields|
      invariant forall j :: 0 <= j < i ==> !Blank(vs[j])
    {
      if Strip(vs[i]) == "" {
        return Some(RequiredFields[i]);
      }
      i := i + 1;
    }
    return None;
  }

  /** The stripped text columns; a missing category is the default, a blank one stays blank. */
  function StrippedPayload(f: WordForm): Payload {
    Payload(
      Strip(f.meaningBangla.GetOr("")),
      Strip(f.meaningEnglish.GetOr("")),
      Strip(f.synonyms.GetOr("")),
      Strip(f.exampleSentence.GetOr("")),
      Strip(f.category.GetOr(GeneralVocabulary)))
  }

  /** `data['word'].strip().title()` */
  function Headword(f: WordForm): string {
    Title(Strip(f.word.GetOr("")))
  }

  /** The row `add_word` inserts: live, unedited, pending, dated `now`. */
  function NewRow(f: WordForm, now: string): Row {
    Row(Headword(f), StrippedPayload(f), now, f.deviceId.GetOr("unknown"), now, false, false, None, Pending)
  }

  /** The row `edit_word` writes over `r`: new word and columns, `is_edited` set, the rest kept. */
  function Revised(r: Row, f: WordForm, now: string): Row {
    r.(word := Headword(f), payload := StrippedPayload(f), isEdited := true, lastSynced := now)
  }

  /** `add_word` (api/server.py:249-326) on the words table. */
  function Add(t: Table, f: WordForm, now: string, policy: Policy): (c: Change)
    requires WellFormed(t)
    ensures WellFormed(c.table)
  {
    match MissingField(f)
    case Some(name) => Change(t, Refused(FieldRequired(name)))
    case None =>
      var r := NewRow(f, now);
      if ActiveMatches(t.rows, r.word, r.deviceId) != {} then Change(t, Refused(AlreadyExists(r.word)))
      else match Insert(t, r, policy)
        case Inserted(t', id) => Change(t', Added(id))
        case Rejected => Change(t, Refused(StoreError))
  }

  /** `edit_word` (api/server.py:328-383): the row keeps its id, device, date and deletion flag. */
  function Edit(t: Table, f: WordForm, now: string, policy: Policy): (c: Change)
    requires WellFormed(t)
    ensures WellFormed(c.table)
  {
    if !Truthy(f.id) then Change(t, Refused(IdRequired))
    else match MissingField(f)
      case Some(name) => Change(t, Refused(FieldRequired(name)))
      case None =>
        var id := f.id.value;
        if id !in t.rows then Change(t, Refused(NotFound))
        else match Rewrite(t, id, Revised(t.rows[id], f, now), policy)
          case Some(t') => Change(t', Done)
          case None => Change(t, Refused(StoreError))
  }

  /** `SET is_deleted = 1, last_synced = ?`: no other column changes. */
  function SoftDeleted(r: Row, now: string): Row {
    r.(isDeleted := true, lastSynced := now)
  }

  /** `delete_word` (api/server.py:385-414): the UPDATE succeeds whether or not the id exists. */
  function Delete(t: Table, id: Option<int>, now: string): (c: Change)
    requires WellFormed(t)
    ensures WellFormed(c.table)
  {
    if !Truthy(id) then Change(t, Refused(IdRequired))
    else if id.value in t.rows then Change(Put(t, id.value, SoftDeleted(t.rows[id.value], now)), Done)
    else Change(t, Done)
  }

  method AddWord(db: Database, f: WordForm, now: string, policy: Policy) returns (reply: Reply)
    requires db.Valid()
    modifies db`words, db`nextId
    ensures db.Valid()
    ensures Change(db.Words(), reply) == Add(old(db.Words()), f, now, policy)
  {
    var missing := CheckRequired(f);
    if missing.Some? {
      return Refused(FieldRequired(missing.value));
    }
    var r := NewRow(f, now);
    if ActiveMatches(db.words, r.word, r.deviceId) != {} {
      return Refused(AlreadyExists(r.word));
    }
    var id := db.InsertWord(r, policy);
    reply := if id.Some? then Added(id.value) else Refused(StoreError);
  }

  method EditWord(db: Database, f: WordForm, now: string, policy: Policy) returns (reply: Reply)
    requires db.Valid()
    modifies db`words
    ensures db.Valid()
    ensures Change(db.Words(), reply) == Edit(old(db.Words()), f, now, policy)
  {
    if !Truthy(f.id) {
      return Refused(IdRequired);
    }
    var missing := CheckRequired(f);
    if missing.Some? {
      return Refused(FieldRequired(missing.value));
    }
    var id := f.id.value;
    if id !in db.words {
      return Refused(NotFound);
    }
    var ok := db.RewriteWord(id, Revised(db.words[id], f, now), policy);
    reply := if ok then Done else Refused(StoreError);
  }

  method DeleteWord(db: Database, id: Option<int>, now: string) returns (reply: Reply)
    requires db.Valid()
    modifies db`words
    ensures db.Valid()
    ensures Change(db.Words(), reply) == Delete(old(db.Words()), id, now)
  {
    if !Truthy(id) {
      return Refused(IdRequired);
    }
    if id.value in db.words {
      db.words := Put(db.Words(), id.value, SoftDeleted(db.words[id.value], now)).rows;
    }
    reply := Done;
  }

  /**
   * An add succeeds exactly when every required field is filled, no live row
   * holds the title-cased word on that device, and no tombstone blocks the insert.
   */
  lemma AddSucceedsIff(t: Table, f: WordForm, now: string, policy: Policy)
    requires WellFormed(t)
    ensures var c := Add(t, f, now, policy);
      var r := NewRow(f, now);
      && (c.reply.Added? <==>
            && MissingField(f).None?
            && ActiveMatches(t.rows, r.word, r.deviceId) == {}
            && (policy == Replace || KeyHolders(t.rows, r.word, r.deviceId) == {}))
      && (!c.reply.Added? ==> c.table == t)
  {
  }

  /**
   * A successful add leaves exactly one live row for the title-cased word on
   * that device: the new one, under an id never used before. Only tombstones
   * of the key can disappear; every other row stays as it was.
   */
  lemma AddCreatesLiveRow(t: Table, f: WordForm, now: string, policy: Policy)
    requires WellFormed(t) && Add(t, f, now, policy).reply.Added?
    ensures var c := Add(t, f, now, policy);
      var id := c.reply.id;
      var w := Headword(f);
      && (forall k :: k in t.rows ==> k < id)
      && c.table.rows[id] == NewRow(f, now)
      && ActiveMatches(c.table.rows, w, f.deviceId.GetOr("unknown")) == {id}
      && Title(w) == w
      && c.table.rows.Keys == t.rows.Keys - KeyHolders(t.rows, w, f.deviceId.GetOr("unknown")) + {id}
      && (forall k :: k in KeyHolders(t.rows, w, f.deviceId.GetOr("unknown")) ==> t.rows[k].isDeleted)
      && (forall k :: k in t.rows && k in c.table.rows ==> c.table.rows[k] == t.rows[k])
  {
    var c := Add(t, f, now, policy);
    var id := c.reply.id;
    var w := Headword(f);
    assert id in ActiveMatches(c.table.rows, w, f.deviceId.GetOr("unknown"));
    UniqueHead(c.table.rows, w, f.deviceId.GetOr("unknown"), id);
    TitleIdempotent(Strip(f.word.GetOr("")));
  }

  /** Adding the same word again from the same device is refused and changes nothing. */
  lemma AddTwiceRefused(t: Table, f: WordForm, now: string, later: string, policy: Policy)
    requires WellFormed(t) && Add(t, f, now, policy).reply.Added?
    ensures var t1 := Add(t, f, now, policy).table;
      Add(t1, f, later, policy) == Change(t1, Refused(AlreadyExists(Headword(f))))
  {
    var t1 := Add(t, f, now, policy).table;
    assert Add(t, f, now, policy).reply.id in ActiveMatches(t1.rows, Headword(f), f.deviceId.GetOr("unknown"));
  }

  /**
   * Which answer `edit_word` gives (api/server.py:335-383): the id is checked
   * first, then the fields, then whether any row, tombstones included, has that
   * id; an existing row is rewritten unless the rewrite aborts. Only success
   * changes the table.
   */
  lemma EditAnswers(t: Table, f: WordForm, now: string, policy: Policy)
    requires WellFormed(t)
    ensures var c := Edit(t, f, now, policy);
      && (c.reply == Refused(IdRequired) <==> !Truthy(f.id))
      && ((c.reply.Refused? && c.reply.failure.FieldRequired?) <==> Truthy(f.id) && MissingField(f).Some?)
      && (c.reply == Refused(NotFound) <==> Truthy(f.id) && MissingField(f).None? && f.id.value !in t.rows)
      && (c.reply == Refused(StoreError) <==>
            && Truthy(f.id) && MissingField(f).None? && f.id.value in t.rows
            && policy == Reject && KeyHolders(t.rows, Headword(f), t.rows[f.id.value].deviceId) - {f.id.value} != {})
      && (c.reply == Done || c.table == t)
  {
  }

  /**
   * A successful edit rewrites the row under the same id: the title-cased word,
   * the stripped columns and `is_edited`; device, date, lineage, sync status and
   * the deletion flag stay. Only rows already holding the new key on that
   * device can disappear.
   */
  lemma EditKeepsIdentity(t: Table, f: WordForm, now: string, policy: Policy)
    requires WellFormed(t) && Edit(t, f, now, policy).reply == Done
    ensures var c := Edit(t, f, now, policy);
      var id := f.id.value;
      var old_ := t.rows[id];
      var r := c.table.rows[id];
      && id in t.rows && id in c.table.rows
      && c.table.nextId == t.nextId
      && r.word == Headword(f) && r.payload == StrippedPayload(f) && r.isEdited && r.lastSynced == now
      && r.deviceId == old_.deviceId && r.dateAdded == old_.dateAdded && r.isDeleted == old_.isDeleted
      && r.originalId == old_.originalId && r.syncStatus == old_.syncStatus
      && (forall k :: k in t.rows && k != id ==>
            (k in c.table.rows && c.table.rows[k] == t.rows[k]) || (t.rows[k].word == Headword(f) && t.rows[k].deviceId == old_.deviceId))
  {
  }

  /**
   * Sending the same edit again, at any later time, succeeds and changes
   * nothing but the row's `last_synced`.
   */
  lemma EditIdempotent(t: Table, f: WordForm, now: string, later: string, policy: Policy)
    requires WellFormed(t) && Edit(t, f, now, policy).reply == Done
    ensures var t1 := Edit(t, f, now, policy).table;
      var id := f.id.value;
      && id in t1.rows
      && Edit(t1, f, later, policy) == Change(Table(t1.rows[id := t1.rows[id].(lastSynced := later)], t1.nextId), Done)
  {
    var id := f.id.value;
    var t1 := Edit(t, f, now, policy).table;
    var r := t1.rows[id];
    var r' := Revised(r, f, later);
    assert r' == r.(lastSynced := later);
    var clash := KeyHolders(t1.rows, r'.word, r'.deviceId) - {id};
    assert clash == {};
    assert t1.rows - clash == t1.rows;
  }

  /**
   * A delete marks exactly that row deleted, whatever its state, and nothing
   * else: not its edited versions, not its sync status, not its `is_edited`.
   */
  lemma DeleteOnlyThatRow(t: Table, id: int, now: string)
    requires WellFormed(t) && id != 0
    ensures var c := Delete(t, Some(id), now);
      && c.reply == Done
      && c.table.nextId == t.nextId && c.table.rows.Keys == t.rows.Keys
      && (forall k :: k in t.rows ==> c.table.rows[k] == if k == id then SoftDeleted(t.rows[k], now) else t.rows[k])
  {
  }

  /**
   * Deleting again, at any later time, gives the same reply and changes nothing
   * but the named row's `last_synced`: every id, key and deletion flag stays.
   */
  lemma DeleteIdempotent(t: Table, id: Option<int>, now: string, later: string)
    requires WellFormed(t)
    ensures var c1 := Delete(t, id, now);
      var t1 := c1.table;
      var c2 := Delete(t1, id, later);
      && c2.reply == c1.reply
      && c2.table == if Truthy(id) && id.value in t1.rows
                     then Table(t1.rows[id.value := t1.rows[id.value].(lastSynced := later)], t1.nextId)
                     else t1
  {
    var t1 := Delete(t, id, now).table;
    if Truthy(id) && id.value in t.rows {
      assert SoftDeleted(t1.rows[id.value], later) == t1.rows[id.value].(lastSynced := later);
    }
  }
}
