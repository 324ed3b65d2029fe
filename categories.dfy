/**
 * The category endpoints: add and delete (server.py:337-428, api/server.py:525-561,
 * 629-683) and rename (api/server.py:563-627). Categories live in their own
 * table keyed by name; words refer to a category by its name only.
 */
module Categories {
  import opened Wrappers
  import opened Text
  import opened Schema
  import opened Store

  datatype Failure =
    | NameRequired          // 400 "Category name (is) required"
    | BothNamesRequired     // 400 "Both old and new names are required"
    | SameName              // 400 "New name must be different from old name"
    | AlreadyExists(name: string)
    | NotFound(name: string)
    | DefaultProtected      // 400 "Cannot edit/delete default categories"

  datatype Reply = Ok | Moved(count: nat) | Refused(failure: Failure)

  /** Both tables after a request, and the reply. */
  datatype Change = Change(categories: map<string, Category>, table: Table, reply: Reply)

  /** Python truthiness of an optional string: missing and '' are both false. */
  predicate Given(s: Option<string>) {
    s.Some? && s.value != ""
  }

  /** `WHERE category = ? AND is_deleted = 0` */
  function Holding(rows: map<int, Row>, name: string): set<int> {
    set id | id in rows && !rows[id].isDeleted && rows[id].payload.category == name
  }

  /** `SET category = ?, sync_status = 'pending'` */
  function Relabelled(r: Row, to: string): Row {
    r.(payload := r.payload.(category := to), syncStatus := Pending)
  }

  /** The live words of category `from` moved to `to`; every other row as it was. */
  function Recategorised(t: Table, from: string, to: string): (t': Table)
    requires WellFormed(t)
    ensures WellFormed(t') && t'.nextId == t.nextId && t'.rows.Keys == t.rows.Keys
  {
    var rows := map id | id in t.rows :: if id in Holding(t.rows, from) then Relabelled(t.rows[id], to) else t.rows[id];
    KeysKeptUnique(t.rows, rows);
    Table(rows, t.nextId)
  }

  /** After a move, the target holds the moved words and its own; the source holds none. */
  lemma RecategorisedHolding(t: Table, from: string, to: string)
    requires WellFormed(t)
    ensures var t' := Recategorised(t, from, to);
      && Holding(t'.rows, to) == Holding(t.rows, from) + Holding(t.rows, to)
      && (from != to ==> Holding(t'.rows, from) == {})
  {
    var t' := Recategorised(t, from, to);
    forall id | id in Holding(t'.rows, to) ensures id in Holding(t.rows, from) + Holding(t.rows, to) {
      assert id in t.rows;
    }
    forall id | id in Holding(t.rows, from) + Holding(t.rows, to) ensures id in Holding(t'.rows, to) {
      assert id in t'.rows;
    }
  }

  /** `add_category`: both servers refuse a blank or taken name and add a non-default category. */
  function Add(cats: map<string, Category>, t: Table, name: Option<string>, color: Option<string>): (c: Change) {
    var n := Strip(name.GetOr(""));
    if n == "" then Change(cats, t, Refused(NameRequired))
    else if n in cats then Change(cats, t, Refused(AlreadyExists(n)))
    else Change(cats[n := Category(color.GetOr(DefaultCategoryColor), false)], t, Ok)
  }

  /** `edit_category` (api/server.py:563-627): the names are used as sent, without stripping. */
  function Rename(cats: map<string, Category>, t: Table, oldName: Option<string>, newName: Option<string>): (c: Change)
    requires WellFormed(t)
    ensures WellFormed(c.table)
  {
    if !Given(oldName) || !Given(newName) then Change(cats, t, Refused(BothNamesRequired))
    else
      var from, to := oldName.value, newName.value;
      if from == to then Change(cats, t, Refused(SameName))
      else if from !in cats then Change(cats, t, Refused(NotFound(from)))
      else if to in cats then Change(cats, t, Refused(AlreadyExists(to)))
      else if cats[from].isDefault then Change(cats, t, Refused(DefaultProtected))
      else Change((cats - {from})[to := cats[from]], Recategorised(t, from, to), Ok)
  }

  /** `delete_category`: its live words fall back to the default category, then the row goes. */
  function Remove(cats: map<string, Category>, t: Table, name: Option<string>): (c: Change)
    requires WellFormed(t)
    ensures WellFormed(c.table)
  {
    var n := Strip(name.GetOr(""));
    if n == "" then Change(cats, t, Refused(NameRequired))
    else if n !in cats then Change(cats, t, Refused(NotFound(n)))
    else if cats[n].isDefault then Change(cats, t, Refused(DefaultProtected))
    else Change(cats - {n}, Recategorised(t, n, GeneralVocabulary), Moved(|Holding(t.rows, n)|))
  }

  method AddCategory(db: Database, name: Option<string>, color: Option<string>) returns (reply: Reply)
    modifies db`categories
    ensures Change(db.categories, db.Words(), reply) == Add(old(db.categories), old(db.Words()), name, color)
  {
    var n := Strip(name.GetOr(""));
    if n == "" {
      return Refused(NameRequired);
    }
    if n in db.categories {
      return Refused(AlreadyExists(n));
    }
    db.categories := db.categories[n := Category(color.GetOr(DefaultCategoryColor), false)];
    reply := Ok;
  }

  method EditCategory(db: Database, oldName: Option<string>, newName: Option<string>) returns (reply: Reply)
    requires db.Valid()
    modifies db`categories, db`words
    ensures db.Valid()
    ensures Change(db.categories, db.Words(), reply) == Rename(old(db.categories), old(db.Words()), oldName, newName)
  {
    if !Given(oldName) || !Given(newName) {
      return Refused(BothNamesRequired);
    }
    var from, to := oldName.value, newName.value;
    if from == to {
      return Refused(SameName);
    }
    if from !in db.categories {
      return Refused(NotFound(from));
    }
    if to in db.categories {
      return Refused(AlreadyExists(to));
    }
    if db.categories[from].isDefault {
      return Refused(DefaultProtected);
    }
    db.categories := (db.categories - {from})[to := db.categories[from]];
    db.words := Recategorised(db.Words(), from, to).rows;
    reply := Ok;
  }

  method DeleteCategory(db: Database, name: Option<string>) returns (reply: Reply)
    requires db.Valid()
    modifies db`categories, db`words
    ensures db.Valid()
    ensures Change(db.categories, db.Words(), reply) == Remove(old(db.categories), old(db.Words()), name)
  {
    var n := Strip(name.GetOr(""));
    if n == "" {
      return Refused(NameRequired);
    }
    if n !in db.categories {
      return Refused(NotFound(n));
    }
    if db.categories[n].isDefault {
      return Refused(DefaultProtected);
    }
    var moved := Holding(db.words, n);
    db.words := Recategorised(db.Words(), n, GeneralVocabulary).rows;
    db.categories := db.categories - {n};
    reply := Moved(|moved|);
  }

  /** A successful add creates one non-default category under the stripped name and touches no word. */
  lemma AddCreatesOne(cats: map<string, Category>, t: Table, name: Option<string>, color: Option<string>)
    ensures var c := Add(cats, t, name, color);
      var n := Strip(name.GetOr(""));
      && c.table == t
      && (c.reply == Ok <==> n != "" && n !in cats)
      && (c.reply == Ok ==> c.categories.Keys == cats.Keys + {n} && !c.categories[n].isDefault
                             && forall k :: k in cats ==> c.categories[k] == cats[k])
      && (c.reply != Ok ==> c.categories == cats)
  {
  }

  /**
   * Which guard of `edit_category` answers: the first one, in source order, that
   * the request trips; when none does, the rename goes through.
   */
  lemma RenameGuardOrder(cats: map<string, Category>, t: Table, oldName: Option<string>, newName: Option<string>)
    requires WellFormed(t)
    ensures var c := Rename(cats, t, oldName, newName);
      && (c.reply == Ok <==>
            && Given(oldName) && Given(newName) && oldName.value != newName.value
            && oldName.value in cats && newName.value !in cats && !cats[oldName.value].isDefault)
      && (c.reply.Refused? ==> c.categories == cats && c.table == t)
      && (!Given(oldName) || !Given(newName) ==> c.reply == Refused(BothNamesRequired))
      && (Given(oldName) && Given(newName) && oldName.value == newName.value ==> c.reply == Refused(SameName))
      && ((Given(oldName) && Given(newName) && oldName.value != newName.value && oldName.value !in cats)
            ==> c.reply == Refused(NotFound(oldName.value)))
      && ((Given(oldName) && Given(newName) && oldName.value in cats && newName.value in cats && oldName.value != newName.value)
            ==> c.reply == Refused(AlreadyExists(newName.value)))
      && ((Given(oldName) && Given(newName) && oldName.value != newName.value && oldName.value in cats
            && newName.value !in cats && cats[oldName.value].isDefault)
            ==> c.reply == Refused(DefaultProtected))
  {
  }

  /**
   * A rename moves the category with its colour, and moves exactly the live
   * words filed under the old name, marking them pending; deleted words keep
   * the old name.
   */
  lemma RenameMovesLiveWords(cats: map<string, Category>, t: Table, oldName: Option<string>, newName: Option<string>)
    requires WellFormed(t) && Rename(cats, t, oldName, newName).reply == Ok
    ensures var c := Rename(cats, t, oldName, newName);
      var from, to := oldName.value, newName.value;
      && c.categories.Keys == cats.Keys - {from} + {to}
      && c.categories[to] == cats[from]
      && c.table.rows.Keys == t.rows.Keys && c.table.nextId == t.nextId
      && Holding(c.table.rows, from) == {}
      && Holding(c.table.rows, to) == Holding(t.rows, from) + Holding(t.rows, to)
      && (forall id :: id in t.rows ==>
            c.table.rows[id] == if id in Holding(t.rows, from) then Relabelled(t.rows[id], to) else t.rows[id])
  {
    RecategorisedHolding(t, oldName.value, newName.value);
  }

  /**
   * Deleting a category moves its live words to the default category, reports
   * how many moved, and removes the category and nothing else.
   */
  lemma RemoveMovesToDefault(cats: map<string, Category>, t: Table, name: Option<string>)
    requires WellFormed(t) && Remove(cats, t, name).reply.Moved?
    ensures var c := Remove(cats, t, name);
      var n := Strip(name.GetOr(""));
      && n in cats && !cats[n].isDefault
      && c.categories == cats - {n}
      && c.reply.count == |Holding(t.rows, n)|
      && (n != GeneralVocabulary ==> Holding(c.table.rows, n) == {})
      && Holding(c.table.rows, GeneralVocabulary) == Holding(t.rows, n) + Holding(t.rows, GeneralVocabulary)
      && (forall id :: id in t.rows ==>
            c.table.rows[id] == if id in Holding(t.rows, n) then Relabelled(t.rows[id], GeneralVocabulary) else t.rows[id])
  {
    RecategorisedHolding(t, Strip(name.GetOr("")), GeneralVocabulary);
  }

  /** No request adds, renames, recolours or deletes a default category. */
  lemma DefaultsSurvive(cats: map<string, Category>, t: Table, a: Option<string>, b: Option<string>)
    requires WellFormed(t)
    ensures forall k :: k in cats && cats[k].isDefault ==>
      && k in Add(cats, t, a, b).categories && Add(cats, t, a, b).categories[k] == cats[k]
      && k in Rename(cats, t, a, b).categories && Rename(cats, t, a, b).categories[k] == cats[k]
      && k in Remove(cats, t, a).categories && Remove(cats, t, a).categories[k] == cats[k]
    ensures forall k :: k in Add(cats, t, a, b).categories && Add(cats, t, a, b).categories[k].isDefault ==> k in cats
  {
  }
}
