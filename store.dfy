/**
 * The SQLite database both servers open: one field per table the core writes.
 * Statements run one after another; the process-wide lock is subsumed by this
 * sequential model.
 */
module Store {
  import opened Wrappers
  import opened Schema

  /** A row of `devices` (server.py:117-125). */
  datatype Device = Device(deviceName: string, lastSync: string, createdAt: string, lastIp: string)

  /** A row of `sync_log` (server.py:149-157); `timestamp` is the database clock's default. */
  datatype LogEntry = LogEntry(deviceId: string, action: string, details: string, timestamp: string)

  /** A row of `categories`, keyed by name (server.py:127-133). */
  datatype Category = Category(color: string, isDefault: bool)

  /** The integer columns of a `quiz_statistics` row, keyed by device (api/server.py:144-156). */
  datatype QuizStats = QuizStats(
    totalQuizzes: int,
    totalCorrect: int,
    totalQuestions: int,
    totalTimeSeconds: int,
    bestScore: int,
    lastQuizDate: string)

  const DefaultCategoryColor := "#6366f1"

  /** The categories `init_db` seeds in server.py:136-146. */
  const ServerDefaultCategories: map<string, string> := map[
    GeneralVocabulary := "#6366f1",
    "Phrase and Idioms" := "#8b5cf6",
    "Transitional Words" := "#10b981"]

  /** The categories `init_db` seeds in api/server.py:112-125. */
  const ApiDefaultCategories: map<string, string> := map[
    GeneralVocabulary := "#6366f1",
    "Phrase and Idioms" := "#8b5cf6",
    "Transitional Words" := "#10b981",
    "Academic Vocabulary" := "#f59e0b",
    "Business Vocabulary" := "#ef4444",
    "Technical Terms" := "#3b82f6"]

  class Database {
    var words: map<int, Row>
    var nextId: int
    var devices: map<string, Device>
    var syncLog: seq<LogEntry>
    var categories: map<string, Category>
    var quizStats: map<string, QuizStats>

    /** The `words` table together with its AUTOINCREMENT counter. */
    function Words(): Table
      reads this
    {
      Table(words, nextId)
    }

    ghost predicate Valid()
      reads this
    {
      WellFormed(Words())
    }

    /** A freshly initialised database: empty tables and the default categories. */
    constructor (defaults: map<string, string>)
      ensures Valid()
      ensures words == map[] && nextId == 1
      ensures devices == map[] && syncLog == [] && quizStats == map[]
      ensures categories == map name | name in defaults :: Category(defaults[name], true)
    {
      words := map[];
      nextId := 1;
      devices := map[];
      syncLog := [];
      quizStats := map[];
      categories := map name | name in defaults :: Category(defaults[name], true);
    }

    /** `INSERT INTO words ...`, returning `lastrowid`, or nothing when the insert raised. */
    method InsertWord(r: Row, policy: Policy) returns (id: Option<int>)
      requires Valid()
      modifies this`words, this`nextId
      ensures Valid()
      ensures match Insert(old(Words()), r, policy)
        case Inserted(t, i) => Words() == t && id == Some(i)
        case Rejected => Words() == old(Words()) && id == None
    {
      var res := Insert(Words(), r, policy);
      match res
      case Inserted(t, i) =>
        words, nextId := t.rows, t.nextId;
        id := Some(i);
      case Rejected =>
        id := None;
    }

    /** `UPDATE words SET word = ?, ... WHERE id = ?`; false when the update raised. */
    method RewriteWord(id: int, r: Row, policy: Policy) returns (ok: bool)
      requires Valid() && id in words
      modifies this`words
      ensures Valid()
      ensures match Rewrite(old(Words()), id, r, policy)
        case Some(t) => Words() == t && ok
        case None => Words() == old(Words()) && !ok
    {
      var res := Rewrite(Words(), id, r, policy);
      match res
      case Some(t) =>
        words := t.rows;
        ok := true;
      case None =>
        ok := false;
    }
  }
}
