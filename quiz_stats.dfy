/**
 * The integer columns of the per-device quiz statistics that `save_quiz_result`
 * maintains: server.py:1430-1458 updates and falls back to an insert,
 * api/server.py:733-751 does the same in one upsert.
 */
module QuizStatistics {
  import opened Wrappers
  import opened Store

  /** The integer fields of a submitted quiz, `None` when the key is missing. */
  datatype Submission = Submission(score: Option<int>, totalQuestions: Option<int>, timeTakenSeconds: Option<int>)

  /** `int(data.get('score', 0))` and the like: the defaults are 0 correct answers of 10 in 0 seconds. */
  function Score(s: Submission): int { s.score.GetOr(0) }
  function Questions(s: Submission): int { s.totalQuestions.GetOr(10) }
  function Seconds(s: Submission): int { s.timeTakenSeconds.GetOr(0) }

  /**
   * The statistics row after one more quiz: the counters grow by this quiz, the
   * best score is the larger of the two, and a device without a row starts one.
   */
  function Accumulate(prev: Option<QuizStats>, s: Submission, date: string): (r: QuizStats)
    ensures prev.None? ==> r.totalQuizzes == 1 && r.bestScore == Score(s)
    ensures prev.Some? ==>
      && r.totalQuizzes - prev.value.totalQuizzes == 1
      && r.totalCorrect - prev.value.totalCorrect == Score(s)
      && r.totalQuestions - prev.value.totalQuestions == Questions(s)
      && r.totalTimeSeconds - prev.value.totalTimeSeconds == Seconds(s)
      && r.bestScore >= prev.value.bestScore && r.bestScore >= Score(s)
      && (r.bestScore == prev.value.bestScore || r.bestScore == Score(s))
    ensures r.lastQuizDate == date
  {
    match prev
    case None => QuizStats(1, Score(s), Questions(s), Seconds(s), Score(s), date)
    case Some(p) =>
      QuizStats(p.totalQuizzes + 1, p.totalCorrect + Score(s), p.totalQuestions + Questions(s),
                p.totalTimeSeconds + Seconds(s), if Score(s) > p.bestScore then Score(s) else p.bestScore, date)
  }

  function Lookup(stats: map<string, QuizStats>, device: string): Option<QuizStats> {
    if device in stats then Some(stats[device]) else None
  }

  /** `INSERT ... ON CONFLICT(device_id) DO UPDATE SET ...` (api/server.py:733-751). */
  method Upsert(db: Database, device: string, s: Submission, date: string)
    modifies db`quizStats
    ensures db.quizStats == old(db.quizStats)[device := Accumulate(Lookup(old(db.quizStats), device), s, date)]
  {
    if device in db.quizStats {
      var p := db.quizStats[device];
      var best := if Score(s) > p.bestScore then Score(s) else p.bestScore;
      db.quizStats := db.quizStats[device := p.(
        totalQuizzes := p.totalQuizzes + 1,
        totalCorrect := p.totalCorrect + Score(s),
        totalQuestions := p.totalQuestions + Questions(s),
        totalTimeSeconds := p.totalTimeSeconds + Seconds(s),
        bestScore := best,
        lastQuizDate := date)];
    } else {
      db.quizStats := db.quizStats[device := QuizStats(1, Score(s), Questions(s), Seconds(s), Score(s), date)];
    }
  }

  /** `UPDATE ... WHERE device_id = ?`, then an INSERT when no row was updated (server.py:1430-1458). */
  method UpdateOrInsert(db: Database, device: string, s: Submission, date: string)
    modifies db`quizStats
    ensures db.quizStats == old(db.quizStats)[device := Accumulate(Lookup(old(db.quizStats), device), s, date)]
  {
    var updated := 0;
    if device in db.quizStats {
      var p := db.quizStats[device];
      db.quizStats := db.quizStats[device := QuizStats(
        p.totalQuizzes + 1, p.totalCorrect + Score(s), p.totalQuestions + Questions(s),
        p.totalTimeSeconds + Seconds(s), if Score(s) > p.bestScore then Score(s) else p.bestScore, date)];
      updated := 1;
    }
    if updated == 0 {
      db.quizStats := db.quizStats[device := QuizStats(1, Score(s), Questions(s), Seconds(s), Score(s), date)];
    }
  }

  /** The row of a device after its quizzes, starting from `prev`. */
  function Replay(prev: Option<QuizStats>, quizzes: seq<(Submission, string)>): Option<QuizStats> {
    if quizzes == [] then prev
    else
      var last := quizzes[|quizzes| - 1];
      Some(Accumulate(Replay(prev, quizzes[..|quizzes| - 1]), last.0, last.1))
  }

  function SumScores(quizzes: seq<(Submission, string)>): int {
    if quizzes == [] then 0 else SumScores(quizzes[..|quizzes| - 1]) + Score(quizzes[|quizzes| - 1].0)
  }

  function SumQuestions(quizzes: seq<(Submission, string)>): int {
    if quizzes == [] then 0 else SumQuestions(quizzes[..|quizzes| - 1]) + Questions(quizzes[|quizzes| - 1].0)
  }

  function SumSeconds(quizzes: seq<(Submission, string)>): int {
    if quizzes == [] then 0 else SumSeconds(quizzes[..|quizzes| - 1]) + Seconds(quizzes[|quizzes| - 1].0)
  }

  /** The largest score of a non-empty run of quizzes. */
  function MaxScore(quizzes: seq<(Submission, string)>): (m: int)
    requires quizzes != []
    ensures forall i :: 0 <= i < |quizzes| ==> Score(quizzes[i].0) <= m
    ensures exists i :: 0 <= i < |quizzes| && Score(quizzes[i].0) == m
  {
    var last := Score(quizzes[|quizzes| - 1].0);
    if |quizzes| == 1 then last
    else
      var m := MaxScore(quizzes[..|quizzes| - 1]);
      if last > m then last else m
  }

  /**
   * From a device with no row, the statistics after any number of quizzes are
   * the count, the sums, the best score and the date of the last one.
   */
  lemma {:induction false} ReplayTotals(quizzes: seq<(Submission, string)>)
    requires quizzes != []
    ensures Replay(None, quizzes) == Some(QuizStats(
      |quizzes|, SumScores(quizzes), SumQuestions(quizzes), SumSeconds(quizzes),
      MaxScore(quizzes), quizzes[|quizzes| - 1].1))
    decreases |quizzes|
  {
    if |quizzes| > 1 {
      ReplayTotals(quizzes[..|quizzes| - 1]);
    }
  }
}
