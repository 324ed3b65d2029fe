/**
 * `clean_nan_values_in_database` (cleanup_database.py:3-96): blanks spreadsheet
 * artefacts such as 'nan', 'None' and '<NA>' in five text columns of every row
 * of `words`, deleted rows included.
 */
module Cleanup {
  import opened Text
  import opened Schema
  import opened Store

  /** The columns listed in `fields_to_clean` (cleanup_database.py:12-18). */
  datatype Field = MeaningBangla | MeaningEnglish | Synonyms | ExampleSentence | CategoryColumn

  const FieldsToClean: seq<Field> := [MeaningBangla, MeaningEnglish, Synonyms, ExampleSentence, CategoryColumn]

  function Get(p: Payload, f: Field): string {
    match f
    case MeaningBangla => p.meaningBangla
    case MeaningEnglish => p.meaningEnglish
    case Synonyms => p.synonyms
    case ExampleSentence => p.exampleSentence
    case CategoryColumn => p.category
  }

  function With(p: Payload, f: Field, v: string): (q: Payload)
    ensures Get(q, f) == v
    ensures forall g :: g != f ==> Get(q, g) == Get(p, g)
  {
    match f
    case MeaningBangla => p.(meaningBangla := v)
    case MeaningEnglish => p.(meaningEnglish := v)
    case Synonyms => p.(synonyms := v)
    case ExampleSentence => p.(exampleSentence := v)
    case CategoryColumn => p.(category := v)
  }

  /** A payload is determined by its five columns. */
  lemma PayloadByColumns(p: Payload, q: Payload)
    requires forall f :: Get(p, f) == Get(q, f)
    ensures p == q
  {
    assert Get(p, MeaningBangla) == Get(q, MeaningBangla);
    assert Get(p, MeaningEnglish) == Get(q, MeaningEnglish);
    assert Get(p, Synonyms) == Get(q, Synonyms);
    assert Get(p, ExampleSentence) == Get(q, ExampleSentence);
    assert Get(p, CategoryColumn) == Get(q, CategoryColumn);
  }

  /** `LIKE '%nan%'`: LIKE ignores ASCII case, so every pattern is compared in lower case. */
  predicate LikeNan(v: string) {
    ContainsFolded(v, "nan")
  }

  /** Matches one of `'%nan%'`, `'%None%'`, `'%<NA>%'`. */
  predicate Dirty(v: string) {
    ContainsFolded(v, "nan") || ContainsFolded(v, "none") || ContainsFolded(v, "<na>")
  }

  /** The rows counted by `SELECT COUNT(*) FROM words WHERE f LIKE '%nan%'`. */
  function NanHolders(rows: map<int, Row>, f: Field): set<int> {
    set id | id in rows && LikeNan(Get(rows[id].payload, f))
  }

  function Blanked(r: Row, f: Field): Row {
    r.(payload := With(r.payload, f, ""))
  }

  /** `UPDATE words SET f = '' WHERE f LIKE '%p%' AND f != ''` */
  function BlankWhere(rows: map<int, Row>, f: Field, p: string): (r: map<int, Row>)
    ensures r.Keys == rows.Keys
  {
    map id | id in rows ::
      if ContainsFolded(Get(rows[id].payload, f), p) && Get(rows[id].payload, f) != "" then Blanked(rows[id], f) else rows[id]
  }

  /** The value a cleaned column ends with: blank when the column was cleaned and the value matched. */
  function Scrubbed(v: string, cleaned: bool): string {
    if cleaned && Dirty(v) then "" else v
  }

  /** The three UPDATEs of one field taken together. */
  function Scrub(rows: map<int, Row>, f: Field): (r: map<int, Row>)
    ensures r.Keys == rows.Keys
  {
    map id | id in rows :: if Dirty(Get(rows[id].payload, f)) then Blanked(rows[id], f) else rows[id]
  }

  /** One iteration of the field loop: cleaned only when some value contains 'nan'. */
  function CleanField(rows: map<int, Row>, f: Field): (r: map<int, Row>)
    ensures r.Keys == rows.Keys
  {
    if NanHolders(rows, f) != {} then Scrub(rows, f) else rows
  }

  /** The field loop run over `fs`, in order. */
  function CleanFields(rows: map<int, Row>, fs: seq<Field>): (r: map<int, Row>)
    ensures r.Keys == rows.Keys
  {
    if fs == [] then rows else CleanField(CleanFields(rows, fs[..|fs| - 1]), fs[|fs| - 1])
  }

  /** `total_cleaned`: the 'nan' counts of the fields, taken on the rows as they were. */
  function NanTotal(rows: map<int, Row>, fs: seq<Field>): nat {
    if fs == [] then 0 else NanTotal(rows, fs[..|fs| - 1]) + |NanHolders(rows, fs[|fs| - 1])|
  }

  /** The exact-match pass (cleanup_database.py:65-93): 'nan' becomes '' or, for the category, the default. */
  function ExactFix(p: Payload): Payload {
    Payload(
      if p.meaningBangla == "nan" then "" else p.meaningBangla,
      if p.meaningEnglish == "nan" then "" else p.meaningEnglish,
      if p.synonyms == "nan" then "" else p.synonyms,
      if p.exampleSentence == "nan" then "" else p.exampleSentence,
      if p.category == "nan" then GeneralVocabulary else p.category)
  }

  function ExactPass(rows: map<int, Row>): (r: map<int, Row>)
    ensures r.Keys == rows.Keys
  {
    map id | id in rows :: rows[id].(payload := ExactFix(rows[id].payload))
  }

  /** The whole script's effect on `words`. */
  function Cleaned(rows: map<int, Row>): map<int, Row> {
    ExactPass(CleanFields(rows, FieldsToClean))
  }

  /** The three UPDATEs run one after another blank exactly the values matching any pattern. */
  lemma ThreeUpdatesScrub(rows: map<int, Row>, f: Field)
    ensures BlankWhere(BlankWhere(BlankWhere(rows, f, "nan"), f, "none"), f, "<na>") == Scrub(rows, f)
  {
    EmptyContainsNothing("none");
    EmptyContainsNothing("<na>");
    var r1 := BlankWhere(rows, f, "nan");
    var r2 := BlankWhere(r1, f, "none");
    var r3 := BlankWhere(r2, f, "<na>");
    forall id | id in rows ensures r3[id] == Scrub(rows, f)[id] {
      var v := Get(rows[id].payload, f);
      if v == "" {
        EmptyContainsNothing("nan");
      } else if ContainsFolded(v, "nan") {
        assert Get(r1[id].payload, f) == "";
      } else if ContainsFolded(v, "none") {
        assert Get(r2[id].payload, f) == "";
      }
    }
  }

  /** Rewriting the text columns keeps the table well formed. */
  lemma PayloadOnlyKeepsWellFormed(t: Table, rows: map<int, Row>)
    requires WellFormed(t) && rows.Keys == t.rows.Keys
    requires forall id :: id in rows ==> rows[id] == t.rows[id].(payload := rows[id].payload)
    ensures WellFormed(Table(rows, t.nextId))
  {
    KeysKeptUnique(t.rows, rows);
  }

  predicate Distinct(fs: seq<Field>) {
    forall i, j :: 0 <= i < j < |fs| ==> fs[i] != fs[j]
  }

  lemma ListedFields(f: Field)
    ensures f in FieldsToClean && Distinct(FieldsToClean)
  {
    match f
    case MeaningBangla => assert FieldsToClean[0] == f;
    case MeaningEnglish => assert FieldsToClean[1] == f;
    case Synonyms => assert FieldsToClean[2] == f;
    case ExampleSentence => assert FieldsToClean[3] == f;
    case CategoryColumn => assert FieldsToClean[4] == f;
  }

  /**
   * After the loop over distinct fields `fs`, a row differs from the original
   * only in its text columns: a listed column holds its scrubbed value, decided
   * by the original rows' 'nan' count, and any other column is untouched.
   */
  lemma {:induction false} CleanFieldsAt(rows: map<int, Row>, fs: seq<Field>, id: int, f: Field)
    requires Distinct(fs) && id in rows
    ensures CleanFields(rows, fs)[id] == rows[id].(payload := CleanFields(rows, fs)[id].payload)
    ensures Get(CleanFields(rows, fs)[id].payload, f) ==
      if f in fs then Scrubbed(Get(rows[id].payload, f), NanHolders(rows, f) != {}) else Get(rows[id].payload, f)
    decreases |fs|, 1
  {
    if fs != [] {
      var init, g := fs[..|fs| - 1], fs[|fs| - 1];
      assert Distinct(init);
      assert g !in init by {
        forall k | 0 <= k < |init| ensures init[k] != g {
          assert fs[k] != fs[|fs| - 1];
        }
      }
      CleanFieldsAt(rows, init, id, f);
      CleanFieldsAt(rows, init, id, g);
      HoldersUnchanged(rows, init, g);
      assert f in fs <==> f in init || f == g;
    }
  }

  /** A field not yet cleaned has the same 'nan' rows as before the loop. */
  lemma {:induction false} HoldersUnchanged(rows: map<int, Row>, fs: seq<Field>, g: Field)
    requires Distinct(fs) && g !in fs
    ensures NanHolders(CleanFields(rows, fs), g) == NanHolders(rows, g)
    decreases |fs|, 2
  {
    forall id | id in rows ensures Get(CleanFields(rows, fs)[id].payload, g) == Get(rows[id].payload, g) {
      CleanFieldsAt(rows, fs, id, g);
    }
  }

  lemma NanMatchesItself()
    ensures LikeNan("nan")
  {
    var l := Lower("nan");
    assert l[0] == 'n' && l[1] == 'a' && l[2] == 'n';
    assert l == "nan";
    assert "nan"[..3] == "nan";
  }

  /** No scrubbed value is the literal 'nan', or contains it. */
  lemma ScrubbedIsClean(v: string, cleaned: bool)
    requires LikeNan(v) ==> cleaned
    ensures !LikeNan(Scrubbed(v, cleaned))
    ensures Scrubbed(v, cleaned) != "nan"
  {
    NanMatchesItself();
    EmptyContainsNothing("nan");
  }

  /** One column of one row after the field loop: scrubbed, and free of 'nan'. */
  lemma LoopResultAt(rows: map<int, Row>, id: int, f: Field)
    requires id in rows
    ensures var c := CleanFields(rows, FieldsToClean);
      && c[id] == rows[id].(payload := c[id].payload)
      && Get(c[id].payload, f) == Scrubbed(Get(rows[id].payload, f), NanHolders(rows, f) != {})
      && !LikeNan(Get(c[id].payload, f))
      && Get(c[id].payload, f) != "nan"
  {
    ListedFields(f);
    CleanFieldsAt(rows, FieldsToClean, id, f);
    var v := Get(rows[id].payload, f);
    assert LikeNan(v) ==> id in NanHolders(rows, f);
    ScrubbedIsClean(v, NanHolders(rows, f) != {});
  }

  /** The exact-match pass changes nothing in a row with no column exactly 'nan'. */
  lemma ExactFixNoop(p: Payload)
    requires forall f :: Get(p, f) != "nan"
    ensures ExactFix(p) == p
  {
    assert Get(p, MeaningBangla) != "nan" && Get(p, MeaningEnglish) != "nan" && Get(p, Synonyms) != "nan";
    assert Get(p, ExampleSentence) != "nan" && Get(p, CategoryColumn) != "nan";
  }

  /**
   * What the script leaves in each listed column: the old value, or '' when the
   * column had some 'nan' and the value matched a pattern. No value contains
   * 'nan' afterwards, the exact-match pass finds nothing to do (so no category
   * is set to the default here), and only the text columns change.
   */
  lemma CleanedColumns(rows: map<int, Row>)
    ensures Cleaned(rows).Keys == rows.Keys
    ensures CleanFields(rows, FieldsToClean) == Cleaned(rows)
    ensures forall id :: id in rows ==> Cleaned(rows)[id] == rows[id].(payload := Cleaned(rows)[id].payload)
    ensures forall id, f :: id in rows ==>
      && Get(Cleaned(rows)[id].payload, f) == Scrubbed(Get(rows[id].payload, f), NanHolders(rows, f) != {})
      && !LikeNan(Get(Cleaned(rows)[id].payload, f))
  {
    var c := CleanFields(rows, FieldsToClean);
    forall id | id in rows ensures c[id] == rows[id].(payload := c[id].payload) {
      LoopResultAt(rows, id, MeaningBangla);
    }
    forall id, f | id in rows
      ensures Get(c[id].payload, f) == Scrubbed(Get(rows[id].payload, f), NanHolders(rows, f) != {})
      ensures !LikeNan(Get(c[id].payload, f)) && Get(c[id].payload, f) != "nan"
    {
      LoopResultAt(rows, id, f);
    }
    forall id | id in rows ensures ExactPass(c)[id] == c[id] {
      forall f ensures Get(c[id].payload, f) != "nan" {
        LoopResultAt(rows, id, f);
      }
      ExactFixNoop(c[id].payload);
    }
  }

  /** With no 'nan' anywhere, no field loop iteration counts anything. */
  lemma {:induction false} NanTotalZero(rows: map<int, Row>, fs: seq<Field>)
    requires forall f :: NanHolders(rows, f) == {}
    ensures NanTotal(rows, fs) == 0
    decreases |fs|
  {
    if fs != [] {
      NanTotalZero(rows, fs[..|fs| - 1]);
    }
  }

  /** A second run finds no 'nan', changes nothing and reports 0. */
  lemma SecondRunIsNoop(rows: map<int, Row>)
    ensures Cleaned(Cleaned(rows)) == Cleaned(rows)
    ensures NanTotal(Cleaned(rows), FieldsToClean) == 0
  {
    var c := Cleaned(rows);
    CleanedColumns(rows);
    forall f ensures NanHolders(c, f) == {} {
      forall id | id in c ensures !LikeNan(Get(c[id].payload, f)) {
        LoopResultAt(rows, id, f);
      }
    }
    NanTotalZero(c, FieldsToClean);
    var c2 := CleanFields(c, FieldsToClean);
    NanMatchesItself();
    forall id | id in c ensures c2[id] == c[id] {
      forall f ensures Get(c2[id].payload, f) == Get(c[id].payload, f) {
        LoopResultAt(c, id, f);
      }
      PayloadByColumns(c2[id].payload, c[id].payload);
      LoopResultAt(c, id, MeaningBangla);
    }
    assert c2 == c;
    forall id | id in c ensures ExactPass(c)[id] == c[id] {
      forall f ensures Get(c[id].payload, f) != "nan" {
        LoopResultAt(rows, id, f);
      }
      ExactFixNoop(c[id].payload);
    }
  }

  /** A column without any 'nan' is left alone, even where it says 'None' or '<NA>'. */
  lemma NoNanColumnKept(rows: map<int, Row>, f: Field)
    requires NanHolders(rows, f) == {}
    ensures forall id :: id in rows ==> Get(Cleaned(rows)[id].payload, f) == Get(rows[id].payload, f)
  {
    CleanedColumns(rows);
  }

  /** Any value with 'nan' somewhere in it, in any case, ends up blank. */
  lemma NanSubstringWiped(rows: map<int, Row>, id: int, f: Field, i: int)
    requires id in rows && MatchesAt(Get(rows[id].payload, f), "nan", i)
    ensures Get(Cleaned(rows)[id].payload, f) == ""
  {
    ContainsFoldedIff(Get(rows[id].payload, f), "nan");
    assert id in NanHolders(rows, f);
    CleanedColumns(rows);
  }

  /** The substring test also hits real words: a category named "Finance" is wiped. */
  lemma FinanceIsWiped(rows: map<int, Row>, id: int)
    requires id in rows && rows[id].payload.category == "Finance"
    ensures Cleaned(rows)[id].payload.category == ""
  {
    var v := "Finance";
    var l := Lower(v[2..5]);
    assert v[2..5] == "nan";
    assert l[0] == 'n' && l[1] == 'a' && l[2] == 'n';
    assert l == "nan";
    NanSubstringWiped(rows, id, CategoryColumn, 2);
  }

  /** Before iteration `i` of the field loop, its field has not been cleaned yet. */
  lemma PendingField(i: nat)
    requires i < |FieldsToClean|
    ensures Distinct(FieldsToClean[..i]) && FieldsToClean[i] !in FieldsToClean[..i]
    ensures FieldsToClean[..i + 1][..i] == FieldsToClean[..i]
  {
    ListedFields(MeaningBangla);
  }

  /** cleanup_database.py:3-96 on the `words` table; the verification scan only prints. */
  method CleanNanValues(db: Database) returns (totalCleaned: nat)
    requires db.Valid()
    modifies db`words
    ensures db.Valid()
    ensures db.words == Cleaned(old(db.words))
    ensures totalCleaned == NanTotal(old(db.words), FieldsToClean)
  {
    ghost var rows0 := db.words;
    totalCleaned := 0;
    var i := 0;
    while i < |FieldsToClean|
      invariant 0 <= i <= |FieldsToClean|
      invariant db.words == CleanFields(rows0, FieldsToClean[..i])
      invariant totalCleaned == NanTotal(rows0, FieldsToClean[..i])
    {
      var f := FieldsToClean[i];
      PendingField(i);
      HoldersUnchanged(rows0, FieldsToClean[..i], f);
      var count := |NanHolders(db.words, f)|;
      if count > 0 {
        ThreeUpdatesScrub(db.words, f);
        db.words := BlankWhere(db.words, f, "nan");
        db.words := BlankWhere(db.words, f, "none");
        db.words := BlankWhere(db.words, f, "<na>");
        totalCleaned := totalCleaned + count;
      }
      i := i + 1;
    }
    assert FieldsToClean[..i] == FieldsToClean;
    CleanedColumns(rows0);
    db.words := ExactPass(db.words);
    PayloadOnlyKeepsWellFormed(old(db.Words()), db.words);
  }
}
