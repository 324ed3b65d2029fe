/** `allowed_file` (server.py:79-80, api/server.py:69-70): which uploads count as spreadsheets. */
module Uploads {
  import opened Text

  /** `ALLOWED_EXTENSIONS` (server.py:29, api/server.py:20). */
  const AllowedExtensions: set<string> := {"xlsx", "xls"}

  /** The position of the last '.', or -1 when there is none. */
  function LastDot(s: string): (r: int)
    ensures -1 <= r < |s|
    ensures r >= 0 ==> s[r] == '.'
    ensures forall j :: r < j < |s| ==> s[j] != '.'
  {
    if s == [] then -1
    else if s[|s| - 1] == '.' then |s| - 1
    else LastDot(s[..|s| - 1])
  }

  /** `'.' in filename and filename.rsplit('.', 1)[1].lower() in ALLOWED_EXTENSIONS` */
  function AllowedFile(filename: string): bool {
    var d := LastDot(filename);
    d >= 0 && Lower(filename[d + 1..]) in AllowedExtensions
  }

  /**
   * A name is accepted exactly when what follows its last dot is `xlsx` or `xls`
   * in any mix of case; the stem may contain dots of its own.
   */
  lemma AllowedFileOfParts(stem: string, ext: string)
    requires forall j :: 0 <= j < |ext| ==> ext[j] != '.'
    ensures AllowedFile(stem + "." + ext) <==> Lower(ext) in AllowedExtensions
  {
    var f := stem + "." + ext;
    var d := LastDot(f);
    assert f[|stem|] == '.';
    assert d == |stem|;
    assert f[d + 1..] == ext;
  }

  /** A name without a dot is refused, even when it spells an extension. */
  lemma NoDotRefused(filename: string)
    requires forall j :: 0 <= j < |filename| ==> filename[j] != '.'
    ensures !AllowedFile(filename)
  {
  }

  /** The extension is compared without regard to case. */
  lemma UpperCaseAccepted(stem: string)
    ensures AllowedFile(stem + ".XLSX")
  {
    UpperXlsxLowered();
    AllowedFileOfParts(stem, "XLSX");
    assert stem + "." + "XLSX" == stem + ".XLSX";
  }

  lemma UpperXlsxLowered()
    ensures Lower("XLSX") == "xlsx"
  {
    var l := Lower("XLSX");
    assert l[0] == LowerChar('X') == 'x' && l[1] == LowerChar('L') == 'l';
    assert l[2] == LowerChar('S') == 's' && l[3] == LowerChar('X') == 'x';
  }

  /** Only the part after the last dot decides: `report.xlsx.csv` is refused. */
  lemma LastExtensionDecides(stem: string)
    ensures !AllowedFile(stem + ".xlsx.csv")
  {
    AllowedFileOfParts(stem + ".xlsx", "csv");
    var l := Lower("csv");
    assert |l| == 3 && l[0] == LowerChar('c') == 'c';
    assert l != "xlsx" && l != "xls";
    assert stem + ".xlsx" + "." + "csv" == stem + ".xlsx.csv";
  }
}
