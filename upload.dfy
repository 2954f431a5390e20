/** Which uploaded file names the form accepts (allowed_file). */
module Upload {

  /** The only accepted extension, compared after lower-casing. */
  const AllowedExtensions: set<string> := {"xlsx"}

  /** Index of the last occurrence of c in s (the split point of rsplit(c, 1)). */
  function LastIndexOf(s: string, c: char): (r: nat)
    requires c in s
    ensures r < |s| && s[r] == c
    ensures forall j :: r < j < |s| ==> s[j] != c
  {
    if s[|s| - 1] == c then |s| - 1 else LastIndexOf(s[..|s| - 1], c)
  }

  /** The text after the last '.', i.e. filename.rsplit('.', 1)[1]. */
  function Extension(filename: string): (ext: string)
    requires '.' in filename
    ensures '.' !in ext
    ensures exists d :: 0 <= d < |filename| && filename[d] == '.' && ext == filename[d + 1..]
  {
    var d := LastIndexOf(filename, '.');
    filename[d + 1..]
  }

  /** str.lower() on one character. Only 'A'..'Z' are mapped: no other character
      lower-cases into one of the letters of "xlsx", so the extension test below
      decides exactly as the full Unicode mapping would. */
  function ToLower(c: char): (r: char)
    ensures 'A' <= c <= 'Z' ==> 'a' <= r <= 'z' && r as int == c as int + 32
    ensures !('A' <= c <= 'Z') ==> r == c
  {
    if 'A' <= c <= 'Z' then (c as int - 'A' as int + 'a' as int) as char else c
  }

  function Lower(s: string): (r: string)
    ensures |r| == |s|
    ensures forall i :: 0 <= i < |s| ==> r[i] == ToLower(s[i])
  {
    seq(|s|, i requires 0 <= i < |s| => ToLower(s[i]))
  }

  /** allowed_file: the name has a '.' and what follows the last one is
      "xlsx" in any mix of upper and lower case. */
  predicate AllowedFile(filename: string)
    ensures AllowedFile(filename) ==> |filename| >= 5 && filename[|filename| - 5] == '.'
  {
    '.' in filename && Lower(Extension(filename)) in AllowedExtensions
  }

  /** allowed_file accepts exactly the names that end in ".xlsx", ignoring the
      case of the four letters: the '.' must sit five characters from the end. */
  lemma AllowedFileIff(filename: string)
    ensures AllowedFile(filename) <==>
              |filename| >= 5 && filename[|filename| - 5] == '.' &&
              Lower(filename[|filename| - 4..]) == "xlsx"
  {
    if AllowedFile(filename) {
      AcceptedEndsInXlsx(filename);
    }
    if |filename| >= 5 && filename[|filename| - 5] == '.' && Lower(filename[|filename| - 4..]) == "xlsx" {
      EndsInXlsxAccepted(filename);
    }
  }

  lemma AcceptedEndsInXlsx(filename: string)
    requires AllowedFile(filename)
    ensures |filename| >= 5 && filename[|filename| - 5] == '.'
    ensures Lower(filename[|filename| - 4..]) == "xlsx"
  {
    var d := LastIndexOf(filename, '.');
    assert Lower(filename[d + 1..]) == "xlsx";
    assert |filename[d + 1..]| == 4;
  }

  lemma EndsInXlsxAccepted(filename: string)
    requires |filename| >= 5 && filename[|filename| - 5] == '.'
    requires Lower(filename[|filename| - 4..]) == "xlsx"
    ensures AllowedFile(filename)
  {
    var n := |filename|;
    var d := LastIndexOf(filename, '.');
    forall j | n - 4 <= j < n ensures filename[j] != '.' {
      assert Lower(filename[n - 4..])[j - (n - 4)] == ToLower(filename[j]);
      assert "xlsx"[j - (n - 4)] != '.';
    }
    assert d == n - 5;
    assert Extension(filename) == filename[n - 4..];
  }

  /** Upper-case extensions and a bare ".xlsx" are accepted. */
  lemma AcceptedExamples()
    ensures AllowedFile("A.XLSX") && AllowedFile(".xlsx")
  {
    var upper, lower := "A.XLSX", ".xlsx";
    assert upper[2..] == "XLSX" && upper[1] == '.';
    assert Lower("XLSX") == "xlsx";
    EndsInXlsxAccepted(upper);
    assert lower[1..] == "xlsx" && lower[0] == '.';
    assert Lower("xlsx") == "xlsx";
    EndsInXlsxAccepted(lower);
  }

  /** A name without a dot, or one whose ".xlsx" is not the last extension,
      is rejected. */
  lemma RejectedExamples()
    ensures !AllowedFile("xlsx") && !AllowedFile("a.xlsx.csv") && !AllowedFile("")
  {
    assert "a.xlsx.csv"[5] != '.';
    if AllowedFile("a.xlsx.csv") {
      AcceptedEndsInXlsx("a.xlsx.csv");
    }
  }
}
