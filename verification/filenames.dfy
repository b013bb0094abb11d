/** The file-name check run before every load: the base name of the path
    must belong to the language of the regular expression
    `^([a-z A-Z 0-9]+).csv$`, matched against the whole name. */
module FileNames {
  import opened Results
  import opened Exceptions

  /** The character class `[a-z A-Z 0-9]`; the spaces inside it are members. */
  predicate InNameClass(c: char) {
    ('a' <= c <= 'z') || c == ' ' || ('A' <= c <= 'Z') || ('0' <= c <= '9')
  }

  /** The characters an unescaped `.` refuses when neither DOTALL nor
      UNIX_LINES is set: the line terminators of java.util.regex. */
  predicate IsLineTerminator(c: char) {
    c == '\n' || c == '\r' || c == '\U{0085}' || c == '\U{2028}' || c == '\U{2029}'
  }

  /** The words `[a-z A-Z 0-9]+` matches: one or more class characters. */
  ghost predicate ClassPlus(w: string) {
    |w| >= 1 && forall i :: 0 <= i < |w| ==> InNameClass(w[i])
  }

  /** The words the unescaped `.` matches: any one non-terminator character. */
  ghost predicate AnyChar(w: string) {
    |w| == 1 && !IsLineTerminator(w[0])
  }

  /** The regular language itself, as the concatenation of its three pieces,
      anchored at both ends. */
  ghost predicate MatchesPattern(s: string) {
    exists i, j :: 0 <= i <= j <= |s| && ClassPlus(s[..i]) && AnyChar(s[i..j]) && s[j..] == "csv"
  }

  /** The only way to split a word of the language is to give the last four
      characters to `.csv`; so membership is a check on the shape of `s`. */
  lemma PatternShape(s: string)
    ensures MatchesPattern(s) <==>
      && |s| >= 5
      && s[|s| - 3..] == "csv"
      && !IsLineTerminator(s[|s| - 4])
      && forall i :: 0 <= i < |s| - 4 ==> InNameClass(s[i])
  {
    if |s| >= 5 && s[|s| - 3..] == "csv" && !IsLineTerminator(s[|s| - 4])
      && (forall i :: 0 <= i < |s| - 4 ==> InNameClass(s[i]))
    {
      var i, j := |s| - 4, |s| - 3;
      assert s[i..j] == [s[|s| - 4]];
      assert ClassPlus(s[..i]) by {
        forall k | 0 <= k < i ensures InNameClass(s[..i][k]) {
          assert s[..i][k] == s[k];
        }
      }
      assert AnyChar(s[i..j]);
    }
    if MatchesPattern(s) {
      var i, j :| 0 <= i <= j <= |s| && ClassPlus(s[..i]) && AnyChar(s[i..j]) && s[j..] == "csv";
      assert |s[j..]| == 3;
      assert j == |s| - 3 && i == |s| - 4;
      assert s[|s| - 4] == s[i..j][0];
      forall k | 0 <= k < |s| - 4 ensures InNameClass(s[k]) {
        assert s[k] == s[..i][k];
      }
    }
  }

  /** The regular-expression test on one name. */
  function CheckValidityOfFile(s: string): (ok: bool)
    ensures ok <==> MatchesPattern(s)
  {
    PatternShape(s);
    && |s| >= 5
    && s[|s| - 3..] == "csv"
    && !IsLineTerminator(s[|s| - 4])
    && forall i :: 0 <= i < |s| - 4 ==> InNameClass(s[i])
  }

  /** The last component of a `/`-separated path: its longest suffix free
      of `/`. */
  function BaseName(path: string): (b: string)
    ensures '/' !in b
    ensures |b| <= |path| && b == path[|path| - |b|..]
    ensures |b| < |path| ==> path[|path| - |b| - 1] == '/'
  {
    if |path| == 0 || path[|path| - 1] == '/' then []
    else BaseName(path[..|path| - 1]) + [path[|path| - 1]]
  }

  /** A path made of a directory and a `/`-free name has that name as its
      base name, whatever the directory. */
  lemma BaseNameOfJoin(dir: string, name: string)
    requires '/' !in name
    ensures BaseName(dir + "/" + name) == name
    ensures BaseName(name) == name
  {
    var p := dir + "/" + name;
    assert p[|p| - |name| - 1] == '/';
    assert p[|p| - |name|..] == name;
  }

  /** The message the source attaches to a refused file name. */
  const WrongFileTypeMessage := "Enter proper file type"

  /** The check run before any I/O: only the base name is tested, and a
      refusal is a WRONG_FILE_TYPE exception. */
  function IsFileValid(path: string): (r: Outcome<CensusAnalyserException>)
    ensures r.Pass? <==> MatchesPattern(BaseName(path))
    ensures r.Fail? ==> r.error == Typed(WrongFileTypeMessage, WrongFileType)
  {
    if CheckValidityOfFile(BaseName(path)) then Pass
    else Fail(Typed(WrongFileTypeMessage, WrongFileType))
  }

  /** The directory part of a path never affects the verdict. */
  lemma ValidityIgnoresDirectory(dir: string, name: string)
    requires '/' !in name
    ensures IsFileValid(dir + "/" + name) == IsFileValid(name)
  {
    BaseNameOfJoin(dir, name);
  }

  /** The names the test suite uses: the census file is accepted and the
      same stem with a `.txt` extension is refused. */
  lemma TestSuiteNames()
    ensures CheckValidityOfFile("IndiaStateCensusData.csv")
    ensures !CheckValidityOfFile("IndiaStateCensusData.txt")
  {
  }

  /** The two quirks of the expression: a second dot in the stem is refused,
      yet any character may stand where the dot of `.csv` is expected. */
  lemma DotQuirks()
    ensures !CheckValidityOfFile("a.b.csv")
    ensures CheckValidityOfFile("dataXcsv")
    ensures CheckValidityOfFile("my data.csv")
    ensures !CheckValidityOfFile(".csv")
  {
    assert "a.b.csv"[1] == '.';
  }

  /** The test suite's well-named path passes and its `.txt` path fails,
      before any file is opened. */
  lemma TestSuitePaths()
    ensures IsFileValid("./src/test/java/resources" + "/" + "IndiaStateCensusData.csv").Pass?
    ensures IsFileValid("./src/test/java/resources" + "/" + "IndiaStateCensusData.txt").Fail?
  {
    ValidityIgnoresDirectory("./src/test/java/resources", "IndiaStateCensusData.csv");
    ValidityIgnoresDirectory("./src/test/java/resources", "IndiaStateCensusData.txt");
    TestSuiteNames();
  }
}
