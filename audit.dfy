/** The script's top level: find the localization files under the current
    directory, pick the English one, and diff every other file against it.
    The directory enumeration is the sequence of names the enumerator yields;
    file contents are a map from path to text, a path outside it being a
    file that cannot be read. */
module Audit {
  import opened Common
  import opened Text
  import opened Discovery
  import opened Parser
  import opened Locale
  import opened Diff
  import opened Reports

  /** A path with this ending is taken for the English file. */
  const EnglishSuffix: string := "en.lproj/Localizable.strings"

  /** How a run ends. `EnglishFileNotFound` is `exit(1)`; `Finished` is the
      script running off its end, which exits 0 whatever the count. */
  datatype Outcome =
    | EnglishFileNotFound
    | Crashed(trap: Trap)
    | Finished(reports: seq<LanguageReport>, missingEntriesCount: nat)

  /** `String(contentsOfFile:)`. */
  function ReadFile(contents: map<string, string>, file: string): (r: Option<string>)
    ensures r.Some? <==> file in contents
    ensures r.Some? ==> r.value == contents[file]
  {
    if file in contents then Some(contents[file]) else None
  }

  /** Position of the English file: the last file with the English ending. */
  function EnglishIndex(files: seq<string>): (r: Option<nat>)
    ensures r.Some? ==> r.value < |files| && HasSuffix(files[r.value], EnglishSuffix)
                        && forall j :: r.value < j < |files| ==> !HasSuffix(files[j], EnglishSuffix)
    ensures r.None? ==> forall j :: 0 <= j < |files| ==> !HasSuffix(files[j], EnglishSuffix)
  {
    if |files| == 0 then None
    else if HasSuffix(files[|files| - 1], EnglishSuffix) then Some(|files| - 1)
    else
      var init := files[..|files| - 1];
      var r := EnglishIndex(init);
      assert forall j :: 0 <= j < |init| ==> init[j] == files[j];
      assert r.None? ==> forall j :: 0 <= j < |files| - 1 ==> !HasSuffix(files[j], EnglishSuffix);
      r
  }

  /** The English file's path, "" when there is none. */
  function EnglishFile(files: seq<string>): string
  {
    match EnglishIndex(files)
    case None => ""
    case Some(i) => files[i]
  }

  /** The report of `file` traps. */
  predicate Traps(file: string, englishEntries: seq<LocalizationEntry>, contents: map<string, string>) {
    LanguageReportFor(file, englishEntries, ReadFile(contents, file)).Crash?
  }

  /** The files other than the English one, in discovery order. */
  function OtherFiles(files: seq<string>, englishFile: string): seq<string>
  {
    if |files| == 0 then []
    else
      var init := OtherFiles(files[..|files| - 1], englishFile);
      if files[|files| - 1] == englishFile then init else init + [files[|files| - 1]]
  }

  /** The reports of the report loop, in discovery order; the first trap
      ends the run. */
  function ReportsFor(files: seq<string>, englishFile: string, englishEntries: seq<LocalizationEntry>,
                      contents: map<string, string>): Result<seq<LanguageReport>>
  {
    if |files| == 0 then Ok([])
    else
      var file := files[|files| - 1];
      match ReportsFor(files[..|files| - 1], englishFile, englishEntries, contents)
      case Crash(trap) => Crash(trap)
      case Ok(reports) =>
        if file == englishFile then Ok(reports)
        else
          match LanguageReportFor(file, englishEntries, ReadFile(contents, file))
          case Crash(trap) => Crash(trap)
          case Ok(report) => Ok(reports + [report])
  }

  /** What a run of the script over `enumerated` under `cwd` produces. */
  function RunOutcome(cwd: string, enumerated: seq<string>, contents: map<string, string>): Outcome
  {
    var files := LocalizationFiles(cwd, enumerated);
    var englishFile := EnglishFile(files);
    if englishFile == "" then EnglishFileNotFound
    else
      var englishEntries := ParsedEntries(englishFile, ReadFile(contents, englishFile));
      match ReportsFor(files, englishFile, englishEntries, contents)
      case Crash(trap) => Crashed(trap)
      case Ok(reports) => Finished(reports, TotalMissing(reports))
  }

  /** The loop that marks the English file: the last match wins. */
  method FindEnglishFile(files: seq<string>) returns (englishLocalizationFile: string)
    ensures englishLocalizationFile == EnglishFile(files)
  {
    englishLocalizationFile := "";
    for i := 0 to |files|
      invariant englishLocalizationFile == EnglishFile(files[..i])
    {
      assert files[..i + 1][..i] == files[..i];
      if HasSuffix(files[i], EnglishSuffix) {
        englishLocalizationFile := files[i];
      }
    }
    assert files[..|files|] == files;
  }

  /** The loop that diffs every non-English file and appends its report. */
  method CollectReports(files: seq<string>, englishLocalizationFile: string, englishEntries: seq<LocalizationEntry>,
                        contents: map<string, string>) returns (result: Result<Report>)
    ensures result.Ok? ==> fresh(result.value)
    ensures match ReportsFor(files, englishLocalizationFile, englishEntries, contents)
      case Crash(trap) => result == Crash(trap)
      case Ok(reports) => result.Ok? && result.value.allLanguages == reports
  {
    var report := new Report();
    for i := 0 to |files|
      invariant fresh(report)
      invariant ReportsFor(files[..i], englishLocalizationFile, englishEntries, contents) == Ok(report.allLanguages)
    {
      ReportsForStep(files, i, englishLocalizationFile, englishEntries, contents);
      var file := files[i];
      if file == englishLocalizationFile {
        continue;
      }
      var languageReport := SearchForMissingKeys(file, englishEntries, ReadFile(contents, file));
      if languageReport.Crash? {
        TrapPersists(files, i + 1, englishLocalizationFile, englishEntries, contents);
        return Crash(languageReport.trap);
      }
      report.allLanguages := report.allLanguages + [languageReport.value];
    }
    assert files[..|files|] == files;
    return Ok(report);
  }

  /** One more turn of the report loop. */
  lemma ReportsForStep(files: seq<string>, i: nat, englishFile: string,
                       englishEntries: seq<LocalizationEntry>, contents: map<string, string>)
    requires i < |files|
    ensures ReportsFor(files[..i], englishFile, englishEntries, contents).Crash? ==>
      ReportsFor(files[..i + 1], englishFile, englishEntries, contents) == ReportsFor(files[..i], englishFile, englishEntries, contents)
    ensures ReportsFor(files[..i], englishFile, englishEntries, contents).Ok? && files[i] == englishFile ==>
      ReportsFor(files[..i + 1], englishFile, englishEntries, contents) == ReportsFor(files[..i], englishFile, englishEntries, contents)
    ensures ReportsFor(files[..i], englishFile, englishEntries, contents).Ok? && files[i] != englishFile ==>
      ReportsFor(files[..i + 1], englishFile, englishEntries, contents) ==
        match LanguageReportFor(files[i], englishEntries, ReadFile(contents, files[i]))
        case Crash(trap) => Crash(trap)
        case Ok(report) => Ok(ReportsFor(files[..i], englishFile, englishEntries, contents).value + [report])
  {
    assert files[..i + 1][..i] == files[..i];
  }

  /** The whole script: discovery, the English file, its entries, the report
      loop and the count. */
  method Run(cwd: string, enumerated: seq<string>, contents: map<string, string>) returns (outcome: Outcome)
    ensures outcome == RunOutcome(cwd, enumerated, contents)
  {
    var files := FindLocalizationFiles(cwd, enumerated);
    var englishLocalizationFile := FindEnglishFile(files);
    if englishLocalizationFile == "" {
      return EnglishFileNotFound;
    }
    var englishEntries := ParseLocalizationFile(englishLocalizationFile, ReadFile(contents, englishLocalizationFile));
    var report := CollectReports(files, englishLocalizationFile, englishEntries, contents);
    if report.Crash? {
      return Crashed(report.trap);
    }
    var missingEntriesCount := report.value.MissingEntriesCount();
    return Finished(report.value.allLanguages, missingEntriesCount);
  }

  // ---------------------------------------------------------------------
  // Properties of a run

  /** The English file is "" exactly when no file has the English ending;
      otherwise it is the LAST such file. */
  lemma EnglishFileIsLastMatch(files: seq<string>)
    ensures EnglishFile(files) == "" <==> forall j :: 0 <= j < |files| ==> !HasSuffix(files[j], EnglishSuffix)
    ensures EnglishFile(files) != "" ==>
      exists i :: 0 <= i < |files| && files[i] == EnglishFile(files) && HasSuffix(files[i], EnglishSuffix)
                  && forall j :: i < j < |files| ==> !HasSuffix(files[j], EnglishSuffix)
  {
    match EnglishIndex(files)
    case None =>
    case Some(i) =>
      assert |files[i]| >= |EnglishSuffix| > 0;
  }

  /** The English file is never among the other files, and every other file is. */
  lemma {:induction false} OtherFilesMembership(files: seq<string>, englishFile: string, f: string)
    ensures f in OtherFiles(files, englishFile) <==> f in files && f != englishFile
    decreases |files|
  {
    if |files| > 0 {
      var init := files[..|files| - 1];
      OtherFilesMembership(init, englishFile, f);
      assert files == init + [files[|files| - 1]];
    }
  }

  /** A run that does not trap makes exactly one report per other file, in
      discovery order, each being that file's report. */
  lemma {:induction false} OneReportPerOtherFile(files: seq<string>, englishFile: string,
                                               englishEntries: seq<LocalizationEntry>, contents: map<string, string>)
    requires ReportsFor(files, englishFile, englishEntries, contents).Ok?
    ensures var reports := ReportsFor(files, englishFile, englishEntries, contents).value;
      var others := OtherFiles(files, englishFile);
      |reports| == |others|
      && forall j :: 0 <= j < |reports| ==>
           reports[j].file == others[j]
           && LanguageReportFor(others[j], englishEntries, ReadFile(contents, others[j])) == Ok(reports[j])
    decreases |files|
  {
    if |files| > 0 {
      var init := files[..|files| - 1];
      OneReportPerOtherFile(init, englishFile, englishEntries, contents);
    }
  }

  /** The run traps exactly when the report of some other file traps. */
  lemma {:induction false} ReportsTrap(files: seq<string>, englishFile: string,
                                      englishEntries: seq<LocalizationEntry>, contents: map<string, string>)
    ensures ReportsFor(files, englishFile, englishEntries, contents).Crash? <==>
      exists j :: 0 <= j < |OtherFiles(files, englishFile)| && Traps(OtherFiles(files, englishFile)[j], englishEntries, contents)
    decreases |files|
  {
    if |files| > 0 {
      var last := files[|files| - 1];
      var init := files[..|files| - 1];
      var others, initOthers := OtherFiles(files, englishFile), OtherFiles(init, englishFile);
      ReportsTrap(init, englishFile, englishEntries, contents);
      assert ReportsFor(init, englishFile, englishEntries, contents).Crash? <==>
        exists j :: 0 <= j < |initOthers| && Traps(initOthers[j], englishEntries, contents);
      assert others == if last == englishFile then initOthers else initOthers + [last];
      if ReportsFor(files, englishFile, englishEntries, contents).Crash? {
        if !ReportsFor(init, englishFile, englishEntries, contents).Crash? {
          assert last != englishFile && Traps(last, englishEntries, contents);
          assert others == initOthers + [last];
          assert others[|initOthers|] == last;
          assert Traps(others[|initOthers|], englishEntries, contents);
        } else {
          var j :| 0 <= j < |initOthers| && Traps(initOthers[j], englishEntries, contents);
          assert others[j] == initOthers[j];
        }
      } else {
        assert ReportsFor(init, englishFile, englishEntries, contents).Ok?;
        assert forall j :: 0 <= j < |initOthers| ==> !Traps(initOthers[j], englishEntries, contents);
        if last == englishFile {
          assert others == initOthers;
        } else {
          assert others == initOthers + [last];
          assert !Traps(last, englishEntries, contents);
          forall j | 0 <= j < |others| ensures !Traps(others[j], englishEntries, contents) {
            if j < |initOthers| {
              assert others[j] == initOthers[j];
            } else {
              assert others[j] == last;
            }
          }
        }
      }
    }
  }

  /** A trap in the report loop's prefix is the run's trap. */
  lemma {:induction false} TrapPersists(files: seq<string>, k: nat, englishFile: string,
                                        englishEntries: seq<LocalizationEntry>, contents: map<string, string>)
    requires k <= |files|
    requires ReportsFor(files[..k], englishFile, englishEntries, contents).Crash?
    ensures ReportsFor(files, englishFile, englishEntries, contents) == ReportsFor(files[..k], englishFile, englishEntries, contents)
    decreases |files| - k
  {
    if k == |files| {
      assert files[..k] == files;
    } else {
      var init := files[..|files| - 1];
      assert init[..k] == files[..k];
      TrapPersists(init, k, englishFile, englishEntries, contents);
    }
  }

  /** Without an English file the run stops with exit status 1; with one it
      never ends that way. */
  lemma EnglishFileRequired(cwd: string, enumerated: seq<string>, contents: map<string, string>)
    ensures RunOutcome(cwd, enumerated, contents) == EnglishFileNotFound <==>
      forall f :: f in LocalizationFiles(cwd, enumerated) ==> !HasSuffix(f, EnglishSuffix)
  {
    EnglishFileIsLastMatch(LocalizationFiles(cwd, enumerated));
  }

  /** A finished run counts every missing key of every report. */
  lemma FinishedCount(cwd: string, enumerated: seq<string>, contents: map<string, string>)
    requires RunOutcome(cwd, enumerated, contents).Finished?
    ensures var o := RunOutcome(cwd, enumerated, contents);
      o.missingEntriesCount == TotalMissing(o.reports)
      && (o.missingEntriesCount == 0 <==> forall j :: 0 <= j < |o.reports| ==> o.reports[j].missingKeys == [])
  {
    TotalMissingZero(RunOutcome(cwd, enumerated, contents).reports);
  }

  // ---------------------------------------------------------------------
  // A complete run: English has keys a and b, French only a.

  /** `s + t` ends with `u` of the same length exactly when `t` is `u`. */
  lemma SuffixOfConcat(s: string, t: string, u: string)
    requires |u| == |t|
    ensures HasSuffix(s + t, u) <==> t == u
  {
    assert (s + t)[|s + t| - |u|..] == t;
  }

  /** A directory, its file, another directory and its file yield the two
      files, in enumeration order. */
  lemma TwoDirectories(cwd: string, dir1: string, file1: string, dir2: string, file2: string)
    requires !HasSuffix(dir1, StringsExtension) && HasSuffix(file1, StringsExtension)
    requires !HasSuffix(dir2, StringsExtension) && HasSuffix(file2, StringsExtension)
    ensures LocalizationFiles(cwd, [dir1, file1, dir2, file2]) == [cwd + "/" + file1, cwd + "/" + file2]
  {
    var enumerated := [dir1, file1, dir2, file2];
    assert enumerated[..3] == [dir1, file1, dir2];
    assert enumerated[..3][..2] == [dir1, file1];
    assert enumerated[..2][..1] == [dir1];
    assert [dir1][..0] == [];
    assert LocalizationFiles(cwd, [dir1]) == [];
    assert LocalizationFiles(cwd, [dir1, file1]) == [cwd + "/" + file1];
    assert LocalizationFiles(cwd, [dir1, file1, dir2]) == [cwd + "/" + file1];
  }

  /** Which scenario names carry the ".strings" extension. */
  lemma ScenarioNames()
    ensures !HasSuffix("en.lproj", StringsExtension) && !HasSuffix("fr.lproj", StringsExtension)
    ensures HasSuffix("en.lproj/Localizable.strings", StringsExtension)
    ensures HasSuffix("fr.lproj/Localizable.strings", StringsExtension)
  {
  }

  /** The discovered files of the scenario, in enumeration order. */
  lemma ScenarioFiles(cwd: string)
    ensures LocalizationFiles(cwd, ["en.lproj", "en.lproj/Localizable.strings", "fr.lproj", "fr.lproj/Localizable.strings"])
            == [cwd + "/" + "en.lproj/Localizable.strings", cwd + "/" + "fr.lproj/Localizable.strings"]
  {
    ScenarioNames();
    TwoDirectories(cwd, "en.lproj", "en.lproj/Localizable.strings", "fr.lproj", "fr.lproj/Localizable.strings");
  }

  /** With exactly the first of two files English, that one is picked. */
  lemma EnglishFirst(en: string, fr: string)
    requires HasSuffix(en, EnglishSuffix) && !HasSuffix(fr, EnglishSuffix)
    ensures EnglishFile([en, fr]) == en
  {
    assert [en, fr][..1] == [en];
    assert EnglishIndex([en]) == Some(0);
  }

  /** Of the two scenario files, the English one is the first. */
  lemma ScenarioEnglishFile(cwd: string)
    ensures EnglishFile([cwd + "/" + "en.lproj/Localizable.strings", cwd + "/" + "fr.lproj/Localizable.strings"])
            == cwd + "/" + "en.lproj/Localizable.strings"
  {
    var en, fr := cwd + "/" + "en.lproj/Localizable.strings", cwd + "/" + "fr.lproj/Localizable.strings";
    assert "fr.lproj/Localizable.strings"[0] != EnglishSuffix[0];
    SuffixOfConcat(cwd + "/", "en.lproj/Localizable.strings", EnglishSuffix);
    SuffixOfConcat(cwd + "/", "fr.lproj/Localizable.strings", EnglishSuffix);
    EnglishFirst(en, fr);
  }

  /** With English first and a second file whose report is `report`, the
      report loop yields just that report. */
  lemma TwoFileReports(en: string, fr: string, englishEntries: seq<LocalizationEntry>,
                       contents: map<string, string>, report: LanguageReport)
    requires en != fr
    requires LanguageReportFor(fr, englishEntries, ReadFile(contents, fr)) == Ok(report)
    ensures ReportsFor([en, fr], en, englishEntries, contents) == Ok([report])
  {
    assert [en, fr][..1] == [en];
    assert [en][..0] == [];
    assert ReportsFor([en], en, englishEntries, contents) == Ok([]);
    assert [] + [report] == [report];
  }

  /** The French file name is the code "fr" and the container suffix. */
  lemma FrenchFileName()
    ensures "fr.lproj/Localizable.strings" == "fr" + ContainerSuffix && '/' !in "fr"
  {
  }

  /** Under any directory, "fr.lproj/Localizable.strings" is French. */
  lemma FrenchPath(cwd: string)
    ensures LocalizationFileLanguage(cwd + "/" + "fr.lproj/Localizable.strings") == Ok("French")
  {
    FrenchFileName();
    LanguageOfFileName(cwd, "fr", "fr.lproj/Localizable.strings");
    ExampleEntries();
  }

  /** Of English keys a and b, a target holding only a lacks b. */
  lemma SecondKeyMissing(en: string, fr: string, a: string, b: string)
    requires a != b
    ensures MissingKeys([LocalizationEntry(en, a), LocalizationEntry(en, b)], [LocalizationEntry(fr, a)]) == [b]
  {
    var englishEntries := [LocalizationEntry(en, a), LocalizationEntry(en, b)];
    assert [LocalizationEntry(fr, a)][..0] == [];
    assert Keys([LocalizationEntry(fr, a)]) == [a];
    assert englishEntries[..1] == [LocalizationEntry(en, a)];
    assert [LocalizationEntry(en, a)][..0] == [];
    assert MissingKeys([LocalizationEntry(en, a)], [LocalizationEntry(fr, a)]) == [];
  }

  /** English (en.lproj) lists keys a and b, French (fr.lproj) only a: the run
      finishes with one French report that misses b, and a count of one. */
  lemma EndToEndFrenchMissingOneKey(cwd: string, a: string, va: string, b: string, vb: string)
    requires Quote !in a && Quote !in b && a != b
    requires NewLine !in a && NewLine !in va && NewLine !in b && NewLine !in vb
    ensures var en, fr := cwd + "/" + "en.lproj/Localizable.strings", cwd + "/" + "fr.lproj/Localizable.strings";
      RunOutcome(cwd, ["en.lproj", "en.lproj/Localizable.strings", "fr.lproj", "fr.lproj/Localizable.strings"],
                 map[en := Join([AssignmentLine(a, va), AssignmentLine(b, vb)], NewLine), fr := AssignmentLine(a, va)])
      == Finished([LanguageReport("French", fr, [b])], 1)
  {
    var en, fr := cwd + "/" + "en.lproj/Localizable.strings", cwd + "/" + "fr.lproj/Localizable.strings";
    var englishText := Join([AssignmentLine(a, va), AssignmentLine(b, vb)], NewLine);
    var contents := map[en := englishText, fr := AssignmentLine(a, va)];
    ScenarioFiles(cwd);
    ScenarioEnglishFile(cwd);
    assert en[|cwd| + 1] != fr[|cwd| + 1];
    assert ReadFile(contents, en) == Some(englishText);
    assert ReadFile(contents, fr) == Some(AssignmentLine(a, va));
    ScenarioEntries(en, fr, a, va, b, vb);
    FrenchPath(cwd);
    SecondKeyMissing(en, fr, a, b);
    var report := LanguageReport("French", fr, [b]);
    assert LanguageReportFor(fr, ParsedEntries(en, Some(englishText)), ReadFile(contents, fr)) == Ok(report);
    TwoFileReports(en, fr, ParsedEntries(en, Some(englishText)), contents, report);
    assert [report][..0] == [];
    assert TotalMissing([report]) == 1;
  }
}
