/** `searchForMissingKeys`: the English keys that a localization file lacks,
    with that file's language. */
module Diff {
  import opened Common
  import opened Parser
  import opened Locale
  import opened Reports

  /** The keys of a list of entries, in order. */
  function Keys(entries: seq<LocalizationEntry>): (keys: seq<string>)
    ensures |keys| == |entries|
    ensures forall i :: 0 <= i < |entries| ==> keys[i] == entries[i].key
  {
    if |entries| == 0 then [] else Keys(entries[..|entries| - 1]) + [entries[|entries| - 1].key]
  }

  /** The English keys, in English order, that equal no target key. */
  function MissingKeys(englishEntries: seq<LocalizationEntry>, targetEntries: seq<LocalizationEntry>): (missing: seq<string>)
    ensures |missing| <= |englishEntries|
    ensures forall k :: k in missing ==> k !in Keys(targetEntries)
  {
    if |englishEntries| == 0 then []
    else
      var init := MissingKeys(englishEntries[..|englishEntries| - 1], targetEntries);
      var key := englishEntries[|englishEntries| - 1].key;
      if key in Keys(targetEntries) then init else init + [key]
  }

  /** Every key is reported as often as English lists it, unless the target
      has it, in which case it is not reported at all. */
  lemma {:induction false} MissingKeysMultiplicity(englishEntries: seq<LocalizationEntry>, targetEntries: seq<LocalizationEntry>, k: string)
    ensures multiset(MissingKeys(englishEntries, targetEntries))[k] ==
      if k in Keys(targetEntries) then 0 else multiset(Keys(englishEntries))[k]
    decreases |englishEntries|
  {
    if |englishEntries| > 0 {
      MissingKeysMultiplicity(englishEntries[..|englishEntries| - 1], targetEntries, k);
    }
  }

  /** A key is missing exactly when English has it and the target does not. */
  lemma MissingKeysMembership(englishEntries: seq<LocalizationEntry>, targetEntries: seq<LocalizationEntry>, k: string)
    ensures k in MissingKeys(englishEntries, targetEntries) <==> k in Keys(englishEntries) && k !in Keys(targetEntries)
  {
    MissingKeysMultiplicity(englishEntries, targetEntries, k);
    assert k in multiset(MissingKeys(englishEntries, targetEntries)) <==> k in MissingKeys(englishEntries, targetEntries);
    assert k in multiset(Keys(englishEntries)) <==> k in Keys(englishEntries);
  }

  /** English order is kept: the missing keys of a concatenation are those of
      the first part followed by those of the second. */
  lemma {:induction false} MissingKeysConcat(a: seq<LocalizationEntry>, b: seq<LocalizationEntry>, targetEntries: seq<LocalizationEntry>)
    ensures MissingKeys(a + b, targetEntries) == MissingKeys(a, targetEntries) + MissingKeys(b, targetEntries)
    decreases |b|
  {
    if |b| == 0 {
      assert a + b == a;
    } else {
      var init := b[..|b| - 1];
      assert (a + b)[..|a + b| - 1] == a + init;
      assert (a + b)[|a + b| - 1] == b[|b| - 1];
      MissingKeysConcat(a, init, targetEntries);
    }
  }

  /** The report `searchForMissingKeys` returns. The language is looked up
      only while iterating over the English entries: with none, it stays ""
      and the lookup (and its trap) never happens. */
  function LanguageReportFor(file: string, englishEntries: seq<LocalizationEntry>, content: Option<string>): (r: Result<LanguageReport>)
    ensures r.Ok? ==> r.value.file == file
  {
    if |englishEntries| == 0 then Ok(LanguageReport("", file, []))
    else
      match LocalizationFileLanguage(file)
      case Crash(trap) => Crash(trap)
      case Ok(language) => Ok(LanguageReport(language, file, MissingKeys(englishEntries, ParsedEntries(file, content))))
  }

  method SearchForMissingKeys(file: string, englishEntries: seq<LocalizationEntry>, content: Option<string>) returns (r: Result<LanguageReport>)
    ensures r == LanguageReportFor(file, englishEntries, content)
  {
    var report := LanguageReport("", file, []);
    var nonEnglishEntries := ParseLocalizationFile(file, content);
    var i := 0;
    while i < |englishEntries|
      invariant 0 <= i <= |englishEntries|
      invariant report.file == file
      invariant i == 0 ==> report.language == ""
      invariant i > 0 ==> LocalizationFileLanguage(file) == Ok(report.language)
      invariant report.missingKeys == MissingKeys(englishEntries[..i], nonEnglishEntries)
    {
      var language := LocalizationFileLanguage(file);
      if language.Crash? {
        return Crash(language.trap);
      }
      report := report.(language := language.value);
      assert englishEntries[..i + 1][..i] == englishEntries[..i];
      var key := englishEntries[i].key;
      if key !in Keys(nonEnglishEntries) {
        report := report.(missingKeys := report.missingKeys + [key]);
      }
      i := i + 1;
    }
    assert englishEntries[..|englishEntries|] == englishEntries;
    return Ok(report);
  }

  /** The report's invariant: a key is listed exactly when it is an English
      key that the file's own entries lack; the language is the file's
      (or "" when English has no entries). */
  lemma LanguageReportContents(file: string, englishEntries: seq<LocalizationEntry>, content: Option<string>, k: string)
    requires LanguageReportFor(file, englishEntries, content).Ok?
    ensures var report := LanguageReportFor(file, englishEntries, content).value;
      (k in report.missingKeys <==> k in Keys(englishEntries) && k !in Keys(ParsedEntries(file, content)))
      && report.language == (if |englishEntries| == 0 then "" else LocalizationFileLanguage(file).value)
  {
    var target := ParsedEntries(file, content);
    MissingKeysMembership(englishEntries, target, k);
    if |englishEntries| > 0 {
      var language := LocalizationFileLanguage(file);
      assert language.Ok?;
      assert LanguageReportFor(file, englishEntries, content)
        == Ok(LanguageReport(language.value, file, MissingKeys(englishEntries, target)));
    }
  }

  /** A file that cannot be read lacks every English key. */
  lemma UnreadableFileLacksAll(file: string, englishEntries: seq<LocalizationEntry>)
    requires LanguageReportFor(file, englishEntries, None).Ok?
    ensures LanguageReportFor(file, englishEntries, None).value.missingKeys == Keys(englishEntries)
  {
    NothingToMatch(englishEntries);
  }

  /** Against a target without entries, every English key is missing. */
  lemma {:induction false} NothingToMatch(englishEntries: seq<LocalizationEntry>)
    ensures MissingKeys(englishEntries, []) == Keys(englishEntries)
    decreases |englishEntries|
  {
    if |englishEntries| > 0 {
      NothingToMatch(englishEntries[..|englishEntries| - 1]);
    }
  }

  /** Only the language lookup can trap, and only when English has entries. */
  lemma LanguageReportTrap(file: string, englishEntries: seq<LocalizationEntry>, content: Option<string>)
    ensures LanguageReportFor(file, englishEntries, content).Crash? <==>
      |englishEntries| > 0 && LocalizationFileLanguage(file).Crash?
  {
  }
}
