/** `localizationFileLanguage`: the display name of the language a
    localization file belongs to, read off its path. */
module Locale {
  import opened Common
  import opened Text

  /** The trailing part of a path that is dropped before the code is read. */
  const ContainerSuffix: string := ".lproj/Localizable.strings"

  /** The static table from locale code to display name. */
  const CodeToLanguage: map<string, string> := map[
    "en" := "English",
    "en-GB" := "English (British)",
    "en-AU" := "English (Australian)",
    "en-CA" := "English (Canadian)",
    "en-IN" := "English (Indian)",
    "fr" := "French",
    "fr-CA" := "French (Canadian)",
    "es" := "Spanish",
    "es-MX" := "Spanish (Mexico)",
    "pt" := "Portuguese",
    "pt-BR" := "Portuguese (Brazil)",
    "it" := "Italian",
    "de" := "German",
    "zh-Hans" := "Chinese (Simplified)",
    "zh-Hant" := "Chinese (Traditional)",
    "zh-HK" := "Chinese (Hong Kong)",
    "nl" := "Dutch",
    "ja" := "Japanese",
    "ko" := "Korean",
    "vi" := "Vietnamese",
    "ru" := "Russian",
    "sv" := "Swedish",
    "da" := "Danish",
    "fi" := "Finnish",
    "nb" := "Norwegian (Bokmal)",
    "tr" := "Turkish",
    "el" := "Greek",
    "id" := "Indonesian",
    "ms" := "Malay",
    "th" := "Thai",
    "hi" := "Hindi",
    "hu" := "Hungarian",
    "pl" := "Polish",
    "cs" := "Czech",
    "sk" := "Slovak",
    "uk" := "Ukrainian",
    "hr" := "Croatian",
    "ca" := "Catalan",
    "ro" := "Romanian",
    "he" := "Hebrew",
    "ar" := "Arabic"
  ]

  /** Drops as many trailing characters as `ContainerSuffix` has (without
      checking what they are), takes what follows the last "/" of the rest
      and looks it up. A path shorter than the suffix traps; a rest without
      "/" gives ""; a code missing from the table traps (force unwrap). */
  function LocalizationFileLanguage(file: string): (r: Result<string>)
    ensures r.Ok? ==> r.value == "" || r.value in CodeToLanguage.Values
    ensures r.Crash? ==> r.trap == IndexOutOfRange || r.trap.code !in CodeToLanguage
  {
    if |file| < |ContainerSuffix| then Crash(IndexOutOfRange)
    else
      var localizationCode := file[..|file| - |ContainerSuffix|];
      match LastIndexOf(localizationCode, "/")
      case None => Ok("")
      case Some(lastIndexOfSlash) =>
        var code := localizationCode[lastIndexOfSlash + 1..];
        if code in CodeToLanguage then Ok(CodeToLanguage[code]) else Crash(UnknownLocaleCode(code))
  }

  /** The suffix is as long as ".lproj/Localizable.strings": 26 characters. */
  lemma ContainerSuffixLength()
    ensures |ContainerSuffix| == 26
  {
  }

  /** A path of the form dir + "/" + code + any 26 characters resolves
      through the table by `code`, and traps when the table lacks it. */
  lemma LanguageOfCode(dir: string, code: string, tail: string)
    requires '/' !in code
    requires |tail| == |ContainerSuffix|
    ensures LocalizationFileLanguage(dir + "/" + code + tail) ==
      if code in CodeToLanguage then Ok(CodeToLanguage[code]) else Crash(UnknownLocaleCode(code))
  {
    var file := dir + "/" + code + tail;
    var prefix := file[..|file| - |ContainerSuffix|];
    assert prefix == dir + "/" + code;
    LastSlashBeforeCode(dir, code);
    assert prefix[|dir| + 1..] == code;
  }

  /** The last "/" of dir + "/" + code is the one before a slash-free code. */
  lemma LastSlashBeforeCode(dir: string, code: string)
    requires '/' !in code
    ensures LastIndexOf(dir + "/" + code, "/") == Some(|dir|)
  {
    var prefix := dir + "/" + code;
    assert OccursAt(prefix, "/", |dir|);
    forall j | |dir| < j && j + 1 <= |prefix| ensures !OccursAt(prefix, "/", j) {
      assert prefix[j] == code[j - |dir| - 1];
      assert prefix[j..j + 1][0] == prefix[j];
    }
  }

  /** Without a "/" before the dropped suffix, the language is "". */
  lemma LanguageWithoutSeparator(file: string)
    requires |file| >= |ContainerSuffix|
    requires '/' !in file[..|file| - |ContainerSuffix|]
    ensures LocalizationFileLanguage(file) == Ok("")
  {
    var prefix := file[..|file| - |ContainerSuffix|];
    forall j | 0 <= j && j + 1 <= |prefix| ensures !OccursAt(prefix, "/", j) {
      assert prefix[j..j + 1][0] == prefix[j];
    }
  }

  /** A path shorter than the suffix traps. */
  lemma LanguageOfShortPath(file: string)
    requires |file| < |ContainerSuffix|
    ensures LocalizationFileLanguage(file) == Crash(IndexOutOfRange)
  {
  }

  /** The same, for a path given as dir + "/" + code + ".lproj/Localizable.strings". */
  lemma LanguageOfFileName(dir: string, code: string, name: string)
    requires '/' !in code
    requires name == code + ContainerSuffix
    ensures LocalizationFileLanguage(dir + "/" + name) ==
      if code in CodeToLanguage then Ok(CodeToLanguage[code]) else Crash(UnknownLocaleCode(code))
  {
    assert dir + "/" + name == dir + "/" + code + ContainerSuffix;
    LanguageOfCode(dir, code, ContainerSuffix);
  }

  /** The table entries and file names the examples below use. */
  lemma ExampleEntries()
    ensures "fr" in CodeToLanguage && CodeToLanguage["fr"] == "French"
    ensures "fr-CA" in CodeToLanguage && CodeToLanguage["fr-CA"] == "French (Canadian)"
    ensures "de" in CodeToLanguage && CodeToLanguage["de"] == "German"
    ensures "xx" !in CodeToLanguage
  {
  }

  /** Under any directory, "fr-CA.lproj/Localizable.strings" resolves to the
      Canadian French name. */
  lemma FrenchCanadianPath(dir: string)
    ensures LocalizationFileLanguage(dir + "/" + "fr-CA" + ContainerSuffix) == Ok("French (Canadian)")
  {
    assert '/' !in "fr-CA";
    LanguageOfCode(dir, "fr-CA", ContainerSuffix);
    ExampleEntries();
  }

  /** An unknown code is not given a fallback name: the lookup traps. */
  lemma UnknownCodeTraps(dir: string)
    ensures LocalizationFileLanguage(dir + "/" + "xx" + ContainerSuffix) == Crash(UnknownLocaleCode("xx"))
  {
    assert '/' !in "xx";
    LanguageOfCode(dir, "xx", ContainerSuffix);
    ExampleEntries();
  }

  /** The dropped characters are not checked against the suffix. */
  lemma SuffixNotChecked(dir: string)
    ensures LocalizationFileLanguage(dir + "/" + "de" + "ABCDEFGHIJKLMNOPQRSTUVWXYZ") == Ok("German")
  {
    assert '/' !in "de";
    assert |"ABCDEFGHIJKLMNOPQRSTUVWXYZ"| == |ContainerSuffix|;
    LanguageOfCode(dir, "de", "ABCDEFGHIJKLMNOPQRSTUVWXYZ");
    ExampleEntries();
  }
}
