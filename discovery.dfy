/** `findLocalizationFiles`: keeps the enumerated names that end in
    ".strings" and prefixes each with the searched path. The directory
    enumeration itself is an input: the sequence of names (relative to the
    path) in the order the enumerator yields them. */
module Discovery {
  import opened Text

  const StringsExtension: string := ".strings"

  /** The paths `findLocalizationFiles` returns for the enumerated names. */
  function LocalizationFiles(path: string, enumerated: seq<string>): seq<string>
  {
    if |enumerated| == 0 then []
    else
      var init := LocalizationFiles(path, enumerated[..|enumerated| - 1]);
      var element := enumerated[|enumerated| - 1];
      if HasSuffix(element, StringsExtension) then init + [path + "/" + element] else init
  }

  method FindLocalizationFiles(path: string, enumerated: seq<string>) returns (localizationFiles: seq<string>)
    ensures localizationFiles == LocalizationFiles(path, enumerated)
  {
    localizationFiles := [];
    var i := 0;
    while i < |enumerated|
      invariant 0 <= i <= |enumerated|
      invariant localizationFiles == LocalizationFiles(path, enumerated[..i])
    {
      var element := enumerated[i];
      assert enumerated[..i + 1][..i] == enumerated[..i];
      if HasSuffix(element, StringsExtension) {
        localizationFiles := localizationFiles + [path + "/" + element];
      }
      i := i + 1;
    }
    assert enumerated[..|enumerated|] == enumerated;
  }

  /** Enumeration order is kept: the files of a concatenation are the files
      of the first half followed by those of the second. */
  lemma {:induction false} LocalizationFilesConcat(path: string, a: seq<string>, b: seq<string>)
    ensures LocalizationFiles(path, a + b) == LocalizationFiles(path, a) + LocalizationFiles(path, b)
    decreases |b|
  {
    if |b| == 0 {
      assert a + b == a;
    } else {
      var init := b[..|b| - 1];
      assert (a + b)[..|a + b| - 1] == a + init;
      assert (a + b)[|a + b| - 1] == b[|b| - 1];
      LocalizationFilesConcat(path, a, init);
    }
  }

  /** A path is returned exactly when it is the searched path, a slash and a
      ".strings" name that was enumerated. */
  lemma {:induction false} LocalizationFilesMembership(path: string, enumerated: seq<string>, f: string)
    ensures f in LocalizationFiles(path, enumerated) <==>
      exists i :: 0 <= i < |enumerated| && HasSuffix(enumerated[i], StringsExtension) && f == path + "/" + enumerated[i]
    decreases |enumerated|
  {
    if |enumerated| > 0 {
      var init := enumerated[..|enumerated| - 1];
      LocalizationFilesMembership(path, init, f);
      assert forall i :: 0 <= i < |init| ==> init[i] == enumerated[i];
    }
  }

  /** At most one file per enumerated name. */
  lemma {:induction false} LocalizationFilesCount(path: string, enumerated: seq<string>)
    ensures |LocalizationFiles(path, enumerated)| <= |enumerated|
    decreases |enumerated|
  {
    if |enumerated| > 0 {
      LocalizationFilesCount(path, enumerated[..|enumerated| - 1]);
    }
  }
}
