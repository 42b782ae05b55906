/** The per-language findings and the run-wide report that collects them. */
module Reports {

  /** `LanguageReport`: the language name, the file examined and the English
      keys missing from it, in English order. */
  datatype LanguageReport = LanguageReport(language: string, file: string, missingKeys: seq<string>)

  /** Total number of missing keys over a list of language reports. */
  function TotalMissing(reports: seq<LanguageReport>): nat
  {
    if |reports| == 0 then 0
    else TotalMissing(reports[..|reports| - 1]) + |reports[|reports| - 1].missingKeys|
  }

  /** The total of two lists is the sum of their totals. */
  lemma {:induction false} TotalMissingConcat(a: seq<LanguageReport>, b: seq<LanguageReport>)
    ensures TotalMissing(a + b) == TotalMissing(a) + TotalMissing(b)
    decreases |b|
  {
    if |b| == 0 {
      assert a + b == a;
    } else {
      var init := b[..|b| - 1];
      assert (a + b)[..|a + b| - 1] == a + init;
      TotalMissingConcat(a, init);
    }
  }

  /** Appending one report raises the total by exactly that report's count. */
  lemma TotalMissingAppend(reports: seq<LanguageReport>, r: LanguageReport)
    ensures TotalMissing(reports + [r]) == TotalMissing(reports) + |r.missingKeys|
  {
    assert (reports + [r])[..|reports|] == reports;
  }

  /** The total is zero exactly when no report lists a missing key. */
  lemma {:induction false} TotalMissingZero(reports: seq<LanguageReport>)
    ensures TotalMissing(reports) == 0 <==> forall i :: 0 <= i < |reports| ==> reports[i].missingKeys == []
    decreases |reports|
  {
    if |reports| > 0 {
      var init := reports[..|reports| - 1];
      TotalMissingZero(init);
      assert forall i :: 0 <= i < |init| ==> init[i] == reports[i];
    }
  }

  /** `Report`: owns the list of language reports of one run. */
  class Report {
    var allLanguages: seq<LanguageReport>

    constructor ()
      ensures allLanguages == []
    {
      allLanguages := [];
    }

    /** `missingEntriesCount`: the number of missing keys over all languages. */
    method MissingEntriesCount() returns (count: int)
      ensures count == TotalMissing(allLanguages)
    {
      count := 0;
      for i := 0 to |allLanguages|
        invariant count == TotalMissing(allLanguages[..i])
      {
        assert allLanguages[..i + 1][..i] == allLanguages[..i];
        count := count + |allLanguages[i].missingKeys|;
      }
      assert allLanguages[..|allLanguages|] == allLanguages;
    }
  }
}
