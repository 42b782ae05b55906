# i1n localization audit, modelled in Dafny

`i1n` is a Swift script that audits the `Localizable.strings` files of an
iOS project. It enumerates the current directory and keeps every name that
ends in `.strings`. It picks the last file that ends in
`en.lproj/Localizable.strings` as the English file, and stops with exit
status 1 when there is none. It parses the keys of every file line by line.
For every other file it reports the English keys that file lacks, together
with the file's language. The language is read off the path through a fixed
table of 41 locale codes. Finally the script sums the missing keys over all
reports.

The model follows the script's own structure:

| module | file | models |
|---|---|---|
| `Common` | common.dfy | `Option`, `Result`, and the traps the script can hit |
| `Text` | text.dfy | the Foundation string operations the script uses: `hasPrefix`, `hasSuffix`, `trimmingCharacters(in: .whitespaces)`, `components(separatedBy:)`, `index(of:)` and the `lastIndex(of:)` extension |
| `PropertyNames` | property_name.dfy | `PropertyName.propertyName` and `capitalizeFirstCharacter` |
| `Reports` | report.dfy | `LanguageReport` and the `Report` class with `missingEntriesCount` |
| `Discovery` | discovery.dfy | the filter loop of `findLocalizationFiles` |
| `Parser` | parser.dfy | `LocalizationEntry` and `parseLocalizationFile` |
| `Locale` | locale.dfy | `localizationFileLanguage` and its code table |
| `Diff` | diff.dfy | `searchForMissingKeys` |
| `Audit` | audit.dfy | the main script: English-file selection, the report loop and the final count |

The loops of the script are imperative methods: `PropertyName`,
`MissingEntriesCount`, `FindLocalizationFiles`, `ParseLocalizationFile`,
`SearchForMissingKeys`, `FindEnglishFile` and `CollectReports`. Each is proved
equal to a specification function (recursive, or built on one), and the properties are proved
about those functions as lemmas. `Run` has no loop of its own: it calls those
methods in the script's order and is proved equal to the function
`RunOutcome`. `Report` is a class whose `allLanguages` field the report loop
appends to.

The script's inputs become parameters:
- The directory enumeration is the sequence of relative names the enumerator
  yields, in its order.
- File contents are a map from path to text. A path outside the map is a file
  that `String(contentsOfFile:)` cannot read.
- The current directory is a string.

The traps of the script are `Crash` results rather than preconditions:
- a path shorter than the 26-character container suffix makes
  `index(_:offsetBy:)` step before the start;
- a code missing from the table hits the force unwrap.

A run ends in one of three ways, given by `Audit.Outcome`:
- `EnglishFileNotFound` is `exit(1)`;
- `Crashed` is a trap;
- `Finished` is the script running to its end, which exits with status 0
  whatever the count.

The script does less than an audit tool might be expected to do, and the
model does exactly what the script does:
- The key is cut at the first quote, with no escape handling.
- Values are not parsed.
- There is no `Base` special case.
- An unknown locale code has no fallback name.
- Plural keys get no exemption.
- There are no command-line flags.
- The exit status is 0 even when keys are missing.

## Model

| member | source | states |
|---|---|---|
| Text.HasPrefix | i1n/i1n/main.swift:82 | `hasPrefix`: the string is the prefix followed by the rest of the string |
| Text.HasSuffix | i1n/i1n/main.swift:67 | `hasSuffix` (also at line 185): the string is the rest of the string followed by the suffix |
| Text.IsWhitespace | i1n/i1n/main.swift:81 | membership in `NSCharacterSet.whitespaces`: space and tab are in it, line breaks ("\n", "\r") are not |
| Text.Trim | i1n/i1n/main.swift:81 | the trimmed line is the slice of the line that starts at its first non-whitespace character; every character outside it is whitespace (tab or a space separator) and neither of its ends is |
| Text.Split | i1n/i1n/main.swift:79 | splitting on "\n" gives at least one line and no line contains "\n" |
| Text.JoinSplit | i1n/i1n/main.swift:79 | splitting loses nothing: joining the lines with the separator gives the content back |
| Text.SplitJoin | i1n/i1n/main.swift:79 | separator-free lines joined and split again are the same lines |
| Text.IndexOf | i1n/i1n/main.swift:86 | `index(of:)` finds the FIRST occurrence of the character; it finds nothing exactly when the character does not occur |
| Text.LastIndexOf | i1n/i1n/main.swift:8-14 | `lastIndex(of:)` gives a position where the target occurs with no later occurrence; nil means no occurrence, and an empty target is never found |
| PropertyNames.UpperCase | i1n/i1n/main.swift:35 | `uppercased()` of one character, on ASCII: a lower-case letter becomes the capital at the same place in the alphabet (`k` to `K`), every other character is unchanged, and no lower-case letter is ever returned |
| PropertyNames.CapitalizeFirstCharacter | i1n/i1n/main.swift:34-38 | as written, the capital is inserted in front of the whole string: the result is one character longer, starts with the upper-cased initial, and the rest is the unchanged input |
| PropertyNames.PropertyName | i1n/i1n/main.swift:23-32 | the loop builds the first part followed by every later part passed through `capitalizeFirstCharacter`; it needs a first part and non-empty later parts |
| PropertyNames.PropertyNameSingle | i1n/i1n/main.swift:25-26 | a one-part name is that part unchanged |
| PropertyNames.PropertyNameLength | i1n/i1n/main.swift:23-38 | the name is as long as all parts together plus one character per later part |
| PropertyNames.PropertyNameStartsWithFirstPart | i1n/i1n/main.swift:25 | the name starts with the first part, whole and untouched |
| PropertyNames.PropertyNameSegment | i1n/i1n/main.swift:27-29 | every later part shows up as its upper-cased first character followed by the WHOLE part, right after what the earlier parts produced |
| PropertyNames.PropertyNameDoublesInitial | i1n/i1n/main.swift:34-38 | as written, `["my", "key"]` gives `"myKkey"` |
| PropertyNames.CapitalizedInPlace | i1n/i1n/main.swift:34-38 | the intended capitalisation keeps the length and replaces only the first character with its upper-case form |
| PropertyNames.CamelCaseNameLength | i1n/i1n/main.swift:23-38 | the intended name is exactly as long as all parts together |
| PropertyNames.CamelCaseNameSegment | i1n/i1n/main.swift:23-38 | in the intended name, every later part appears capitalised in place, right after the earlier parts |
| PropertyNames.CamelCaseNameExample | i1n/i1n/main.swift:23-38 | the intended name of `["my", "key"]` is `"myKey"` |
| Reports.Report.constructor | i1n/i1n/main.swift:47-51 | a new report holds no language reports, so its count is 0 |
| Reports.Report.MissingEntriesCount | i1n/i1n/main.swift:53-59 | the count is the total number of missing keys over all language reports |
| Reports.TotalMissingConcat | i1n/i1n/main.swift:53-59 | the total over two lists of language reports is the sum of their totals |
| Reports.TotalMissingAppend | i1n/i1n/main.swift:55-57 | appending a language report raises the total by exactly that report's number of missing keys |
| Reports.TotalMissingZero | i1n/i1n/main.swift:53-59 | the total is 0 exactly when no language report lists a missing key |
| Discovery.FindLocalizationFiles | i1n/i1n/main.swift:62-72 | the loop returns the enumerated names that end in ".strings", each prefixed by the path and "/", in enumeration order |
| Discovery.LocalizationFilesConcat | i1n/i1n/main.swift:66-70 | enumeration order is kept: the files of two concatenated enumerations are the files of the first followed by those of the second |
| Discovery.LocalizationFilesMembership | i1n/i1n/main.swift:66-70 | a path is returned exactly when it is the path, "/" and an enumerated name that ends in ".strings" |
| Discovery.LocalizationFilesCount | i1n/i1n/main.swift:66-70 | at most one file per enumerated name |
| Parser.KeyOfLine | i1n/i1n/main.swift:81-88 | the key a line contributes never contains a double quote |
| Parser.EntriesOfLines | i1n/i1n/main.swift:79-90 | at most one entry per line, every entry has the parsed file as its path, and no key contains a double quote |
| Parser.ParsedEntries | i1n/i1n/main.swift:76-94 | unreadable content gives no entries; otherwise at most one entry per "\n"-separated line, each with the file as its path and a quote-free key |
| Parser.ParseLocalizationFile | i1n/i1n/main.swift:74-95 | the loop over the lines returns exactly the parsed entries of the content |
| Parser.KeyOfLineShape | i1n/i1n/main.swift:81-88 | a line yields key k exactly when its trimmed form is a quote, k, a quote and then anything, with no quote inside k |
| Parser.KeyOfLineNone | i1n/i1n/main.swift:81-86 | a line yields nothing exactly when its trimmed form does not open with a quote or holds no second quote |
| Parser.LineKeysAt | i1n/i1n/main.swift:80-89 | the key sequence of the lines has, at each position, the key of that line |
| Parser.EntriesFollowKeyedLines | i1n/i1n/main.swift:79-90 | one entry per line that yields a key, in line order: the j-th entry carries the key of the j-th such line, and every line that yields a key has its entry |
| Parser.AssignmentLineKey | i1n/i1n/main.swift:81-88 | a `"k" = "v";` line whose key holds no quote yields k (for example `"a.b" = "x";` yields `a.b`) |
| Parser.EscapedQuoteEndsKey | i1n/i1n/main.swift:86-87 | escapes are not looked at: in `"k1\"k2" = "v";` the key ends at the escaped quote and is `k1\` |
| Locale.LocalizationFileLanguage | i1n/i1n/main.swift:111-161 | the language is "" or a name from the table; a trap is either a path that is too short or a code missing from the table |
| Locale.ContainerSuffixLength | i1n/i1n/main.swift:112 | the dropped suffix is 26 characters long |
| Locale.LanguageOfCode | i1n/i1n/main.swift:112-161 | for a path of the form dir + "/" + code + any 26 characters, with no "/" in the code, the code is looked up in the table, and a code missing from it traps |
| Locale.LanguageWithoutSeparator | i1n/i1n/main.swift:113-116 | with no "/" before the dropped suffix, the language is "" |
| Locale.LanguageOfShortPath | i1n/i1n/main.swift:112 | a path shorter than the suffix traps |
| Locale.FrenchCanadianPath | i1n/i1n/main.swift:117-161 | under any directory, `fr-CA.lproj/Localizable.strings` is "French (Canadian)" |
| Locale.UnknownCodeTraps | i1n/i1n/main.swift:161 | an unknown code gets no fallback name: the force unwrap traps |
| Locale.SuffixNotChecked | i1n/i1n/main.swift:112 | the dropped 26 characters are not compared with the suffix: `de` followed by any 26 letters is "German" |
| Diff.Keys | i1n/i1n/main.swift:103 | the keys `contains(where: { $0.key == ... })` compares against: one per entry, the i-th being the i-th entry's key |
| Diff.MissingKeys | i1n/i1n/main.swift:100-107 | the keys the loop appends: at most one per English entry, and none that a target entry has |
| Diff.MissingKeysMultiplicity | i1n/i1n/main.swift:100-107 | a key is reported as often as English lists it, or not at all when the target has it |
| Diff.MissingKeysMembership | i1n/i1n/main.swift:103-104 | a key is missing exactly when it is an English key and no target key equals it |
| Diff.MissingKeysConcat | i1n/i1n/main.swift:100-107 | missing keys keep English order |
| Diff.LanguageReportFor | i1n/i1n/main.swift:97-109 | the report's file is the examined file |
| Diff.SearchForMissingKeys | i1n/i1n/main.swift:97-109 | the loop returns the report of the file, or the trap of the language lookup |
| Diff.LanguageReportContents | i1n/i1n/main.swift:98-107 | a key is in the report exactly when it is an English key that the file's own entries lack; the language is the file's, or "" when English has no entries |
| Diff.UnreadableFileLacksAll | i1n/i1n/main.swift:91-93 | a file that cannot be read lacks every English key |
| Diff.NothingToMatch | i1n/i1n/main.swift:103 | against a target without entries every English key is missing, in order |
| Diff.LanguageReportTrap | i1n/i1n/main.swift:100-102 | the report traps exactly when English has entries and the language lookup traps |
| Audit.ReadFile | i1n/i1n/main.swift:78 | `String(contentsOfFile:)`: the content is present exactly when the file can be read, and it is that file's content |
| Audit.EnglishIndex | i1n/i1n/main.swift:183-188 | the English file is a file with the English ending and no later file has it; with no such file there is none |
| Audit.FindEnglishFile | i1n/i1n/main.swift:183-188 | the loop returns the last file with the English ending, or "" |
| Audit.CollectReports | i1n/i1n/main.swift:203-211 | the loop appends, to a fresh report, the report of every file except the English one, in discovery order, or stops at the first trap |
| Audit.Run | i1n/i1n/main.swift:180-220 | the whole script produces the run's outcome: exit 1 without an English file, a trap, or the reports and their total |
| Audit.EnglishFileIsLastMatch | i1n/i1n/main.swift:184-188 | the English file is "" exactly when no file has the English ending; otherwise it is the LAST such file |
| Audit.OtherFilesMembership | i1n/i1n/main.swift:204-208 | the English file is never diffed and every other file is |
| Audit.OneReportPerOtherFile | i1n/i1n/main.swift:204-211 | a run without a trap makes exactly one report per other file, in discovery order, each that file's report |
| Audit.ReportsTrap | i1n/i1n/main.swift:204-211 | the report loop traps exactly when the report of some other file traps |
| Audit.TrapPersists | i1n/i1n/main.swift:209 | the first trap of the loop is the trap of the run |
| Audit.EnglishFileRequired | i1n/i1n/main.swift:189-192 | the run ends with exit status 1 exactly when no discovered file has the English ending |
| Audit.FinishedCount | i1n/i1n/main.swift:215-220 | a finished run's count is the total over its reports, and it is 0 exactly when no report lists a missing key |
| Audit.EndToEndFrenchMissingOneKey | i1n/i1n/main.swift:180-220 | under any directory, with English holding keys a and b and French only a, the run finishes with one French report missing b and a count of 1 |

## Left out

- File-system access (`FileManager`'s enumerator, `String(contentsOfFile:)`) is replaced by parameters: the enumerated names, and a map from path to content.
- The `as? String` cast of the enumerator's objects is left out, because the names are given as strings.
- `generateHtmlReport` is left out, because it only writes an empty string to `report.xml`.
- Console output (`print`) is left out. `exit(1)` is the `EnglishFileNotFound` outcome.
- The UIKit demo app (`Demo/Demo/ViewController.swift`) is not part of this model, because it is pure UI.
- PropertyNames.UpperCase: upper-cases only the ASCII letters. Foundation's Unicode case mapping, including expansions such as ß to SS, is left out.
- Characters are Unicode scalars. Swift compares and counts grapheme clusters, and its `hasPrefix`, `hasSuffix` and `==` use canonical equivalence; none of that is modelled.
- Swift's 64-bit `Int` in `missingEntriesCount` cannot overflow for any real project, so the count is unbounded.
- Line 117 offsets an index of `file` into its prefix `localizationCode`. That index is modelled as the position in the prefix, which is the same position because the prefix shares the start.
- `PropertyName.propertyName` has no caller in the script. Its traps, `parts[0]` on an empty array and `string[startIndex]` on an empty later part, are preconditions (`ValidParts`).

## Findings

| source | as written | input that shows it | evidently intended | confidence | as-written member | corrected member |
|---|---|---|---|---|---|---|
| i1n/i1n/main.swift:34-38 | `capitalizeFirstCharacter` replaces the empty range `startIndex..<startIndex`, so it inserts the capital in front of the string | `propertyName(parts: ["my", "key"])` gives `"myKkey"` | capitalise the first character in place, giving `"myKey"` | not executed | PropertyNames.PropertyNameDoublesInitial | PropertyNames.CamelCaseNameSegment |
