/** `parseLocalizationFile`: extracts the key of every line of a `.strings`
    file that, once trimmed, opens with a double quote. The key runs up to the
    FIRST following double quote; escapes are not looked at and values are not
    extracted. The file's content is an input: `None` when it cannot be read. */
module Parser {
  import opened Common
  import opened Text

  /** `LocalizationEntry`: the file an entry was read from and its key. */
  datatype LocalizationEntry = LocalizationEntry(path: string, key: string)

  const Quote: char := '"'
  const NewLine: char := '\n'

  /** The key one line contributes, if it contributes one. */
  function KeyOfLine(line: string): (r: Option<string>)
    ensures r.Some? ==> Quote !in r.value
  {
    var trimmed := Trim(line);
    if !HasPrefix(trimmed, [Quote]) then None
    else
      var rest := trimmed[1..];
      match IndexOf(rest, Quote)
      case None => None
      case Some(i) => Some(rest[..i])
  }

  /** The key (if any) of every line, line by line. */
  function LineKeys(lines: seq<string>): (keys: seq<Option<string>>)
    ensures |keys| == |lines|
  {
    MapSeq(lines, KeyOfLine)
  }

  /** Position `i` of `LineKeys` is the key of line `i`. */
  lemma LineKeysAt(lines: seq<string>, i: nat)
    requires i < |lines|
    ensures LineKeys(lines)[i] == KeyOfLine(lines[i])
  {
  }

  /** One entry from `file` for each present key, in order. */
  function EntriesOfKeys(file: string, keys: seq<Option<string>>): (entries: seq<LocalizationEntry>)
    ensures |entries| <= |keys|
    ensures forall e :: e in entries ==> e.path == file && Some(e.key) in keys
  {
    if |keys| == 0 then []
    else
      var init := EntriesOfKeys(file, keys[..|keys| - 1]);
      match keys[|keys| - 1]
      case None => init
      case Some(k) => init + [LocalizationEntry(file, k)]
  }

  /** The entries read from a sequence of lines, in line order. */
  function EntriesOfLines(file: string, lines: seq<string>): (entries: seq<LocalizationEntry>)
    ensures |entries| <= |lines|
    ensures forall e :: e in entries ==> e.path == file && Quote !in e.key
  {
    var keys := LineKeys(lines);
    var entries := EntriesOfKeys(file, keys);
    assert forall e :: e in entries ==> Quote !in e.key by {
      forall e | e in entries ensures Quote !in e.key {
        var i :| 0 <= i < |keys| && keys[i] == Some(e.key);
        LineKeysAt(lines, i);
      }
    }
    entries
  }

  /** The entries `parseLocalizationFile` returns: none for unreadable
      content, otherwise those of its newline-separated lines. */
  function ParsedEntries(file: string, content: Option<string>): (entries: seq<LocalizationEntry>)
    ensures content.None? ==> entries == []
    ensures content.Some? ==> |entries| <= |Split(content.value, NewLine)|
    ensures forall e :: e in entries ==> e.path == file && Quote !in e.key
  {
    match content
    case None => []
    case Some(c) => EntriesOfLines(file, Split(c, NewLine))
  }

  method ParseLocalizationFile(file: string, content: Option<string>) returns (localizationEntries: seq<LocalizationEntry>)
    ensures localizationEntries == ParsedEntries(file, content)
  {
    localizationEntries := [];
    if content.None? {
      return;
    }
    var lines := Split(content.value, NewLine);
    var i := 0;
    while i < |lines|
      invariant 0 <= i <= |lines|
      invariant localizationEntries == EntriesOfKeys(file, LineKeys(lines[..i]))
    {
      assert lines[..i + 1][..i] == lines[..i];
      assert MapSeq(lines[..i + 1], KeyOfLine)[..i] == MapSeq(lines[..i], KeyOfLine);
      var line := Trim(lines[i]);
      if HasPrefix(line, [Quote]) {
        line := line[1..];
        var index := IndexOf(line, Quote);
        if index.Some? {
          var key := line[..index.value];
          localizationEntries := localizationEntries + [LocalizationEntry(file, key)];
        }
      }
      i := i + 1;
    }
    assert lines[..|lines|] == lines;
  }

  /** The first occurrence is the one with no earlier occurrence. */
  lemma IndexOfIs(s: string, c: char, i: nat)
    requires i < |s| && s[i] == c && c !in s[..i]
    ensures IndexOf(s, c) == Some(i)
  {
    assert c in s;
  }

  /** A line yields key `k` exactly when its trimmed form is a quote, `k`,
      and a quote, followed by anything, with no quote inside `k`. */
  lemma KeyOfLineShape(line: string, k: string)
    ensures KeyOfLine(line) == Some(k) <==>
      (var t := Trim(line);
       |k| + 2 <= |t| && t[0] == Quote && t[1..|k| + 1] == k && t[|k| + 1] == Quote && Quote !in k)
  {
    var t := Trim(line);
    if |k| + 2 <= |t| && t[0] == Quote && t[1..|k| + 1] == k && t[|k| + 1] == Quote && Quote !in k {
      var rest := t[1..];
      assert rest[..|k|] == k;
      assert HasPrefix(t, [Quote]);
      IndexOfIs(rest, Quote, |k|);
    }
  }

  /** A line yields nothing exactly when its trimmed form does not open with a
      quote, or holds no second quote. */
  lemma KeyOfLineNone(line: string)
    ensures KeyOfLine(line).None? <==>
      (var t := Trim(line); |t| == 0 || t[0] != Quote || Quote !in t[1..])
  {
    var t := Trim(line);
    if |t| > 0 && t[0] == Quote {
      assert HasPrefix(t, [Quote]);
    }
  }

  /** Indices of the present keys, in increasing order. */
  function KeyedIndices(keys: seq<Option<string>>): (idx: seq<nat>)
    ensures forall j :: 0 <= j < |idx| ==> idx[j] < |keys| && keys[idx[j]].Some?
    ensures forall j, k :: 0 <= j < k < |idx| ==> idx[j] < idx[k]
    ensures forall i :: 0 <= i < |keys| && keys[i].Some? ==> i in idx
  {
    if |keys| == 0 then []
    else
      var last := |keys| - 1;
      var init := KeyedIndices(keys[..last]);
      assert forall i :: 0 <= i < last ==> keys[..last][i] == keys[i];
      if keys[last].Some? then init + [last] else init
  }

  /** The j-th entry carries the j-th present key. */
  lemma {:induction false} EntriesFollowKeys(file: string, keys: seq<Option<string>>)
    ensures |EntriesOfKeys(file, keys)| == |KeyedIndices(keys)|
    ensures forall j :: 0 <= j < |KeyedIndices(keys)| ==> keys[KeyedIndices(keys)[j]] == Some(EntriesOfKeys(file, keys)[j].key)
    decreases |keys|
  {
    if |keys| > 0 {
      var last := |keys| - 1;
      var init := keys[..last];
      EntriesFollowKeys(file, init);
      var all, entries, idx := EntriesOfKeys(file, keys), EntriesOfKeys(file, init), KeyedIndices(init);
      forall j | 0 <= j < |idx|
        ensures keys[idx[j]] == Some(entries[j].key)
      {
        assert init[idx[j]] == keys[idx[j]];
      }
      match keys[last]
      case None =>
        assert KeyedIndices(keys) == idx;
        assert all == entries;
      case Some(k) =>
        assert KeyedIndices(keys) == idx + [last];
        assert all == entries + [LocalizationEntry(file, k)];
    }
  }

  /** Indices of the lines that yield a key, in increasing order. */
  function KeyedLines(lines: seq<string>): seq<nat>
  {
    KeyedIndices(LineKeys(lines))
  }

  /** The parser yields one entry per keyed line, in line order: the j-th
      entry carries the key of the j-th keyed line (and `file` as its path,
      by the contract of `EntriesOfLines`); no other line yields a key. */
  lemma EntriesFollowKeyedLines(file: string, lines: seq<string>)
    ensures |EntriesOfLines(file, lines)| == |KeyedLines(lines)|
    ensures forall j :: 0 <= j < |KeyedLines(lines)| ==>
      KeyedLines(lines)[j] < |lines| && KeyOfLine(lines[KeyedLines(lines)[j]]) == Some(EntriesOfLines(file, lines)[j].key)
    ensures forall j, k :: 0 <= j < k < |KeyedLines(lines)| ==> KeyedLines(lines)[j] < KeyedLines(lines)[k]
    ensures forall i :: 0 <= i < |lines| && KeyOfLine(lines[i]).Some? ==> i in KeyedLines(lines)
  {
    var keys := LineKeys(lines);
    EntriesFollowKeys(file, keys);
    forall i | 0 <= i < |lines| ensures keys[i] == KeyOfLine(lines[i]) {
      LineKeysAt(lines, i);
    }
  }

  /** A line that needs no trimming is its own trimmed form. */
  lemma TrimUntouched(line: string)
    requires line == [] || (!IsWhitespace(line[0]) && !IsWhitespace(line[|line| - 1]))
    ensures Trim(line) == line
  {
    assert LeadingWhitespace(line) == 0;
  }

  /** The text of a `"key" = "value";` line, as `.strings` files write it. */
  function AssignmentLine(k: string, v: string): string
  {
    [Quote] + k + "\" = \"" + v + "\";"
  }

  /** An assignment line holds a newline only if its key or value does. */
  lemma AssignmentLineHasNoNewLine(k: string, v: string)
    requires NewLine !in k && NewLine !in v
    ensures NewLine !in AssignmentLine(k, v)
  {
    assert NewLine !in "\" = \"" && NewLine !in "\";";
  }

  /** The keys of one line and of two lines. */
  lemma LineKeysOfTwo(lineA: string, lineB: string)
    ensures LineKeys([lineA]) == [KeyOfLine(lineA)]
    ensures LineKeys([lineA, lineB]) == [KeyOfLine(lineA), KeyOfLine(lineB)]
  {
    assert [lineA, lineB][..1] == [lineA];
    assert [lineA][..0] == [];
  }

  /** The entries of one present key and of two. */
  lemma EntriesOfTwoKeys(file: string, a: string, b: string)
    ensures EntriesOfKeys(file, [Some(a)]) == [LocalizationEntry(file, a)]
    ensures EntriesOfKeys(file, [Some(a), Some(b)]) == [LocalizationEntry(file, a), LocalizationEntry(file, b)]
  {
    assert [Some(a), Some(b)][..1] == [Some(a)];
    assert [Some(a)][..0] == [];
  }

  /** Two lines with keys a and b give entries a then b, in that order. */
  lemma TwoKeyedLines(file: string, lineA: string, lineB: string, a: string, b: string)
    requires KeyOfLine(lineA) == Some(a) && KeyOfLine(lineB) == Some(b)
    ensures EntriesOfLines(file, [lineA, lineB]) == [LocalizationEntry(file, a), LocalizationEntry(file, b)]
    ensures EntriesOfLines(file, [lineA]) == [LocalizationEntry(file, a)]
  {
    LineKeysOfTwo(lineA, lineB);
    EntriesOfTwoKeys(file, a, b);
  }

  /** The keys of the lines of a two-key file and of its one-key copy. */
  lemma ScenarioEntries(en: string, fr: string, a: string, va: string, b: string, vb: string)
    requires Quote !in a && Quote !in b
    requires NewLine !in a && NewLine !in va && NewLine !in b && NewLine !in vb
    ensures ParsedEntries(en, Some(Join([AssignmentLine(a, va), AssignmentLine(b, vb)], NewLine)))
            == [LocalizationEntry(en, a), LocalizationEntry(en, b)]
    ensures ParsedEntries(fr, Some(AssignmentLine(a, va))) == [LocalizationEntry(fr, a)]
  {
    var lineA, lineB := AssignmentLine(a, va), AssignmentLine(b, vb);
    AssignmentLineHasNoNewLine(a, va);
    AssignmentLineHasNoNewLine(b, vb);
    SplitJoin([lineA, lineB], NewLine);
    SplitJoin([lineA], NewLine);
    assert Join([lineA], NewLine) == lineA;
    AssignmentLineKey(a, va);
    AssignmentLineKey(b, vb);
    TwoKeyedLines(en, lineA, lineB, a, b);
    TwoKeyedLines(fr, lineA, lineB, a, b);
  }

  /** A `"key" = "value";` line whose key holds no quote yields that key. */
  lemma AssignmentLineKey(k: string, v: string)
    requires Quote !in k
    ensures KeyOfLine(AssignmentLine(k, v)) == Some(k)
  {
    var line := AssignmentLine(k, v);
    TrimUntouched(line);
    assert line[1..|k| + 1] == k;
    assert line[|k| + 1] == Quote;
    KeyOfLineShape(line, k);
  }

  /** With no escape handling, a backslash-escaped quote ends the key: the
      line `"k1\"k2" = "v";` yields `k1\`. */
  lemma EscapedQuoteEndsKey(k1: string, k2: string, v: string)
    requires Quote !in k1
    ensures KeyOfLine([Quote] + k1 + "\\\"" + k2 + "\" = \"" + v + "\";") == Some(k1 + "\\")
  {
    var k := k1 + "\\";
    var line := [Quote] + k1 + "\\\"" + k2 + "\" = \"" + v + "\";";
    assert line == [Quote] + k + [Quote] + k2 + "\" = \"" + v + "\";";
    assert !IsWhitespace(line[0]) && line[|line| - 1] == ';';
    TrimUntouched(line);
    assert line[1..|k| + 1] == k;
    assert line[|k| + 1] == Quote;
    assert Quote !in k;
    KeyOfLineShape(line, k);
  }
}
