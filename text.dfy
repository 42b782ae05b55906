/** The string operations the audit script takes from Swift and Foundation:
    prefix and suffix tests, trimming, splitting on a separator, first- and
    last-occurrence searches. Characters are Unicode scalars. */
module Text {
  import opened Common

  /** `hasPrefix`: `s` is `p` followed by the rest of `s`. */
  predicate HasPrefix(s: string, p: string)
    ensures HasPrefix(s, p) <==> |p| <= |s| && s == p + s[|p|..]
  {
    |p| <= |s| && s[..|p|] == p
  }

  /** `hasSuffix`: `s` is the rest of `s` followed by `p`. */
  predicate HasSuffix(s: string, p: string)
    ensures HasSuffix(s, p) <==> |p| <= |s| && s == s[..|s| - |p|] + p
  {
    |p| <= |s| && s[|s| - |p|..] == p
  }

  /** Membership in Foundation's `whitespaces` set: the horizontal tab and the
      space separators (Unicode general category Zs). Line breaks are not in it. */
  predicate IsWhitespace(c: char)
    ensures c == ' ' || c == '\t' ==> IsWhitespace(c)
    ensures IsWhitespace(c) ==> c != '\n' && c != '\r'
  {
    c == '\t' || c == ' ' || c == '\U{00A0}' || c == '\U{1680}'
    || ('\U{2000}' <= c <= '\U{200A}')
    || c == '\U{202F}' || c == '\U{205F}' || c == '\U{3000}'
  }

  /** Number of whitespace characters at the start of `s`. */
  function LeadingWhitespace(s: string): (n: nat)
    ensures n <= |s|
    ensures forall k :: 0 <= k < n ==> IsWhitespace(s[k])
    ensures n < |s| ==> !IsWhitespace(s[n])
  {
    if |s| > 0 && IsWhitespace(s[0]) then 1 + LeadingWhitespace(s[1..]) else 0
  }

  /** Number of whitespace characters at the end of `s`. */
  function TrailingWhitespace(s: string): (n: nat)
    ensures n <= |s|
    ensures forall k :: |s| - n <= k < |s| ==> IsWhitespace(s[k])
    ensures n < |s| ==> !IsWhitespace(s[|s| - 1 - n])
  {
    if |s| > 0 && IsWhitespace(s[|s| - 1]) then 1 + TrailingWhitespace(s[..|s| - 1]) else 0
  }

  /** `trimmingCharacters(in: .whitespaces)`: the result is the slice of `s`
      that starts at its first non-whitespace character, every character
      outside that slice is whitespace, and neither end of it is. */
  function Trim(s: string): (r: string)
    ensures LeadingWhitespace(s) + |r| <= |s|
    ensures r == s[LeadingWhitespace(s)..LeadingWhitespace(s) + |r|]
    ensures forall k :: 0 <= k < |s| && !(LeadingWhitespace(s) <= k < LeadingWhitespace(s) + |r|) ==> IsWhitespace(s[k])
    ensures r == [] || (!IsWhitespace(r[0]) && !IsWhitespace(r[|r| - 1]))
  {
    var lead := LeadingWhitespace(s);
    var t := s[lead..];
    t[..|t| - TrailingWhitespace(t)]
  }

  /** `components(separatedBy:)` with a one-character separator: always at
      least one part, and no part holds the separator. */
  function Split(s: string, sep: char): (parts: seq<string>)
    ensures |parts| >= 1
    ensures forall p :: p in parts ==> sep !in p
    decreases |s|
  {
    if |s| == 0 then [""]
    else
      var rest := Split(s[1..], sep);
      if s[0] == sep then [""] + rest
      else [[s[0]] + rest[0]] + rest[1..]
  }

  /** The parts glued back together, one separator between neighbours. */
  function Join(parts: seq<string>, sep: char): string
  {
    if |parts| == 0 then ""
    else if |parts| == 1 then parts[0]
    else parts[0] + [sep] + Join(parts[1..], sep)
  }

  /** Splitting loses nothing: joining the parts gives the text back. */
  lemma {:induction false} JoinSplit(s: string, sep: char)
    ensures Join(Split(s, sep), sep) == s
    decreases |s|
  {
    if |s| > 0 {
      var rest := Split(s[1..], sep);
      JoinSplit(s[1..], sep);
      if s[0] == sep {
        assert Split(s, sep) == [""] + rest;
        assert ([""] + rest)[1..] == rest;
        assert [s[0]] + s[1..] == s;
      } else {
        var parts := [[s[0]] + rest[0]] + rest[1..];
        assert Split(s, sep) == parts;
        if |rest| == 1 {
          assert [s[0]] + s[1..] == s;
        } else {
          assert parts[1..] == rest[1..];
          assert Join(rest, sep) == rest[0] + [sep] + Join(rest[1..], sep);
          assert [s[0]] + s[1..] == s;
        }
      }
    }
  }

  /** Splitting a separator-free part followed by more text. */
  lemma {:induction false} SplitAfterPart(p: string, t: string, sep: char)
    requires sep !in p
    ensures Split(p + t, sep) == [p + Split(t, sep)[0]] + Split(t, sep)[1..]
    decreases |p|
  {
    if |p| > 0 {
      assert (p + t)[1..] == p[1..] + t;
      SplitAfterPart(p[1..], t, sep);
      assert [p[0]] + (p[1..] + Split(t, sep)[0]) == p + Split(t, sep)[0];
    } else {
      assert p + t == t;
      assert p + Split(t, sep)[0] == Split(t, sep)[0];
      assert [Split(t, sep)[0]] + Split(t, sep)[1..] == Split(t, sep);
    }
  }

  /** Joining separator-free parts and splitting again gives the parts back. */
  lemma {:induction false} SplitJoin(parts: seq<string>, sep: char)
    requires |parts| >= 1
    requires forall p :: p in parts ==> sep !in p
    ensures Split(Join(parts, sep), sep) == parts
    decreases |parts|
  {
    if |parts| == 1 {
      SplitAfterPart(parts[0], "", sep);
      assert parts[0] + "" == parts[0];
    } else {
      var tail := Join(parts[1..], sep);
      SplitJoin(parts[1..], sep);
      assert parts[0] + [sep] + tail == parts[0] + ([sep] + tail);
      SplitAfterPart(parts[0], [sep] + tail, sep);
      assert ([sep] + tail)[1..] == tail;
      assert Split([sep] + tail, sep) == [""] + parts[1..];
      assert parts[0] + "" == parts[0];
      assert [parts[0]] + parts[1..] == parts;
    }
  }

  /** `characters.index(of:)`: the position of the first `c` in `s`, if any. */
  function IndexOf(s: string, c: char): (r: Option<nat>)
    ensures r.Some? ==> r.value < |s| && s[r.value] == c && c !in s[..r.value]
    ensures r.None? <==> c !in s
  {
    if |s| == 0 then None
    else if s[0] == c then Some(0)
    else
      match IndexOf(s[1..], c)
      case None => None
      case Some(i) => assert s[..i + 1] == [s[0]] + s[1..][..i]; Some(i + 1)
  }

  /** `t` occurs in `s` starting at position `i`. */
  predicate OccursAt(s: string, t: string, i: int) {
    0 <= i && i + |t| <= |s| && s[i..i + |t|] == t
  }

  /** The extension `String.lastIndex(of:)`: the start of the last occurrence
      of `target`. Foundation finds no occurrence of an empty target. */
  function LastIndexOf(s: string, target: string): (r: Option<nat>)
    ensures r.Some? ==> OccursAt(s, target, r.value) && forall j :: r.value < j ==> !OccursAt(s, target, j)
    ensures r.None? ==> |target| == 0 || forall j :: !OccursAt(s, target, j)
    ensures |target| == 0 ==> r.None?
  {
    if |target| == 0 || |target| > |s| then None
    else LastOccurrenceUpTo(s, target, |s| - |target|)
  }

  /** The last occurrence of `target` starting at or before `i`. */
  function LastOccurrenceUpTo(s: string, target: string, i: nat): (r: Option<nat>)
    requires i + |target| <= |s|
    ensures r.Some? ==> r.value <= i && OccursAt(s, target, r.value)
                        && forall j :: r.value < j <= i ==> !OccursAt(s, target, j)
    ensures r.None? ==> forall j :: j <= i ==> !OccursAt(s, target, j)
    decreases i
  {
    if OccursAt(s, target, i) then Some(i)
    else if i == 0 then None
    else LastOccurrenceUpTo(s, target, i - 1)
  }
}
