/** `PropertyName.propertyName`: builds an identifier from name parts by
    appending, for every part after the first, its capitalised form. */
module PropertyNames {

  /** `uppercased()` of one character, on the ASCII letters; every other
      character maps to itself. */
  function UpperCase(c: char): (r: char)
    ensures 'a' <= c <= 'z' ==> 'A' <= r <= 'Z' && r as int - 'A' as int == c as int - 'a' as int
    ensures !('a' <= c <= 'z') ==> r == c
    ensures !('a' <= r <= 'z')
  {
    if 'a' <= c <= 'z' then (c as int - 32) as char else c
  }

  /** `capitalizeFirstCharacter` as written: the replaced range is the empty
      range at the start, so the capital is INSERTED in front of the whole
      string rather than replacing its first character. */
  function CapitalizeFirstCharacter(s: string): (r: string)
    requires |s| > 0
    ensures |r| == |s| + 1
    ensures r[0] == UpperCase(s[0])
    ensures r[1..] == s
  {
    var capitalized := [UpperCase(s[0])];
    s[..0] + capitalized + s[0..]
  }

  /** The name parts the source can process: at least one part, and every
      part after the first non-empty (its first character is read). */
  predicate ValidParts(parts: seq<string>) {
    |parts| > 0 && forall i :: 1 <= i < |parts| ==> |parts[i]| > 0
  }

  /** The name `propertyName` returns, part by part. */
  function PropertyNameOf(parts: seq<string>): string
    requires ValidParts(parts)
  {
    if |parts| == 1 then parts[0]
    else PropertyNameOf(parts[..|parts| - 1]) + CapitalizeFirstCharacter(parts[|parts| - 1])
  }

  /** Sum of the lengths of the parts. */
  function TotalLength(parts: seq<string>): nat
  {
    if |parts| == 0 then 0 else TotalLength(parts[..|parts| - 1]) + |parts[|parts| - 1]|
  }

  method PropertyName(parts: seq<string>) returns (propertyName: string)
    requires ValidParts(parts)
    ensures propertyName == PropertyNameOf(parts)
  {
    propertyName := parts[0];
    if |parts| > 1 {
      for index := 1 to |parts|
        invariant propertyName == PropertyNameOf(parts[..index])
      {
        assert parts[..index + 1][..index] == parts[..index];
        propertyName := propertyName + CapitalizeFirstCharacter(parts[index]);
      }
      assert parts[..|parts|] == parts;
    }
  }

  /** A one-part name is that part unchanged. */
  lemma PropertyNameSingle(part: string)
    ensures PropertyNameOf([part]) == part
  {
  }

  /** Each later part adds exactly one character besides itself. */
  lemma {:induction false} PropertyNameLength(parts: seq<string>)
    requires ValidParts(parts)
    ensures |PropertyNameOf(parts)| == TotalLength(parts) + |parts| - 1
    decreases |parts|
  {
    if |parts| > 1 {
      var init := parts[..|parts| - 1];
      PropertyNameLength(init);
      assert TotalLength(parts) == TotalLength(init) + |parts[|parts| - 1]|;
    } else {
      assert parts[..0] == [];
    }
  }

  /** The name starts with the first part, whole and untouched. */
  lemma {:induction false} PropertyNameStartsWithFirstPart(parts: seq<string>)
    requires ValidParts(parts)
    ensures |parts[0]| <= |PropertyNameOf(parts)|
    ensures PropertyNameOf(parts)[..|parts[0]|] == parts[0]
    decreases |parts|
  {
    if |parts| > 1 {
      var init := parts[..|parts| - 1];
      PropertyNameStartsWithFirstPart(init);
      assert PropertyNameOf(parts)[..|parts[0]|] == PropertyNameOf(init)[..|parts[0]|];
    }
  }

  /** Part `i >= 1` shows up as its upper-cased first character followed by
      the WHOLE part, right after everything the earlier parts produced. */
  lemma {:induction false} PropertyNameSegment(parts: seq<string>, i: nat)
    requires ValidParts(parts)
    requires 1 <= i < |parts|
    ensures var off := TotalLength(parts[..i]) + i - 1;
      off + 1 + |parts[i]| <= |PropertyNameOf(parts)|
      && PropertyNameOf(parts)[off] == UpperCase(parts[i][0])
      && PropertyNameOf(parts)[off + 1..off + 1 + |parts[i]|] == parts[i]
    decreases |parts|
  {
    var init := parts[..|parts| - 1];
    var name := PropertyNameOf(parts);
    var off := TotalLength(parts[..i]) + i - 1;
    PropertyNameLength(init);
    if i == |parts| - 1 {
      assert parts[..i] == init;
      assert name == PropertyNameOf(init) + CapitalizeFirstCharacter(parts[i]);
      assert name[off..] == CapitalizeFirstCharacter(parts[i]);
    } else {
      PropertyNameSegment(init, i);
      assert init[..i] == parts[..i];
      assert name[..|PropertyNameOf(init)|] == PropertyNameOf(init);
    }
  }

  // ---------------------------------------------------------------------
  // The evidently intended behaviour: capitalise the first character in
  // place, so that ["my", "key"] becomes "myKey".

  /** As written, ["my", "key"] yields "myKkey": the initial is doubled. */
  lemma PropertyNameDoublesInitial()
    ensures PropertyNameOf(["my", "key"]) == "myKkey"
  {
    assert ["my", "key"][..1] == ["my"];
  }

  /** The first character replaced by its upper-case form. */
  function CapitalizedInPlace(s: string): (r: string)
    requires |s| > 0
    ensures |r| == |s|
    ensures r[0] == UpperCase(s[0]) && r[1..] == s[1..]
  {
    [UpperCase(s[0])] + s[1..]
  }

  /** The camel-case name the source evidently intends. */
  function CamelCaseName(parts: seq<string>): string
    requires ValidParts(parts)
  {
    if |parts| == 1 then parts[0]
    else CamelCaseName(parts[..|parts| - 1]) + CapitalizedInPlace(parts[|parts| - 1])
  }

  /** The intended name adds no character: it is as long as the parts together. */
  lemma {:induction false} CamelCaseNameLength(parts: seq<string>)
    requires ValidParts(parts)
    ensures |CamelCaseName(parts)| == TotalLength(parts)
    decreases |parts|
  {
    if |parts| > 1 {
      var init := parts[..|parts| - 1];
      CamelCaseNameLength(init);
    } else {
      assert parts[..0] == [];
    }
  }

  /** In the intended name, part `i >= 1` appears capitalised in place right
      after the earlier parts. */
  lemma {:induction false} CamelCaseNameSegment(parts: seq<string>, i: nat)
    requires ValidParts(parts)
    requires 1 <= i < |parts|
    ensures var off := TotalLength(parts[..i]);
      off + |parts[i]| <= |CamelCaseName(parts)|
      && CamelCaseName(parts)[off..off + |parts[i]|] == CapitalizedInPlace(parts[i])
    decreases |parts|
  {
    var init := parts[..|parts| - 1];
    var name := CamelCaseName(parts);
    CamelCaseNameLength(init);
    if i == |parts| - 1 {
      assert parts[..i] == init;
      assert name[TotalLength(init)..] == CapitalizedInPlace(parts[i]);
    } else {
      CamelCaseNameSegment(init, i);
      assert init[..i] == parts[..i];
      assert name[..|CamelCaseName(init)|] == CamelCaseName(init);
    }
  }

  lemma CamelCaseNameExample()
    ensures CamelCaseName(["my", "key"]) == "myKey"
  {
    assert ["my", "key"][..1] == ["my"];
  }
}
