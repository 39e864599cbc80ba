/** String comparisons used by the service and the repository queries:
    ASCII case folding, substring search and Java's String.trim(). */
module Text {
  import opened Common

  /** Lower-casing of one character, restricted to ASCII letters. */
  function Lower(c: char): char
  {
    if 'A' <= c <= 'Z' then (c as int + 32) as char else c
  }

  function LowerAll(s: string): (r: string)
    ensures |r| == |s|
    ensures forall i :: 0 <= i < |s| ==> r[i] == Lower(s[i])
  {
    seq(|s|, i requires 0 <= i < |s| => Lower(s[i]))
  }

  /** String.equalsIgnoreCase and the IgnoreCase equality of derived queries. */
  predicate EqualsIgnoreCase(a: string, b: string)
  {
    LowerAll(a) == LowerAll(b)
  }

  /** `part` occurs in `s` starting at position i. */
  predicate OccursAt(s: string, part: string, i: int)
  {
    0 <= i && i + |part| <= |s| && s[i..i + |part|] == part
  }

  /** Case-sensitive substring test (String.contains). */
  predicate Contains(s: string, part: string)
  {
    exists i | 0 <= i <= |s| :: OccursAt(s, part, i)
  }

  /** The ContainingIgnoreCase test of derived queries. */
  predicate ContainsIgnoreCase(s: string, part: string)
  {
    Contains(LowerAll(s), LowerAll(part))
  }

  /** Characters removed by String.trim(): every code point up to the space. */
  predicate IsTrimmed(c: char)
  {
    c <= ' '
  }

  /** Drops leading trimmed characters. */
  function TrimStart(s: string): (r: string)
    ensures |r| <= |s| && r == s[|s| - |r|..]
    ensures forall i :: 0 <= i < |s| - |r| ==> IsTrimmed(s[i])
    ensures r == [] || !IsTrimmed(r[0])
  {
    if s != [] && IsTrimmed(s[0]) then TrimStart(s[1..]) else s
  }

  /** Drops trailing trimmed characters. */
  function TrimEnd(s: string): (r: string)
    ensures |r| <= |s| && r == s[..|r|]
    ensures forall i :: |r| <= i < |s| ==> IsTrimmed(s[i])
    ensures r == [] || !IsTrimmed(r[|r| - 1])
  {
    if s != [] && IsTrimmed(s[|s| - 1]) then TrimEnd(s[..|s| - 1]) else s
  }

  /** String.trim(). */
  function Trim(s: string): string
  {
    TrimEnd(TrimStart(s))
  }

  /** s.trim().isEmpty() */
  predicate IsBlank(s: string)
  {
    Trim(s) == []
  }

  /** A string is blank exactly when every character of it is removed by trim(). */
  lemma {:induction false} BlankIffAllTrimmed(s: string)
    ensures IsBlank(s) <==> forall i :: 0 <= i < |s| ==> IsTrimmed(s[i])
  {
    var t := TrimStart(s);
    assert t == [] || t[0] == s[|s| - |t|];
    if !forall i :: 0 <= i < |s| ==> IsTrimmed(s[i]) {
      var k :| 0 <= k < |s| && !IsTrimmed(s[k]);
      assert k >= |s| - |t|;
      assert t[k - (|s| - |t|)] == s[k];
      assert t != [];
      assert TrimEnd(t) != [];
    }
  }

  /** `x != null && !x.isEmpty()` */
  predicate HasText(x: Option<string>)
  {
    x.Some? && x.value != []
  }

  /** `x != null && !x.trim().isEmpty()` */
  predicate NonBlank(x: Option<string>)
  {
    x.Some? && !IsBlank(x.value)
  }

  /** Equality ignoring case is an equivalence, so a title equal to another is also contained in it. */
  lemma EqualsIgnoreCaseContains(a: string, b: string)
    requires EqualsIgnoreCase(a, b)
    ensures ContainsIgnoreCase(a, b)
  {
    assert OccursAt(LowerAll(a), LowerAll(b), 0);
  }
}
