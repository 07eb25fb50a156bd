/**
 * The few pieces of Java string behaviour the persistence layer relies on:
 * `StringUtils.isBlank` (behind `Validate.notBlank`), lower-casing and
 * substring containment (behind the `like '%s%'` key search).
 */
module JavaText {

  /** `Character.isWhitespace`: space separators other than the no-break
      spaces, line and paragraph separators, and the ASCII controls
      HT, LF, VT, FF, CR and FS..US. */
  predicate IsWhitespace(c: char) {
    || c == ' ' || c == '\t' || c == '\n' || c == '\U{000B}' || c == '\U{000C}' || c == '\r'
    || ('\U{001C}' <= c <= '\U{001F}')
    || c == '\U{1680}'
    || ('\U{2000}' <= c <= '\U{2006}') || ('\U{2008}' <= c <= '\U{200A}')
    || c == '\U{2028}' || c == '\U{2029}' || c == '\U{205F}' || c == '\U{3000}'
  }

  /** `StringUtils.isBlank` for a non-null string: empty or whitespace only. */
  predicate IsBlank(s: string) {
    forall i :: 0 <= i < |s| ==> IsWhitespace(s[i])
  }

  /** Index of the first character that is not whitespace, or |s| when there is none. */
  function FirstNonBlank(s: string): (i: nat)
    ensures i <= |s|
    ensures forall j :: 0 <= j < i ==> IsWhitespace(s[j])
    ensures i < |s| ==> !IsWhitespace(s[i])
    ensures i == |s| <==> IsBlank(s)
  {
    if |s| == 0 then 0
    else if !IsWhitespace(s[0]) then 0
    else 1 + FirstNonBlank(s[1..])
  }

  /** Lower-casing of one character, restricted to the ASCII letters. */
  function LowerChar(c: char): char {
    if 'A' <= c <= 'Z' then (c as int + 32) as char else c
  }

  function Lower(s: string): (r: string)
    ensures |r| == |s|
    ensures forall i :: 0 <= i < |s| ==> r[i] == LowerChar(s[i])
  {
    seq(|s|, i requires 0 <= i < |s| => LowerChar(s[i]))
  }

  /** `sub` occurs in `s` at position i. */
  predicate OccursAt(sub: string, s: string, i: nat) {
    i + |sub| <= |s| && s[i..i + |sub|] == sub
  }

  /** Substring containment, stated by position. */
  ghost predicate Contains(s: string, sub: string) {
    exists i: nat :: OccursAt(sub, s, i)
  }

  /** Containment decided by scanning from the left. */
  function Scan(s: string, sub: string, from: nat): (found: bool)
    requires from <= |s| + 1
    ensures found <==> exists i: nat :: from <= i && OccursAt(sub, s, i)
    decreases |s| + 1 - from
  {
    if from + |sub| > |s| then
      assert forall i: nat :: from <= i ==> !OccursAt(sub, s, i);
      false
    else if s[from..from + |sub|] == sub then
      assert OccursAt(sub, s, from);
      true
    else
      var rest := Scan(s, sub, from + 1);
      assert forall i: nat :: from <= i && OccursAt(sub, s, i) ==> i == from || from + 1 <= i;
      rest
  }

  /** The search used by the key finder: `sub` occurs in `s`. */
  function Find(s: string, sub: string): (found: bool)
    ensures found <==> Contains(s, sub)
  {
    Scan(s, sub, 0)
  }
}
