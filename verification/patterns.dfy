/**
 * Domain patterns: a tuple of domain parts stored as one string joined by
 * `|`. Loading splits the stored pattern with Java's `String.split("\\|")`,
 * which keeps leading and inner empty segments but drops trailing ones, and
 * returns the input itself when it holds no separator.
 */
module Patterns {

  const Sep: char := '|'

  /** Joins domain parts with the separator. */
  function Join(parts: seq<string>): string
    decreases |parts|
  {
    if |parts| == 0 then ""
    else if |parts| == 1 then parts[0]
    else parts[0] + [Sep] + Join(parts[1..])
  }

  /** Every segment between separators, empty ones included. */
  function Segments(s: string): (parts: seq<string>)
    ensures |parts| >= 1
    ensures forall i :: 0 <= i < |parts| ==> Sep !in parts[i]
    ensures Join(parts) == s
    decreases |s|
  {
    if |s| == 0 then [""]
    else
      var rest := Segments(s[1..]);
      if s[0] == Sep then
        var parts := [""] + rest;
        assert parts[1..] == rest;
        assert s == [s[0]] + s[1..];
        parts
      else
        var parts := [[s[0]] + rest[0]] + rest[1..];
        assert s == [s[0]] + s[1..];
        assert |parts| > 1 ==> parts[1..] == rest[1..];
        assert |rest| > 1 ==> Join(rest) == rest[0] + [Sep] + Join(rest[1..]);
        parts
  }

  /** Drops the empty segments at the end, as `split` does with limit 0. */
  function TrimTrailingEmpty(parts: seq<string>): (r: seq<string>)
    ensures |r| <= |parts| && r == parts[..|r|]
    ensures |r| > 0 ==> r[|r| - 1] != ""
    ensures forall i :: |r| <= i < |parts| ==> parts[i] == ""
    decreases |parts|
  {
    if |parts| == 0 then []
    else if parts[|parts| - 1] == "" then TrimTrailingEmpty(parts[..|parts| - 1])
    else parts
  }

  /** `s.split("\\|")`: a string without separator splits into itself. */
  function JavaSplit(s: string): seq<string>
  {
    if Sep !in s then [s] else TrimTrailingEmpty(Segments(s))
  }

  /** The domain parts the transformer derives from a stored pattern:
      an empty pattern has none, any other is split. */
  function DomainKeyParts(pattern: string): (parts: seq<string>)
    ensures parts == TrimTrailingEmpty(Segments(pattern))
    ensures forall i :: 0 <= i < |parts| ==> Sep !in parts[i]
    ensures |parts| > 0 ==> parts[|parts| - 1] != ""
  {
    if pattern == "" then []
    else if Sep !in pattern then
      SegmentsWithoutSep(pattern);
      JavaSplit(pattern)
    else
      JavaSplit(pattern)
  }

  lemma {:induction false} SegmentsWithoutSep(s: string)
    requires Sep !in s
    ensures Segments(s) == [s]
    decreases |s|
  {
    if |s| > 0 {
      assert Sep !in s[1..] by {
        forall i | 0 <= i < |s[1..]| ensures s[1..][i] != Sep {
          assert s[1..][i] == s[i + 1];
        }
      }
      SegmentsWithoutSep(s[1..]);
      assert s == [s[0]] + s[1..];
    }
  }

  /** Parts that a pattern can faithfully carry: none contains the
      separator, and the last one is not empty. */
  predicate WellFormedParts(parts: seq<string>) {
    && (forall i :: 0 <= i < |parts| ==> Sep !in parts[i])
    && (|parts| > 0 ==> parts[|parts| - 1] != "")
  }

  /** Splitting undoes joining, segment by segment. */
  lemma {:induction false} SegmentsOfJoin(parts: seq<string>)
    requires |parts| >= 1
    requires forall i :: 0 <= i < |parts| ==> Sep !in parts[i]
    ensures Segments(Join(parts)) == parts
    decreases |parts|, |parts[0]|
  {
    if |parts| == 1 {
      SegmentsWithoutSep(parts[0]);
    } else if parts[0] == "" {
      var tail := parts[1..];
      SegmentsOfJoin(tail);
      var s := Join(parts);
      assert s == [Sep] + Join(tail);
      assert s[1..] == Join(tail);
      assert parts == [""] + tail;
    } else {
      var c := parts[0][0];
      var shorter := [parts[0][1..]] + parts[1..];
      assert Sep !in parts[0][1..] by {
        forall i | 0 <= i < |parts[0][1..]| ensures parts[0][1..][i] != Sep {
          assert parts[0][1..][i] == parts[0][i + 1];
        }
      }
      assert forall i :: 0 <= i < |shorter| ==> Sep !in shorter[i] by {
        forall i | 0 <= i < |shorter| ensures Sep !in shorter[i] {
          if i > 0 {
            assert shorter[i] == parts[i];
          }
        }
      }
      SegmentsOfJoin(shorter);
      JoinHeadChar(parts);
      var s := Join(parts);
      assert s[0] == c && c != Sep;
      assert s[1..] == Join(shorter);
      assert shorter[1..] == parts[1..];
      assert parts[0] == [c] + shorter[0];
      assert [[c] + shorter[0]] + shorter[1..] == parts;
    }
  }

  /** Joining parts whose first is not empty starts with that part's first
      character, followed by the join with it removed. */
  lemma JoinHeadChar(parts: seq<string>)
    requires |parts| > 1 && |parts[0]| > 0
    ensures Join(parts) == [parts[0][0]] + Join([parts[0][1..]] + parts[1..])
  {
    var shorter := [parts[0][1..]] + parts[1..];
    assert shorter[1..] == parts[1..];
    assert parts[0] == [parts[0][0]] + parts[0][1..];
  }

  /** Round trip: the transformer recovers exactly the domain parts a
      pattern was joined from. */
  lemma {:induction false} DomainKeyPartsOfJoin(parts: seq<string>)
    requires WellFormedParts(parts)
    ensures DomainKeyParts(Join(parts)) == parts
  {
    if |parts| > 0 {
      SegmentsOfJoin(parts);
      assert TrimTrailingEmpty(parts) == parts;
    }
  }

  /** The text consists of separators only (the empty text included). */
  predicate OnlySeparators(s: string) {
    forall i :: 0 <= i < |s| ==> s[i] == Sep
  }

  /** Every segment is empty. */
  predicate AllEmpty(parts: seq<string>) {
    forall i :: 0 <= i < |parts| ==> parts[i] == ""
  }

  /** A pattern yields no domain parts exactly when it consists of
      separators only (the empty pattern included). */
  lemma {:induction false} NoPartsIffOnlySeparators(pattern: string)
    ensures DomainKeyParts(pattern) == [] <==> OnlySeparators(pattern)
  {
    var segs := Segments(pattern);
    var parts := DomainKeyParts(pattern);
    assert parts == TrimTrailingEmpty(segs);
    AllEmptySegments(pattern);
    if parts == [] {
      assert AllEmpty(segs) by {
        forall i | 0 <= i < |segs| ensures segs[i] == "" {
          assert |parts| <= i;
        }
      }
    } else {
      var last := |parts| - 1;
      assert parts == segs[..|parts|];
      assert segs[last] == parts[last] && parts[last] != "";
      assert !AllEmpty(segs);
    }
  }

  lemma {:induction false} AllEmptySegments(s: string)
    ensures AllEmpty(Segments(s)) <==> OnlySeparators(s)
    decreases |s|
  {
    if |s| > 0 {
      AllEmptySegments(s[1..]);
      var rest := Segments(s[1..]);
      if s[0] == Sep {
        assert Segments(s) == [""] + rest;
        assert forall i :: 0 <= i < |rest| ==> Segments(s)[i + 1] == rest[i];
        assert forall i :: 1 <= i < |s| ==> s[i] == s[1..][i - 1];
      } else {
        assert Segments(s)[0] != "";
      }
    }
  }
}
