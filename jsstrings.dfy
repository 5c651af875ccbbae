/**
 * The JavaScript string builtins the selector engine relies on, for a
 * non-empty separator without regular-expression metacharacters:
 * `s.match(sep)` is a substring test, `s.split(sep)` cuts at every
 * non-overlapping occurrence from the left, `s.slice(1, -1)` drops the
 * first and the last character, and `s.replace(/c/g, d)` replaces every
 * occurrence of one character.
 */
module JsStrings {
  import opened Wrappers

  /** `sep` occurs in `s` starting at index `i`. */
  predicate OccursAt(s: string, sep: string, i: int)
  {
    0 <= i && i + |sep| <= |s| && s[i..i + |sep|] == sep
  }

  /** `s.indexOf(sep, from)`, with `None` for -1: the first occurrence at or after `from`. */
  function IndexFrom(s: string, sep: string, from: nat): (r: Option<nat>)
    ensures r.Some? ==> from <= r.value && OccursAt(s, sep, r.value)
    ensures forall j :: from <= j && (r.None? || j < r.value) ==> !OccursAt(s, sep, j)
    decreases |s| - from
  {
    if from + |sep| > |s| then None
    else if s[from..from + |sep|] == sep then Some(from)
    else IndexFrom(s, sep, from + 1)
  }

  /** `s.match(sep) !== null` for a separator free of regular-expression metacharacters. */
  predicate Contains(s: string, sep: string)
    ensures Contains(s, sep) <==> exists j :: OccursAt(s, sep, j)
  {
    IndexFrom(s, sep, 0).Some?
  }

  /** Two occurrences of `sep` in `s` that do not overlap. */
  ghost predicate TwoOccurrences(s: string, sep: string)
  {
    exists i, j :: OccursAt(s, sep, i) && OccursAt(s, sep, j) && i + |sep| <= j
  }

  /** `parts.join(sep)`. */
  function Join(parts: seq<string>, sep: string): string
  {
    if parts == [] then ""
    else if |parts| == 1 then parts[0]
    else parts[0] + sep + Join(parts[1..], sep)
  }

  lemma NoOccurrenceInPrefix(s: string, sep: string, i: nat)
    requires sep != "" && i <= |s|
    requires forall j :: 0 <= j < i ==> !OccursAt(s, sep, j)
    ensures !Contains(s[..i], sep)
  {
    forall j | OccursAt(s[..i], sep, j)
      ensures OccursAt(s, sep, j) && j < i
    {
      assert s[..i][j..j + |sep|] == s[j..j + |sep|];
    }
  }

  /**
   * `s.split(sep)`: the pieces between the occurrences of `sep`, cut from
   * the left. Joining back and the absence of `sep` in every piece fix the
   * pieces only for a separator that cannot overlap itself, as `:has` and
   * `:hasText` cannot; the first piece ending at the first occurrence pins
   * the leftmost cut for any separator.
   */
  function Split(s: string, sep: string): (parts: seq<string>)
    requires sep != ""
    ensures |parts| >= 1
    ensures IndexFrom(s, sep, 0).None? ==> parts == [s]
    ensures IndexFrom(s, sep, 0).Some? ==> |parts| >= 2 && parts[0] == s[..IndexFrom(s, sep, 0).value]
    ensures Join(parts, sep) == s
    ensures forall k :: 0 <= k < |parts| ==> !Contains(parts[k], sep)
    decreases |s|
  {
    match IndexFrom(s, sep, 0)
    case None => [s]
    case Some(i) =>
      NoOccurrenceInPrefix(s, sep, i);
      assert s == s[..i] + sep + s[i + |sep|..] by {
        assert s[i..i + |sep|] == sep;
        assert s == s[..i] + s[i..i + |sep|] + s[i + |sep|..];
      }
      [s[..i]] + Split(s[i + |sep|..], sep)
  }

  /** An occurrence at `j` in the part after the first occurrence is one in `s`, and back. */
  lemma OccursAfter(s: string, sep: string, k: nat, j: int)
    requires k <= |s|
    ensures OccursAt(s[k..], sep, j) <==> j >= 0 && OccursAt(s, sep, j + k)
  {
    if 0 <= j && j + |sep| <= |s| - k {
      assert s[k..][j..j + |sep|] == s[j + k..j + k + |sep|];
    }
  }

  /** More than one piece exactly when the separator occurs. */
  lemma SplitOnce(s: string, sep: string)
    requires sep != ""
    ensures |Split(s, sep)| == 1 <==> !Contains(s, sep)
  {
    match IndexFrom(s, sep, 0)
    case None =>
    case Some(i) =>
      assert Split(s, sep) == [s[..i]] + Split(s[i + |sep|..], sep);
  }

  lemma SecondFromRest(s: string, sep: string, i: nat, j: int)
    requires sep != ""
    requires OccursAt(s, sep, i) && OccursAt(s[i + |sep|..], sep, j)
    ensures TwoOccurrences(s, sep)
  {
    OccursAfter(s, sep, i + |sep|, j);
    assert OccursAt(s, sep, j + i + |sep|);
  }

  lemma RestFromSecond(s: string, sep: string, i: nat, a: int, b: int)
    requires sep != ""
    requires i + |sep| <= |s| && i <= a
    requires OccursAt(s, sep, a) && OccursAt(s, sep, b) && a + |sep| <= b
    ensures OccursAt(s[i + |sep|..], sep, b - i - |sep|)
  {
    OccursAfter(s, sep, i + |sep|, b - i - |sep|);
  }

  /** A second occurrence is an occurrence after the end of the first one. */
  lemma SecondOccurrence(s: string, sep: string, i: nat)
    requires sep != ""
    requires IndexFrom(s, sep, 0) == Some(i)
    ensures TwoOccurrences(s, sep) <==> Contains(s[i + |sep|..], sep)
  {
    if Contains(s[i + |sep|..], sep) {
      var j :| OccursAt(s[i + |sep|..], sep, j);
      SecondFromRest(s, sep, i, j);
    }
    if TwoOccurrences(s, sep) {
      var a, b :| OccursAt(s, sep, a) && OccursAt(s, sep, b) && a + |sep| <= b;
      RestFromSecond(s, sep, i, a, b);
    }
  }

  /**
   * The number of pieces tells how often the separator occurs:
   * one piece exactly when it does not occur, more than two exactly
   * when it occurs twice without overlap.
   */
  lemma SplitCount(s: string, sep: string)
    requires sep != ""
    ensures |Split(s, sep)| == 1 <==> !Contains(s, sep)
    ensures |Split(s, sep)| > 2 <==> TwoOccurrences(s, sep)
  {
    SplitOnce(s, sep);
    match IndexFrom(s, sep, 0)
    case None =>
    case Some(i) =>
      var rest := s[i + |sep|..];
      assert Split(s, sep) == [s[..i]] + Split(rest, sep);
      SplitOnce(rest, sep);
      SecondOccurrence(s, sep, i);
  }

  /** With a single occurrence, the two pieces rebuild the string around it. */
  lemma SplitTwo(s: string, sep: string)
    requires sep != ""
    requires |Split(s, sep)| == 2
    ensures s == Split(s, sep)[0] + sep + Split(s, sep)[1]
  {
    var parts := Split(s, sep);
    assert Join(parts, sep) == parts[0] + sep + Join(parts[1..], sep);
    assert parts[1..] == [parts[1]];
  }

  /** `s.slice(1, -1)`: everything but the first and the last character. */
  function SliceInner(s: string): (r: string)
    ensures |s| >= 2 ==> s == [s[0]] + r + [s[|s| - 1]]
    ensures |s| < 2 ==> r == ""
  {
    if |s| >= 2 then s[1..|s| - 1] else ""
  }

  /** `s.replace(/from/g, to)` for a single character. */
  function ReplaceAll(s: string, from: char, to: char): (r: string)
    ensures |r| == |s|
    ensures forall i :: 0 <= i < |s| && s[i] != from ==> r[i] == s[i]
    ensures forall i :: 0 <= i < |s| && s[i] == from ==> r[i] == to
  {
    if s == [] then []
    else [if s[0] == from then to else s[0]] + ReplaceAll(s[1..], from, to)
  }

  /** After the replacement no `from` is left, and a second replacement changes nothing. */
  lemma {:induction false} ReplaceAllRemoves(s: string, from: char, to: char)
    requires from != to
    ensures from !in ReplaceAll(s, from, to)
    ensures ReplaceAll(ReplaceAll(s, from, to), from, to) == ReplaceAll(s, from, to)
  {
    if s != [] {
      ReplaceAllRemoves(s[1..], from, to);
      assert ReplaceAll(s, from, to)[1..] == ReplaceAll(s[1..], from, to);
    }
  }
}
