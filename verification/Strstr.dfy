/**
 strstr (src/lib/libc/strstr.c): Horspool's variation of the Boyer-Moore
 string search.

 Strings are sequences of character codes without their terminator.  The skip
 table has UCHAR_MAX = 255 entries, so the search is defined for the codes 0 to
 254.
 */
module Strstr {
  import opened Options

  const TABLE_SIZE: nat := 255

  /** pattern occurs in text at position j. */
  predicate OccursAt(text: seq<nat>, pattern: seq<nat>, j: nat) {
    j + |pattern| <= |text| && text[j..j + |pattern|] == pattern
  }

  /** skip says how far the last occurrence of c, the final character aside, is from the end of pattern[..n]. */
  ghost predicate SkipOk(pattern: seq<nat>, n: nat, c: nat, skip: nat) {
    && n <= |pattern|
    && 1 <= skip <= |pattern|
    && (skip < |pattern| ==> |pattern| - 1 - skip < n && pattern[|pattern| - 1 - skip] == c)
    && (forall k :: |pattern| - skip <= k < n ==> pattern[k] != c)
  }

  /** No shift passes over a match: an occurrence between pos and pos + skip would put another character under c. */
  lemma NoMatchSkipped(text: seq<nat>, pattern: seq<nat>, pos: nat, skip: nat, j: nat)
    requires |pattern| > 0 && pos + |pattern| <= |text|
    requires SkipOk(pattern, |pattern| - 1, text[pos + |pattern| - 1], skip)
    requires pos < j < pos + skip
    ensures !OccursAt(text, pattern, j)
  {
    var k := pos + |pattern| - 1 - j;
    assert pattern[k] != text[j + k];
    assert j + |pattern| <= |text| ==> text[j..j + |pattern|][k] == text[j + k];
  }

  /** The bad-character table for the pattern without its last character. */
  method BuildTable(pattern: seq<nat>) returns (skip: array<nat>)
    requires forall k :: 0 <= k < |pattern| ==> pattern[k] < TABLE_SIZE
    ensures fresh(skip) && skip.Length == TABLE_SIZE
    ensures |pattern| > 0 ==> forall c: nat :: c < TABLE_SIZE ==> SkipOk(pattern, |pattern| - 1, c, skip[c])
  {
    skip := new nat[TABLE_SIZE];
    var i := 0;
    while i < TABLE_SIZE
      invariant i <= TABLE_SIZE && forall c :: 0 <= c < i ==> skip[c] == |pattern|
    {
      skip[i] := |pattern|;
      i := i + 1;
    }
    i := 0;
    while i < |pattern| - 1
      invariant 0 <= i && (|pattern| > 0 ==> i <= |pattern| - 1)
      invariant |pattern| > 0 ==> forall c: nat :: c < TABLE_SIZE ==> SkipOk(pattern, i, c, skip[c])
    {
      skip[pattern[i]] := |pattern| - i - 1;
      i := i + 1;
    }
  }

  /** Compare backwards from the end of the pattern. */
  method MatchesAt(text: seq<nat>, pattern: seq<nat>, pos: nat) returns (found: bool)
    requires pos + |pattern| <= |text|
    ensures found <==> OccursAt(text, pattern, pos)
  {
    var offset := |pattern| - 1;
    while offset >= 0 && pattern[offset] == text[pos + offset]
      invariant -1 <= offset < |pattern|
      invariant forall k :: offset < k < |pattern| ==> pattern[k] == text[pos + k]
    {
      offset := offset - 1;
    }
    found := offset < 0;
    if !found {
      assert text[pos..pos + |pattern|][offset] != pattern[offset];
    }
  }

  /** The first position at which pattern occurs in text, or nothing if it does not occur. */
  method Strstr(text: seq<nat>, pattern: seq<nat>) returns (r: Option<nat>)
    requires forall k :: 0 <= k < |text| ==> text[k] < TABLE_SIZE
    requires forall k :: 0 <= k < |pattern| ==> pattern[k] < TABLE_SIZE
    ensures r.Some? ==> OccursAt(text, pattern, r.value) && forall j: nat :: j < r.value ==> !OccursAt(text, pattern, j)
    ensures r == None ==> forall j: nat :: !OccursAt(text, pattern, j)
  {
    var skip := BuildTable(pattern);
    var pos := 0;
    while pos < |text| - |pattern| + 1
      invariant forall j: nat :: j < pos ==> !OccursAt(text, pattern, j)
      invariant |pattern| > 0 ==> forall c: nat :: c < TABLE_SIZE ==> SkipOk(pattern, |pattern| - 1, c, skip[c])
      decreases |text| - pos
    {
      var found := MatchesAt(text, pattern, pos);
      if found {
        return Some(pos);
      }
      var shift := skip[text[pos + |pattern| - 1]];
      forall j: nat | pos < j < pos + shift ensures !OccursAt(text, pattern, j) {
        NoMatchSkipped(text, pattern, pos, shift, j);
      }
      pos := pos + shift;
    }
    r := None;
  }
}
