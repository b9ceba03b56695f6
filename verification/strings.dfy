/** String helpers with Python's meaning: `sep.join`, `str.split(sep)`,
    `startswith`, `in` on strings, and ASCII `lower`. */
module Strings {
  import opened Wrappers

  /** `sep.join(parts)`. */
  function Join(sep: string, parts: seq<string>): string {
    if |parts| == 0 then ""
    else if |parts| == 1 then parts[0]
    else parts[0] + sep + Join(sep, parts[1..])
  }

  /** `s.startswith(p)`. */
  predicate IsPrefix(p: string, s: string) {
    |p| <= |s| && s[..|p|] == p
  }

  /** `p in s` for strings: `p` occurs at some position of `s`. */
  predicate OccursAt(p: string, s: string, i: int) {
    0 <= i && i + |p| <= |s| && s[i..i + |p|] == p
  }

  predicate IsSubstring(p: string, s: string) {
    exists i | 0 <= i <= |s| :: OccursAt(p, s, i)
  }

  /** The first position at or after `from` where `sep` occurs in `s`. */
  function FindFrom(s: string, sep: string, from: nat): (r: Option<nat>)
    requires from <= |s|
    decreases |s| - from
    ensures r.Some? ==> from <= r.value && OccursAt(sep, s, r.value)
    ensures r.Some? ==> forall j :: from <= j < r.value ==> !OccursAt(sep, s, j)
    ensures r.None? ==> forall j :: from <= j ==> !OccursAt(sep, s, j)
  {
    if OccursAt(sep, s, from) then Some(from)
    else if from + |sep| >= |s| || from == |s| then
      assert forall j :: from < j ==> !OccursAt(sep, s, j);
      None
    else FindFrom(s, sep, from + 1)
  }

  /** The first occurrence of `sep` in `s`. */
  function Find(s: string, sep: string): (r: Option<nat>)
    ensures r.Some? ==> OccursAt(sep, s, r.value)
    ensures r.Some? ==> forall j :: 0 <= j < r.value ==> !OccursAt(sep, s, j)
    ensures r.None? <==> !IsSubstring(sep, s)
  {
    FindFrom(s, sep, 0)
  }

  /** `s.split(sep)` for a non-empty separator: the pieces between
      successive left-to-right occurrences of `sep`. */
  function Split(s: string, sep: string): (parts: seq<string>)
    requires |sep| > 0
    decreases |s|
    ensures |parts| > 0
    ensures !IsSubstring(sep, parts[0])
    ensures |parts| == 1 <==> !IsSubstring(sep, s)
    ensures |parts| > 1 ==> IsPrefix(parts[0] + sep, s)
  {
    match Find(s, sep)
    case None => [s]
    case Some(i) =>
      assert !IsSubstring(sep, s[..i]) by {
        forall j | 0 <= j <= i ensures !OccursAt(sep, s[..i], j) {
          if OccursAt(sep, s[..i], j) {
            assert s[j..j + |sep|] == s[..i][j..j + |sep|];
            assert OccursAt(sep, s, j);
          }
        }
      }
      assert s[..i] + sep == s[..i + |sep|];
      [s[..i]] + Split(s[i + |sep|..], sep)
  }

  /** One step of `Split`: the piece before the first separator, then the
      pieces of the rest. */
  lemma SplitStep(s: string, sep: string, i: nat)
    requires |sep| > 0 && Find(s, sep) == Some(i)
    ensures Split(s, sep) == [s[..i]] + Split(s[i + |sep|..], sep)
  {
  }

  /** After the first piece and the first separator, the pieces are those
      of the rest of the string. */
  lemma SplitTail(s: string, sep: string)
    requires |sep| > 0 && IsSubstring(sep, s)
    ensures var parts := Split(s, sep);
      && |parts[0]| + |sep| <= |s| && s[..|parts[0]|] == parts[0] && s[|parts[0]|..|parts[0]| + |sep|] == sep
      && parts[1..] == Split(s[|parts[0]| + |sep|..], sep)
  {
    var i := Find(s, sep).value;
    SplitStep(s, sep, i);
    var parts := Split(s, sep);
    assert parts[0] == s[..i];
    assert parts[1..] == Split(s[i + |sep|..], sep);
  }

  /** Joining the pieces of a split with the same separator gives the string back. */
  lemma {:induction false} JoinSplit(s: string, sep: string)
    requires |sep| > 0
    ensures Join(sep, Split(s, sep)) == s
    decreases |s|
  {
    match Find(s, sep)
    case None =>
      assert Split(s, sep) == [s];
    case Some(i) =>
      var rest := s[i + |sep|..];
      JoinSplit(rest, sep);
      SplitStep(s, sep, i);
      var parts := Split(s, sep);
      assert parts[1..] == Split(rest, sep);
      assert Join(sep, parts) == parts[0] + sep + Join(sep, parts[1..]);
      assert s == s[..i] + sep + rest;
  }

  /** A character in neither the separator nor any piece is not in the
      joined string. */
  lemma {:induction false} JoinLacksChar(sep: string, parts: seq<string>, c: char)
    requires c !in sep && forall k :: 0 <= k < |parts| ==> c !in parts[k]
    ensures c !in Join(sep, parts)
  {
    if |parts| > 1 {
      JoinLacksChar(sep, parts[1..], c);
    }
  }

  /** Splitting on a one-character separator that no piece contains recovers
      the pieces. */
  lemma {:induction false} SplitJoin(parts: seq<string>, c: char)
    requires |parts| > 0
    requires forall k :: 0 <= k < |parts| ==> c !in parts[k]
    ensures Split(Join([c], parts), [c]) == parts
  {
    var sep := [c];
    var s := Join(sep, parts);
    if |parts| == 1 {
      forall j | 0 <= j <= |s| ensures !OccursAt(sep, s, j) {
        if j + 1 <= |s| {
          assert s[j..j + 1][0] == s[j];
        }
      }
    } else {
      var head := parts[0];
      var rest := Join(sep, parts[1..]);
      assert s == head + sep + rest;
      assert OccursAt(sep, s, |head|);
      forall j | 0 <= j < |head| ensures !OccursAt(sep, s, j) {
        assert s[j] == head[j];
      }
      assert Find(s, sep) == Some(|head|);
      assert s[|head| + 1..] == rest;
      assert s[..|head|] == head;
      SplitJoin(parts[1..], c);
      assert Split(s, sep) == [head] + Split(rest, sep);
    }
  }

  /** A one-character string occurs in `s` exactly when the character does. */
  lemma CharSubstring(c: char, s: string)
    ensures IsSubstring([c], s) <==> c in s
  {
    if c in s {
      var i :| 0 <= i < |s| && s[i] == c;
      assert OccursAt([c], s, i);
    }
    if IsSubstring([c], s) {
      var i :| 0 <= i <= |s| && OccursAt([c], s, i);
      assert s[i..i + 1][0] == s[i];
    }
  }

  /** Whether `c` is an ASCII upper-case letter. */
  predicate IsUpper(c: char) {
    'A' <= c <= 'Z'
  }

  function LowerChar(c: char): (d: char)
    ensures !IsUpper(d)
    ensures !IsUpper(c) ==> d == c
  {
    if IsUpper(c) then (c as int + 32) as char else c
  }

  /** `s.lower()` on ASCII text. */
  function Lower(s: string): (r: string)
    ensures |r| == |s|
    ensures forall i :: 0 <= i < |s| ==> r[i] == LowerChar(s[i])
  {
    if |s| == 0 then "" else Lower(s[..|s| - 1]) + [LowerChar(s[|s| - 1])]
  }

  lemma LowerConcat(a: string, b: string)
    ensures Lower(a + b) == Lower(a) + Lower(b)
  {
    assert forall i :: 0 <= i < |a + b| ==> Lower(a + b)[i] == (Lower(a) + Lower(b))[i];
  }

  /** Text without upper-case letters is its own lower case. */
  lemma LowerNoUpper(s: string)
    requires forall i :: 0 <= i < |s| ==> !IsUpper(s[i])
    ensures Lower(s) == s
  {
  }
}
