/** The handful of Go `strings` functions the skip-log scanner relies on,
    over Dafny strings (sequences of Unicode scalar values). */
module GoStrings {

  /** `sep` occurs in `s` starting at position `i`. */
  predicate OccursAt(s: string, sep: string, i: nat)
  {
    i + |sep| <= |s| && s[i..i + |sep|] == sep
  }

  /** strings.Contains */
  ghost predicate Contains(s: string, sep: string)
  {
    exists i: nat :: OccursAt(s, sep, i)
  }

  /** strings.HasPrefix */
  predicate HasPrefix(s: string, prefix: string)
  {
    |prefix| <= |s| && s[..|prefix|] == prefix
  }

  /** strings.TrimPrefix: drops `prefix` when `s` starts with it, otherwise returns `s`. */
  function TrimPrefix(s: string, prefix: string): (r: string)
    ensures HasPrefix(s, prefix) ==> s == prefix + r
    ensures !HasPrefix(s, prefix) ==> r == s
  {
    if HasPrefix(s, prefix) then
      assert s == s[..|prefix|] + s[|prefix|..];
      s[|prefix|..]
    else s
  }

  lemma OccursAtTail(s: string, sep: string, j: nat)
    requires |s| > 0
    ensures OccursAt(s[1..], sep, j) <==> OccursAt(s, sep, j + 1)
  {
    if j + 1 + |sep| <= |s| {
      assert s[1..][j..j + |sep|] == s[j + 1..j + 1 + |sep|];
    }
  }

  /** A one-character separator occurs exactly where that character stands. */
  lemma OccursAtChar(s: string, c: char, j: nat)
    ensures OccursAt(s, [c], j) <==> j < |s| && s[j] == c
  {
    if j < |s| {
      assert s[j..j + 1] == [s[j]];
    }
  }

  /** strings.Index: the position of the first occurrence of `sep` in `s`, or -1. */
  function Index(s: string, sep: string): (r: int)
    ensures -1 <= r <= |s|
    ensures r >= 0 ==> OccursAt(s, sep, r)
    ensures r >= 0 ==> forall j: nat :: j < r ==> !OccursAt(s, sep, j)
    ensures r < 0 <==> !Contains(s, sep)
    decreases |s|
  {
    if HasPrefix(s, sep) then
      assert OccursAt(s, sep, 0);
      0
    else if |s| == 0 then
      assert forall j: nat :: !OccursAt(s, sep, j) by {
        forall j: nat ensures !OccursAt(s, sep, j) {
        }
      }
      -1
    else
      var k := Index(s[1..], sep);
      forall j: nat ensures OccursAt(s[1..], sep, j) <==> OccursAt(s, sep, j + 1) {
        OccursAtTail(s, sep, j);
      }
      if k < 0 then
        assert forall j: nat :: !OccursAt(s, sep, j) by {
          forall j: nat ensures !OccursAt(s, sep, j) {
            if j > 0 {
              assert !OccursAt(s[1..], sep, j - 1);
            }
          }
        }
        -1
      else
        assert forall j: nat :: j < k + 1 ==> !OccursAt(s, sep, j) by {
          forall j: nat | j < k + 1 ensures !OccursAt(s, sep, j) {
            if j > 0 {
              assert !OccursAt(s[1..], sep, j - 1);
            }
          }
        }
        k + 1
  }

  /** strings.Join */
  function Join(parts: seq<string>, sep: string): (r: string)
    decreases |parts|
  {
    if |parts| == 0 then ""
    else if |parts| == 1 then parts[0]
    else parts[0] + sep + Join(parts[1..], sep)
  }

  /** With no match of `sep` starting before `i`, no prefix of `s` shorter
      than `i + |sep|` contains `sep`. */
  lemma NoMatchBefore(s: string, sep: string, i: nat, n: nat)
    requires n <= |s| && n < i + |sep|
    requires forall j: nat :: j < i ==> !OccursAt(s, sep, j)
    ensures !Contains(s[..n], sep)
  {
    forall j: nat ensures !OccursAt(s[..n], sep, j) {
      if j + |sep| <= n {
        assert !OccursAt(s, sep, j);
        assert s[..n][j..j + |sep|] == s[j..j + |sep|];
      }
    }
  }

  /** Cutting `s` at its first match of `sep`: the text before the match,
      the separator and the text after it make up `s`, and no match begins
      before the cut. */
  lemma FirstMatch(s: string, sep: string, i: nat)
    requires sep != [] && OccursAt(s, sep, i)
    requires forall j: nat :: j < i ==> !OccursAt(s, sep, j)
    ensures s == s[..i] + sep + s[i + |sep|..]
    ensures !Contains(s[..i], sep) && !Contains(s[..i] + sep[..|sep| - 1], sep)
  {
    NoMatchBefore(s, sep, i, i);
    NoMatchBefore(s, sep, i, i + |sep| - 1);
    assert s[..i] + sep[..|sep| - 1] == s[..i + |sep| - 1];
    assert s == s[..i] + s[i..i + |sep|] + s[i + |sep|..];
  }

  /** One step of Split: a first piece with no match inside it, followed by
      pieces that keep Split's promises, keeps them too. */
  lemma SplitStep(sep: string, head: string, rest: seq<string>, parts: seq<string>)
    requires sep != [] && |rest| >= 1
    requires !Contains(head, sep) && !Contains(head + sep[..|sep| - 1], sep)
    requires forall k :: 0 <= k < |rest| ==> !Contains(rest[k], sep)
    requires forall k :: 0 <= k < |rest| - 1 ==> !Contains(rest[k] + sep[..|sep| - 1], sep)
    requires parts == [head] + rest
    ensures Join(parts, sep) == head + sep + Join(rest, sep)
    ensures forall k :: 0 <= k < |parts| ==> !Contains(parts[k], sep)
    ensures forall k :: 0 <= k < |parts| - 1 ==> !Contains(parts[k] + sep[..|sep| - 1], sep)
  {
    assert parts[0] == head && parts[1..] == rest;
    forall k | 1 <= k < |parts|
      ensures !Contains(parts[k], sep)
      ensures k < |parts| - 1 ==> !Contains(parts[k] + sep[..|sep| - 1], sep)
    {
      assert parts[k] == rest[k - 1];
    }
  }

  /** strings.Split with a non-empty separator: the pieces of `s` between the
      occurrences of `sep` found left to right, each search resuming after the
      previous match. Joining the pieces again gives `s` back, and no piece
      contains `sep`. Every piece but the last ends at the first match after
      its start: no match begins inside it, even one that would run into the
      separator that follows, which is what fixes the cuts when `sep` can
      overlap itself. */
  function Split(s: string, sep: string): (parts: seq<string>)
    requires sep != []
    ensures |parts| >= 1
    ensures Join(parts, sep) == s
    ensures forall k :: 0 <= k < |parts| ==> !Contains(parts[k], sep)
    ensures forall k :: 0 <= k < |parts| - 1 ==> !Contains(parts[k] + sep[..|sep| - 1], sep)
    decreases |s|
  {
    var i := Index(s, sep);
    if i < 0 then [s]
    else
      var rest := Split(s[i + |sep|..], sep);
      var head := s[..i];
      FirstMatch(s, sep, i);
      var parts := [head] + rest;
      SplitStep(sep, head, rest, parts);
      parts
  }

  /** Split yields exactly two pieces precisely when there is a first match of
      `sep` and no further match after it; the pieces are then what lies
      before and after that first match. */
  lemma SplitInTwo(s: string, sep: string)
    requires sep != []
    ensures var parts := Split(s, sep);
      var i := Index(s, sep);
      && (|parts| == 2 <==> i >= 0 && !Contains(s[i + |sep|..], sep))
      && (|parts| == 2 ==> parts == [s[..i], s[i + |sep|..]])
  {
    var i := Index(s, sep);
    if i >= 0 {
      var rest := s[i + |sep|..];
      var j := Index(rest, sep);
      if j >= 0 {
        assert |Split(rest, sep)| >= 2;
      }
    }
  }

  /** Go's unicode.IsSpace: the characters with the Unicode White_Space property. */
  predicate IsSpace(c: char)
  {
    || c == ' ' || c == '\t' || c == '\n' || c == '\U{000B}' || c == '\U{000C}' || c == '\r'
    || c == '\U{0085}' || c == '\U{00A0}' || c == '\U{1680}'
    || ('\U{2000}' <= c <= '\U{200A}')
    || c == '\U{2028}' || c == '\U{2029}' || c == '\U{202F}' || c == '\U{205F}' || c == '\U{3000}'
  }

  /** strings.TrimLeftFunc(s, unicode.IsSpace) */
  function TrimLeftSpace(s: string): (r: string)
    ensures |r| <= |s| && r == s[|s| - |r|..]
    ensures forall k :: 0 <= k < |s| - |r| ==> IsSpace(s[k])
    ensures r != [] ==> !IsSpace(r[0])
    decreases |s|
  {
    if |s| > 0 && IsSpace(s[0]) then TrimLeftSpace(s[1..]) else s
  }

  /** strings.TrimRightFunc(s, unicode.IsSpace) */
  function TrimRightSpace(s: string): (r: string)
    ensures |r| <= |s| && r == s[..|r|]
    ensures forall k :: |r| <= k < |s| ==> IsSpace(s[k])
    ensures r != [] ==> !IsSpace(r[|r| - 1])
    decreases |s|
  {
    if |s| > 0 && IsSpace(s[|s| - 1]) then TrimRightSpace(s[..|s| - 1]) else s
  }

  /** strings.TrimSpace: removes leading and trailing white space and keeps
      everything in between, inner spaces included. */
  function TrimSpace(s: string): (r: string)
    ensures |r| <= |s|
    ensures r != [] ==> !IsSpace(r[0]) && !IsSpace(r[|r| - 1])
    ensures s != [] && !IsSpace(s[0]) && !IsSpace(s[|s| - 1]) ==> r == s
  {
    TrimRightSpace(TrimLeftSpace(s))
  }
}
