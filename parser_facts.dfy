/** What the skip-log scan guarantees, proved about the fold that specifies
    Parser.ParseSkippedAlbums. */
module SkipLogFacts {
  import opened GoStrings
  import opened FilePath
  import opened SkipLog

  // ---------------------------------------------------------------------
  // One line at a time

  /** A "duplicate-skip " line is an entry with reason "duplicate" for the
      path that follows the prefix. */
  lemma DuplicateSkipLine(path: string)
    ensures ParseLine(DuplicatePrefix + path) == AlbumEntry(path, Duplicate)
  {
    assert (DuplicatePrefix + path)[..|DuplicatePrefix|] == DuplicatePrefix;
    assert (DuplicatePrefix + path)[|DuplicatePrefix|..] == path;
  }

  /** A "skip " line is an entry with reason "no strong match" for the path
      that follows the prefix. */
  lemma SkipLine(path: string)
    ensures ParseLine(SkipPrefix + path) == AlbumEntry(path, NoStrongMatch)
  {
    var line := SkipPrefix + path;
    assert line[0] == 's';
    assert !HasPrefix(line, DuplicatePrefix);
    assert line[..|SkipPrefix|] == SkipPrefix;
    assert line[|SkipPrefix|..] == path;
  }

  /** The ';'-free prefix of a line decides whether the line starts with a
      prefix that itself holds no ';'. */
  lemma PrefixBeforeSemicolon(line: string, prefix: string)
    requires forall k :: 0 <= k < |prefix| ==> prefix[k] != ';'
    ensures HasPrefix(line, prefix) <==> HasPrefix(BeforeSemicolon(line), prefix)
  {
    var c := BeforeSemicolon(line);
    if HasPrefix(c, prefix) {
      assert line[..|prefix|] == c[..|prefix|];
    }
  }

  /** BeforeSemicolon is the only ';'-free prefix that stops at a ';' or at
      the end. */
  lemma BeforeSemicolonUnique(s: string, r: string)
    requires HasPrefix(s, r)
    requires forall k :: 0 <= k < |r| ==> r[k] != ';'
    requires |r| < |s| ==> s[|r|] == ';'
    ensures r == BeforeSemicolon(s)
  {
    var c := BeforeSemicolon(s);
    assert r == s[..|r|] && c == s[..|c|];
  }

  /** Dropping a head that lies before the first ';' commutes with the cut. */
  lemma BeforeSemicolonDrop(s: string, n: nat)
    requires n <= |BeforeSemicolon(s)|
    ensures BeforeSemicolon(s[n..]) == BeforeSemicolon(s)[n..]
  {
    var c := BeforeSemicolon(s);
    var r := c[n..];
    assert s[n..][..|r|] == r;
    if |r| < |s[n..]| {
      assert s[n..][|r|] == s[|c|];
    }
    BeforeSemicolonUnique(s[n..], r);
  }

  /** Everything from the first ';' of a line on never matters: two lines that
      agree up to their first ';' have the same outcome. */
  lemma AfterSemicolonIgnored(line1: string, line2: string)
    requires BeforeSemicolon(line1) == BeforeSemicolon(line2)
    ensures ParseLine(line1) == ParseLine(line2)
  {
    var c := BeforeSemicolon(line1);
    PrefixBeforeSemicolon(line1, DuplicatePrefix);
    PrefixBeforeSemicolon(line2, DuplicatePrefix);
    PrefixBeforeSemicolon(line1, SkipPrefix);
    PrefixBeforeSemicolon(line2, SkipPrefix);
    if HasPrefix(c, DuplicatePrefix) {
      BeforeSemicolonDrop(line1, |DuplicatePrefix|);
      BeforeSemicolonDrop(line2, |DuplicatePrefix|);
    } else if HasPrefix(c, SkipPrefix) {
      BeforeSemicolonDrop(line1, |SkipPrefix|);
      BeforeSemicolonDrop(line2, |SkipPrefix|);
    }
  }

  // ---------------------------------------------------------------------
  // The fold over line outcomes

  /** The entry `o` adds to `acc` (none unless `o` is Skipped). */
  function Record(acc: map<string, string>, o: LineOutcome): map<string, string>
  {
    if o.Skipped? then acc[o.album := o.reason] else acc
  }

  lemma {:induction false} FoldSucceedsIff(acc: map<string, string>, os: seq<LineOutcome>)
    ensures Fold(acc, os).Ok? <==> forall i :: 0 <= i < |os| ==> !os[i].Malformed?
    decreases |os|
  {
    if os != [] {
      FoldSucceedsIff(Record(acc, os[0]), os[1..]);
      assert forall i :: 1 <= i < |os| ==> os[i] == os[1..][i - 1];
    }
  }

  lemma {:induction false} FoldStopsAtFirstMalformed(acc: map<string, string>, os: seq<LineOutcome>, i: nat)
    requires i < |os| && os[i].Malformed?
    requires forall j :: 0 <= j < i ==> !os[j].Malformed?
    ensures Fold(acc, os) == Fatal(os[i].path)
    decreases i
  {
    if i > 0 {
      assert os[1..][i - 1] == os[i];
      FoldStopsAtFirstMalformed(Record(acc, os[0]), os[1..], i - 1);
    }
  }

  lemma {:induction false} FoldEntriesFromOutcomes(acc: map<string, string>, os: seq<LineOutcome>, k: string)
    requires Fold(acc, os).Ok? && k in Fold(acc, os).skipped
    ensures var m := Fold(acc, os).skipped;
      (k in acc && m[k] == acc[k]) || exists i :: 0 <= i < |os| && os[i] == Skipped(k, m[k])
    decreases |os|
  {
    if os != [] {
      var m := Fold(acc, os).skipped;
      FoldEntriesFromOutcomes(Record(acc, os[0]), os[1..], k);
      if exists i :: 0 <= i < |os| - 1 && os[1..][i] == Skipped(k, m[k]) {
        var i :| 0 <= i < |os| - 1 && os[1..][i] == Skipped(k, m[k]);
        assert os[i + 1] == Skipped(k, m[k]);
      }
    }
  }

  lemma {:induction false} FoldKeepsUnnamed(acc: map<string, string>, os: seq<LineOutcome>, k: string)
    requires Fold(acc, os).Ok?
    requires forall j :: 0 <= j < |os| ==> !(os[j].Skipped? && os[j].album == k)
    ensures var m := Fold(acc, os).skipped;
      (k in m <==> k in acc) && (k in acc ==> m[k] == acc[k])
    decreases |os|
  {
    if os != [] {
      assert forall j :: 0 <= j < |os| - 1 ==> os[1..][j] == os[j + 1];
      FoldKeepsUnnamed(Record(acc, os[0]), os[1..], k);
    }
  }

  lemma {:induction false} FoldLastWins(acc: map<string, string>, os: seq<LineOutcome>, i: nat)
    requires Fold(acc, os).Ok?
    requires i < |os| && os[i].Skipped?
    requires forall j :: i < j < |os| ==> !(os[j].Skipped? && os[j].album == os[i].album)
    ensures os[i].album in Fold(acc, os).skipped && Fold(acc, os).skipped[os[i].album] == os[i].reason
    decreases i
  {
    assert forall j :: 0 <= j < |os| - 1 ==> os[1..][j] == os[j + 1];
    if i == 0 {
      FoldKeepsUnnamed(Record(acc, os[0]), os[1..], os[0].album);
    } else {
      FoldLastWins(Record(acc, os[0]), os[1..], i - 1);
    }
  }

  lemma {:induction false} FoldAppend(acc: map<string, string>, os: seq<LineOutcome>, o: LineOutcome)
    ensures Fold(acc, os + [o]) ==
      match Fold(acc, os)
      case Fatal(p) => Fatal(p)
      case Ok(m) => if o.Malformed? then Fatal(o.path) else Ok(Record(m, o))
    decreases |os|
  {
    if os == [] {
      assert [o][1..] == [];
    } else {
      assert (os + [o])[0] == os[0];
      assert (os + [o])[1..] == os[1..] + [o];
      FoldAppend(Record(acc, os[0]), os[1..], o);
    }
  }

  lemma {:induction false} FoldSkipsUnrelated(acc: map<string, string>, before: seq<LineOutcome>, after: seq<LineOutcome>)
    ensures Fold(acc, before + [Unrelated] + after) == Fold(acc, before + after)
    decreases |before|
  {
    if before == [] {
      assert before + [Unrelated] + after == [Unrelated] + after;
      assert before + after == after;
      assert ([Unrelated] + after)[1..] == after;
    } else {
      assert (before + [Unrelated] + after)[0] == before[0];
      assert (before + after)[0] == before[0];
      assert (before + [Unrelated] + after)[1..] == before[1..] + [Unrelated] + after;
      assert (before + after)[1..] == before[1..] + after;
      FoldSkipsUnrelated(Record(acc, before[0]), before[1..], after);
    }
  }

  lemma {:induction false} FoldOfUnrelated(acc: map<string, string>, os: seq<LineOutcome>)
    requires forall i :: 0 <= i < |os| ==> os[i].Unrelated?
    ensures Fold(acc, os) == Ok(acc)
    decreases |os|
  {
    if os != [] {
      assert forall i :: 0 <= i < |os| - 1 ==> os[1..][i] == os[i + 1];
      FoldOfUnrelated(acc, os[1..]);
    }
  }

  // ---------------------------------------------------------------------
  // The whole scan, stated over the lines of the log

  lemma OutcomesConcat(a: seq<string>, b: seq<string>)
    ensures Outcomes(a + b) == Outcomes(a) + Outcomes(b)
  {
    var l, r := Outcomes(a + b), Outcomes(a) + Outcomes(b);
    assert |l| == |r|;
    forall i | 0 <= i < |l| ensures l[i] == r[i] {
      var x := (a + b)[i];
      if i < |a| {
        assert x == a[i];
        assert r[i] == Outcomes(a)[i];
      } else {
        assert x == b[i - |a|];
        assert r[i] == Outcomes(b)[i - |a|];
      }
    }
  }

  /** The scan succeeds exactly when no line is malformed. */
  lemma ScanSucceedsIff(lines: seq<string>)
    ensures Scan(lines).Ok? <==> forall i :: 0 <= i < |lines| ==> !ParseLine(lines[i]).Malformed?
  {
    var os := Outcomes(lines);
    FoldSucceedsIff(map[], os);
    assert forall i :: 0 <= i < |lines| ==> os[i] == ParseLine(lines[i]);
  }

  /** A malformed line ends the whole scan with its own cleaned path, however
      many good lines follow it, as long as no earlier line was malformed. */
  lemma ScanStopsAtFirstMalformed(lines: seq<string>, i: nat)
    requires i < |lines| && ParseLine(lines[i]).Malformed?
    requires forall j :: 0 <= j < i ==> !ParseLine(lines[j]).Malformed?
    ensures Scan(lines) == Fatal(ParseLine(lines[i]).path)
  {
    FoldStopsAtFirstMalformed(map[], Outcomes(lines), i);
  }

  /** Every entry of a successful scan comes from some qualifying line, with
      that line's reason. */
  lemma ScanEntriesFromLines(lines: seq<string>, k: string)
    requires Scan(lines).Ok? && k in Scan(lines).skipped
    ensures exists i :: 0 <= i < |lines| && ParseLine(lines[i]) == Skipped(k, Scan(lines).skipped[k])
  {
    var os := Outcomes(lines);
    FoldEntriesFromOutcomes(map[], os, k);
    var i :| 0 <= i < |os| && os[i] == Skipped(k, Scan(lines).skipped[k]);
    assert ParseLine(lines[i]) == os[i];
  }

  /** Every value of a successful scan is one of the two reasons, and no key
      contains "/files/flac/". */
  lemma ScanEntriesWellFormed(lines: seq<string>)
    requires Scan(lines).Ok?
    ensures forall k :: k in Scan(lines).skipped ==>
      Scan(lines).skipped[k] in {Duplicate, NoStrongMatch} && !Contains(k, Marker)
  {
    forall k | k in Scan(lines).skipped
      ensures Scan(lines).skipped[k] in {Duplicate, NoStrongMatch} && !Contains(k, Marker)
    {
      ScanEntriesFromLines(lines, k);
    }
  }

  /** When several lines name the same album, the reason of the last one is
      the one recorded. */
  lemma ScanLastWins(lines: seq<string>, i: nat)
    requires Scan(lines).Ok?
    requires i < |lines| && ParseLine(lines[i]).Skipped?
    requires forall j :: i < j < |lines| ==>
      !(ParseLine(lines[j]).Skipped? && ParseLine(lines[j]).album == ParseLine(lines[i]).album)
    ensures var e := ParseLine(lines[i]);
      e.album in Scan(lines).skipped && Scan(lines).skipped[e.album] == e.reason
  {
    FoldLastWins(map[], Outcomes(lines), i);
  }

  /** A successful scan has a key exactly for the albums that some line names. */
  lemma ScanKeysAreNamedAlbums(lines: seq<string>, k: string)
    requires Scan(lines).Ok?
    ensures k in Scan(lines).skipped <==>
      exists i :: 0 <= i < |lines| && ParseLine(lines[i]).Skipped? && ParseLine(lines[i]).album == k
  {
    if k in Scan(lines).skipped {
      ScanEntriesFromLines(lines, k);
    } else if exists i :: 0 <= i < |lines| && ParseLine(lines[i]).Skipped? && ParseLine(lines[i]).album == k {
      var i :| 0 <= i < |lines| && ParseLine(lines[i]).Skipped? && ParseLine(lines[i]).album == k;
      LastNaming(lines, k, i);
    }
  }

  /** Any album some line names is a key: follow it to the last line naming it. */
  lemma {:induction false} LastNaming(lines: seq<string>, k: string, i: nat)
    requires Scan(lines).Ok?
    requires i < |lines| && ParseLine(lines[i]).Skipped? && ParseLine(lines[i]).album == k
    ensures k in Scan(lines).skipped
    decreases |lines| - i
  {
    if exists j :: i < j < |lines| && ParseLine(lines[j]).Skipped? && ParseLine(lines[j]).album == k {
      var j :| i < j < |lines| && ParseLine(lines[j]).Skipped? && ParseLine(lines[j]).album == k;
      LastNaming(lines, k, j);
    } else {
      ScanLastWins(lines, i);
    }
  }

  /** Scanning one more line: a failed scan stays as it was, an unrelated line
      changes nothing, a malformed line ends the scan, and a qualifying line
      sets its own album's entry and leaves every other entry alone. */
  lemma ScanAppend(lines: seq<string>, line: string)
    ensures Scan(lines).Fatal? ==> Scan(lines + [line]) == Scan(lines)
    ensures Scan(lines).Ok? && ParseLine(line).Unrelated? ==> Scan(lines + [line]) == Scan(lines)
    ensures Scan(lines).Ok? && ParseLine(line).Malformed? ==> Scan(lines + [line]) == Fatal(ParseLine(line).path)
    ensures Scan(lines).Ok? && ParseLine(line).Skipped? ==>
      var m := Scan(lines).skipped;
      var e := ParseLine(line);
      && Scan(lines + [line]).Ok?
      && Scan(lines + [line]).skipped.Keys == m.Keys + {e.album}
      && Scan(lines + [line]).skipped[e.album] == e.reason
      && forall k :: k in m && k != e.album ==> Scan(lines + [line]).skipped[k] == m[k]
  {
    OutcomesConcat(lines, [line]);
    assert Outcomes([line]) == [ParseLine(line)];
    FoldAppend(map[], Outcomes(lines), ParseLine(line));
  }

  /** An unrelated line can be taken out of a log without changing the scan. */
  lemma UnrelatedLineIgnored(before: seq<string>, line: string, after: seq<string>)
    requires !HasPrefix(line, DuplicatePrefix) && !HasPrefix(line, SkipPrefix)
    ensures Scan(before + [line] + after) == Scan(before + after)
  {
    OutcomesConcat(before, [line]);
    OutcomesConcat(before + [line], after);
    OutcomesConcat(before, after);
    assert Outcomes([line]) == [Unrelated];
    FoldSkipsUnrelated(map[], Outcomes(before), Outcomes(after));
  }

  /** A log with no qualifying line, the empty log included, gives an empty
      map and no error. */
  lemma NoQualifyingLineGivesEmptyMap(lines: seq<string>)
    requires forall i :: 0 <= i < |lines| ==>
      !HasPrefix(lines[i], DuplicatePrefix) && !HasPrefix(lines[i], SkipPrefix)
    ensures Scan(lines) == Ok(map[])
  {
    FoldOfUnrelated(map[], Outcomes(lines));
  }
}
