/** The scenarios of internal/log/parser_test.go, stated for every album name
    of the shape the tests use and with the library rooted at "/lib". */
module SkipLogExamples {
  import opened GoStrings
  import opened FilePath
  import opened SkipLog
  import opened SkipLogFacts

  /** The library directory every example path lives under. */
  const Library: string := "/lib/files/flac/"

  /** An album name as the tests use them ("album1", "album with spaces"):
      one plain path element, without ';', not starting or ending in white
      space. */
  predicate IsAlbumName(album: string)
  {
    IsPlain(album) && !IsSpace(album[0]) && !IsSpace(album[|album| - 1]) &&
    forall k :: 0 <= k < |album| ==> album[k] != ';'
  }

  /** What may follow the album path on a log line: nothing, or a note that
      starts with ';' ("; already in library"). */
  predicate IsNote(tail: string)
  {
    tail == [] || tail[0] == ';'
  }

  lemma JoinLibrary(album: string)
    ensures "/" + Join(["lib", "files", "flac", album], "/") == Library + album
  {
    var elems := ["lib", "files", "flac", album];
    assert ["flac", album][1..] == [album];
    assert Join(["flac", album], "/") == "flac/" + album;
    assert ["files", "flac", album][1..] == ["flac", album];
    assert Join(["files", "flac", album], "/") == "files/flac/" + album;
    assert elems[1..] == ["files", "flac", album];
    assert Join(elems, "/") == "lib/files/flac/" + album;
  }

  /** An album path directly in the library is already clean. */
  lemma LibraryPathIsClean(album: string)
    requires IsPlain(album)
    ensures Clean(Library + album) == Library + album
  {
    var elems := ["lib", "files", "flac", album];
    JoinLibrary(album);
    assert forall k :: 0 <= k < |elems| ==> IsPlain(elems[k]);
    CleanRootedPlain(elems);
  }

  /** After "/lib" comes the first "/files/flac/". */
  lemma MarkerAtFour(rest: string)
    ensures Index(Library + rest, Marker) == 4
    ensures (Library + rest)[4 + |Marker|..] == rest
  {
    var p := Library + rest;
    assert OccursAt(p, Marker, 4) by {
      assert p[4..16] == Marker;
    }
    forall j: nat | j < 4 ensures !OccursAt(p, Marker, j) {
      assert p[j..j + |Marker|][1] == p[j + 1];
    }
    assert p[4 + |Marker|..] == rest;
  }

  /** A plain element holds no "/files/flac/", which starts with '/'. */
  lemma PlainHasNoMarker(album: string)
    requires IsPlain(album)
    ensures !Contains(album, Marker)
  {
    forall i: nat ensures !OccursAt(album, Marker, i) {
      if i + |Marker| <= |album| {
        assert album[i..i + |Marker|][0] == album[i];
      }
    }
  }

  /** The note after the album path is cut off at its ';'. */
  lemma LibraryCut(album: string, tail: string)
    requires IsAlbumName(album) && IsNote(tail)
    ensures BeforeSemicolon(Library + album + tail) == Library + album
  {
    var path := Library + album + tail;
    var p := Library + album;
    assert path[..|p|] == p;
    if tail != [] {
      assert path[|p|] == tail[0];
    }
    assert forall k :: 0 <= k < |p| ==> p[k] != ';' by {
      forall k | 0 <= k < |p| ensures p[k] != ';' {
        if k >= |Library| {
          assert p[k] == album[k - |Library|];
        }
      }
    }
    BeforeSemicolonUnique(path, p);
  }

  lemma LibraryTrim(album: string)
    requires IsAlbumName(album)
    ensures TrimSpace(Library + album) == Library + album
  {
    var p := Library + album;
    assert p[0] == '/' && p[|p| - 1] == album[|album| - 1];
  }

  lemma LibraryNormal(album: string, tail: string)
    requires IsAlbumName(album) && IsNote(tail)
    ensures NormalizePath(Library + album + tail) == Library + album
  {
    LibraryCut(album, tail);
    LibraryTrim(album);
    LibraryPathIsClean(album);
  }

  /** The path text of a qualifying line whose album sits directly in the
      library: the note is dropped and the album name is the key. */
  lemma LibraryEntry(album: string, tail: string, reason: string)
    requires IsAlbumName(album) && IsNote(tail)
    ensures AlbumEntry(Library + album + tail, reason) == Skipped(album, reason)
  {
    LibraryNormal(album, tail);
    MarkerAtFour(album);
    PlainHasNoMarker(album);
  }

  lemma SkipLibraryLine(album: string, tail: string)
    requires IsAlbumName(album) && IsNote(tail)
    ensures ParseLine(SkipPrefix + (Library + album + tail)) == Skipped(album, NoStrongMatch)
  {
    SkipLine(Library + album + tail);
    LibraryEntry(album, tail, NoStrongMatch);
  }

  lemma DuplicateSkipLibraryLine(album: string, tail: string)
    requires IsAlbumName(album) && IsNote(tail)
    ensures ParseLine(DuplicatePrefix + (Library + album + tail)) == Skipped(album, Duplicate)
  {
    DuplicateSkipLine(Library + album + tail);
    LibraryEntry(album, tail, Duplicate);
  }

  /** An "added" line is not a skip line. */
  lemma AddedLine(path: string)
    ensures !HasPrefix("added " + path, DuplicatePrefix) && !HasPrefix("added " + path, SkipPrefix)
  {
    var line := "added " + path;
    assert line[0] == 'a';
  }

  lemma OutcomesOne(line: string)
    ensures Outcomes([line]) == [ParseLine(line)]
  {
    assert Outcomes([line])[0] == ParseLine(line);
  }

  lemma OutcomesTwo(line1: string, line2: string)
    ensures Outcomes([line1, line2]) == [ParseLine(line1), ParseLine(line2)]
  {
    OutcomesOne(line1);
    OutcomesOne(line2);
    OutcomesConcat([line1], [line2]);
    assert [line1] + [line2] == [line1, line2];
    assert [ParseLine(line1)] + [ParseLine(line2)] == [ParseLine(line1), ParseLine(line2)];
  }

  lemma ScanTwo(line1: string, line2: string)
    ensures Scan([line1, line2]) == Fold(map[], [ParseLine(line1), ParseLine(line2)])
  {
    OutcomesTwo(line1, line2);
  }

  lemma FoldTwo(album1: string, reason1: string, album2: string, reason2: string)
    ensures Fold(map[], [Skipped(album1, reason1), Skipped(album2, reason2)])
      == Ok(map[album1 := reason1, album2 := reason2])
  {
    var os := [Skipped(album1, reason1), Skipped(album2, reason2)];
    assert os[1..] == [Skipped(album2, reason2)];
    assert os[1..][1..] == [];
    assert Fold(map[], os) == Fold(map[album1 := reason1], [Skipped(album2, reason2)]);
    assert Fold(map[album1 := reason1], [Skipped(album2, reason2)])
      == Fold(map[album1 := reason1, album2 := reason2], []);
  }

  /** Two lines that are both entries give a map of exactly those entries,
      the second winning when they name the same album. */
  lemma TwoEntries(line1: string, line2: string, album1: string, reason1: string, album2: string, reason2: string)
    requires ParseLine(line1) == Skipped(album1, reason1)
    requires ParseLine(line2) == Skipped(album2, reason2)
    ensures Scan([line1, line2]) == Ok(map[album1 := reason1, album2 := reason2])
  {
    ScanTwo(line1, line2);
    FoldTwo(album1, reason1, album2, reason2);
  }

  /** "basic skip with absolute paths" and "skip with spaces": two "skip "
      lines, notes and all, give their two albums with reason
      "no strong match". */
  lemma BasicSkip(album1: string, tail1: string, album2: string, tail2: string)
    requires IsAlbumName(album1) && IsNote(tail1)
    requires IsAlbumName(album2) && IsNote(tail2)
    ensures Scan([
      SkipPrefix + (Library + album1 + tail1),
      SkipPrefix + (Library + album2 + tail2)])
      == Ok(map[album1 := NoStrongMatch, album2 := NoStrongMatch])
  {
    SkipLibraryLine(album1, tail1);
    SkipLibraryLine(album2, tail2);
    TwoEntries(
      SkipPrefix + (Library + album1 + tail1),
      SkipPrefix + (Library + album2 + tail2),
      album1, NoStrongMatch, album2, NoStrongMatch);
  }

  /** "duplicate-skip entries": each prefix gives its own reason. */
  lemma DuplicateSkipEntries(album1: string, tail1: string, album2: string, tail2: string)
    requires IsAlbumName(album1) && IsNote(tail1)
    requires IsAlbumName(album2) && IsNote(tail2)
    ensures Scan([
      DuplicatePrefix + (Library + album1 + tail1),
      SkipPrefix + (Library + album2 + tail2)])
      == Ok(map[album1 := Duplicate, album2 := NoStrongMatch])
  {
    DuplicateSkipLibraryLine(album1, tail1);
    SkipLibraryLine(album2, tail2);
    TwoEntries(
      DuplicatePrefix + (Library + album1 + tail1),
      SkipPrefix + (Library + album2 + tail2),
      album1, Duplicate, album2, NoStrongMatch);
  }

  lemma SameKeyTwice(album: string, reason1: string, reason2: string)
    ensures map[album := reason1, album := reason2] == map[album := reason2]
  {
  }

  /** A later line for the same album overwrites the reason of an earlier one. */
  lemma LaterLineOverwrites(album: string, tail1: string, tail2: string)
    requires IsAlbumName(album) && IsNote(tail1) && IsNote(tail2)
    ensures Scan([
      SkipPrefix + (Library + album + tail1),
      DuplicatePrefix + (Library + album + tail2)])
      == Ok(map[album := Duplicate])
  {
    SkipLibraryLine(album, tail1);
    DuplicateSkipLibraryLine(album, tail2);
    TwoEntries(
      SkipPrefix + (Library + album + tail1),
      DuplicatePrefix + (Library + album + tail2),
      album, NoStrongMatch, album, Duplicate);
    SameKeyTwice(album, NoStrongMatch, Duplicate);
  }

  /** "no skips": "added" lines alone give an empty map. */
  lemma NoSkips(path1: string, path2: string)
    ensures Scan(["added " + path1, "added " + path2]) == Ok(map[])
  {
    var lines := ["added " + path1, "added " + path2];
    AddedLine(path1);
    AddedLine(path2);
    NoQualifyingLineGivesEmptyMap(lines);
  }

  /** "mixed content": an "added" line between two skips changes nothing. */
  lemma MixedContent(album1: string, tail1: string, path: string, album3: string, tail3: string)
    requires IsAlbumName(album1) && IsNote(tail1)
    requires IsAlbumName(album3) && IsNote(tail3)
    ensures Scan([
      SkipPrefix + (Library + album1 + tail1),
      "added " + path,
      SkipPrefix + (Library + album3 + tail3)])
      == Ok(map[album1 := NoStrongMatch, album3 := NoStrongMatch])
  {
    var line1 := SkipPrefix + (Library + album1 + tail1);
    var line2 := "added " + path;
    var line3 := SkipPrefix + (Library + album3 + tail3);
    AddedLine(path);
    UnrelatedLineIgnored([line1], line2, [line3]);
    assert [line1] + [line2] + [line3] == [line1, line2, line3];
    assert [line1] + [line3] == [line1, line3];
    BasicSkip(album1, tail1, album3, tail3);
  }

  /** The path "/dir/album" has slashes at two places only. */
  lemma TwoSlashes(dir: string, album: string)
    requires IsAlbumName(dir) && IsAlbumName(album)
    ensures var path := "/" + dir + "/" + album;
      forall k :: 0 <= k < |path| && k != 0 && k != |dir| + 1 ==> path[k] != '/' && path[k] != ';'
  {
    var path := "/" + dir + "/" + album;
    var n := |dir| + 1;
    forall k | 0 <= k < |path| && k != 0 && k != n ensures path[k] != '/' && path[k] != ';' {
      if k < n {
        assert path[k] == dir[k - 1];
      } else {
        assert path[k] == album[k - n - 1];
      }
    }
  }

  /** "/dir/album" is already in normal form. */
  lemma OutsideNormal(dir: string, album: string)
    requires IsAlbumName(dir) && IsAlbumName(album)
    ensures NormalizePath("/" + dir + "/" + album) == "/" + dir + "/" + album
  {
    var path := "/" + dir + "/" + album;
    TwoSlashes(dir, album);
    assert path[|dir| + 1] == '/';
    BeforeSemicolonUnique(path, path);
    assert path[|path| - 1] == album[|album| - 1];
    assert TrimSpace(path) == path;
    var elems := [dir, album];
    assert Join(elems, "/") == dir + "/" + album by {
      assert elems[1..] == [album];
    }
    CleanRootedPlain(elems);
    assert "/" + (dir + "/" + album) == path;
  }

  /** "/dir/album" holds no "/files/flac/": that needs three slashes. */
  lemma OutsideHasNoMarker(dir: string, album: string)
    requires IsAlbumName(dir) && IsAlbumName(album)
    ensures !Contains("/" + dir + "/" + album, Marker)
  {
    var path := "/" + dir + "/" + album;
    TwoSlashes(dir, album);
    forall j: nat ensures !OccursAt(path, Marker, j) {
      if j + |Marker| <= |path| {
        var w := path[j..j + |Marker|];
        assert w[0] == path[j] && w[6] == path[j + 6] && w[11] == path[j + 11];
      }
    }
  }

  /** A path with two elements and no "/files/flac/" in it is malformed. */
  lemma OutsideLibraryPath(dir: string, album: string, reason: string)
    requires IsAlbumName(dir) && IsAlbumName(album)
    ensures AlbumEntry("/" + dir + "/" + album, reason) == Malformed("/" + dir + "/" + album)
  {
    OutsideNormal(dir, album);
    OutsideHasNoMarker(dir, album);
  }

  lemma FoldFatalSecond(album: string, reason: string, path: string)
    ensures Fold(map[], [Skipped(album, reason), Malformed(path)]) == Fatal(path)
  {
    var os := [Skipped(album, reason), Malformed(path)];
    assert os[1..] == [Malformed(path)];
    assert Fold(map[], os) == Fold(map[album := reason], [Malformed(path)]);
  }

  /** A malformed second line ends the scan even after an entry. */
  lemma FatalSecond(line1: string, line2: string, album: string, reason: string, path: string)
    requires ParseLine(line1) == Skipped(album, reason)
    requires ParseLine(line2) == Malformed(path)
    ensures Scan([line1, line2]) == Fatal(path)
  {
    ScanTwo(line1, line2);
    FoldFatalSecond(album, reason, path);
  }

  /** A skipped path outside any "/files/flac/" directory aborts the scan
      with that path, even after a good line. */
  lemma PathOutsideLibraryIsFatal(album1: string, tail1: string, dir: string, album: string)
    requires IsAlbumName(album1) && IsNote(tail1)
    requires IsAlbumName(dir) && IsAlbumName(album)
    ensures Scan([SkipPrefix + (Library + album1 + tail1), SkipPrefix + ("/" + dir + "/" + album)])
      == Fatal("/" + dir + "/" + album)
  {
    var path := "/" + dir + "/" + album;
    SkipLibraryLine(album1, tail1);
    OutsideLibraryPath(dir, album, NoStrongMatch);
    SkipLine(path);
    FatalSecond(SkipPrefix + (Library + album1 + tail1), SkipPrefix + path, album1, NoStrongMatch, path);
  }

  /** "files/flac/" + album has slashes at two places only. */
  lemma NestedSlashes(album: string)
    requires IsAlbumName(album)
    ensures var rest := "files/flac/" + album;
      forall k :: 0 <= k < |rest| && k != 5 && k != 10 ==> rest[k] != '/'
  {
    var rest := "files/flac/" + album;
    forall k | 0 <= k < |rest| && k != 5 && k != 10 ensures rest[k] != '/' {
      if k >= 11 {
        assert rest[k] == album[k - 11];
      }
    }
  }

  /** The split counts matches that do not overlap. In
      "/lib/files/flac/files/flac/album" a second "/files/flac/" starts on
      the last '/' of the first one, so it is not seen: the line is accepted
      and its key, "files/flac/album", holds "files/flac/" itself. */
  lemma OverlappingMarkerAccepted(album: string, reason: string)
    requires IsAlbumName(album)
    ensures var p := Library + ("files/flac/" + album);
      && OccursAt(p, Marker, 4) && OccursAt(p, Marker, 15)
      && SplitEntry(p, reason) == Skipped("files/flac/" + album, reason)
  {
    var rest := "files/flac/" + album;
    var p := Library + rest;
    assert p[15..27] == Marker;
    MarkerAtFour(rest);
    NestedSlashes(album);
    forall j: nat ensures !OccursAt(rest, Marker, j) {
      if j + |Marker| <= |rest| {
        var w := rest[j..j + |Marker|];
        assert w[0] == rest[j] && w[6] == rest[j + 6] && w[11] == rest[j + 11];
      }
    }
  }
}
