/** The skip-log scanner of internal/log/parser.go: it reads the lines of a
    beet import log and maps every album that beet skipped, named by its path
    below the library's "/files/flac/" directory, to the reason it was
    skipped. */
module SkipLog {
  import opened GoStrings
  import opened FilePath

  /** Line prefix beet writes for an album it skipped as a duplicate. */
  const DuplicatePrefix: string := "duplicate-skip "
  /** Line prefix beet writes for an album it found no strong match for. */
  const SkipPrefix: string := "skip "
  /** The two reasons that can appear as values of the result map. */
  const Duplicate: string := "duplicate"
  const NoStrongMatch: string := "no strong match"
  /** The library directory segment; what follows it is the album key. */
  const Marker: string := "/files/flac/"

  /** What one log line contributes. */
  datatype LineOutcome =
    | Unrelated                                // neither prefix: the line is ignored
    | Skipped(album: string, reason: string)   // an entry for the result map
    | Malformed(path: string)                  // the cleaned path does not split in two: panic

  /** The result of scanning a whole log: the map of skipped albums, or the
      panic raised on the first malformed path (it carries that path). */
  datatype ScanResult = Ok(skipped: map<string, string>) | Fatal(path: string)

  /** The part of `path` before its first ';' (all of it when there is none). */
  function BeforeSemicolon(path: string): (r: string)
    ensures HasPrefix(path, r)
    ensures forall k :: 0 <= k < |r| ==> r[k] != ';'
    ensures |r| < |path| ==> path[|r|] == ';'
  {
    var idx := Index(path, ";");
    OccursAtChar(path, ';', if idx < 0 then 0 else idx);
    forall j: nat ensures OccursAt(path, ";", j) <==> j < |path| && path[j] == ';' {
      OccursAtChar(path, ';', j);
    }
    if idx >= 0 then path[..idx] else path
  }

  /** The path as the scanner normalises it: cut at the first ';', stripped of
      surrounding white space, then cleaned. */
  function NormalizePath(path: string): (p: string)
    ensures p != []
  {
    Clean(TrimSpace(BeforeSemicolon(path)))
  }

  /** The entry for a normalised path: the key is what follows its first
      "/files/flac/", and the path is malformed when there is no match or
      another one starts after the first match ends. */
  function SplitEntry(p: string, reason: string): (o: LineOutcome)
    ensures !o.Unrelated?
    ensures var i := Index(p, Marker);
      && (o.Malformed? <==> i < 0 || Contains(p[i + |Marker|..], Marker))
      && (o.Malformed? ==> o.path == p)
      && (o.Skipped? ==> o.album == p[i + |Marker|..] && o.reason == reason)
    ensures o.Skipped? ==> !Contains(o.album, Marker)
  {
    var parts := Split(p, Marker);
    SplitInTwo(p, Marker);
    if |parts| != 2 then Malformed(p) else Skipped(parts[1], reason)
  }

  /** Turns the path text of a qualifying line into its entry. */
  function AlbumEntry(path: string, reason: string): (o: LineOutcome)
    ensures !o.Unrelated?
    ensures o.Skipped? ==> !Contains(o.album, Marker)
  {
    SplitEntry(NormalizePath(path), reason)
  }

  /** Classifies one log line by its prefix; "duplicate-skip " is tested first. */
  function ParseLine(line: string): (o: LineOutcome)
    ensures o.Unrelated? <==> !HasPrefix(line, DuplicatePrefix) && !HasPrefix(line, SkipPrefix)
    ensures o.Skipped? ==> o.reason in {Duplicate, NoStrongMatch}
    ensures o.Skipped? ==> !Contains(o.album, Marker)
  {
    if HasPrefix(line, DuplicatePrefix) then
      AlbumEntry(TrimPrefix(line, DuplicatePrefix), Duplicate)
    else if HasPrefix(line, SkipPrefix) then
      AlbumEntry(TrimPrefix(line, SkipPrefix), NoStrongMatch)
    else
      Unrelated
  }

  /** The outcome of every line of a log, in order. */
  function Outcomes(lines: seq<string>): seq<LineOutcome>
  {
    seq(|lines|, i requires 0 <= i < |lines| => ParseLine(lines[i]))
  }

  /** The scan as a fold over the lines' outcomes, with `acc` the entries
      recorded so far: a later entry for the same album overwrites an earlier
      one, and the first malformed line ends the scan. */
  function Fold(acc: map<string, string>, os: seq<LineOutcome>): (r: ScanResult)
    decreases |os|
  {
    if os == [] then Ok(acc)
    else
      match os[0]
      case Unrelated => Fold(acc, os[1..])
      case Skipped(album, reason) => Fold(acc[album := reason], os[1..])
      case Malformed(path) => Fatal(path)
  }

  /** The whole scan, starting from an empty map. */
  function Scan(lines: seq<string>): ScanResult
  {
    Fold(map[], Outcomes(lines))
  }

  /** The parser object. It keeps the cleaned album directory it was built
      with; the scan never reads it. */
  class Parser {
    var albumsDir: string

    constructor New(dir: string)
      ensures albumsDir == Clean(dir)
    {
      albumsDir := Clean(dir);
    }

    /** Scans the lines of an already-read log, one pass, updating the map in
        place as each qualifying line is met. */
    method ParseSkippedAlbums(lines: seq<string>) returns (r: ScanResult)
      ensures r == Scan(lines)
    {
      var skipped: map<string, string> := map[];
      var i := 0;
      while i < |lines|
        invariant 0 <= i <= |lines|
        invariant Fold(skipped, Outcomes(lines)[i..]) == Scan(lines)
      {
        var line := lines[i];
        ghost var os := Outcomes(lines)[i..];
        assert os != [] && os[0] == ParseLine(line) && os[1..] == Outcomes(lines)[i + 1..];
        var reason: string, path: string;
        if HasPrefix(line, DuplicatePrefix) {
          reason := Duplicate;
          path := TrimPrefix(line, DuplicatePrefix);
        } else if HasPrefix(line, SkipPrefix) {
          reason := NoStrongMatch;
          path := TrimPrefix(line, SkipPrefix);
        } else {
          assert ParseLine(line) == Unrelated;
          i := i + 1;
          continue;
        }
        ghost var entry := AlbumEntry(path, reason);
        assert ParseLine(line) == entry;
        ghost var raw := path;

        var idx := Index(path, ";");
        if idx >= 0 {
          path := path[..idx];
        }
        assert path == BeforeSemicolon(raw);
        path := TrimSpace(path);
        path := Clean(path);
        assert path == NormalizePath(raw);

        var parts := Split(path, Marker);
        if |parts| != 2 {
          assert entry == Malformed(path);
          assert Fold(skipped, os) == Fatal(path);
          return Fatal(path);
        }
        path := parts[1];
        assert entry == Skipped(path, reason);

        skipped := skipped[path := reason];
        i := i + 1;
      }
      assert Outcomes(lines)[i..] == [];
      return Ok(skipped);
    }
  }
}
