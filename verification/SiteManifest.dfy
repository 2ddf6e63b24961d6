// The published site's manifest: written by publish, read back by manifest.
module SiteManifest {
  import opened Bytes
  import opened Text
  import opened JamFs
  import opened ComputerService
  import opened LiveFileSystem
  import opened FsInvariant
  import opened Publishing
  import opened Hexadecimal
  import Decimal

  /** "/index.html" */
  const INDEX_PATH: Bytes := [47, 105, 110, 100, 101, 120, 46, 104, 116, 109, 108]
  const MAX_MANIFEST_BYTES := 4096

  // ------------------------------------------------------------------- sorting

  /** A locale comparison, seen only as an order on paths. */
  type Before = (Bytes, Bytes) -> bool

  function InsertRow(rows: seq<Row>, row: Row, before: Before): seq<Row> {
    if rows == [] || !before(rows[0].path, row.path) then [row] + rows
    else [rows[0]] + InsertRow(rows[1..], row, before)
  }

  function SortRows(rows: seq<Row>, before: Before): seq<Row> {
    if rows == [] then [] else InsertRow(SortRows(rows[1..], before), rows[0], before)
  }

  lemma {:induction false} InsertRowKeeps(rows: seq<Row>, row: Row, before: Before)
    ensures multiset(InsertRow(rows, row, before)) == multiset(rows) + multiset{row}
  {
    if rows != [] && before(rows[0].path, row.path) {
      InsertRowKeeps(rows[1..], row, before);
      assert rows == [rows[0]] + rows[1..];
    }
  }

  /** Sorting loses and invents no row. */
  lemma {:induction false} SortRowsKeeps(rows: seq<Row>, before: Before)
    ensures multiset(SortRows(rows, before)) == multiset(rows)
  {
    if rows != [] {
      SortRowsKeeps(rows[1..], before);
      InsertRowKeeps(SortRows(rows[1..], before), rows[0], before);
      assert rows == [rows[0]] + rows[1..];
    }
  }

  /** Never having to swap is transitive and total: what a sort needs of its comparison. */
  ghost predicate IsOrder(before: Before) {
    && (forall a, b :: !before(a, b) || !before(b, a))
    && (forall a, b, c :: !before(b, a) && !before(c, b) ==> !before(c, a))
  }

  ghost predicate InOrder(rows: seq<Row>, before: Before) {
    forall i, j :: 0 <= i < j < |rows| ==> !before(rows[j].path, rows[i].path)
  }

  lemma InOrderCons(row: Row, rows: seq<Row>, before: Before)
    requires InOrder(rows, before) && forall other :: other in rows ==> !before(other.path, row.path)
    ensures InOrder([row] + rows, before)
  {
    var all := [row] + rows;
    forall i, j | 0 <= i < j < |all| ensures !before(all[j].path, all[i].path) {
      assert all[j] == rows[j - 1];
      if i > 0 { assert all[i] == rows[i - 1]; }
    }
  }

  lemma {:induction false} InsertRowSorts(rows: seq<Row>, row: Row, before: Before)
    requires IsOrder(before) && InOrder(rows, before)
    ensures InOrder(InsertRow(rows, row, before), before)
  {
    if rows == [] {
    } else if !before(rows[0].path, row.path) {
      forall other | other in rows ensures !before(other.path, row.path) {
        var i :| 0 <= i < |rows| && rows[i] == other;
        assert i > 0 ==> !before(other.path, rows[0].path);
      }
      InOrderCons(row, rows, before);
    } else {
      InsertRowSorts(rows[1..], row, before);
      InsertRowKeeps(rows[1..], row, before);
      var rest := InsertRow(rows[1..], row, before);
      forall other | other in rest ensures !before(other.path, rows[0].path) {
        assert other in multiset(rest);
        if other != row {
          var i :| 0 <= i < |rows[1..]| && rows[1..][i] == other;
        }
      }
      InOrderCons(rows[0], rest, before);
    }
  }

  /** With a consistent comparison the sorted rows are in its order. */
  lemma {:induction false} SortRowsSorts(rows: seq<Row>, before: Before)
    requires IsOrder(before)
    ensures InOrder(SortRows(rows, before), before)
  {
    if rows != [] {
      SortRowsSorts(rows[1..], before);
      InsertRowSorts(SortRows(rows[1..], before), rows[0], before);
    }
  }

  // ------------------------------------------------------------------- writing

  function Fields(row: Row): seq<Bytes> {
    [row.path, row.mime, Decimal.Print(row.size), row.contentRoot]
  }

  function Line(row: Row): Bytes {
    Join(Fields(row), BAR)
  }

  function Lines(rows: seq<Row>): seq<Bytes> {
    seq(|rows|, i requires 0 <= i < |rows| => Line(rows[i]))
  }

  function ManifestText(rows: seq<Row>): Bytes {
    Join(Lines(rows), NEWLINE)
  }

  // ------------------------------------------------------------------- reading

  function NonEmpty(lines: seq<Bytes>): seq<Bytes> {
    if lines == [] then [] else (if lines[0] == [] then [] else [lines[0]]) + NonEmpty(lines[1..])
  }

  /** The first four fields of a line; None where a field is missing or the size is not
      a number. */
  function ParseLine(line: Bytes): Option<Row> {
    var parts := Split(line, BAR);
    if |parts| < 4 || parts[2] == [] || (exists i :: 0 <= i < |parts[2]| && !Decimal.Digit(parts[2][i]))
       || Decimal.Value(parts[2]) < 0 then None
    else Some(Row(parts[0], parts[1], Decimal.Value(parts[2]), parts[3]))
  }

  function ParseLines(lines: seq<Bytes>): seq<Option<Row>> {
    seq(|lines|, i requires 0 <= i < |lines| => ParseLine(lines[i]))
  }

  /** manifest: None when nothing is published. */
  function ReadManifest(fs: Fs): Option<seq<Option<Row>>> {
    if fs.manifest.None? || !fs.manifest.value.published then None
    else Some(ParseLines(NonEmpty(Split(fs.manifest.value.entries, NEWLINE))))
  }

  // ---------------------------------------------------------------- round trip

  /** A row no separator can break: no bar or newline in its path or MIME type. */
  predicate Separable(row: Row) {
    && BAR !in row.path && NEWLINE !in row.path && BAR !in row.mime && NEWLINE !in row.mime
    && BAR !in row.contentRoot && NEWLINE !in row.contentRoot
  }

  lemma SizeText(n: nat)
    ensures BAR !in Decimal.Print(n) && NEWLINE !in Decimal.Print(n)
  {
    Decimal.PrintDigits(n);
  }

  lemma LineParses(row: Row)
    requires Separable(row)
    ensures ParseLine(Line(row)) == Some(row) && NEWLINE !in Line(row) && Line(row) != []
  {
    var parts := Fields(row);
    SizeText(row.size);
    Decimal.PrintDigits(row.size);
    SplitOfJoin(parts, BAR);
    JoinWithout(parts, BAR, NEWLINE);
    assert Line(row) != [] by {
      assert Split([], BAR) == [[]];
    }
  }

  lemma {:induction false} NonEmptyKeeps(lines: seq<Bytes>)
    requires forall i :: 0 <= i < |lines| ==> lines[i] != []
    ensures NonEmpty(lines) == lines
  {
    if lines != [] {
      NonEmptyKeeps(lines[1..]);
      assert lines == [lines[0]] + lines[1..];
    }
  }

  /** The manifest reads back the rows it was written from. */
  lemma ManifestRoundTrip(rows: seq<Row>)
    requires forall i :: 0 <= i < |rows| ==> Separable(rows[i])
    ensures ParseLines(NonEmpty(Split(ManifestText(rows), NEWLINE)))
            == seq(|rows|, i requires 0 <= i < |rows| => Some(rows[i]))
  {
    var lines := Lines(rows);
    if rows == [] {
      var empty: Bytes := [];
      assert lines == [] && Split([], NEWLINE) == [empty];
      assert NonEmpty([empty]) == NonEmpty([empty][1..]);
    } else {
      forall i | 0 <= i < |rows|
        ensures ParseLine(lines[i]) == Some(rows[i]) && NEWLINE !in lines[i] && lines[i] != []
      {
        LineParses(rows[i]);
      }
      SplitOfJoin(lines, NEWLINE);
      NonEmptyKeeps(lines);
    }
  }

  /** Below the published directory every name is one line, so relative paths are. */
  lemma {:induction false} RelativeOneLine(fs: Fs, root: Bytes, path: Bytes)
    requires WalkOk(fs, root) && Reach(fs, root, path)
    ensures |root| <= |path| && NEWLINE !in Relative(root, path)
    decreases |path|
  {
    var d, name := Dirname(path), NameOf(path);
    TidyParts(path);
    ReachLonger(fs, root, path);
    ListedChild(fs, d, name);
    if d == root {
      OneLine(if root == ROOT then [] else root, name, if root == ROOT then 0 else |root|);
    } else {
      ReachLonger(fs, root, d);
      RelativeOneLine(fs, root, d);
      assert d != ROOT;
      OneLine(d, name, if root == ROOT then 0 else |root|);
    }
  }

  lemma OneLine(front: Bytes, name: Bytes, k: nat)
    requires k <= |front| && NEWLINE !in front[k..] && NEWLINE !in name
    ensures NEWLINE !in (front + [SLASH] + name)[k..]
  {
    assert (front + [SLASH] + name)[k..] == front[k..] + [SLASH] + name;
  }

  lemma RootTextSeparable(root: Bytes)
    ensures BAR !in RootText(root) && NEWLINE !in RootText(root)
  {
    HexLacks(root, BAR);
    HexLacks(root, NEWLINE);
  }

  /** A published row needs only that its path and MIME type hold no bar, and its MIME type
      no newline. */
  lemma VisitedRowSeparable(fs: Fs, root: Bytes, path: Bytes)
    requires WalkOk(fs, root) && path in Visited(fs, root)
    requires BAR !in path && path in fs.nodes
    requires var mime := MimeOrDefault(EntryOf(path, fs.nodes[path]).mime); BAR !in mime && NEWLINE !in mime
    ensures |root| <= |path| && Separable(RowOf(fs, root, path))
  {
    VisitsReachableFiles(fs, root, path);
    RelativeOneLine(fs, root, path);
    RootTextSeparable(fs.nodes[path].contentRoot);
  }

  // ------------------------------------------------------------------- publish

  predicate HasIndex(rows: seq<Row>) {
    exists i :: 0 <= i < |rows| && rows[i].path == INDEX_PATH
  }

  /** The rows of every live file reachable from a directory, in the walk's order. */
  ghost function SiteRows(fs: Fs, root: Bytes): Option<seq<Row>>
    requires WalkOk(fs, root)
  {
    VisitedInSite(fs, root, Lookup(fs, root));
    AddRows(fs, root, [], Visited(fs, root))
  }

  /** What publish does to the service, and the rows it returns; None where it throws. */
  ghost function Published(fs: Fs, sender: Bytes, path: Bytes, now: nat, before: Before): (Fs, Option<seq<Row>>)
    requires Tidy(fs) && Sound(fs)
  {
    NormalizedIsNormal(path, HOME);
    NormalizedNulFree(path, HOME);
    match Normalize(path, HOME)
    case None => (fs, None)
    case Some(root) =>
      match SiteRows(fs, root)
      case None => (fs, None)
      case Some(rows) =>
        var files := SortRows(rows, before);
        if !HasIndex(files) || |ManifestText(files)| > MAX_MANIFEST_BYTES then (fs, None)
        else match SitePublished(fs, ROOT_KEY, sender, INDEX_PATH, ManifestText(files), now)
             case Aborted(_) => (fs, None)
             case Applied(fs') => (fs', Some(files))
  }

  /** publish: the sorted rows of every live file reachable from the directory go into the
      manifest; any failure leaves the service alone. */
  method Publish(service: Service, sender: Bytes, path: Bytes, now: nat, before: Before) returns (r: Option<seq<Row>>)
    requires Tidy(service.State()) && Sound(service.State())
    modifies service
    ensures (service.State(), r) == Published(old(service.State()), sender, path, now, before)
  {
    var normalized := NormalizePath(path, HOME);
    if normalized.None? { return None; }
    var directory := normalized.value;
    NormalizedIsNormal(path, HOME);
    NormalizedNulFree(path, HOME);
    var fs := service.State();
    var walked := Walk(fs, directory, directory, [SLASH], []);
    assert walked == SiteRows(fs, directory);
    if walked.None? { return None; }
    var files := SortRows(walked.value, before);
    if !HasIndex(files) { return None; }
    var entries := ManifestText(files);
    if |entries| > MAX_MANIFEST_BYTES { return None; }
    var abort := service.PublishSite(ROOT_KEY, sender, INDEX_PATH, entries, now);
    if abort.Some? { return None; }
    return Some(files);
  }

  /** After a publish whose rows are separable, manifest returns the published list. */
  lemma PublishedIsRead(fs: Fs, sender: Bytes, path: Bytes, now: nat, before: Before)
    requires Tidy(fs) && Sound(fs) && Published(fs, sender, path, now, before).1.Some?
    requires var rows := Published(fs, sender, path, now, before).1.value;
             forall i :: 0 <= i < |rows| ==> Separable(rows[i])
    ensures var (after, r) := Published(fs, sender, path, now, before);
            ReadManifest(after) == Some(seq(|r.value|, i requires 0 <= i < |r.value| => Some(r.value[i])))
  {
    ManifestRoundTrip(Published(fs, sender, path, now, before).1.value);
  }

  /** What is published is every live file reachable from the directory, once each, under
      its relative path. */
  lemma PublishedRows(fs: Fs, root: Bytes)
    requires WalkOk(fs, root) && SiteRows(fs, root).Some?
    ensures forall p :: p in Visited(fs, root) ==> p in fs.nodes && |root| <= |p|
    ensures var rows, paths := SiteRows(fs, root).value, Visited(fs, root);
            |rows| == |paths| && forall i :: 0 <= i < |paths| ==> rows[i] == RowOf(fs, root, paths[i])
  {
    VisitedInSite(fs, root, Lookup(fs, root));
    RowsOfVisited(fs, root, [], Visited(fs, root));
  }
}
