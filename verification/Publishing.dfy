// publish: the recursive walk over a site's directory, and the manifest it writes and reads.
module Publishing {
  import opened Bytes
  import opened Text
  import opened JamFs
  import opened Hexadecimal
  import opened DirectoryIndex
  import opened ComputerService
  import opened LiveFileSystem
  import opened FsInvariant
  import opened FsRuns

  // ------------------------------------------------------------------ the walk

  predicate LiveDir(fs: Fs, path: Bytes) {
    Live(fs, path) && fs.nodes[path].kind == DIRECTORY
  }

  /** A file the walk from `directory` can see, found upwards: listed in its own directory,
      which is `directory` or a live directory reachable in turn. */
  ghost predicate Reach(fs: Fs, directory: Bytes, path: Bytes)
    decreases |path|
  {
    && NormalForm(path) && path != ROOT && NameOf(path) in Listed(fs, Dirname(path))
    && (Dirname(path) == directory
        || (TidyParts(path); LiveDir(fs, Dirname(path)) && Reach(fs, directory, Dirname(path))))
  }

  ghost predicate WalkOk(fs: Fs, directory: Bytes) {
    Tidy(fs) && Sound(fs) && NormalForm(directory) && 0 !in directory
  }

  lemma WalkChild(fs: Fs, directory: Bytes, name: Bytes)
    requires WalkOk(fs, directory) && name in Listed(fs, directory)
    ensures var c := Child(directory, name);
            Live(fs, c) && WalkOk(fs, c) && c != ROOT && |directory| < |c| <= MAX_PATH_LENGTH
            && Dirname(c) == directory && NameOf(c) == name
  {
    ListedChild(fs, directory, name);
    assert Live(fs, Child(directory, name));
    NodePath(fs, Child(directory, name));
    ChildLonger(directory, name);
  }

  /** The absolute paths of the files the walk visits, in its order. It terminates because
      each child's path is longer and none exceeds the path limit. */
  ghost function Visited(fs: Fs, directory: Bytes): seq<Bytes>
    requires WalkOk(fs, directory)
    decreases MAX_PATH_LENGTH - |directory|, |Lookup(fs, directory)| + 1
  {
    VisitedUnder(fs, directory, Lookup(fs, directory))
  }

  ghost function VisitedUnder(fs: Fs, directory: Bytes, names: seq<Bytes>): seq<Bytes>
    requires WalkOk(fs, directory) && Members(names) <= Listed(fs, directory)
    decreases MAX_PATH_LENGTH - |directory|, |names|
  {
    if names == [] then [] else
    var c := Child(directory, names[0]);
    assert names[0] in Members(names) && Members(names[1..]) <= Members(names);
    WalkChild(fs, directory, names[0]);
    (if fs.nodes[c].kind == DIRECTORY then Visited(fs, c) else [c])
    + VisitedUnder(fs, directory, names[1..])
  }

  lemma {:induction false} ReachLonger(fs: Fs, directory: Bytes, path: Bytes)
    requires Reach(fs, directory, path)
    ensures |directory| <= |Dirname(path)| < |path|
    decreases |path|
  {
    TidyParts(path);
    if Dirname(path) != directory {
      ReachLonger(fs, directory, Dirname(path));
    }
  }

  /** What is reachable from a listed directory is reachable from its parent. */
  lemma {:induction false} ReachThrough(fs: Fs, directory: Bytes, name: Bytes, path: Bytes)
    requires WalkOk(fs, directory) && name in Listed(fs, directory)
    requires LiveDir(fs, Child(directory, name)) && Reach(fs, Child(directory, name), path)
    ensures Reach(fs, directory, path)
    decreases |path|
  {
    var c := Child(directory, name);
    WalkChild(fs, directory, name);
    TidyParts(path);
    if Dirname(path) != c {
      ReachThrough(fs, directory, name, Dirname(path));
    }
  }

  /** A reachable path is a child of the directory or reachable from one of its listed live
      directories. */
  lemma {:induction false} ReachStarts(fs: Fs, directory: Bytes, path: Bytes) returns (name: Bytes)
    requires WalkOk(fs, directory) && Reach(fs, directory, path)
    ensures name in Listed(fs, directory)
    ensures path == Child(directory, name)
            || (LiveDir(fs, Child(directory, name)) && Reach(fs, Child(directory, name), path))
    decreases |path|
  {
    TidyParts(path);
    if Dirname(path) == directory {
      name := NameOf(path);
    } else {
      name := ReachStarts(fs, directory, Dirname(path));
    }
  }

  /** Two directories above the same path: equal when equally long, and otherwise the
      shorter is no longer than the parent of the other. */
  lemma {:induction false} ReachOrdered(fs: Fs, a: Bytes, b: Bytes, path: Bytes)
    requires Reach(fs, a, path) && Reach(fs, b, path) && |a| <= |b|
    ensures a == b || |a| <= |Dirname(b)|
    decreases |path|
  {
    TidyParts(path);
    var d := Dirname(path);
    if d == a && d != b {
      ReachLonger(fs, b, d);
    } else if d == b && d != a {
      ReachLonger(fs, a, d);
    } else if d != a {
      ReachOrdered(fs, a, b, d);
    }
  }

  /** `path` is the child called `name` or lies under it. */
  ghost predicate Below(fs: Fs, directory: Bytes, name: Bytes, path: Bytes) {
    var c := Child(directory, name);
    if LiveDir(fs, c) then Reach(fs, c, path) else path == c
  }

  ghost predicate LiveFile(fs: Fs, path: Bytes) {
    Live(fs, path) && fs.nodes[path].kind == FILE
  }

  lemma {:induction false} VisitedAreFiles(fs: Fs, directory: Bytes, names: seq<Bytes>, path: Bytes) returns (name: Bytes)
    requires WalkOk(fs, directory) && Members(names) <= Listed(fs, directory)
    requires path in VisitedUnder(fs, directory, names)
    ensures LiveFile(fs, path) && Reach(fs, directory, path)
    ensures name in names && Below(fs, directory, name, path)
    decreases MAX_PATH_LENGTH - |directory|, |names|
  {
    var c := Child(directory, names[0]);
    assert names[0] in Members(names) && Members(names[1..]) <= Members(names);
    WalkChild(fs, directory, names[0]);
    assert NodeOk(fs, c);
    if path in VisitedUnder(fs, directory, names[1..]) {
      name := VisitedAreFiles(fs, directory, names[1..], path);
    } else {
      name := names[0];
      if fs.nodes[c].kind == DIRECTORY {
        var _ := VisitedAreFiles(fs, c, Lookup(fs, c), path);
        ReachThrough(fs, directory, name, path);
      }
    }
  }

  lemma {:induction false} FilesAreVisited(fs: Fs, directory: Bytes, names: seq<Bytes>, name: Bytes, path: Bytes)
    requires WalkOk(fs, directory) && Members(names) <= Listed(fs, directory)
    requires LiveFile(fs, path) && name in names && Below(fs, directory, name, path)
    ensures path in VisitedUnder(fs, directory, names)
    decreases MAX_PATH_LENGTH - |directory|, |names|
  {
    var c := Child(directory, names[0]);
    assert names[0] in Members(names) && Members(names[1..]) <= Members(names);
    WalkChild(fs, directory, names[0]);
    assert NodeOk(fs, c);
    if name == names[0] {
      if fs.nodes[c].kind == DIRECTORY {
        var deeper := ReachStarts(fs, c, path);
        FilesAreVisited(fs, c, Lookup(fs, c), deeper, path);
      }
    } else {
      FilesAreVisited(fs, directory, names[1..], name, path);
    }
  }

  /** The walk visits exactly the live files reachable from its directory. */
  lemma VisitsReachableFiles(fs: Fs, directory: Bytes, path: Bytes)
    requires WalkOk(fs, directory)
    ensures path in Visited(fs, directory) <==> LiveFile(fs, path) && Reach(fs, directory, path)
  {
    if path in Visited(fs, directory) {
      var _ := VisitedAreFiles(fs, directory, Lookup(fs, directory), path);
    }
    if LiveFile(fs, path) && Reach(fs, directory, path) {
      var name := ReachStarts(fs, directory, path);
      FilesAreVisited(fs, directory, Lookup(fs, directory), name, path);
    }
  }

  /** Nothing lies below two different names of one directory. */
  lemma BelowOneName(fs: Fs, directory: Bytes, a: Bytes, b: Bytes, path: Bytes)
    requires WalkOk(fs, directory) && a in Listed(fs, directory) && b in Listed(fs, directory)
    requires Below(fs, directory, a, path) && Below(fs, directory, b, path)
    ensures a == b
  {
    var c, d := Child(directory, a), Child(directory, b);
    WalkChild(fs, directory, a);
    WalkChild(fs, directory, b);
    if LiveDir(fs, c) && LiveDir(fs, d) {
      if |c| <= |d| { ReachOrdered(fs, c, d, path); } else { ReachOrdered(fs, d, c, path); }
    } else if LiveDir(fs, c) {
      ReachLonger(fs, c, path);
    } else if LiveDir(fs, d) {
      ReachLonger(fs, d, path);
    }
  }

  predicate Distinct(s: seq<Bytes>) {
    forall i, j :: 0 <= i < j < |s| ==> s[i] != s[j]
  }

  lemma {:induction false} DistinctConcat(a: seq<Bytes>, b: seq<Bytes>)
    requires Distinct(a) && Distinct(b) && forall x :: x in a ==> x !in b
    ensures Distinct(a + b)
  {
    var s := a + b;
    forall i, j | 0 <= i < j < |s| ensures s[i] != s[j] {
      if i < |a| <= j { assert s[i] in a && s[j] in b; }
    }
  }

  /** No file is visited twice. */
  lemma {:induction false} VisitedOnce(fs: Fs, directory: Bytes, names: seq<Bytes>)
    requires WalkOk(fs, directory) && Members(names) <= Listed(fs, directory) && Ascending(names)
    ensures Distinct(VisitedUnder(fs, directory, names))
    decreases MAX_PATH_LENGTH - |directory|, |names|
  {
    if names != [] {
      var c := Child(directory, names[0]);
      assert names[0] in Members(names) && Members(names[1..]) <= Members(names);
      WalkChild(fs, directory, names[0]);
      var first := if fs.nodes[c].kind == DIRECTORY then Visited(fs, c) else [c];
      if fs.nodes[c].kind == DIRECTORY {
        LookupClean(fs, c);
        VisitedOnce(fs, c, Lookup(fs, c));
      }
      VisitedOnce(fs, directory, names[1..]);
      forall path | path in first ensures path !in VisitedUnder(fs, directory, names[1..]) {
        if path in VisitedUnder(fs, directory, names[1..]) {
          var other := VisitedAreFiles(fs, directory, names[1..], path);
          FirstVisitedBelow(fs, directory, names[0], path);
          BelowOneName(fs, directory, names[0], other, path);
          OnceInAscending(names);
        }
      }
      DistinctConcat(first, VisitedUnder(fs, directory, names[1..]));
    }
  }

  lemma FirstVisitedBelow(fs: Fs, directory: Bytes, name: Bytes, path: Bytes)
    requires WalkOk(fs, directory) && name in Listed(fs, directory)
    requires WalkOk(fs, Child(directory, name)) && Live(fs, Child(directory, name))
    requires path in if fs.nodes[Child(directory, name)].kind == DIRECTORY
                     then Visited(fs, Child(directory, name)) else [Child(directory, name)]
    ensures Below(fs, directory, name, path)
  {
    var c := Child(directory, name);
    if fs.nodes[c].kind == DIRECTORY {
      var _ := VisitedAreFiles(fs, c, Lookup(fs, c), path);
    }
  }

  lemma OnceInAscending(names: seq<Bytes>)
    requires Ascending(names) && names != []
    ensures names[0] !in names[1..]
  {
    if names[0] in names[1..] {
      var j :| 0 <= j < |names[1..]| && names[1..][j] == names[0];
      assert Less(names[0], names[j + 1]);
      StrictTotalOrder(names[0], names[0], names[0]);
      assert false;
    }
  }

  // -------------------------------------------------------------- manifest rows

  datatype Row = Row(path: Bytes, mime: Bytes, size: nat, contentRoot: Bytes)

  /** The client's `root`: "0x" alone unless the value has 32 bytes. */
  function RootText(root: Bytes): Bytes {
    [48, 120] + (if |root| == 32 then Hex(root) else [])
  }

  /** A file's path relative to the published directory. */
  function Relative(root: Bytes, path: Bytes): Bytes
    requires |root| <= |path|
  {
    if root == ROOT then path else path[|root|..]
  }

  function RowOf(fs: Fs, root: Bytes, path: Bytes): Row
    requires path in fs.nodes && |root| <= |path|
  {
    var entry := EntryOf(path, fs.nodes[path]);
    Row(Relative(root, path), MimeOrDefault(entry.mime), entry.size, RootText(fs.nodes[path].contentRoot))
  }

  /** The rows after visiting `paths`; None where a file has no 32-byte content root. */
  ghost function AddRows(fs: Fs, root: Bytes, files: seq<Row>, paths: seq<Bytes>): Option<seq<Row>>
    requires forall p :: p in paths ==> p in fs.nodes && |root| <= |p|
    decreases paths
  {
    if paths == [] then Some(files)
    else if |fs.nodes[paths[0]].contentRoot| != 32 then None
    else AddRows(fs, root, files + [RowOf(fs, root, paths[0])], paths[1..])
  }

  lemma {:induction false} AddRowsConcat(fs: Fs, root: Bytes, files: seq<Row>, a: seq<Bytes>, b: seq<Bytes>)
    requires forall p :: p in a + b ==> p in fs.nodes && |root| <= |p|
    ensures (forall p :: p in a ==> p in fs.nodes && |root| <= |p|)
            && (forall p :: p in b ==> p in fs.nodes && |root| <= |p|)
    ensures AddRows(fs, root, files, a + b)
            == match AddRows(fs, root, files, a) case None => None case Some(more) => AddRows(fs, root, more, b)
    decreases a
  {
    assert forall p :: p in a ==> p in a + b;
    assert forall p :: p in b ==> p in a + b;
    if a == [] {
      assert a + b == b;
    } else {
      assert (a + b)[0] == a[0] && (a + b)[1..] == a[1..] + b;
      if |fs.nodes[a[0]].contentRoot| == 32 {
        AddRowsConcat(fs, root, files + [RowOf(fs, root, a[0])], a[1..], b);
      }
    }
  }

  function RowList(fs: Fs, root: Bytes, paths: seq<Bytes>): (r: seq<Row>)
    requires forall p :: p in paths ==> p in fs.nodes && |root| <= |p|
    ensures |r| == |paths|
  {
    if paths == [] then [] else [RowOf(fs, root, paths[0])] + RowList(fs, root, paths[1..])
  }

  lemma {:induction false} RowListAt(fs: Fs, root: Bytes, paths: seq<Bytes>, i: nat)
    requires i < |paths| && forall p :: p in paths ==> p in fs.nodes && |root| <= |p|
    ensures RowList(fs, root, paths)[i] == RowOf(fs, root, paths[i])
    decreases i
  {
    if i > 0 {
      RowListAt(fs, root, paths[1..], i - 1);
    }
  }

  lemma {:induction false} AddRowsAppends(fs: Fs, root: Bytes, files: seq<Row>, paths: seq<Bytes>)
    requires forall p :: p in paths ==> p in fs.nodes && |root| <= |p|
    requires AddRows(fs, root, files, paths).Some?
    ensures AddRows(fs, root, files, paths).value == files + RowList(fs, root, paths)
    decreases paths
  {
    if paths != [] {
      AddRowsAppends(fs, root, files + [RowOf(fs, root, paths[0])], paths[1..]);
      MoveRow(files, RowOf(fs, root, paths[0]), RowList(fs, root, paths[1..]));
    }
  }

  lemma MoveRow(files: seq<Row>, row: Row, rest: seq<Row>)
    ensures files + ([row] + rest) == files + [row] + rest
  {
  }

  /** The rows are exactly the visited files', in order, each under its relative path. */
  lemma RowsOfVisited(fs: Fs, root: Bytes, files: seq<Row>, paths: seq<Bytes>)
    requires forall p :: p in paths ==> p in fs.nodes && |root| <= |p|
    requires AddRows(fs, root, files, paths).Some?
    ensures var rows := AddRows(fs, root, files, paths).value;
            |rows| == |files| + |paths| && rows[..|files|] == files
            && forall i :: 0 <= i < |paths| ==> rows[|files| + i] == RowOf(fs, root, paths[i])
  {
    AddRowsAppends(fs, root, files, paths);
    forall i | 0 <= i < |paths| ensures RowList(fs, root, paths)[i] == RowOf(fs, root, paths[i]) {
      RowListAt(fs, root, paths, i);
    }
  }

  /** A published directory, and a directory the walk has come to below it. */
  ghost predicate InSite(fs: Fs, root: Bytes, directory: Bytes) {
    WalkOk(fs, directory) && Under(root, directory)
  }

  predicate Under(root: Bytes, path: Bytes) {
    path == root || (path != ROOT && root <= path && |root| < |path|)
  }

  function PrefixOf(root: Bytes, directory: Bytes): Bytes
    requires |root| <= |directory|
  {
    if directory == root then [SLASH] else Relative(root, directory) + [SLASH]
  }

  /** Joining a name to a directory inside the site. */
  lemma ChildUnder(root: Bytes, directory: Bytes, name: Bytes)
    requires Under(root, directory) && name != []
    ensures Under(root, Child(directory, name)) && |root| <= |Child(directory, name)|
    ensures Child(directory, name)[|directory|..] == (if directory == ROOT then [] else [SLASH]) + name
  {
    var c := Child(directory, name);
    assert directory <= c;
    assert root <= directory;
    assert root == c[..|root|];
  }

  lemma ChildRelative(root: Bytes, directory: Bytes, name: Bytes)
    requires Under(root, directory) && name != [] && |root| <= |Child(directory, name)|
    ensures PrefixOf(root, directory) + name == Relative(root, Child(directory, name))
    ensures Child(directory, name) != root ==>
              PrefixOf(root, directory) + name + [SLASH] == PrefixOf(root, Child(directory, name))
  {
    var c := Child(directory, name);
    if directory == root {
      assert root != ROOT ==> c[|root|..] == [SLASH] + name;
    } else if root != ROOT {
      assert c == directory + [SLASH] + name;
      assert c[|root|..] == directory[|root|..] + [SLASH] + name;
    }
  }

  lemma SiteChild(fs: Fs, root: Bytes, directory: Bytes, name: Bytes)
    requires InSite(fs, root, directory) && name in Listed(fs, directory)
    ensures var c := Child(directory, name);
            InSite(fs, root, c) && |root| <= |c| && c[|directory|..] == (if directory == ROOT then [] else [SLASH]) + name
            && PrefixOf(root, directory) + name == Relative(root, c)
            && PrefixOf(root, directory) + name + [SLASH] == PrefixOf(root, c)
  {
    WalkChild(fs, directory, name);
    ListedChild(fs, directory, name);
    ChildUnder(root, directory, name);
    ChildRelative(root, directory, name);
  }

  lemma VisitedInSite(fs: Fs, directory: Bytes, names: seq<Bytes>)
    requires WalkOk(fs, directory) && Members(names) <= Listed(fs, directory)
    ensures forall p :: p in VisitedUnder(fs, directory, names) ==> p in fs.nodes && |directory| <= |p|
  {
    forall p | p in VisitedUnder(fs, directory, names) ensures p in fs.nodes && |directory| <= |p| {
      var _ := VisitedAreFiles(fs, directory, names, p);
      ReachLonger(fs, directory, p);
    }
  }

  /** `replace(/^\//, "")` */
  function StripSlash(s: Bytes): Bytes {
    if s != [] && s[0] == SLASH then s[1..] else s
  }

  /** What one name of a directory contributes to the walk. */
  ghost function VisitedChild(fs: Fs, directory: Bytes, name: Bytes): seq<Bytes>
    requires WalkOk(fs, directory) && name in Listed(fs, directory)
  {
    WalkChild(fs, directory, name);
    if fs.nodes[Child(directory, name)].kind == DIRECTORY then Visited(fs, Child(directory, name))
    else [Child(directory, name)]
  }

  lemma VisitedStep(fs: Fs, directory: Bytes, names: seq<Bytes>, i: nat)
    requires WalkOk(fs, directory) && Members(names) <= Listed(fs, directory) && i < |names|
    ensures Members(names[i..]) <= Listed(fs, directory) && Members(names[i + 1..]) <= Listed(fs, directory)
    ensures names[i] in Listed(fs, directory)
    ensures VisitedUnder(fs, directory, names[i..])
            == VisitedChild(fs, directory, names[i]) + VisitedUnder(fs, directory, names[i + 1..])
  {
    assert names[i] in Members(names);
    assert Members(names[i..]) <= Members(names) && Members(names[i + 1..]) <= Members(names);
    assert names[i..][0] == names[i] && names[i..][1..] == names[i + 1..];
  }

  lemma ChildrenBehind(fs: Fs, directory: Bytes, names: seq<Bytes>)
    requires forall k :: 0 <= k < |names| ==> Child(directory, names[k]) in fs.nodes
    requires names != []
    ensures forall k :: 0 <= k < |names[1..]| ==> Child(directory, names[1..][k]) in fs.nodes
    ensures ChildEntries(fs, directory, names)
            == [EntryOf(Child(directory, names[0]), fs.nodes[Child(directory, names[0])])]
               + ChildEntries(fs, directory, names[1..])
  {
    forall k | 0 <= k < |names[1..]| ensures Child(directory, names[1..][k]) in fs.nodes {
      assert names[1..][k] == names[k + 1];
    }
  }

  lemma {:induction false} ChildEntriesAt(fs: Fs, directory: Bytes, names: seq<Bytes>, i: nat)
    requires forall k :: 0 <= k < |names| ==> Child(directory, names[k]) in fs.nodes
    requires i < |names|
    ensures |ChildEntries(fs, directory, names)| == |names|
    ensures ChildEntries(fs, directory, names)[i]
            == EntryOf(Child(directory, names[i]), fs.nodes[Child(directory, names[i])])
  {
    ChildrenBehind(fs, directory, names);
    if i > 0 {
      ChildEntriesAt(fs, directory, names[1..], i - 1);
      assert names[1..][i - 1] == names[i];
    } else if |names| > 1 {
      ChildEntriesAt(fs, directory, names[1..], 0);
    }
  }

  /** The rows of the i-th child and of those behind it. */
  lemma RowsStep(fs: Fs, root: Bytes, directory: Bytes, names: seq<Bytes>, i: nat, files: seq<Row>)
    requires WalkOk(fs, directory) && Members(names) <= Listed(fs, directory) && i < |names|
    requires Members(names[i..]) <= Listed(fs, directory)
    requires forall p :: p in VisitedUnder(fs, directory, names[i..]) ==> p in fs.nodes && |root| <= |p|
    ensures names[i] in Listed(fs, directory) && Members(names[i + 1..]) <= Listed(fs, directory)
    ensures (forall p :: p in VisitedChild(fs, directory, names[i]) ==> p in fs.nodes && |root| <= |p|)
            && (forall p :: p in VisitedUnder(fs, directory, names[i + 1..]) ==> p in fs.nodes && |root| <= |p|)
    ensures AddRows(fs, root, files, VisitedUnder(fs, directory, names[i..]))
            == match AddRows(fs, root, files, VisitedChild(fs, directory, names[i]))
               case None => None
               case Some(more) => AddRows(fs, root, more, VisitedUnder(fs, directory, names[i + 1..]))
  {
    VisitedStep(fs, directory, names, i);
    AddRowsConcat(fs, root, files, VisitedChild(fs, directory, names[i]),
                  VisitedUnder(fs, directory, names[i + 1..]));
  }

  /** The recursive walk: the rows so far, then one row for each file it visits. */
  method Walk(fs: Fs, ghost root: Bytes, directory: Bytes, prefix: Bytes, files: seq<Row>) returns (r: Option<seq<Row>>)
    requires InSite(fs, root, directory) && |root| <= |directory| && prefix == PrefixOf(root, directory)
    ensures forall p :: p in Visited(fs, directory) ==> p in fs.nodes && |root| <= |p|
    ensures r == AddRows(fs, root, files, Visited(fs, directory))
    decreases MAX_PATH_LENGTH - |directory|, 1
  {
    ghost var names := Lookup(fs, directory);
    VisitedInSite(fs, directory, names);
    ListIsFaithful(fs, directory);
    var entries := List(fs, directory).value;
    if names != [] { ChildEntriesAt(fs, directory, names, 0); }
    ghost var all := Visited(fs, directory);
    var current := files;
    assert names[0..] == names;
    for i := 0 to |entries|
      invariant |entries| == |names|
      invariant Members(names[i..]) <= Listed(fs, directory)
      invariant forall p :: p in VisitedUnder(fs, directory, names[i..]) ==> p in fs.nodes && |root| <= |p|
      invariant AddRows(fs, root, current, VisitedUnder(fs, directory, names[i..])) == AddRows(fs, root, files, all)
    {
      ChildEntriesAt(fs, directory, names, i);
      RowsStep(fs, root, directory, names, i, current);
      var more := WalkEntry(fs, root, directory, prefix, names[i], entries[i], current);
      if more.None? { return None; }
      current := more.value;
    }
    r := Some(current);
  }

  /** One turn of the walk's loop. */
  method WalkEntry(fs: Fs, ghost root: Bytes, directory: Bytes, prefix: Bytes, ghost name: Bytes,
                   entry: FileEntry, files: seq<Row>) returns (r: Option<seq<Row>>)
    requires InSite(fs, root, directory) && |root| <= |directory| && prefix == PrefixOf(root, directory)
    requires name in Listed(fs, directory) && Child(directory, name) in fs.nodes
    requires entry == EntryOf(Child(directory, name), fs.nodes[Child(directory, name)])
    requires forall p :: p in VisitedChild(fs, directory, name) ==> p in fs.nodes && |root| <= |p|
    ensures r == AddRows(fs, root, files, VisitedChild(fs, directory, name))
    decreases MAX_PATH_LENGTH - |directory|, 0
  {
    WalkChild(fs, directory, name);
    StatChild(fs, directory, name);
    SiteChild(fs, root, directory, name);
    ListedChild(fs, directory, name);
    StripName(directory, name);
    var relative := StripSlash(entry.path[|directory|..]);
    if entry.isDirectory {
      r := Walk(fs, root, entry.path, prefix + relative + [SLASH], files);
    } else {
      r := AddFile(fs, root, entry, prefix + relative, files);
    }
  }

  lemma StripName(directory: Bytes, name: Bytes)
    requires name != [] && SLASH !in name && directory != []
    ensures StripSlash(Child(directory, name)[|directory|..]) == name
  {
    var c := Child(directory, name);
    assert c[|directory|..] == (if directory == ROOT then [] else [SLASH]) + name;
  }

  /** The row of one file. */
  method AddFile(fs: Fs, ghost root: Bytes, entry: FileEntry, path: Bytes, files: seq<Row>)
    returns (r: Option<seq<Row>>)
    requires entry.path in fs.nodes && entry == EntryOf(entry.path, fs.nodes[entry.path])
    requires |root| <= |entry.path| && path == Relative(root, entry.path)
    ensures r == AddRows(fs, root, files, [entry.path])
  {
    var contentRoot := RootText(fs.nodes[entry.path].contentRoot);
    if contentRoot == [48, 120] { return None; }
    var row := Row(path, MimeOrDefault(entry.mime), entry.size, contentRoot);
    assert [entry.path][1..] == [];
    return Some(files + [row]);
  }
}
