// What the Computer Service and its client answer, spelled out: who is refused with which
// code, when an operation goes through, and what stat shows after it.
module ComputerAnswers {
  import opened Bytes
  import opened Text
  import opened Spelling
  import opened JamFs
  import opened DirectoryIndex
  import opened ComputerService
  import opened LiveFileSystem
  import opened FsInvariant
  import opened FsSound
  import opened FsRuns
  import opened SiteManifest

  /** The owner, by a 32-byte address. */
  predicate Owns(fs: Fs, sender: Bytes) {
    fs.owner == Some(sender) && |sender| == 32
  }

  // --------------------------------------------------------------------- the texts

  lemma RootSpelled()
    ensures Ascii("/") == ROOT == ROOT_PATH
  {
  }

  lemma DirectorySpelled()
    ensures Ascii("directory") == DIRECTORY
  {
  }

  lemma MimeSpelled()
    ensures Ascii("inode/directory") == DIRECTORY_MIME
  {
  }

  lemma FileSpelled()
    ensures Ascii("file") == FILE
  {
  }

  lemma OctetsSpelled()
    ensures Ascii("application/octet-stream") == OCTET_STREAM
  {
  }

  lemma PlainText(s: Bytes)
    requires forall i :: 0 <= i < |s| ==> 32 < s[i] < 127
    ensures Plain(s) == s
  {
    forall k: nat ensures !WhiteInFront(s, k) && !WhiteBehind(s, k) {
      if 0 < k <= |s| { assert 32 < s[0] < 127 && 32 < s[|s| - k] < 127; }
    }
    PlainOf(s);
  }

  /** The client's text drops every NUL and trims the rest. */
  lemma {:induction false} NulsDropped(a: Bytes, b: Bytes)
    requires 0 !in a
    ensures Plain(a) == Trim(a)
    ensures Plain(a + [0] + b) == Trim(a + WithoutNul(b))
  {
    NoNul(a);
    DroppedBetween(a, b);
  }

  lemma {:induction false} DroppedBetween(a: Bytes, b: Bytes)
    requires 0 !in a
    ensures WithoutNul(a + [0] + b) == a + WithoutNul(b)
  {
    var s := a + [0] + b;
    if a == [] {
      assert s[1..] == b;
    } else {
      assert s[0] == a[0] && s[1..] == a[1..] + [0] + b;
      DroppedBetween(a[1..], b);
      assert a == [a[0]] + a[1..];
    }
  }

  /** stat throws exactly where the path does not normalize, and finds what is there and not
      removed, whatever its path was spelled like. */
  lemma StatSpelled(fs: Fs, path: Bytes, normalized: Bytes)
    ensures Stat(fs, path) == None <==> Normalize(path, HOME) == None
    ensures Normalize(path, HOME) == Some(normalized) ==>
              (Stat(fs, path) == Some(None) <==> normalized !in fs.nodes || fs.nodes[normalized].removed)
  {
  }

  lemma PlainMime(mime: Bytes)
    requires mime == DIRECTORY_MIME
    ensures Plain(mime) == mime
  {
    PlainText(mime);
  }

  lemma PlainRoot(path: Bytes)
    requires path == ROOT
    ensures Plain(path) == path
  {
    PlainText(path);
  }

  // ------------------------------------------------------------------ the service

  /** Without the root key, an owner, or the owner's address, every action is refused with 1,
      2 or 3, in that order. */
  lemma RefusedWrites(fs: Fs, key: Bytes, sender: Bytes, path: Bytes, parent: Bytes, mime: Bytes, size: nat,
                      contentRoot: Bytes, now: nat, entries: Bytes)
    requires !(key == [0] && Owns(fs, sender))
    ensures var code := if key != [0] then 1 else if fs.owner.None? then 2 else 3;
            && FileWritten(fs, key, sender, path, parent, mime, size, contentRoot, now, entries) == Aborted(code)
            && DirectoryMade(fs, key, sender, path, parent, now, entries) == Aborted(code)
            && NodeRemoved(fs, key, sender, path, now, entries) == Aborted(code)
            && SitePublished(fs, key, sender, path, entries, now) == Aborted(code)
  {
  }

  lemma RefusedRenames(fs: Fs, key: Bytes, sender: Bytes, from: Bytes, to: Bytes, fromParent: Bytes, toParent: Bytes,
                       now: nat, fromEntries: Bytes, toEntries: Bytes)
    requires !(key == [0] && Owns(fs, sender))
    ensures FileRenamed(fs, key, sender, from, to, fromParent, toParent, now, fromEntries, toEntries)
            == Aborted(if key != [0] then 1 else if fs.owner.None? then 2 else 3)
  {
  }

  /** A path is absolute and not the root. */
  predicate BelowRoot(path: Bytes) {
    |path| >= 2 && path[..1] == Ascii("/")
  }

  predicate HasDirectory(fs: Fs, path: Bytes) {
    path in fs.nodes && !fs.nodes[path].removed && |fs.nodes[path].kind| == |Ascii("directory")|
  }

  predicate HasFile(fs: Fs, path: Bytes) {
    path in fs.nodes && !fs.nodes[path].removed && |fs.nodes[path].kind| == |Ascii("file")|
  }

  lemma AddingCodes(fs: Fs, key: Bytes, sender: Bytes, path: Bytes, parent: Bytes, mime: Bytes, size: nat,
                    contentRoot: Bytes, now: nat, entries: Bytes)
    requires key == [0] && Owns(fs, sender)
    ensures !BelowRoot(path) ==>
              FileWritten(fs, key, sender, path, parent, mime, size, contentRoot, now, entries) == Aborted(8)
              && DirectoryMade(fs, key, sender, path, parent, now, entries) == Aborted(8)
    ensures BelowRoot(path) && !HasDirectory(fs, parent) ==>
              FileWritten(fs, key, sender, path, parent, mime, size, contentRoot, now, entries) == Aborted(9)
              && DirectoryMade(fs, key, sender, path, parent, now, entries) == Aborted(9)
    ensures BelowRoot(path) && HasDirectory(fs, parent) ==>
              FileWritten(fs, key, sender, path, parent, mime, size, contentRoot, now, entries).Applied?
              && DirectoryMade(fs, key, sender, path, parent, now, entries).Applied?
  {
  }

  lemma RemovingCodes(fs: Fs, key: Bytes, sender: Bytes, path: Bytes, now: nat, entries: Bytes)
    requires key == [0] && Owns(fs, sender)
    ensures var r := NodeRemoved(fs, key, sender, path, now, entries);
            if path in fs.nodes && !fs.nodes[path].removed && |fs.nodes[path].path| != 1 then r.Applied?
            else r == Aborted(6)
  {
  }

  lemma RenamingCodes(fs: Fs, key: Bytes, sender: Bytes, from: Bytes, to: Bytes, fromParent: Bytes, toParent: Bytes,
                      now: nat, fromEntries: Bytes, toEntries: Bytes)
    requires key == [0] && Owns(fs, sender)
    ensures var r := FileRenamed(fs, key, sender, from, to, fromParent, toParent, now, fromEntries, toEntries);
            if !HasFile(fs, from) || fs.nodes[from].parent != fromParent then r == Aborted(6)
            else if !HasDirectory(fs, toParent) then r == Aborted(9)
            else r.Applied?
  {
  }

  /** Only the first call with the root key initializes. */
  lemma InitializedOnce(fs: Fs, key: Bytes, sender: Bytes)
    ensures Initialized(fs, key, sender) == Aborted(1) <==> key != [0]
    ensures Initialized(fs, key, sender) == Aborted(4) <==> key == [0] && fs.owner.Some?
    ensures Initialized(fs, key, sender).Applied? <==> key == [0] && fs.owner.None?
  {
  }

  /** It makes its sender the owner, and the root an empty directory. */
  lemma InitializedSeen(fs: Fs, key: Bytes, sender: Bytes, root: Bytes, mime: Bytes)
    requires Initialized(fs, key, sender).Applied? && root == Ascii("/") && mime == Ascii("inode/directory")
    ensures var after := Initialized(fs, key, sender).fs;
            && after.owner == Some(sender) && after.manifest == Some(Manifest([], [], 0, false))
            && Lookup(after, root) == [] && StatNormal(after, root) == Some(FileEntry(root, true, 0, mime, 0))
  {
    RootSpelled();
    MimeSpelled();
    var after := Initialized(fs, key, sender).fs;
    NothingListed(after.indexes[root]);
    PlainRoot(root);
    DirectoryShown(root, after.nodes[root], mime);
  }

  // ----------------------------------------------------------------- who may do it

  /** Nobody but the owner changes a computer. */
  lemma StrangersChangeNothing(fs: Fs, sender: Bytes, op: Op)
    requires !Owns(fs, sender)
    ensures !Succeeds(fs, sender, op) && Step(fs, sender, op) == fs
  {
  }

  /** Nor does anybody else publish. */
  lemma StrangersPublishNothing(fs: Fs, sender: Bytes, path: Bytes, now: nat, before: Before)
    requires Tidy(fs) && Sound(fs) && !Owns(fs, sender)
    ensures Published(fs, sender, path, now, before) == (fs, None)
  {
  }

  // ------------------------------------------------------------ when it goes through

  /** stat finds a directory. */
  predicate SeesDirectory(fs: Fs, path: Bytes) {
    StatNormal(fs, path).Some? && StatNormal(fs, path).value.isDirectory
  }

  predicate SeesFile(fs: Fs, path: Bytes) {
    StatNormal(fs, path).Some? && !StatNormal(fs, path).value.isDirectory
  }

  /** What the client and the service find at a path. */
  ghost predicate Known(fs: Fs, path: Bytes) {
    && (StatNormal(fs, path).Some? <==> Live(fs, path))
    && (path in fs.nodes ==>
          && |fs.nodes[path].path| == |path|
          && (|fs.nodes[path].kind| == 9 <==> Plain(fs.nodes[path].kind) == DIRECTORY)
          && (|fs.nodes[path].kind| == 4 <==> |fs.nodes[path].kind| != 9)
          && (|fs.nodes[path].kind| == 4 ==> fs.nodes[path].parent == Dirname(path)))
  }

  lemma KnownNode(fs: Fs, path: Bytes)
    requires Tidy(fs)
    ensures Known(fs, path)
  {
    PlainKinds();
    assert path in fs.nodes ==> NodeOk(fs, path);
  }

  ghost predicate Placed(path: Bytes) {
    |Dirname(path)| <= |path| && path != [] && path[0] == 47 && (|path| > 1 ==> NameOf(path) != [])
  }

  lemma NormalPlaced(path: Bytes)
    requires NormalForm(path)
    ensures Placed(path)
  {
    if path != ROOT { TidyParts(path); }
  }

  lemma RootIsDirectory(fs: Fs, path: Bytes)
    requires Tidy(fs) && Placed(path) && |path| == 1
    ensures SeesDirectory(fs, path)
  {
    assert path == ROOT;
    assert NodeOk(fs, path);
    StatLive(fs, path);
  }

  lemma MkdirActionGoes(fs: Fs, sender: Bytes, path: Bytes, now: nat)
    requires Placed(path) && Known(fs, path) && Known(fs, Dirname(path))
    requires |path| == 1 ==> SeesDirectory(fs, path)
    ensures Goes(MkdirAction(fs, sender, path, now))
            <==> && Owns(fs, sender) && SeesDirectory(fs, Dirname(path)) && StatNormal(fs, path).None?
                 && |path| <= 256 && EncodeIndex(Lookup(fs, Dirname(path)) + [NameOf(path)]).Some?
  {
  }

  lemma WriteActionGoes(fs: Fs, sender: Bytes, path: Bytes, mime: Bytes, size: nat, contentRoot: Bytes, now: nat)
    requires Placed(path) && Known(fs, path) && Known(fs, Dirname(path))
    ensures Goes(WriteAction(fs, sender, path, mime, size, contentRoot, now))
            <==> && Owns(fs, sender) && |path| > 1 && SeesDirectory(fs, Dirname(path))
                 && |path| <= 256 && |mime| <= 96 && EncodeIndex(Lookup(fs, Dirname(path)) + [NameOf(path)]).Some?
  {
  }

  lemma RemoveActionGoes(fs: Fs, sender: Bytes, path: Bytes, recursive: bool, now: nat)
    requires Placed(path) && Known(fs, path)
    ensures Goes(RemoveAction(fs, sender, path, recursive, now))
            <==> && Owns(fs, sender) && |path| > 1 && StatNormal(fs, path).Some?
                 && (SeesDirectory(fs, path) && !recursive ==> List(fs, path) == Some([]))
                 && |path| <= 256 && EncodeIndex(Without(Lookup(fs, Dirname(path)), NameOf(path))).Some?
  {
  }

  lemma RenameActionGoes(fs: Fs, sender: Bytes, source: Bytes, target: Bytes, now: nat)
    requires Placed(source) && Placed(target) && Known(fs, source) && Known(fs, Dirname(target))
    ensures Goes(RenameAction(fs, sender, source, target, now))
            <==> && Owns(fs, sender) && SeesFile(fs, source) && SeesDirectory(fs, Dirname(target))
                 && |source| <= 256 && |target| <= 256
                 && EncodeIndex(Without(Lookup(fs, Dirname(source)), NameOf(source))).Some?
                 && EncodeIndex(Without(Without(Lookup(fs, Dirname(target)), NameOf(source)), NameOf(target))
                                + [NameOf(target)]).Some?
  {
  }

  lemma MkdirSubmits(fs: Fs, sender: Bytes, input: Bytes, now: nat)
    ensures match Normalize(input, HOME)
            case Some(path) => Submit(fs, sender, Mkdir(input, now)) == MkdirAction(fs, sender, path, now)
            case None => Submit(fs, sender, Mkdir(input, now)).None?
  {
  }

  lemma WriteSubmits(fs: Fs, sender: Bytes, op: Op)
    requires op.Write?
    ensures match Normalize(op.path, HOME)
            case Some(path) =>
              Submit(fs, sender, op) == WriteAction(fs, sender, path, op.mime, op.size, op.contentRoot, op.now)
            case None => Submit(fs, sender, op).None?
  {
  }

  lemma RemoveSubmits(fs: Fs, sender: Bytes, op: Op)
    requires op.Remove?
    ensures match Normalize(op.path, HOME)
            case Some(path) => Submit(fs, sender, op) == RemoveAction(fs, sender, path, op.recursive, op.now)
            case None => Submit(fs, sender, op).None?
  {
  }

  /** A directory is made by the owner where nothing is seen, in a directory that is seen, if
      path and index are within their bounds. */
  lemma MkdirGoes(fs: Fs, sender: Bytes, input: Bytes, now: nat, path: Bytes)
    requires Tidy(fs) && Normalize(input, HOME) == Some(path)
    ensures Succeeds(fs, sender, Mkdir(input, now))
            <==> && Owns(fs, sender) && SeesDirectory(fs, Dirname(path)) && StatNormal(fs, path).None?
                 && |path| <= 256 && EncodeIndex(Lookup(fs, Dirname(path)) + [NameOf(path)]).Some?
  {
    NormalizedFacts(input);
    NormalPlaced(path);
    KnownNode(fs, path);
    KnownNode(fs, Dirname(path));
    if |path| == 1 { RootIsDirectory(fs, path); }
    MkdirActionGoes(fs, sender, path, now);
    MkdirSubmits(fs, sender, input, now);
  }

  /** A file is written by the owner below the root, in a directory that is seen. */
  lemma WriteGoes(fs: Fs, sender: Bytes, op: Op, path: Bytes)
    requires Tidy(fs) && op.Write? && Normalize(op.path, HOME) == Some(path)
    ensures Succeeds(fs, sender, op)
            <==> && Owns(fs, sender) && |path| > 1 && SeesDirectory(fs, Dirname(path))
                 && |path| <= 256 && |op.mime| <= 96
                 && EncodeIndex(Lookup(fs, Dirname(path)) + [NameOf(path)]).Some?
  {
    NormalizedFacts(op.path);
    NormalPlaced(path);
    KnownNode(fs, path);
    KnownNode(fs, Dirname(path));
    WriteActionGoes(fs, sender, path, op.mime, op.size, op.contentRoot, op.now);
    WriteSubmits(fs, sender, op);
  }

  /** What is seen below the root is removed by the owner; a directory only when it lists
      nothing or the call is recursive. */
  lemma RemoveGoes(fs: Fs, sender: Bytes, op: Op, path: Bytes)
    requires Tidy(fs) && op.Remove? && Normalize(op.path, HOME) == Some(path)
    ensures Succeeds(fs, sender, op)
            <==> && Owns(fs, sender) && |path| > 1 && StatNormal(fs, path).Some?
                 && (SeesDirectory(fs, path) && !op.recursive ==> List(fs, path) == Some([]))
                 && |path| <= 256 && EncodeIndex(Without(Lookup(fs, Dirname(path)), NameOf(path))).Some?
  {
    NormalizedFacts(op.path);
    NormalPlaced(path);
    KnownNode(fs, path);
    RemoveActionGoes(fs, sender, path, op.recursive, op.now);
    RemoveSubmits(fs, sender, op);
  }

  /** A file that is seen is renamed by the owner into a directory that is seen. */
  lemma RenameGoes(fs: Fs, sender: Bytes, op: Op, source: Bytes, target: Bytes)
    requires Tidy(fs) && op.Rename? && Normalize(op.from, HOME) == Some(source) && Normalize(op.to, HOME) == Some(target)
    ensures Succeeds(fs, sender, op)
            <==> && Owns(fs, sender) && SeesFile(fs, source) && SeesDirectory(fs, Dirname(target))
                 && |source| <= 256 && |target| <= 256
                 && EncodeIndex(Without(Lookup(fs, Dirname(source)), NameOf(source))).Some?
                 && EncodeIndex(Without(Without(Lookup(fs, Dirname(target)), NameOf(source)), NameOf(target))
                                + [NameOf(target)]).Some?
  {
    NormalizedFacts(op.from);
    NormalizedFacts(op.to);
    NormalPlaced(source);
    NormalPlaced(target);
    KnownNode(fs, source);
    KnownNode(fs, Dirname(target));
    RenameActionGoes(fs, sender, source, target, op.now);
    RenameSubmits(fs, sender, op, source, target);
  }

  /** A path that does not normalize changes nothing. */
  lemma NoPathNoChange(fs: Fs, sender: Bytes, op: Op)
    requires TargetOf(op).None? || (op.Rename? && Normalize(op.from, HOME).None?)
    ensures !Succeeds(fs, sender, op) && Step(fs, sender, op) == fs
  {
  }

  // ------------------------------------------------------------- what is seen after it

  function Shown(path: Bytes): Bytes {
    if Plain(path) == [] then path else Plain(path)
  }

  /** Nothing else changes. */
  ghost predicate OthersStay(before: Fs, after: Fs, paths: set<Bytes>) {
    && (forall path :: path !in paths ==> StatNormal(after, path) == StatNormal(before, path))
    && (forall path :: path !in paths ==> (path in after.nodes <==> path in before.nodes))
    && (forall path :: path !in paths && path in after.nodes ==> after.nodes[path] == before.nodes[path])
    && after.owner == before.owner && after.manifest == before.manifest
  }

  lemma EntryShown(path: Bytes, node: Node)
    requires node.path == path
    ensures EntryOf(path, node)
            == FileEntry(Shown(path), Plain(node.kind) == DIRECTORY, node.size, Plain(node.mime), node.updatedAt)
  {
  }

  lemma DirectoryShown(path: Bytes, node: Node, mime: Bytes)
    requires node.path == path && node.kind == DIRECTORY && node.mime == DIRECTORY_MIME == mime
    ensures EntryOf(path, node) == FileEntry(Shown(path), true, node.size, mime, node.updatedAt)
  {
    EntryShown(path, node);
    PlainKind(node.kind);
    PlainMime(mime);
  }

  lemma FileShown(path: Bytes, node: Node)
    requires node.path == path && node.kind == FILE
    ensures EntryOf(path, node) == FileEntry(Shown(path), false, node.size, Plain(node.mime), node.updatedAt)
  {
    EntryShown(path, node);
    PlainKind(node.kind);
  }

  lemma AddedStays(fs: Fs, path: Bytes, node: Node, entries: Bytes, reset: bool)
    requires !node.removed
    ensures var after := Added(fs, path, node, entries, reset);
            && StatNormal(after, path) == Some(EntryOf(path, node))
            && path in after.nodes && after.nodes[path] == node
            && OthersStay(fs, after, {path})
  {
  }

  lemma NothingListed(entries: Bytes)
    requires entries == []
    ensures DecodeIndex(entries) == []
  {
    SplitPiece(entries, NEWLINE);
    assert Trimmed([[]]) == [];
  }

  lemma AddedEmpty(fs: Fs, path: Bytes, node: Node, entries: Bytes)
    requires path != Dirname(path)
    ensures Lookup(Added(fs, path, node, entries, true), path) == []
  {
    NothingListed(Added(fs, path, node, entries, true).indexes[path]);
  }

  /** A directory that was made is seen, empty, with its type and time. */
  lemma MadeSeen(fs: Fs, sender: Bytes, path: Bytes, now: nat, mime: Bytes)
    requires Goes(MkdirAction(fs, sender, path, now)) && path != [] && mime == DIRECTORY_MIME
    ensures var after := MkdirAction(fs, sender, path, now).value.fs;
            && StatNormal(after, path) == Some(FileEntry(Shown(path), true, 0, mime, now))
            && path in after.nodes && after.nodes[path].kind == DIRECTORY
            && (path != Dirname(path) ==> Lookup(after, path) == [])
            && OthersStay(fs, after, {path})
  {
    var entries := MkdirTaken(fs, sender, path, now);
    var node := DirectoryNode(path, Dirname(path), now);
    DirectoryShown(path, node, mime);
    AddedStays(fs, path, node, entries, true);
    if path != Dirname(path) { AddedEmpty(fs, path, node, entries); }
  }

  /** A written file is seen with the size, type, time and content that the call gave. */
  lemma WrittenSeen(fs: Fs, sender: Bytes, path: Bytes, op: Op, mime: Bytes)
    requires op.Write? && Goes(WriteAction(fs, sender, path, op.mime, op.size, op.contentRoot, op.now))
    requires mime == if op.mime == [] then OCTET_STREAM else op.mime
    ensures var after := WriteAction(fs, sender, path, op.mime, op.size, op.contentRoot, op.now).value.fs;
            && StatNormal(after, path) == Some(FileEntry(Shown(path), false, op.size, Plain(mime), op.now))
            && path in after.nodes && after.nodes[path].contentRoot == op.contentRoot && after.nodes[path].kind == FILE
            && OthersStay(fs, after, {path})
  {
    var node, entries := WriteTaken(fs, sender, path, op);
    FileShown(path, node);
    AddedStays(fs, path, node, entries, false);
  }

  /** A removed node is no longer seen. */
  lemma RemovedSeen(fs: Fs, sender: Bytes, path: Bytes, recursive: bool, now: nat)
    requires Goes(RemoveAction(fs, sender, path, recursive, now))
    ensures var after := RemoveAction(fs, sender, path, recursive, now).value.fs;
            StatNormal(after, path) == None && OthersStay(fs, after, {path})
  {
  }

  /** A renamed file is seen at its new path alone, as it was but for the time. */
  lemma RenamedSeen(fs: Fs, sender: Bytes, source: Bytes, target: Bytes, now: nat)
    requires Goes(RenameAction(fs, sender, source, target, now)) && source != target
    ensures var after := RenameAction(fs, sender, source, target, now).value.fs;
            && StatNormal(fs, source).Some? && source in fs.nodes && target in after.nodes
            && StatNormal(after, source) == None
            && StatNormal(after, target) == Some(StatNormal(fs, source).value.(path := Shown(target), updatedAt := now))
            && after.nodes[target].contentRoot == fs.nodes[source].contentRoot
            && OthersStay(fs, after, {source, target})
  {
    var fromEntries, toEntries := RenameTaken(fs, sender, source, target, now);
    var after := RenameAction(fs, sender, source, target, now).value.fs;
    EntryShown(target, after.nodes[target]);
  }

  // What the client's operations do to what stat shows.

  lemma MkdirSeen(fs: Fs, sender: Bytes, input: Bytes, now: nat, path: Bytes, mime: Bytes)
    requires Normalize(input, HOME) == Some(path) && Succeeds(fs, sender, Mkdir(input, now))
    requires mime == Ascii("inode/directory")
    ensures var after := Step(fs, sender, Mkdir(input, now));
            && Stat(after, input) == Some(Some(FileEntry(Shown(path), true, 0, mime, now)))
            && path in after.nodes && after.nodes[path].kind == Ascii("directory")
            && (path != Dirname(path) ==> Lookup(after, path) == [])
            && OthersStay(fs, after, {path})
  {
    NormalizedFacts(input);
    MkdirSubmits(fs, sender, input, now);
    MimeSpelled();
    DirectorySpelled();
    MadeSeen(fs, sender, path, now, mime);
  }

  lemma WriteSeen(fs: Fs, sender: Bytes, op: Op, path: Bytes, mime: Bytes)
    requires op.Write? && Normalize(op.path, HOME) == Some(path) && Succeeds(fs, sender, op)
    requires mime == if op.mime == [] then Ascii("application/octet-stream") else op.mime
    ensures var after := Step(fs, sender, op);
            && Stat(after, op.path) == Some(Some(FileEntry(Shown(path), false, op.size, Plain(mime), op.now)))
            && path in after.nodes && after.nodes[path].contentRoot == op.contentRoot
            && after.nodes[path].kind == Ascii("file")
            && OthersStay(fs, after, {path})
  {
    FileSpelled();
    WriteSubmits(fs, sender, op);
    OctetsSpelled();
    WrittenSeen(fs, sender, path, op, mime);
  }

  lemma RemoveSeen(fs: Fs, sender: Bytes, op: Op, path: Bytes)
    requires op.Remove? && Normalize(op.path, HOME) == Some(path) && Succeeds(fs, sender, op)
    ensures Stat(Step(fs, sender, op), op.path) == Some(None)
    ensures OthersStay(fs, Step(fs, sender, op), {path})
  {
    RemoveSubmits(fs, sender, op);
    RemovedSeen(fs, sender, path, op.recursive, op.now);
  }

  lemma RenameSeen(fs: Fs, sender: Bytes, op: Op, source: Bytes, target: Bytes)
    requires op.Rename? && Normalize(op.from, HOME) == Some(source) && Normalize(op.to, HOME) == Some(target)
    requires Succeeds(fs, sender, op) && source != target
    ensures var after := Step(fs, sender, op);
            && StatNormal(fs, source).Some? && source in fs.nodes && target in after.nodes
            && Stat(after, op.from) == Some(None)
            && Stat(after, op.to) == Some(Some(StatNormal(fs, source).value.(path := Shown(target), updatedAt := op.now)))
            && after.nodes[target].contentRoot == fs.nodes[source].contentRoot
            && OthersStay(fs, after, {source, target})
  {
    RenameSubmits(fs, sender, op, source, target);
    RenamedSeen(fs, sender, source, target, op.now);
  }
}
