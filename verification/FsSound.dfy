// Index soundness under every client operation, whatever names it brings in.
module FsSound {
  import opened Bytes
  import opened Text
  import opened DirectoryIndex
  import opened ComputerService
  import opened LiveFileSystem
  import opened FsInvariant
  import opened JamFs

  // ---------------------------------------------------------------------- shape

  ghost predicate NodeShaped(fs: Fs, path: Bytes)
    requires path in fs.nodes
  {
    var node := fs.nodes[path];
    && node.path == path && Known(node.kind) && NormalForm(path) && 0 !in path
    && (path != ROOT ==> node.parent == Dirname(path) && Dirname(path) in fs.nodes)
  }

  ghost predicate IndexShaped(fs: Fs, directory: Bytes) {
    directory in fs.indexes ==> directory in fs.nodes && AllClean(Lookup(fs, directory))
  }

  /** The part of Tidy that every operation keeps: it asks nothing of the nodes' names, and
      lets a rename put a file in the root's place. */
  ghost predicate Shaped(fs: Fs) {
    && ROOT in fs.nodes
    && (forall path {:trigger NodeShaped(fs, path)} :: path in fs.nodes ==> NodeShaped(fs, path))
    && (forall directory {:trigger IndexShaped(fs, directory)} :: directory in fs.indexes ==> IndexShaped(fs, directory))
  }

  lemma TidyIsShaped(fs: Fs)
    requires Tidy(fs)
    ensures Shaped(fs)
  {
    forall path | path in fs.nodes ensures NodeShaped(fs, path) {
      assert NodeOk(fs, path);
      NodePath(fs, path);
    }
    forall directory | directory in fs.indexes ensures IndexShaped(fs, directory) {
      assert IndexOk(fs, directory);
    }
  }

  lemma ShapedLookup(fs: Fs, directory: Bytes)
    requires Shaped(fs)
    ensures AllClean(Lookup(fs, directory))
  {
    if directory in fs.indexes {
      assert IndexShaped(fs, directory);
    }
  }

  lemma ListedName(fs: Fs, directory: Bytes, name: Bytes)
    requires Shaped(fs) && name in Listed(fs, directory)
    ensures directory in fs.nodes && directory != [] && CleanName(name)
    ensures Dirname(Child(directory, name)) == directory && NameOf(Child(directory, name)) == name
    ensures Child(directory, name) != ROOT
  {
    assert IndexShaped(fs, directory);
    var i :| 0 <= i < |Lookup(fs, directory)| && Lookup(fs, directory)[i] == name;
    assert NodeShaped(fs, directory);
    PathNotEmpty(directory);
    ChildParts(directory, name);
  }

  lemma PathNotEmpty(path: Bytes)
    requires NormalForm(path)
    ensures path != []
  {
    var parts :| AllComponents(parts) && path == PathOf(parts);
    if path != ROOT { TidyParts(path); }
  }

  lemma NameHasNoSlash(path: Bytes)
    requires NormalForm(path)
    ensures SLASH !in NameOf(path)
  {
    if path != ROOT { TidyParts(path); }
  }

  // --------------------------------------------------------- the index after a call

  ghost predicate Shows(entries: Bytes, names: set<Bytes>) {
    Members(DecodeIndex(entries)) == names && AllClean(DecodeIndex(entries))
  }

  lemma NamesLackSlash(names: seq<Bytes>, name: Bytes)
    requires AllClean(names) && SLASH !in name
    ensures forall i :: 0 <= i < |names + [name]| ==> SLASH !in (names + [name])[i]
  {
    forall i | 0 <= i < |names + [name]| ensures SLASH !in (names + [name])[i] {
      if i < |names| { assert CleanName(names[i]); }
    }
  }

  lemma ShowsAdded(names: seq<Bytes>, name: Bytes)
    requires AllClean(names) && SLASH !in name && EncodeIndex(names + [name]).Some?
    ensures Shows(EncodeIndex(names + [name]).value, Members(names) + Pieces(name))
  {
    DecodeAdded(names, name);
    NamesLackSlash(names, name);
    EncodedLacksSlash(names + [name]);
    DecodeIsClean(EncodeIndex(names + [name]).value);
  }

  lemma ShowsWithout(names: seq<Bytes>, name: Bytes)
    requires AllClean(names)
    ensures AllClean(Without(names, name)) && Members(Without(names, name)) == Members(names) - {name}
    ensures EncodeIndex(Without(names, name)).Some? ==>
              Shows(EncodeIndex(Without(names, name)).value, Members(names) - {name})
  {
    WithoutMembers(names, name);
    CleanMembers(names, Without(names, name));
    if EncodeIndex(Without(names, name)).Some? {
      DecodeEncoded(Without(names, name));
    }
  }

  // ------------------------------------------------------------------- what succeeds

  lemma NormalizedFacts(input: Bytes)
    ensures Normalize(input, HOME).Some? ==>
              NormalForm(Normalize(input, HOME).value) && 0 !in Normalize(input, HOME).value
  {
    NormalizedIsNormal(input, HOME);
    NormalizedNulFree(input, HOME);
  }

  predicate Goes(action: Option<ActionResult>) {
    action.Some? && action.value.Applied?
  }

  lemma MkdirTaken(fs: Fs, sender: Bytes, path: Bytes, now: nat) returns (entries: Bytes)
    requires Goes(MkdirAction(fs, sender, path, now)) && path != []
    ensures path != ROOT && StatNormal(fs, path).None? && LiveDirectory(fs, Dirname(path))
    ensures StatNormal(fs, Dirname(path)).Some? && StatNormal(fs, Dirname(path)).value.isDirectory
    ensures EncodeIndex(Lookup(fs, Dirname(path)) + [if NameOf(path) == [] then ROOT else NameOf(path)]) == Some(entries)
    ensures MkdirAction(fs, sender, path, now).value.fs
            == Added(fs, path, DirectoryNode(path, Dirname(path), now), entries, true)
  {
    var name := if NameOf(path) == [] then ROOT else NameOf(path);
    entries := EncodeIndex(Lookup(fs, Dirname(path)) + [name]).value;
  }

  lemma WriteTaken(fs: Fs, sender: Bytes, path: Bytes, op: Op) returns (node: Node, entries: Bytes)
    requires op.Write? && Goes(WriteAction(fs, sender, path, op.mime, op.size, op.contentRoot, op.now))
    ensures path != ROOT && LiveDirectory(fs, Dirname(path))
    ensures StatNormal(fs, Dirname(path)).Some? && StatNormal(fs, Dirname(path)).value.isDirectory
    ensures EncodeIndex(Lookup(fs, Dirname(path)) + [NameOf(path)]) == Some(entries)
    ensures node == Node(path, FILE, Dirname(path), MimeOrDefault(op.mime), op.size, op.contentRoot, false, op.now)
    ensures WriteAction(fs, sender, path, op.mime, op.size, op.contentRoot, op.now).value.fs
            == Added(fs, path, node, entries, false)
  {
    node := Node(path, FILE, Dirname(path), MimeOrDefault(op.mime), op.size, op.contentRoot, false, op.now);
    entries := EncodeIndex(Lookup(fs, Dirname(path)) + [NameOf(path)]).value;
  }

  lemma RemoveTaken(fs: Fs, sender: Bytes, path: Bytes, recursive: bool, now: nat) returns (entries: Bytes)
    requires Goes(RemoveAction(fs, sender, path, recursive, now))
    requires path in fs.nodes ==> NodeShaped(fs, path)
    ensures Live(fs, path) && path != ROOT
    ensures EncodeIndex(Without(Lookup(fs, Dirname(path)), NameOf(path))) == Some(entries)
    ensures RemoveAction(fs, sender, path, recursive, now).value.fs == Dropped(fs, path, entries, now)
  {
    entries := EncodeIndex(Without(Lookup(fs, Dirname(path)), NameOf(path))).value;
  }

  lemma RenameTaken(fs: Fs, sender: Bytes, source: Bytes, target: Bytes, now: nat)
    returns (fromEntries: Bytes, toEntries: Bytes)
    requires Goes(RenameAction(fs, sender, source, target, now))
    ensures Live(fs, source) && |fs.nodes[source].kind| == 4 && StatNormal(fs, Dirname(target)).Some?
    ensures fs.nodes[source].parent == Dirname(source) && LiveDirectory(fs, Dirname(target))
    ensures EncodeIndex(Without(Lookup(fs, Dirname(source)), NameOf(source))) == Some(fromEntries)
    ensures EncodeIndex(Without(Without(Lookup(fs, Dirname(target)), NameOf(source)), NameOf(target)) + [NameOf(target)])
            == Some(toEntries)
    ensures RenameAction(fs, sender, source, target, now).value.fs == Moved(fs, source, target, fromEntries, toEntries, now)
  {
    fromEntries := EncodeIndex(Without(Lookup(fs, Dirname(source)), NameOf(source))).value;
    toEntries := EncodeIndex(Without(Without(Lookup(fs, Dirname(target)), NameOf(source)), NameOf(target))
                             + [NameOf(target)]).value;
  }

  // -------------------------------------------------------------------- adding a node

  /** A call that put a node at `path` and its name into the parent's index. */
  ghost predicate Adds(fs: Fs, path: Bytes, node: Node, entries: Bytes) {
    && Shaped(fs) && NormalForm(path) && 0 !in path && path != ROOT && Dirname(path) in fs.nodes
    && node.path == path && node.parent == Dirname(path) && !node.removed && Known(node.kind)
    && Shows(entries, Listed(fs, Dirname(path)) + Pieces(NameOf(path)))
  }

  lemma ListedAdded(fs: Fs, path: Bytes, node: Node, entries: Bytes, reset: bool, directory: Bytes)
    requires Adds(fs, path, node, entries)
    ensures Listed(Added(fs, path, node, entries, reset), directory)
            == if directory == Dirname(path) then Listed(fs, directory) + Pieces(NameOf(path))
               else if reset && directory == path then {}
               else Listed(fs, directory)
  {
    EmptyEntries();
  }

  lemma AddedShaped(fs: Fs, path: Bytes, node: Node, entries: Bytes, reset: bool)
    requires Adds(fs, path, node, entries)
    ensures Shaped(Added(fs, path, node, entries, reset))
  {
    var fs' := Added(fs, path, node, entries, reset);
    EmptyEntries();
    forall p | p in fs'.nodes ensures NodeShaped(fs', p) {
      if p != path { assert NodeShaped(fs, p); }
    }
    forall d | d in fs'.indexes ensures IndexShaped(fs', d) {
      if d in fs.indexes { assert IndexShaped(fs, d); }
    }
  }

  /** Every name that is shown for the new one is the new node's or a live node's. */
  ghost predicate AddedNamesLive(fs: Fs, path: Bytes) {
    forall piece :: piece in Pieces(NameOf(path)) ==>
      Child(Dirname(path), piece) == path || Live(fs, Child(Dirname(path), piece))
  }

  lemma AddedSound(fs: Fs, path: Bytes, node: Node, entries: Bytes, reset: bool)
    requires Adds(fs, path, node, entries) && Sound(fs)
    ensures Sound(Added(fs, path, node, entries, reset)) <==> AddedNamesLive(fs, path)
  {
    var fs' := Added(fs, path, node, entries, reset);
    var dir := Dirname(path);
    ListedAdded(fs, path, node, entries, reset, dir);
    if Sound(fs') {
      forall piece | piece in Pieces(NameOf(path))
        ensures Child(dir, piece) == path || Live(fs, Child(dir, piece)) {
        assert piece in Listed(fs', dir) && Live(fs', Child(dir, piece));
      }
    }
    if AddedNamesLive(fs, path) {
      forall d, name | name in Listed(fs', d) ensures Live(fs', Child(d, name)) {
        ListedAdded(fs, path, node, entries, reset, d);
        assert name in Listed(fs, d) ==> Live(fs, Child(d, name));
      }
    }
  }

  // ------------------------------------------------------------------ removing a node

  ghost predicate Drops(fs: Fs, path: Bytes, entries: Bytes) {
    && Shaped(fs) && path in fs.nodes && path != ROOT
    && Shows(entries, Listed(fs, Dirname(path)) - {NameOf(path)})
  }

  lemma ListedDropped(fs: Fs, path: Bytes, entries: Bytes, now: nat, directory: Bytes)
    requires Drops(fs, path, entries)
    ensures Listed(Dropped(fs, path, entries, now), directory)
            == if directory == Dirname(path) then Listed(fs, directory) - {NameOf(path)} else Listed(fs, directory)
  {
  }

  lemma DroppedShaped(fs: Fs, path: Bytes, entries: Bytes, now: nat)
    requires Drops(fs, path, entries)
    ensures Shaped(Dropped(fs, path, entries, now))
  {
    var fs' := Dropped(fs, path, entries, now);
    assert NodeShaped(fs, path);
    forall p | p in fs'.nodes ensures NodeShaped(fs', p) {
      assert NodeShaped(fs, p);
    }
    forall d | d in fs'.indexes ensures IndexShaped(fs', d) {
      if d in fs.indexes { assert IndexShaped(fs, d); }
    }
  }

  lemma DroppedSound(fs: Fs, path: Bytes, entries: Bytes, now: nat)
    requires Drops(fs, path, entries) && Sound(fs)
    ensures Sound(Dropped(fs, path, entries, now))
  {
    var fs' := Dropped(fs, path, entries, now);
    forall d, name | name in Listed(fs', d) ensures Live(fs', Child(d, name)) {
      ListedDropped(fs, path, entries, now, d);
      ListedName(fs, d, name);
      assert Live(fs, Child(d, name));
    }
  }

  // -------------------------------------------------------------------- moving a file

  ghost predicate Moves(fs: Fs, from: Bytes, to: Bytes, fromEntries: Bytes, toEntries: Bytes) {
    && Shaped(fs) && Live(fs, from) && fs.nodes[from].parent == Dirname(from)
    && NormalForm(to) && 0 !in to && Dirname(to) in fs.nodes
    && Shows(fromEntries, Listed(fs, Dirname(from)) - {NameOf(from)})
    && Shows(toEntries, Listed(fs, Dirname(to)) - {NameOf(from)} - {NameOf(to)} + Pieces(NameOf(to)))
  }

  lemma ListedMoved(fs: Fs, from: Bytes, to: Bytes, fromEntries: Bytes, toEntries: Bytes, now: nat, directory: Bytes)
    requires Moves(fs, from, to, fromEntries, toEntries)
    ensures Listed(Moved(fs, from, to, fromEntries, toEntries, now), directory)
            == if directory == Dirname(to)
               then Listed(fs, directory) - {NameOf(from)} - {NameOf(to)} + Pieces(NameOf(to))
               else if directory == Dirname(from) then Listed(fs, directory) - {NameOf(from)}
               else Listed(fs, directory)
  {
  }

  lemma MovedShaped(fs: Fs, from: Bytes, to: Bytes, fromEntries: Bytes, toEntries: Bytes, now: nat)
    requires Moves(fs, from, to, fromEntries, toEntries)
    ensures Shaped(Moved(fs, from, to, fromEntries, toEntries, now))
  {
    var fs' := Moved(fs, from, to, fromEntries, toEntries, now);
    assert NodeShaped(fs, from);
    assert from != ROOT ==> Dirname(from) in fs.nodes;
    assert from == ROOT ==> Dirname(from) == ROOT;
    forall p | p in fs'.nodes ensures NodeShaped(fs', p) {
      if p != to && p != from { assert NodeShaped(fs, p); }
    }
    forall d | d in fs'.indexes ensures IndexShaped(fs', d) {
      if d in fs.indexes { assert IndexShaped(fs, d); }
    }
  }

  /** Which nodes are live after a move; moved onto itself, the file is gone. */
  lemma LiveMoved(fs: Fs, from: Bytes, to: Bytes, fromEntries: Bytes, toEntries: Bytes, now: nat, p: Bytes)
    requires from in fs.nodes
    ensures Live(Moved(fs, from, to, fromEntries, toEntries, now), p) <==> p != from && (p == to || Live(fs, p))
  {
  }

  /** Every name that is shown for the new one is the moved node's or another live node's. */
  ghost predicate MovedNamesLive(fs: Fs, from: Bytes, to: Bytes) {
    forall piece :: piece in Pieces(NameOf(to)) ==>
      Child(Dirname(to), piece) != from && (Child(Dirname(to), piece) == to || Live(fs, Child(Dirname(to), piece)))
  }

  lemma MovedNameLive(fs: Fs, from: Bytes, to: Bytes, fromEntries: Bytes, toEntries: Bytes, now: nat,
                      d: Bytes, name: Bytes)
    requires Moves(fs, from, to, fromEntries, toEntries) && MovedNamesLive(fs, from, to)
    requires name in Listed(Moved(fs, from, to, fromEntries, toEntries, now), d)
    requires name in Listed(fs, d) ==> Live(fs, Child(d, name))
    ensures Live(Moved(fs, from, to, fromEntries, toEntries, now), Child(d, name))
  {
    ListedMoved(fs, from, to, fromEntries, toEntries, now, d);
    LiveMoved(fs, from, to, fromEntries, toEntries, now, Child(d, name));
    if !(d == Dirname(to) && name in Pieces(NameOf(to))) {
      assert name in Listed(fs, d);
      assert !(d == Dirname(from) && name == NameOf(from));
      ListedName(fs, d, name);
      assert Child(d, name) != from;
    }
  }

  lemma MovedSound(fs: Fs, from: Bytes, to: Bytes, fromEntries: Bytes, toEntries: Bytes, now: nat)
    requires Moves(fs, from, to, fromEntries, toEntries) && Sound(fs)
    ensures Sound(Moved(fs, from, to, fromEntries, toEntries, now)) <==> MovedNamesLive(fs, from, to)
  {
    var fs' := Moved(fs, from, to, fromEntries, toEntries, now);
    if Sound(fs') {
      forall piece | piece in Pieces(NameOf(to))
        ensures var c := Child(Dirname(to), piece); c != from && (c == to || Live(fs, c)) {
        ListedMoved(fs, from, to, fromEntries, toEntries, now, Dirname(to));
        assert piece in Listed(fs', Dirname(to)) && Live(fs', Child(Dirname(to), piece));
        LiveMoved(fs, from, to, fromEntries, toEntries, now, Child(Dirname(to), piece));
      }
    }
    if MovedNamesLive(fs, from, to) {
      forall d, name | name in Listed(fs', d) ensures Live(fs', Child(d, name)) {
        MovedNameLive(fs, from, to, fromEntries, toEntries, now, d, name);
      }
    }
  }

  // ------------------------------------------------------------------------- one step

  /** The path an operation is about, once normalized; a rename's target. */
  function TargetOf(op: Op): Option<Bytes> {
    match op
    case Mkdir(path, _) => Normalize(path, HOME)
    case Write(path, _, _, _, _) => Normalize(path, HOME)
    case Remove(path, _, _) => Normalize(path, HOME)
    case Rename(_, to, _) => Normalize(to, HOME)
  }

  /** What a caller can check on the listings and nodes before the call: each name that the
      index would show for the added one is the operation's own node or a live one, and not
      the file a rename takes away. */
  ghost predicate NamesLive(fs: Fs, op: Op) {
    TargetOf(op).Some? ==>
      match op
      case Mkdir(_, _) => AddedNamesLive(fs, TargetOf(op).value)
      case Write(_, _, _, _, _) => AddedNamesLive(fs, TargetOf(op).value)
      case Remove(_, _, _) => true
      case Rename(from, _, _) =>
        Normalize(from, HOME).Some? ==> MovedNamesLive(fs, Normalize(from, HOME).value, TargetOf(op).value)
  }

  lemma MkdirAddsNode(fs: Fs, sender: Bytes, path: Bytes, now: nat) returns (node: Node, entries: Bytes)
    requires Shaped(fs) && NormalForm(path) && 0 !in path && Goes(MkdirAction(fs, sender, path, now))
    ensures Adds(fs, path, node, entries)
    ensures MkdirAction(fs, sender, path, now).value.fs == Added(fs, path, node, entries, true)
  {
    PathNotEmpty(path);
    entries := MkdirTaken(fs, sender, path, now);
    node := DirectoryNode(path, Dirname(path), now);
    TidyParts(path);
    ShapedLookup(fs, Dirname(path));
    ShowsAdded(Lookup(fs, Dirname(path)), NameOf(path));
  }

  lemma WriteAddsNode(fs: Fs, sender: Bytes, path: Bytes, op: Op) returns (node: Node, entries: Bytes)
    requires Shaped(fs) && NormalForm(path) && 0 !in path
    requires op.Write? && Goes(WriteAction(fs, sender, path, op.mime, op.size, op.contentRoot, op.now))
    ensures Adds(fs, path, node, entries)
    ensures WriteAction(fs, sender, path, op.mime, op.size, op.contentRoot, op.now).value.fs
            == Added(fs, path, node, entries, false)
  {
    node, entries := WriteTaken(fs, sender, path, op);
    TidyParts(path);
    ShapedLookup(fs, Dirname(path));
    ShowsAdded(Lookup(fs, Dirname(path)), NameOf(path));
  }

  lemma RemoveDropsNode(fs: Fs, sender: Bytes, path: Bytes, recursive: bool, now: nat) returns (entries: Bytes)
    requires Shaped(fs) && Goes(RemoveAction(fs, sender, path, recursive, now))
    ensures Drops(fs, path, entries)
    ensures RemoveAction(fs, sender, path, recursive, now).value.fs == Dropped(fs, path, entries, now)
  {
    if path in fs.nodes { assert NodeShaped(fs, path); }
    entries := RemoveTaken(fs, sender, path, recursive, now);
    ShapedLookup(fs, Dirname(path));
    ShowsWithout(Lookup(fs, Dirname(path)), NameOf(path));
  }

  lemma RenameMovesNode(fs: Fs, sender: Bytes, source: Bytes, target: Bytes, now: nat)
    returns (fromEntries: Bytes, toEntries: Bytes)
    requires Shaped(fs) && NormalForm(target) && 0 !in target && Goes(RenameAction(fs, sender, source, target, now))
    ensures Moves(fs, source, target, fromEntries, toEntries)
    ensures RenameAction(fs, sender, source, target, now).value.fs == Moved(fs, source, target, fromEntries, toEntries, now)
  {
    fromEntries, toEntries := RenameTaken(fs, sender, source, target, now);
    NameHasNoSlash(target);
    ShapedLookup(fs, Dirname(source));
    ShowsWithout(Lookup(fs, Dirname(source)), NameOf(source));
    var names := Lookup(fs, Dirname(target));
    ShapedLookup(fs, Dirname(target));
    ShowsWithout(names, NameOf(source));
    ShowsWithout(Without(names, NameOf(source)), NameOf(target));
    ShowsAdded(Without(Without(names, NameOf(source)), NameOf(target)), NameOf(target));
  }

  /** Every operation keeps the shape, and keeps index soundness if and only if it fails or
      the names the index shows for the added one are live: over all operations. */
  lemma StepSound(fs: Fs, sender: Bytes, op: Op)
    requires Shaped(fs) && Sound(fs)
    ensures Shaped(Step(fs, sender, op))
    ensures Sound(Step(fs, sender, op)) <==> (Succeeds(fs, sender, op) ==> NamesLive(fs, op))
  {
    if Succeeds(fs, sender, op) {
      var target := TargetOf(op).value;
      match op
      case Mkdir(input, now) =>
        NormalizedFacts(input);
        var node, entries := MkdirAddsNode(fs, sender, target, now);
        AddedShaped(fs, target, node, entries, true);
        AddedSound(fs, target, node, entries, true);
      case Write(input, _, _, _, _) =>
        NormalizedFacts(input);
        var node, entries := WriteAddsNode(fs, sender, target, op);
        AddedShaped(fs, target, node, entries, false);
        AddedSound(fs, target, node, entries, false);
      case Remove(_, recursive, now) =>
        var entries := RemoveDropsNode(fs, sender, target, recursive, now);
        DroppedShaped(fs, target, entries, now);
        DroppedSound(fs, target, entries, now);
      case Rename(from, to, now) =>
        var source := Normalize(from, HOME).value;
        NormalizedFacts(to);
        var fromEntries, toEntries := RenameMovesNode(fs, sender, source, target, now);
        MovedShaped(fs, source, target, fromEntries, toEntries, now);
        MovedSound(fs, source, target, fromEntries, toEntries, now);
    }
  }
}
