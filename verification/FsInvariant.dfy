// Agreement between the node map and the directory indexes: what it says, and what adding,
// removing and moving one node do to it.
module FsInvariant {
  import opened Bytes
  import opened Text
  import opened JamFs
  import opened DirectoryIndex
  import opened ComputerService
  import opened LiveFileSystem

  // ----------------------------------------------------------------- invariants

  ghost predicate TidyPath(path: Bytes) {
    NormalForm(path) && 0 !in path && path != ROOT && CleanName(NameOf(path))
  }

  predicate Known(kind: Bytes) {
    kind == DIRECTORY || kind == FILE
  }

  ghost predicate NodeOk(fs: Fs, path: Bytes)
    requires path in fs.nodes
  {
    var node := fs.nodes[path];
    && node.path == path && Known(node.kind)
    && (path == ROOT ==> node.parent == [] && !node.removed && node.kind == DIRECTORY)
    && (path != ROOT ==> TidyPath(path) && node.parent == Dirname(path) && Dirname(path) in fs.nodes)
  }

  ghost predicate IndexOk(fs: Fs, directory: Bytes) {
    directory in fs.indexes ==>
      directory in fs.nodes && AllClean(Lookup(fs, directory)) && Ascending(Lookup(fs, directory))
  }

  /** Shape: every node knows its path and parent, every index belongs to a node and holds
      clean names without repeats. */
  ghost predicate Tidy(fs: Fs) {
    && ROOT in fs.nodes
    && (forall path {:trigger NodeOk(fs, path)} :: path in fs.nodes ==> NodeOk(fs, path))
    && (forall directory {:trigger IndexOk(fs, directory)} :: directory in fs.indexes ==> IndexOk(fs, directory))
  }

  predicate Live(fs: Fs, path: Bytes) {
    path in fs.nodes && !fs.nodes[path].removed
  }

  function Listed(fs: Fs, directory: Bytes): set<Bytes> {
    Members(Lookup(fs, directory))
  }

  /** Soundness: every listed name is a live node. */
  ghost predicate Sound(fs: Fs) {
    forall directory, name :: name in Listed(fs, directory) ==> Live(fs, Child(directory, name))
  }

  /** Completeness: every live node but the root is listed in its parent, a live directory. */
  ghost predicate CompleteAt(fs: Fs, path: Bytes) {
    Live(fs, path) && path != ROOT ==>
      NameOf(path) in Listed(fs, Dirname(path))
      && Live(fs, Dirname(path)) && fs.nodes[Dirname(path)].kind == DIRECTORY
  }

  ghost predicate Complete(fs: Fs) {
    forall path :: CompleteAt(fs, path)
  }

  // ------------------------------------------------------------ path arithmetic

  /** A directory and a clean name determine the child, and the child determines them. */
  lemma ChildParts(directory: Bytes, name: Bytes)
    requires directory != [] && SLASH !in name
    ensures Dirname(Child(directory, name)) == directory && NameOf(Child(directory, name)) == name
  {
    AfterLastOf(if directory == ROOT then [] else directory, name, SLASH);
  }

  /** A tidy path is the child of its directory by its name. */
  lemma TidyParts(path: Bytes)
    requires NormalForm(path) && path != ROOT
    ensures Child(Dirname(path), NameOf(path)) == path
    ensures Dirname(path) != [] && NormalForm(Dirname(path)) && |Dirname(path)| < |path|
    ensures SLASH !in NameOf(path) && NameOf(path) != []
    ensures 0 !in path ==> 0 !in Dirname(path)
  {
    var parts :| AllComponents(parts) && path == PathOf(parts);
    var n := |parts| - 1;
    PathEnds(parts);
    assert Component(parts[n]);
    if n == 0 {
      assert Dirname(path) == PathOf([]);
      assert path == [] + [SLASH] + parts[0];
    } else {
      assert AllComponents(parts[..n]);
      PathNotRoot(parts[..n]);
    }
  }

  lemma PathNotRoot(parts: seq<Bytes>)
    requires AllComponents(parts) && parts != []
    ensures PathOf(parts) != ROOT
  {
    assert Component(parts[0]);
    assert |Join(parts, SLASH)| >= |parts[0]|;
  }

  lemma NodePath(fs: Fs, path: Bytes)
    requires Tidy(fs) && path in fs.nodes
    ensures path != [] && NormalForm(path) && 0 !in path
  {
    assert NodeOk(fs, path);
    if path == ROOT {
      assert AllComponents([]) && path == PathOf([]);
    }
  }

  /** What is listed is a tidy child: its node's parent is the listing directory. */
  lemma ListedChild(fs: Fs, directory: Bytes, name: Bytes)
    requires Tidy(fs) && name in Listed(fs, directory)
    ensures directory in fs.nodes && directory != [] && CleanName(name)
    ensures Dirname(Child(directory, name)) == directory && NameOf(Child(directory, name)) == name
    ensures Child(directory, name) != ROOT
  {
    assert IndexOk(fs, directory);
    var i :| 0 <= i < |Lookup(fs, directory)| && Lookup(fs, directory)[i] == name;
    NodePath(fs, directory);
    ChildParts(directory, name);
  }

  // ------------------------------------------------------------- index updates

  /** The stored index of `directory` decodes to clean, unrepeated names forming `names`. */
  ghost predicate Encodes(entries: Bytes, names: set<Bytes>) {
    && Members(DecodeIndex(entries)) == names
    && AllClean(DecodeIndex(entries)) && Ascending(DecodeIndex(entries))
  }

  lemma EncodedEntries(names: seq<Bytes>)
    requires AllClean(names) && EncodeIndex(names).Some?
    ensures Encodes(EncodeIndex(names).value, Members(names))
  {
    DecodeEncoded(names);
  }

  lemma EmptyEntries()
    ensures Encodes([], {})
  {
    assert EncodeIndex([]) == Some([]);
    DecodeEncoded([]);
    assert Members([]) == {};
  }

  lemma LookupClean(fs: Fs, directory: Bytes)
    requires Tidy(fs)
    ensures AllClean(Lookup(fs, directory)) && Ascending(Lookup(fs, directory))
  {
    if directory in fs.indexes {
      assert IndexOk(fs, directory);
    }
  }

  // -------------------------------------------------------------- adding a node

  /** The state after mkdir (`reset`: the new directory's index is reset) or writeFile. */
  function Added(fs: Fs, path: Bytes, node: Node, entries: Bytes, reset: bool): Fs {
    fs.(nodes := fs.nodes[path := node],
        indexes := (if reset then fs.indexes[path := []] else fs.indexes)[Dirname(path) := entries])
  }

  ghost predicate CanAdd(fs: Fs, path: Bytes, node: Node, entries: Bytes) {
    && Tidy(fs) && TidyPath(path) && Dirname(path) in fs.nodes
    && node.path == path && node.parent == Dirname(path) && !node.removed && Known(node.kind)
    && Encodes(entries, Listed(fs, Dirname(path)) + {NameOf(path)})
  }

  lemma ListedAfterAdd(fs: Fs, path: Bytes, node: Node, entries: Bytes, reset: bool, directory: Bytes)
    requires CanAdd(fs, path, node, entries)
    ensures Listed(Added(fs, path, node, entries, reset), directory)
            == if directory == Dirname(path) then Listed(fs, directory) + {NameOf(path)}
               else if reset && directory == path then {}
               else Listed(fs, directory)
  {
    EmptyEntries();
  }

  lemma AddKeepsTidy(fs: Fs, path: Bytes, node: Node, entries: Bytes, reset: bool)
    requires CanAdd(fs, path, node, entries)
    ensures Tidy(Added(fs, path, node, entries, reset))
  {
    var fs' := Added(fs, path, node, entries, reset);
    EmptyEntries();
    forall p | p in fs'.nodes ensures NodeOk(fs', p) {
      if p != path { assert NodeOk(fs, p); }
    }
    forall d | d in fs'.indexes ensures IndexOk(fs', d) {
      if d in fs.indexes { assert IndexOk(fs, d); }
    }
  }

  /** Adding a directory where no live node was keeps completeness. */
  lemma AddDirectoryComplete(fs: Fs, path: Bytes, node: Node, entries: Bytes)
    requires CanAdd(fs, path, node, entries) && Complete(fs)
    requires !Live(fs, path) && node.kind == DIRECTORY
    requires Live(fs, Dirname(path)) && fs.nodes[Dirname(path)].kind == DIRECTORY
    ensures Complete(Added(fs, path, node, entries, true))
  {
    var fs' := Added(fs, path, node, entries, true);
    TidyParts(path);
    forall p ensures CompleteAt(fs', p) {
      assert CompleteAt(fs, p);
      ListedAfterAdd(fs, path, node, entries, true, Dirname(p));
    }
  }

  lemma AddLeafComplete(fs: Fs, path: Bytes, node: Node, entries: Bytes)
    requires CanAdd(fs, path, node, entries) && Complete(fs) && Listed(fs, path) == {}
    requires Live(fs, Dirname(path)) && fs.nodes[Dirname(path)].kind == DIRECTORY
    ensures Complete(Added(fs, path, node, entries, false))
  {
    forall p ensures CompleteAt(Added(fs, path, node, entries, false), p) {
      AddLeafCompleteAt(fs, path, node, entries, p);
    }
  }

  lemma AddLeafCompleteAt(fs: Fs, path: Bytes, node: Node, entries: Bytes, p: Bytes)
    requires CanAdd(fs, path, node, entries) && CompleteAt(fs, p) && Listed(fs, path) == {}
    requires Live(fs, Dirname(path)) && fs.nodes[Dirname(path)].kind == DIRECTORY
    ensures CompleteAt(Added(fs, path, node, entries, false), p)
  {
    TidyParts(path);
    if p != ROOT {
      ListedAfterAdd(fs, path, node, entries, false, Dirname(p));
      assert p != path ==> Live(Added(fs, path, node, entries, false), p) == Live(fs, p);
    }
  }

  /** A live node listed under something that is not a live directory. */
  lemma Orphan(fs: Fs, fs': Fs, directory: Bytes, name: Bytes)
    requires Tidy(fs) && Sound(fs) && name in Listed(fs, directory)
    requires Live(fs', Child(directory, name))
    requires !Live(fs', directory) || fs'.nodes[directory].kind != DIRECTORY
    ensures !Complete(fs')
  {
    ListedChild(fs, directory, name);
    assert !CompleteAt(fs', Child(directory, name));
  }

  /** Writing a file keeps completeness exactly when no children are listed under it. */
  lemma AddFileComplete(fs: Fs, path: Bytes, node: Node, entries: Bytes)
    requires CanAdd(fs, path, node, entries) && Complete(fs) && Sound(fs)
    requires node.kind == FILE
    requires Live(fs, Dirname(path)) && fs.nodes[Dirname(path)].kind == DIRECTORY
    ensures Complete(Added(fs, path, node, entries, false)) <==> Listed(fs, path) == {}
  {
    if Listed(fs, path) == {} {
      AddLeafComplete(fs, path, node, entries);
    } else {
      var name :| name in Listed(fs, path);
      ListedChild(fs, path, name);
      ChildLonger(path, name);
      assert Live(fs, Child(path, name));
      Orphan(fs, Added(fs, path, node, entries, false), path, name);
    }
  }

  lemma ChildLonger(directory: Bytes, name: Bytes)
    requires name != []
    ensures |Child(directory, name)| > |directory|
  {
  }

  // ------------------------------------------------------------ removing a node

  function Dropped(fs: Fs, path: Bytes, entries: Bytes, now: nat): Fs
    requires path in fs.nodes
  {
    fs.(nodes := fs.nodes[path := fs.nodes[path].(removed := true, updatedAt := now)],
        indexes := fs.indexes[Dirname(path) := entries])
  }

  ghost predicate CanDrop(fs: Fs, path: Bytes, entries: Bytes) {
    && Tidy(fs) && path in fs.nodes && path != ROOT
    && Encodes(entries, Listed(fs, Dirname(path)) - {NameOf(path)})
  }

  lemma ListedAfterDrop(fs: Fs, path: Bytes, entries: Bytes, now: nat, directory: Bytes)
    requires CanDrop(fs, path, entries)
    ensures Listed(Dropped(fs, path, entries, now), directory)
            == if directory == Dirname(path) then Listed(fs, directory) - {NameOf(path)}
               else Listed(fs, directory)
  {
  }

  lemma DropKeepsTidy(fs: Fs, path: Bytes, entries: Bytes, now: nat)
    requires CanDrop(fs, path, entries)
    ensures Tidy(Dropped(fs, path, entries, now))
  {
    var fs' := Dropped(fs, path, entries, now);
    assert NodeOk(fs, path);
    forall p | p in fs'.nodes ensures NodeOk(fs', p) {
      assert NodeOk(fs, p);
    }
    forall d | d in fs'.indexes ensures IndexOk(fs', d) {
      if d in fs.indexes { assert IndexOk(fs, d); }
    }
  }

  lemma DropLeafComplete(fs: Fs, path: Bytes, entries: Bytes, now: nat)
    requires CanDrop(fs, path, entries) && Complete(fs) && Listed(fs, path) == {}
    ensures Complete(Dropped(fs, path, entries, now))
  {
    var fs' := Dropped(fs, path, entries, now);
    assert NodeOk(fs, path);
    TidyParts(path);
    forall p ensures CompleteAt(fs', p) {
      assert CompleteAt(fs, p);
      if Live(fs', p) && p != ROOT {
        ListedAfterDrop(fs, path, entries, now, Dirname(p));
        assert NodeOk(fs, p);
        TidyParts(p);
      }
    }
  }

  /** Removing a node keeps completeness exactly when nothing is listed under it. */
  lemma DropComplete(fs: Fs, path: Bytes, entries: Bytes, now: nat)
    requires CanDrop(fs, path, entries) && Complete(fs) && Sound(fs)
    ensures Complete(Dropped(fs, path, entries, now)) <==> Listed(fs, path) == {}
  {
    if Listed(fs, path) == {} {
      DropLeafComplete(fs, path, entries, now);
    } else {
      var name :| name in Listed(fs, path);
      ListedChild(fs, path, name);
      ChildLonger(path, name);
      assert Live(fs, Child(path, name));
      Orphan(fs, Dropped(fs, path, entries, now), path, name);
    }
  }

  // -------------------------------------------------------------- moving a file

  function Moved(fs: Fs, from: Bytes, to: Bytes, fromEntries: Bytes, toEntries: Bytes, now: nat): Fs
    requires from in fs.nodes
  {
    var current := fs.nodes[from];
    var moved := current.(path := to, parent := Dirname(to), removed := false, updatedAt := now);
    fs.(nodes := fs.nodes[to := moved][from := current.(removed := true, updatedAt := now)],
        indexes := fs.indexes[Dirname(from) := fromEntries][Dirname(to) := toEntries])
  }

  ghost predicate CanMove(fs: Fs, from: Bytes, to: Bytes, fromEntries: Bytes, toEntries: Bytes) {
    && Tidy(fs) && Live(fs, from) && fs.nodes[from].kind == FILE
    && TidyPath(to) && Dirname(to) in fs.nodes
    && Encodes(fromEntries, Listed(fs, Dirname(from)) - {NameOf(from)})
    && Encodes(toEntries, Listed(fs, Dirname(to)) - {NameOf(from)} - {NameOf(to)} + {NameOf(to)})
  }

  lemma ListedAfterMove(fs: Fs, from: Bytes, to: Bytes, fromEntries: Bytes, toEntries: Bytes, now: nat, directory: Bytes)
    requires CanMove(fs, from, to, fromEntries, toEntries)
    ensures Listed(Moved(fs, from, to, fromEntries, toEntries, now), directory)
            == if directory == Dirname(to) then Listed(fs, directory) - {NameOf(from)} + {NameOf(to)}
               else if directory == Dirname(from) then Listed(fs, directory) - {NameOf(from)}
               else Listed(fs, directory)
  {
  }

  lemma MoveKeepsTidy(fs: Fs, from: Bytes, to: Bytes, fromEntries: Bytes, toEntries: Bytes, now: nat)
    requires CanMove(fs, from, to, fromEntries, toEntries)
    ensures from != to ==> Tidy(Moved(fs, from, to, fromEntries, toEntries, now))
  {
    var fs' := Moved(fs, from, to, fromEntries, toEntries, now);
    assert NodeOk(fs, from);
    if from != to {
      forall p | p in fs'.nodes ensures NodeOk(fs', p) {
        if p != to { assert NodeOk(fs, p); }
      }
      forall d | d in fs'.indexes ensures IndexOk(fs', d) {
        if d in fs.indexes { assert IndexOk(fs, d); }
      }
    }
  }

  /** Which nodes are live after a move. */
  lemma MovedLive(fs: Fs, from: Bytes, to: Bytes, fromEntries: Bytes, toEntries: Bytes, now: nat, p: Bytes)
    requires CanMove(fs, from, to, fromEntries, toEntries)
    ensures var fs' := Moved(fs, from, to, fromEntries, toEntries, now);
            (Live(fs', p) <==> p != from && (p == to || Live(fs, p)))
            && (p != from && p != to && p in fs.nodes ==> p in fs'.nodes && fs'.nodes[p] == fs.nodes[p])
  {
  }

  /** Nothing but possibly `from` is listed under the target, and a move to another
      directory does not unlist another node there. */
  predicate MoveGuard(fs: Fs, from: Bytes, to: Bytes) {
    && Listed(fs, to) <= (if to == Dirname(from) then {NameOf(from)} else {})
    && (Dirname(from) == Dirname(to) || NameOf(from) == NameOf(to)
        || NameOf(from) !in Listed(fs, Dirname(to)))
  }

  /** A node that was complete, is still live and is not the target, stays complete. */
  lemma MoveCompleteAt(fs: Fs, from: Bytes, to: Bytes, fromEntries: Bytes, toEntries: Bytes, now: nat, p: Bytes)
    requires CanMove(fs, from, to, fromEntries, toEntries) && CompleteAt(fs, p)
    requires MoveGuard(fs, from, to) && Live(fs, p) && p != ROOT && p != from && p != to
    ensures CompleteAt(Moved(fs, from, to, fromEntries, toEntries, now), p)
  {
    var d := Dirname(p);
    assert NodeOk(fs, from) && NodeOk(fs, p);
    TidyParts(p);
    TidyParts(from);
    assert !(d == Dirname(from) && NameOf(p) == NameOf(from));
    assert d != to && d != from;
    ListedAfterMove(fs, from, to, fromEntries, toEntries, now, d);
    MovedLive(fs, from, to, fromEntries, toEntries, now, d);
    assert NameOf(p) in Listed(fs, d);
  }

  lemma MoveGuardSuffices(fs: Fs, from: Bytes, to: Bytes, fromEntries: Bytes, toEntries: Bytes, now: nat)
    requires CanMove(fs, from, to, fromEntries, toEntries) && Complete(fs)
    requires Live(fs, Dirname(to)) && fs.nodes[Dirname(to)].kind == DIRECTORY
    requires MoveGuard(fs, from, to)
    ensures Complete(Moved(fs, from, to, fromEntries, toEntries, now))
  {
    var fs' := Moved(fs, from, to, fromEntries, toEntries, now);
    TidyParts(to);
    forall p ensures CompleteAt(fs', p) {
      if p == to {
        ListedAfterMove(fs, from, to, fromEntries, toEntries, now, Dirname(to));
      } else if Live(fs', p) && p != ROOT {
        assert CompleteAt(fs, p);
        MoveCompleteAt(fs, from, to, fromEntries, toEntries, now, p);
      }
    }
  }

  lemma MoveOverChildren(fs: Fs, from: Bytes, to: Bytes, fromEntries: Bytes, toEntries: Bytes, now: nat, name: Bytes)
    requires CanMove(fs, from, to, fromEntries, toEntries) && Sound(fs)
    requires name in Listed(fs, to) && !(to == Dirname(from) && name == NameOf(from))
    ensures !Complete(Moved(fs, from, to, fromEntries, toEntries, now))
  {
    ListedChild(fs, to, name);
    ChildLonger(to, name);
    assert Live(fs, Child(to, name));
    Orphan(fs, Moved(fs, from, to, fromEntries, toEntries, now), to, name);
  }

  lemma MoveUnlists(fs: Fs, from: Bytes, to: Bytes, fromEntries: Bytes, toEntries: Bytes, now: nat)
    requires CanMove(fs, from, to, fromEntries, toEntries) && Sound(fs)
    requires Dirname(from) != Dirname(to) && NameOf(from) != NameOf(to)
    requires NameOf(from) in Listed(fs, Dirname(to))
    ensures !Complete(Moved(fs, from, to, fromEntries, toEntries, now))
  {
    var fs' := Moved(fs, from, to, fromEntries, toEntries, now);
    var d, name := Dirname(to), NameOf(from);
    ListedChild(fs, d, name);
    assert Live(fs, Child(d, name));
    assert Child(d, name) != from && Child(d, name) != to;
    MovedLive(fs, from, to, fromEntries, toEntries, now, Child(d, name));
    assert name !in Listed(fs', d) by {
      ListedAfterMove(fs, from, to, fromEntries, toEntries, now, d);
    }
    assert !CompleteAt(fs', Child(d, name));
  }

  /** Moving a file keeps completeness exactly under the guard. */
  lemma MoveComplete(fs: Fs, from: Bytes, to: Bytes, fromEntries: Bytes, toEntries: Bytes, now: nat)
    requires CanMove(fs, from, to, fromEntries, toEntries) && Complete(fs) && Sound(fs)
    requires Live(fs, Dirname(to)) && fs.nodes[Dirname(to)].kind == DIRECTORY
    ensures Complete(Moved(fs, from, to, fromEntries, toEntries, now)) <==> MoveGuard(fs, from, to)
  {
    if MoveGuard(fs, from, to) {
      MoveGuardSuffices(fs, from, to, fromEntries, toEntries, now);
    } else if !(Listed(fs, to) <= (if to == Dirname(from) then {NameOf(from)} else {})) {
      var name :| name in Listed(fs, to) && !(to == Dirname(from) && name == NameOf(from));
      MoveOverChildren(fs, from, to, fromEntries, toEntries, now, name);
    } else {
      MoveUnlists(fs, from, to, fromEntries, toEntries, now);
    }
  }
}
