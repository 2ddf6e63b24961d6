// Inputs that leave a listed name without its node: a name with white space in front, and a
// rename onto itself.
module FsFailures {
  import opened Bytes
  import opened Text
  import opened DirectoryIndex
  import opened ComputerService
  import opened LiveFileSystem
  import opened FsInvariant
  import opened FsSound
  import opened FsRuns
  import opened JamFs

  predicate AtRoot(path: Bytes, name: Bytes) {
    path == ROOT + name && Component(name) && 0 !in name
  }

  lemma OneComponent(path: Bytes, name: Bytes)
    requires AtRoot(path, name)
    ensures Normalize(path, HOME) == Some(path) && 1 < |path| <= 256 && path[0] == SLASH
    ensures Dirname(path) == ROOT && NameOf(path) == name && path == Child(ROOT, name)
  {
    OneIsNormal(path, name);
    OneIsChild(path, name);
  }

  lemma OneIsNormal(path: Bytes, name: Bytes)
    requires AtRoot(path, name)
    ensures Normalize(path, HOME) == Some(path)
  {
    assert Join([name], SLASH) == name;
    assert PathOf([name]) == path;
    assert AllComponents([name]);
    NormalizeIsIdempotent(path, HOME);
  }

  lemma OneIsChild(path: Bytes, name: Bytes)
    requires AtRoot(path, name)
    ensures Dirname(path) == ROOT && NameOf(path) == name && path == Child(ROOT, name)
  {
    assert [] + [SLASH] + name == path;
    ChildParts(ROOT, name);
  }

  lemma OneLine(name: Bytes)
    requires CleanName(name) && |name| <= 128
    ensures EncodeIndex([name]) == Some(name) && DecodeIndex(name) == [name]
  {
    TrimmedClean([name]);
    assert SortUnique([name]) == [name];
    SplitPiece(name, NEWLINE);
  }

  /** A name with white space in front is listed without it. */
  lemma PaddedLine(padded: Bytes, white: Bytes, name: Bytes)
    requires CleanName(name) && |name| <= 128 && White(white) && padded == white + name
    ensures EncodeIndex([padded]) == Some(name) && Pieces(padded) == {name}
  {
    OneLine(name);
    TrimsFront(white, name);
    TrimBare(name);
    assert Trim(padded) == name;
    assert Trimmed([padded]) == [name] && Trimmed([name]) == [name];
    CleanPieces(name);
  }

  /** A computer on which nothing was made yet. */
  ghost predicate Fresh(fs: Fs, sender: Bytes) {
    && Tidy(fs) && Sound(fs) && |sender| == 32 && fs.owner == Some(sender)
    && fs.nodes.Keys == {ROOT} && Live(fs, ROOT) && fs.nodes[ROOT].kind == DIRECTORY
    && ROOT in fs.indexes && Lookup(fs, ROOT) == []
  }

  lemma InitialIsFresh(sender: Bytes)
    requires |sender| == 32
    ensures Fresh(Initial(sender), sender)
  {
    InitialIsGood(sender);
    EmptyEntries();
    NoMembers(Lookup(Initial(sender), ROOT));
  }

  lemma NoMembers(names: seq<Bytes>)
    ensures names != [] ==> Members(names) != {}
  {
    if names != [] {
      assert names[0] in Members(names);
    }
  }

  predicate TakesFirst(fs: Fs, sender: Bytes, parent: Bytes) {
    && |sender| == 32 && fs.owner == Some(sender) && LiveDirectory(fs, parent) && Lookup(fs, parent) == []
    && StatNormal(fs, parent).Some? && StatNormal(fs, parent).value.isDirectory && |parent| <= 256
  }

  lemma FreshTakes(fs: Fs, sender: Bytes)
    requires Fresh(fs, sender)
    ensures TakesFirst(fs, sender, ROOT) && forall path :: path in fs.nodes <==> path == ROOT
  {
    RootTakes(fs, sender, ROOT);
  }

  lemma RootTakes(fs: Fs, sender: Bytes, root: Bytes)
    requires Fresh(fs, sender) && root == ROOT
    ensures TakesFirst(fs, sender, root)
  {
    LiveRootTakes(fs, root);
    assert |root| == 1;
  }

  lemma LiveRootTakes(fs: Fs, root: Bytes)
    requires Tidy(fs) && Live(fs, root) && fs.nodes[root].kind == DIRECTORY
    ensures LiveDirectory(fs, root) && StatNormal(fs, root).Some? && StatNormal(fs, root).value.isDirectory
  {
    StatLive(fs, root);
  }

  lemma FirstMkdirTaken(fs: Fs, sender: Bytes, path: Bytes, name: Bytes, now: nat)
    requires TakesFirst(fs, sender, Dirname(path)) && path !in fs.nodes
    requires EncodeIndex([name]).Some? && NameOf(path) == name && name != []
    requires 1 < |path| <= 256 && path[0] == SLASH
    ensures Goes(MkdirAction(fs, sender, path, now))
  {
    assert Lookup(fs, Dirname(path)) + [name] == [name];
  }

  lemma MkdirSubmits(fs: Fs, sender: Bytes, path: Bytes, now: nat)
    requires Normalize(path, HOME) == Some(path) && Goes(MkdirAction(fs, sender, path, now))
    ensures Succeeds(fs, sender, Mkdir(path, now))
  {
  }

  lemma FirstMkdirSucceeds(fs: Fs, sender: Bytes, path: Bytes, name: Bytes, now: nat)
    requires TakesFirst(fs, sender, ROOT) && path !in fs.nodes
    requires AtRoot(path, name) && EncodeIndex([name]).Some?
    ensures Succeeds(fs, sender, Mkdir(path, now))
  {
    OneComponent(path, name);
    FirstMkdirTaken(fs, sender, path, name, now);
    MkdirSubmits(fs, sender, path, now);
  }

  lemma FirstNameLive(fs: Fs, sender: Bytes, path: Bytes, name: Bytes)
    requires Fresh(fs, sender) && Dirname(path) == ROOT && NameOf(path) == name && path == Child(ROOT, name)
    ensures AddedNamesLive(fs, path) <==> Pieces(name) <= {name}
  {
    forall piece | piece in Pieces(name)
      ensures !Live(fs, Child(ROOT, piece)) && (Child(ROOT, piece) == path <==> piece == name) {
      PieceIsName(name, piece);
      assert Child(ROOT, piece)[1..] == piece && path[1..] == name;
    }
  }

  lemma MkdirSound(fs: Fs, sender: Bytes, path: Bytes, now: nat)
    requires Shaped(fs) && Sound(fs) && Normalize(path, HOME) == Some(path)
    requires Succeeds(fs, sender, Mkdir(path, now))
    ensures Sound(Step(fs, sender, Mkdir(path, now))) <==> AddedNamesLive(fs, path)
  {
    StepSound(fs, sender, Mkdir(path, now));
  }

  /** On a computer where nothing was made yet, the first directory keeps soundness exactly
      when its name is shown as no other. */
  lemma FirstMkdirSound(fs: Fs, sender: Bytes, path: Bytes, name: Bytes, now: nat)
    requires Fresh(fs, sender) && AtRoot(path, name) && EncodeIndex([name]).Some?
    ensures Succeeds(fs, sender, Mkdir(path, now))
    ensures Sound(Step(fs, sender, Mkdir(path, now))) <==> Pieces(name) <= {name}
  {
    OneComponent(path, name);
    FreshTakes(fs, sender);
    FirstMkdirSucceeds(fs, sender, path, name, now);
    TidyIsShaped(fs);
    MkdirSound(fs, sender, path, now);
    FirstNameLive(fs, sender, path, name);
  }

  lemma PieceIsName(name: Bytes, piece: Bytes)
    requires piece in Pieces(name)
    ensures Child(ROOT, piece) != ROOT
  {
    TrimmedNotEmpty(Split(Trim(name), NEWLINE), piece);
  }

  lemma {:induction false} TrimmedNotEmpty(lines: seq<Bytes>, piece: Bytes)
    requires piece in Trimmed(lines)
    ensures piece != []
  {
    if lines != [] && piece in Trimmed(lines[1..]) {
      TrimmedNotEmpty(lines[1..], piece);
    }
  }

  lemma PaddedAtRoot(path: Bytes, white: Bytes, name: Bytes)
    requires White(white) && CleanName(name) && 0 !in name && |white + name| <= 128 && path == ROOT + (white + name)
    ensures AtRoot(path, white + name)
  {
    forall j | 0 <= j < |white| ensures white[j] != SLASH && white[j] != 0 && white[j] != 46 {
      WhiteLacks(white, 0, |white|, j);
    }
    assert (white + name)[0] == white[0];
  }

  /** A directory made under a clean name with white space in front, as "/ a", is listed as
      that name, where there is no node. */
  lemma PaddedMkdirBreaks(fs: Fs, sender: Bytes, path: Bytes, white: Bytes, name: Bytes, now: nat)
    requires White(white) && CleanName(name) && 0 !in name && |white + name| <= 128 && path == ROOT + (white + name)
    requires Fresh(fs, sender)
    ensures Succeeds(fs, sender, Mkdir(path, now)) && !Sound(Step(fs, sender, Mkdir(path, now)))
  {
    PaddedLine(white + name, white, name);
    PaddedAtRoot(path, white, name);
    FirstMkdirSound(fs, sender, path, white + name, now);
    assert name in Pieces(white + name) && |white + name| != |name|;
  }

  lemma FirstMkdirLists(fs: Fs, sender: Bytes, path: Bytes, name: Bytes, now: nat)
    requires TakesFirst(fs, sender, ROOT) && path !in fs.nodes && path != ROOT
    requires AtRoot(path, name) && EncodeIndex([name]).Some?
    ensures var fs' := Step(fs, sender, Mkdir(path, now));
            Lookup(fs', ROOT) == DecodeIndex(EncodeIndex([name]).value)
            && StatNormal(fs', ROOT) == StatNormal(fs, ROOT)
  {
    OneComponent(path, name);
    FirstMkdirSucceeds(fs, sender, path, name, now);
    assert Lookup(fs, ROOT) + [name] == [name];
    var entries := MkdirTaken(fs, sender, path, now);
  }

  lemma DotIsRoot(path: Bytes)
    requires path == ROOT + DOT
    ensures Normalize(path, HOME) == Some(ROOT)
  {
    var empty: Bytes := [];
    var none: seq<Bytes> := [];
    SplitPiece(DOT, SLASH);
    assert path[1..] == DOT && Split(path, SLASH) == [empty] + Split(DOT, SLASH);
    var pieces := [empty, DOT];
    assert Split(path, SLASH) == pieces && pieces[1..] == [DOT] && [DOT][1..] == none;
    assert Resolve([DOT], []) == Resolve(none, []) && Resolve(pieces, []) == Resolve([DOT], []);
    assert PathOf(none) == ROOT;
  }

  /** A name an index can hold, though its path is the root's: "." is one. */
  ghost predicate Folds(name: Bytes) {
    CleanName(name) && |name| < 128 && 0 !in name && Normalize(Child(ROOT, name), HOME) == Some(ROOT)
  }

  lemma DotFolds(dot: Bytes)
    requires dot == DOT
    ensures Folds(dot)
  {
    assert Child(ROOT, dot) == ROOT + DOT;
    DotIsRoot(Child(ROOT, dot));
  }

  /** The root directory lists nothing but itself. */
  predicate ListsItself(fs: Fs) {
    RootStands(fs) && List(fs, ROOT) == Some([StatNormal(fs, ROOT).value])
  }

  predicate RootStands(fs: Fs) {
    StatNormal(fs, ROOT).Some? && StatNormal(fs, ROOT).value.isDirectory && StatNormal(fs, ROOT).value.path == ROOT
  }

  lemma FreshRoot(fs: Fs, sender: Bytes)
    requires Fresh(fs, sender)
    ensures RootStands(fs)
  {
    assert NodeOk(fs, ROOT);
    FreshTakes(fs, sender);
    PlainPathOfRoot(ROOT);
  }

  lemma PlainPathOfRoot(path: Bytes)
    requires path == ROOT
    ensures Plain(path) == path
  {
    forall k: nat ensures !WhiteInFront(path, k) && !WhiteBehind(path, k) {
      assert path[0] == SLASH;
    }
    PlainOf(path);
  }

  lemma PaddedLists(fs: Fs, sender: Bytes, path: Bytes, white: Bytes, name: Bytes, now: nat)
    requires White(white) && CleanName(name) && 0 !in name && |white + name| <= 128 && path == ROOT + (white + name)
    requires TakesFirst(fs, sender, ROOT) && path !in fs.nodes
    ensures Lookup(Step(fs, sender, Mkdir(path, now)), ROOT) == [name]
    ensures StatNormal(Step(fs, sender, Mkdir(path, now)), ROOT) == StatNormal(fs, ROOT)
  {
    PaddedLine(white + name, white, name);
    PaddedAtRoot(path, white, name);
    OneLine(name);
    FirstMkdirLists(fs, sender, path, white + name, now);
  }

  /** A directory made under such a name with white space in front, as "/ .", makes the root
      list itself: the walk of publish would come back to the directory it is in. */
  lemma RootListsItself(fs: Fs, sender: Bytes, path: Bytes, white: Bytes, name: Bytes, now: nat)
    requires White(white) && Folds(name) && |white + name| <= 128 && path == ROOT + (white + name)
    requires Fresh(fs, sender)
    ensures ListsItself(Step(fs, sender, Mkdir(path, now)))
  {
    FreshTakes(fs, sender);
    FreshRoot(fs, sender);
    PaddedLists(fs, sender, path, white, name, now);
    ListsRoot(Step(fs, sender, Mkdir(path, now)), name);
  }

  lemma RootIsNormal()
    ensures Normalize(ROOT, HOME) == Some(ROOT)
  {
    var none: seq<Bytes> := [];
    assert PathOf(none) == ROOT;
    assert AllComponents(none) && NormalForm(ROOT);
    NormalizeIsIdempotent(ROOT, HOME);
  }

  lemma ListsRoot(fs: Fs, name: Bytes)
    requires Lookup(fs, ROOT) == [name] && RootStands(fs) && Folds(name)
    ensures ListsItself(fs)
  {
    RootIsNormal();
    StatOne(fs, [name], StatNormal(fs, ROOT).value);
  }

  lemma StatOne(fs: Fs, names: seq<Bytes>, entry: FileEntry)
    requires |names| == 1 && Stat(fs, Child(ROOT, names[0])) == Some(Some(entry))
    ensures StatAll(fs, ROOT, names) == Some([entry])
  {
    var rest := names[1..];
    var none: seq<FileEntry> := [];
    assert rest == [] && StatAll(fs, ROOT, rest) == Some(none) && [entry] + none == [entry];
  }

  /** With a clean name, a rename onto itself that goes through always breaks soundness. */
  lemma SelfRenameBreaks(fs: Fs, sender: Bytes, op: Op)
    requires Shaped(fs) && Sound(fs) && Allowed(op) && OntoItself(op) && Succeeds(fs, sender, op)
    ensures !Sound(Step(fs, sender, op))
  {
    StepSound(fs, sender, op);
    AllowedNamesLive(fs, op);
  }

  /** A file alone in the root directory. */
  ghost predicate HoldsOne(fs: Fs, sender: Bytes, path: Bytes, name: Bytes) {
    && |sender| == 32 && fs.owner == Some(sender) && LiveDirectory(fs, ROOT) && StatNormal(fs, ROOT).Some?
    && Live(fs, path) && fs.nodes[path].kind == FILE && fs.nodes[path].parent == ROOT
    && AtRoot(path, name) && Lookup(fs, ROOT) == [name] && EncodeIndex([name]).Some?
  }

  lemma FirstWriteTaken(fs: Fs, sender: Bytes, path: Bytes, name: Bytes, op: Op)
    requires TakesFirst(fs, sender, Dirname(path)) && path !in fs.nodes
    requires EncodeIndex([name]).Some? && NameOf(path) == name && 1 < |path| <= 256 && path[0] == SLASH
    requires op.Write? && |MimeOrDefault(op.mime)| <= 96
    ensures WriteAction(fs, sender, path, op.mime, op.size, op.contentRoot, op.now)
            == Some(FileWritten(fs, ROOT_KEY, sender, path, Dirname(path), MimeOrDefault(op.mime), op.size,
                                op.contentRoot, op.now, EncodeIndex([name]).value))
    ensures Goes(WriteAction(fs, sender, path, op.mime, op.size, op.contentRoot, op.now))
  {
    assert Lookup(fs, Dirname(path)) + [name] == [name];
  }

  lemma FirstWrite(fs: Fs, sender: Bytes, path: Bytes, name: Bytes, op: Op)
    requires TakesFirst(fs, sender, ROOT) && path !in fs.nodes && path != ROOT
    requires AtRoot(path, name) && EncodeIndex([name]).Some? && DecodeIndex(EncodeIndex([name]).value) == [name]
    requires op.Write? && op.path == path && |MimeOrDefault(op.mime)| <= 96
    ensures Succeeds(fs, sender, op) && HoldsOne(Step(fs, sender, op), sender, path, name)
  {
    OneComponent(path, name);
    FirstWriteTaken(fs, sender, path, name, op);
  }

  lemma SelfEntries(names: seq<Bytes>, name: Bytes)
    requires names == [name]
    ensures EncodeIndex(Without(names, name)).Some?
    ensures Without(Without(names, name), name) + [name] == names
  {
    var none: seq<Bytes> := [];
    assert names[1..] == none && Without(none, name) == none;
    assert Without(names, name) == none && none + [name] == names;
    assert Trimmed(none) == none && SortUnique(none) == none;
  }

  lemma SelfRenameApplies(fs: Fs, sender: Bytes, path: Bytes, name: Bytes, now: nat, entries: Bytes, more: Bytes)
    requires HoldsOne(fs, sender, path, name)
    ensures FileRenamed(fs, ROOT_KEY, sender, path, path, ROOT, ROOT, now, entries, more).Applied?
  {
    assert SenderAbort(fs, ROOT_KEY, sender).None?;
    assert |FILE| == 4;
  }

  lemma SelfRenameTaken(fs: Fs, sender: Bytes, path: Bytes, parent: Bytes, name: Bytes, now: nat)
    requires HoldsOne(fs, sender, path, name) && Plain(fs.nodes[path].kind) == FILE && parent == ROOT
    requires Dirname(path) == parent && NameOf(path) == name && |path| <= 256
    ensures Goes(RenameAction(fs, sender, path, path, now))
  {
    var names := Lookup(fs, parent);
    SelfEntries(names, name);
    var entries, more := EncodeIndex(Without(names, name)).value,
                         EncodeIndex(Without(Without(names, name), name) + [name]).value;
    SelfRenameApplies(fs, sender, path, name, now, entries, more);
    assert FILE != DIRECTORY by { assert |FILE| == 4; }
    assert RenameAction(fs, sender, path, path, now)
        == Some(FileRenamed(fs, ROOT_KEY, sender, path, path, parent, parent, now, entries, more));
  }

  lemma SelfRenameSucceeds(fs: Fs, sender: Bytes, path: Bytes, name: Bytes, now: nat)
    requires HoldsOne(fs, sender, path, name)
    ensures Succeeds(fs, sender, Rename(path, path, now))
  {
    OneComponent(path, name);
    PlainKinds();
    SelfRenameTaken(fs, sender, path, ROOT, name, now);
    RenameSubmits(fs, sender, Rename(path, path, now), path, path);
  }

  /** A file written under any clean name and renamed onto itself stays listed, and is gone. */
  lemma WrittenThenRenamed(fs: Fs, sender: Bytes, path: Bytes, name: Bytes, write: Op, rename: Op)
    requires Fresh(fs, sender) && AtRoot(path, name) && CleanName(name)
    requires write.Write? && write.path == path && |MimeOrDefault(write.mime)| <= 96
    requires rename.Rename? && rename.from == path && rename.to == path
    ensures Succeeds(fs, sender, write) && Succeeds(Step(fs, sender, write), sender, rename)
    ensures Sound(Step(fs, sender, write)) && !Sound(Step(Step(fs, sender, write), sender, rename))
  {
    OneLine(name);
    OneComponent(path, name);
    FreshTakes(fs, sender);
    FirstWrite(fs, sender, path, name, write);
    SelfRenameSucceeds(Step(fs, sender, write), sender, path, name, rename.now);
    StepTidy(fs, sender, write);
    TidyIsShaped(Step(fs, sender, write));
    SelfRenameBreaks(Step(fs, sender, write), sender, rename);
  }
}
