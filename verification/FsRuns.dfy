// Client operations and whole runs: when the directory indexes stay sound and complete.
module FsRuns {
  import opened Bytes
  import opened Text
  import opened DirectoryIndex
  import opened ComputerService
  import opened LiveFileSystem
  import opened FsInvariant
  import opened FsSound
  import opened JamFs

  // --------------------------------------------------------- allowed operations

  /** A name the operation adds to an index is one line with nothing to trim. */
  ghost predicate AddsCleanName(path: Option<Bytes>) {
    path.Some? && path.value != ROOT ==> CleanName(NameOf(path.value))
  }

  ghost predicate Allowed(op: Op) {
    match op
    case Mkdir(path, _) => AddsCleanName(Normalize(path, HOME))
    case Write(path, _, _, _, _) => AddsCleanName(Normalize(path, HOME))
    case Remove(_, _, _) => true
    case Rename(_, to, _) => AddsCleanName(Normalize(to, HOME)) && Normalize(to, HOME) != Some(ROOT)
  }

  predicate OntoItself(op: Op) {
    op.Rename? && Normalize(op.from, HOME) == Normalize(op.to, HOME)
  }

  lemma PlainKinds()
    ensures Plain(DIRECTORY) == DIRECTORY && Plain(FILE) == FILE
  {
    PlainKind(DIRECTORY);
    PlainKind(FILE);
  }

  lemma PlainKind(kind: Bytes)
    requires kind == DIRECTORY || kind == FILE
    ensures Plain(kind) == kind
  {
    PlainOf(kind);
  }

  lemma PlainOf(s: Bytes)
    requires 0 !in s && Bare(s)
    ensures Plain(s) == s
  {
    NoNul(s);
    TrimBare(s);
  }

  lemma {:induction false} NoNul(s: Bytes)
    requires 0 !in s
    ensures WithoutNul(s) == s
  {
    if s != [] {
      NoNul(s[1..]);
      assert s == [s[0]] + s[1..];
    }
  }

  lemma StatLive(fs: Fs, path: Bytes)
    requires Tidy(fs)
    ensures StatNormal(fs, path).Some? <==> Live(fs, path)
    ensures Live(fs, path) ==> (StatNormal(fs, path).value.isDirectory <==> fs.nodes[path].kind == DIRECTORY)
    ensures Live(fs, path) ==> (LiveDirectory(fs, path) <==> fs.nodes[path].kind == DIRECTORY)
  {
    if path in fs.nodes {
      assert NodeOk(fs, path);
      PlainKinds();
    }
  }

  // ------------------------------------------- what a successful operation does

  lemma NameAdded(fs: Fs, path: Bytes)
    requires Tidy(fs) && CleanName(NameOf(path))
    requires EncodeIndex(Lookup(fs, Dirname(path)) + [NameOf(path)]).Some?
    ensures Encodes(EncodeIndex(Lookup(fs, Dirname(path)) + [NameOf(path)]).value,
                    Listed(fs, Dirname(path)) + {NameOf(path)})
  {
    LookupClean(fs, Dirname(path));
    AppendMembers(Lookup(fs, Dirname(path)), NameOf(path));
    EncodedEntries(Lookup(fs, Dirname(path)) + [NameOf(path)]);
  }

  lemma NameDropped(fs: Fs, directory: Bytes, name: Bytes)
    requires Tidy(fs) && EncodeIndex(Without(Lookup(fs, directory), name)).Some?
    ensures Encodes(EncodeIndex(Without(Lookup(fs, directory), name)).value, Listed(fs, directory) - {name})
  {
    LookupClean(fs, directory);
    WithoutMembers(Lookup(fs, directory), name);
    CleanMembers(Lookup(fs, directory), Without(Lookup(fs, directory), name));
    EncodedEntries(Without(Lookup(fs, directory), name));
  }

  lemma NameMoved(fs: Fs, directory: Bytes, fromName: Bytes, toName: Bytes)
    requires Tidy(fs) && CleanName(toName)
    requires EncodeIndex(Without(Without(Lookup(fs, directory), fromName), toName) + [toName]).Some?
    ensures Encodes(EncodeIndex(Without(Without(Lookup(fs, directory), fromName), toName) + [toName]).value,
                    Listed(fs, directory) - {fromName} - {toName} + {toName})
  {
    var names := Lookup(fs, directory);
    var rest := Without(Without(names, fromName), toName);
    LookupClean(fs, directory);
    WithoutMembers(names, fromName);
    WithoutMembers(Without(names, fromName), toName);
    CleanMembers(names, rest);
    AppendMembers(rest, toName);
    EncodedEntries(rest + [toName]);
  }

  lemma MkdirAdds(fs: Fs, sender: Bytes, op: Op) returns (node: Node, entries: Bytes)
    requires Tidy(fs) && Allowed(op) && op.Mkdir? && Succeeds(fs, sender, op)
    ensures TargetOf(op).Some? && node.kind == DIRECTORY && !Live(fs, TargetOf(op).value)
    ensures CanAdd(fs, TargetOf(op).value, node, entries)
    ensures Step(fs, sender, op) == Added(fs, TargetOf(op).value, node, entries, true)
    ensures var parent := Dirname(TargetOf(op).value);
            Live(fs, parent) && fs.nodes[parent].kind == DIRECTORY
  {
    var path := TargetOf(op).value;
    NormalizedFacts(op.path);
    assert MkdirAction(fs, sender, path, op.now) == Submit(fs, sender, op);
    node, entries := MkdirFacts(fs, sender, path, op.now);
  }

  lemma MkdirFacts(fs: Fs, sender: Bytes, path: Bytes, now: nat) returns (node: Node, entries: Bytes)
    requires Tidy(fs) && NormalForm(path) && 0 !in path && path != [] && AddsCleanName(Some(path))
    requires Goes(MkdirAction(fs, sender, path, now))
    ensures node.kind == DIRECTORY && !Live(fs, path) && CanAdd(fs, path, node, entries)
    ensures MkdirAction(fs, sender, path, now).value.fs == Added(fs, path, node, entries, true)
    ensures Live(fs, Dirname(path)) && fs.nodes[Dirname(path)].kind == DIRECTORY
  {
    entries := MkdirTaken(fs, sender, path, now);
    node := DirectoryNode(path, Dirname(path), now);
    StatLive(fs, path);
    StatLive(fs, Dirname(path));
    TidyParts(path);
    NameAdded(fs, path);
  }

  lemma WriteAdds(fs: Fs, sender: Bytes, op: Op) returns (node: Node, entries: Bytes)
    requires Tidy(fs) && Allowed(op) && op.Write? && Succeeds(fs, sender, op)
    ensures TargetOf(op).Some? && node.kind == FILE
    ensures CanAdd(fs, TargetOf(op).value, node, entries)
    ensures Step(fs, sender, op) == Added(fs, TargetOf(op).value, node, entries, false)
    ensures var parent := Dirname(TargetOf(op).value);
            Live(fs, parent) && fs.nodes[parent].kind == DIRECTORY
  {
    var path := TargetOf(op).value;
    NormalizedFacts(op.path);
    StatLive(fs, Dirname(path));
    node, entries := WriteTaken(fs, sender, path, op);
    NameAdded(fs, path);
  }

  lemma RemoveDrops(fs: Fs, sender: Bytes, op: Op) returns (entries: Bytes)
    requires Tidy(fs) && op.Remove? && Succeeds(fs, sender, op)
    ensures TargetOf(op).Some? && CanDrop(fs, TargetOf(op).value, entries)
    ensures Step(fs, sender, op) == Dropped(fs, TargetOf(op).value, entries, op.now)
  {
    var path := TargetOf(op).value;
    TidyIsShaped(fs);
    if path in fs.nodes { assert NodeShaped(fs, path); }
    entries := RemoveTaken(fs, sender, path, op.recursive, op.now);
    NameDropped(fs, Dirname(path), NameOf(path));
  }

  lemma RenameMoves(fs: Fs, sender: Bytes, op: Op) returns (source: Bytes, fromEntries: Bytes, toEntries: Bytes)
    requires Tidy(fs) && Allowed(op) && op.Rename? && Succeeds(fs, sender, op)
    ensures TargetOf(op).Some? && Normalize(op.from, HOME) == Some(source)
    ensures CanMove(fs, source, TargetOf(op).value, fromEntries, toEntries)
    ensures Step(fs, sender, op) == Moved(fs, source, TargetOf(op).value, fromEntries, toEntries, op.now)
    ensures var parent := Dirname(TargetOf(op).value);
            Live(fs, parent) && fs.nodes[parent].kind == DIRECTORY
  {
    source := Normalize(op.from, HOME).value;
    var target := TargetOf(op).value;
    NormalizedFacts(op.to);
    assert RenameAction(fs, sender, source, target, op.now) == Submit(fs, sender, op);
    fromEntries, toEntries := RenameFacts(fs, sender, source, target, op.now);
  }

  lemma RenameFacts(fs: Fs, sender: Bytes, source: Bytes, target: Bytes, now: nat)
    returns (fromEntries: Bytes, toEntries: Bytes)
    requires Tidy(fs) && NormalForm(target) && 0 !in target && target != ROOT && CleanName(NameOf(target))
    requires Goes(RenameAction(fs, sender, source, target, now))
    ensures CanMove(fs, source, target, fromEntries, toEntries)
    ensures RenameAction(fs, sender, source, target, now).value.fs == Moved(fs, source, target, fromEntries, toEntries, now)
    ensures Live(fs, Dirname(target)) && fs.nodes[Dirname(target)].kind == DIRECTORY
  {
    fromEntries, toEntries := RenameTaken(fs, sender, source, target, now);
    StatLive(fs, Dirname(target));
    assert NodeOk(fs, source);
    NameDropped(fs, Dirname(source), NameOf(source));
    NameMoved(fs, Dirname(target), NameOf(source), NameOf(target));
  }

  // ------------------------------------------------------------------ one step

  /** Operations that add clean names only, and do not rename a file onto itself, keep the
      whole shape. */
  lemma StepTidy(fs: Fs, sender: Bytes, op: Op)
    requires Tidy(fs) && Sound(fs) && Allowed(op) && !(OntoItself(op) && Succeeds(fs, sender, op))
    ensures Tidy(Step(fs, sender, op)) && Sound(Step(fs, sender, op))
  {
    TidyIsShaped(fs);
    StepSound(fs, sender, op);
    if Succeeds(fs, sender, op) {
      AllowedNamesLive(fs, op);
      match op
      case Mkdir(_, _) =>
        var node, entries := MkdirAdds(fs, sender, op);
        AddKeepsTidy(fs, TargetOf(op).value, node, entries, true);
      case Write(_, _, _, _, _) =>
        var node, entries := WriteAdds(fs, sender, op);
        AddKeepsTidy(fs, TargetOf(op).value, node, entries, false);
      case Remove(_, _, _) =>
        var entries := RemoveDrops(fs, sender, op);
        DropKeepsTidy(fs, TargetOf(op).value, entries, op.now);
      case Rename(_, _, _) =>
        var source, fromEntries, toEntries := RenameMoves(fs, sender, op);
        MoveKeepsTidy(fs, source, TargetOf(op).value, fromEntries, toEntries, op.now);
    }
  }

  lemma CleanNameLive(fs: Fs, path: Bytes)
    requires NormalForm(path) && AddsCleanName(Some(path))
    ensures AddedNamesLive(fs, path)
    ensures path != ROOT ==> forall from :: MovedNamesLive(fs, from, path) <==> from != path
  {
    if path == ROOT {
      NothingToTrim();
    } else {
      TidyParts(path);
      CleanPieces(NameOf(path));
      assert Child(Dirname(path), NameOf(path)) == path;
      assert NameOf(path) in Pieces(NameOf(path));
    }
  }

  lemma NothingToTrim()
    ensures NameOf(ROOT) == [] && Pieces([]) == {}
  {
    SplitPiece([], NEWLINE);
    assert Trimmed([[]]) == [];
  }

  lemma TargetIsNormal(op: Op)
    ensures TargetOf(op).Some? ==> NormalForm(TargetOf(op).value) && 0 !in TargetOf(op).value
  {
    match op
    case Mkdir(path, _) => NormalizedFacts(path);
    case Write(path, _, _, _, _) => NormalizedFacts(path);
    case Remove(path, _, _) => NormalizedFacts(path);
    case Rename(_, to, _) => NormalizedFacts(to);
  }

  /** With clean names, a rename onto itself is the one operation that breaks soundness. */
  lemma AllowedNamesLive(fs: Fs, op: Op)
    requires Allowed(op)
    ensures NamesLive(fs, op) <==> !(OntoItself(op) && TargetOf(op).Some?)
  {
    TargetIsNormal(op);
    if TargetOf(op).Some? && !op.Remove? {
      CleanNameLive(fs, TargetOf(op).value);
    }
  }

  /** What a caller can check before the call: nothing is listed under the target of a
      write, a remove or a rename (the moved file aside), and a rename into another
      directory keeps its name or finds no entry of the old name there. */
  predicate KeepsComplete(fs: Fs, op: Op) {
    TargetOf(op).Some? ==>
      match op
      case Mkdir(_, _) => true
      case Write(_, _, _, _, _) => Listed(fs, TargetOf(op).value) == {}
      case Remove(_, _, _) => Listed(fs, TargetOf(op).value) == {}
      case Rename(from, _, _) =>
        Normalize(from, HOME).Some? ==> MoveGuard(fs, Normalize(from, HOME).value, TargetOf(op).value)
  }

  /** With clean names, completeness survives an operation that goes through exactly under
      that guard. */
  lemma CleanStepComplete(fs: Fs, sender: Bytes, op: Op)
    requires Tidy(fs) && Sound(fs) && Complete(fs) && Allowed(op)
    ensures Complete(Step(fs, sender, op)) <==> (Succeeds(fs, sender, op) ==> KeepsComplete(fs, op))
  {
    if Succeeds(fs, sender, op) {
      match op
      case Mkdir(_, _) =>
        var node, entries := MkdirAdds(fs, sender, op);
        AddDirectoryComplete(fs, TargetOf(op).value, node, entries);
      case Write(_, _, _, _, _) =>
        var node, entries := WriteAdds(fs, sender, op);
        AddFileComplete(fs, TargetOf(op).value, node, entries);
      case Remove(_, _, _) =>
        var entries := RemoveDrops(fs, sender, op);
        DropComplete(fs, TargetOf(op).value, entries, op.now);
      case Rename(_, _, _) =>
        var source, fromEntries, toEntries := RenameMoves(fs, sender, op);
        MoveComplete(fs, source, TargetOf(op).value, fromEntries, toEntries, op.now);
    }
  }

  // ---------------------------------------------------------------------- list

  lemma StatChild(fs: Fs, directory: Bytes, name: Bytes)
    requires Tidy(fs) && Sound(fs) && name in Listed(fs, directory)
    ensures Stat(fs, Child(directory, name)) == Some(Some(EntryOf(Child(directory, name), fs.nodes[Child(directory, name)])))
    ensures EntryOf(Child(directory, name), fs.nodes[Child(directory, name)]).path == Child(directory, name)
    ensures EntryOf(Child(directory, name), fs.nodes[Child(directory, name)]).isDirectory
            <==> fs.nodes[Child(directory, name)].kind == DIRECTORY
  {
    var path := Child(directory, name);
    ListedChild(fs, directory, name);
    assert Live(fs, path) && NodeOk(fs, path);
    NodePath(fs, path);
    NormalizeIsIdempotent(path, HOME);
    PlainPath(path);
    StatLive(fs, path);
  }

  lemma PlainPath(path: Bytes)
    requires TidyPath(path)
    ensures Plain(path) == path
  {
    TidyParts(path);
    BarePath(if Dirname(path) == ROOT then [] else Dirname(path), NameOf(path));
    PlainOf(path);
  }

  /** The entry each listed name yields. */
  function ChildEntries(fs: Fs, directory: Bytes, names: seq<Bytes>): seq<FileEntry>
    requires forall i :: 0 <= i < |names| ==> Child(directory, names[i]) in fs.nodes
  {
    if names == [] then []
    else
      assert forall i :: 0 <= i < |names[1..]| ==> names[1..][i] == names[i + 1];
      [EntryOf(Child(directory, names[0]), fs.nodes[Child(directory, names[0])])]
      + ChildEntries(fs, directory, names[1..])
  }

  lemma {:induction false} StatAllChildren(fs: Fs, directory: Bytes, names: seq<Bytes>)
    requires Tidy(fs) && Sound(fs) && Members(names) <= Listed(fs, directory)
    ensures forall i :: 0 <= i < |names| ==> Child(directory, names[i]) in fs.nodes
    ensures StatAll(fs, directory, names) == Some(ChildEntries(fs, directory, names))
  {
    forall i | 0 <= i < |names| ensures Child(directory, names[i]) in fs.nodes {
      assert names[i] in Members(names);
      assert Live(fs, Child(directory, names[i]));
    }
    if names != [] {
      assert names[0] in Members(names);
      assert Members(names[1..]) <= Members(names);
      StatChild(fs, directory, names[0]);
      StatAllChildren(fs, directory, names[1..]);
    }
  }

  /** With sound indexes list meets no dangling entry: it returns one entry per listed name,
      each the live node at the child's path. */
  lemma ListIsFaithful(fs: Fs, directory: Bytes)
    requires Tidy(fs) && Sound(fs) && NormalForm(directory) && 0 !in directory
    ensures forall i :: 0 <= i < |Lookup(fs, directory)| ==> Child(directory, Lookup(fs, directory)[i]) in fs.nodes
    ensures List(fs, directory) == Some(ChildEntries(fs, directory, Lookup(fs, directory)))
  {
    NormalizeIsIdempotent(directory, HOME);
    StatAllChildren(fs, directory, Lookup(fs, directory));
  }

  lemma OnlyDirectoriesList(fs: Fs, path: Bytes)
    requires Tidy(fs) && Sound(fs) && Complete(fs) && Listed(fs, path) != {}
    ensures Live(fs, path) && fs.nodes[path].kind == DIRECTORY
  {
    var name :| name in Listed(fs, path);
    ListedChild(fs, path, name);
    assert Live(fs, Child(path, name)) && CompleteAt(fs, Child(path, name));
  }

  /** A target that is no live directory has nothing listed under it. */
  lemma NoDirectoryNoChildren(fs: Fs, path: Bytes)
    requires Tidy(fs) && Sound(fs) && Complete(fs)
    requires !(Live(fs, path) && fs.nodes[path].kind == DIRECTORY)
    ensures Listed(fs, path) == {}
  {
    if Listed(fs, path) != {} {
      OnlyDirectoriesList(fs, path);
    }
  }

  lemma RemoveChecked(fs: Fs, sender: Bytes, op: Op)
    requires op.Remove? && !op.recursive && Succeeds(fs, sender, op)
    ensures TargetOf(op).Some? && Live(fs, TargetOf(op).value)
    ensures Plain(fs.nodes[TargetOf(op).value].kind) == DIRECTORY ==> List(fs, TargetOf(op).value) == Some([])
  {
  }

  /** A non-recursive remove goes through only where nothing is listed. */
  lemma RemoveOnlyEmpty(fs: Fs, sender: Bytes, op: Op)
    requires Tidy(fs) && Sound(fs) && Complete(fs) && op.Remove? && !op.recursive
    requires Succeeds(fs, sender, op)
    ensures TargetOf(op).Some? && Listed(fs, TargetOf(op).value) == {}
  {
    RemoveChecked(fs, sender, op);
    var path := TargetOf(op).value;
    if fs.nodes[path].kind == DIRECTORY {
      PlainKinds();
      NodePath(fs, path);
      ListIsFaithful(fs, path);
    } else {
      NoDirectoryNoChildren(fs, path);
    }
  }

  /** A remove is not recursive; a write or rename has no live directory as its target, and
      a rename keeps its name, stays in its directory, or finds no entry of the old name. */
  predicate Ordinary(fs: Fs, op: Op) {
    && (op.Remove? ==> !op.recursive)
    && (op.Write? || op.Rename? ==>
          TargetOf(op).Some? ==>
            !(Live(fs, TargetOf(op).value) && fs.nodes[TargetOf(op).value].kind == DIRECTORY))
    && (op.Rename? && TargetOf(op).Some? && Normalize(op.from, HOME).Some? ==>
          var source, target := Normalize(op.from, HOME).value, TargetOf(op).value;
          Dirname(source) == Dirname(target) || NameOf(source) == NameOf(target)
          || NameOf(source) !in Listed(fs, Dirname(target)))
  }

  /** Every ordinary operation that goes through passes the guard. */
  lemma OrdinaryOperationsKeepComplete(fs: Fs, sender: Bytes, op: Op)
    requires Tidy(fs) && Sound(fs) && Complete(fs) && Succeeds(fs, sender, op) && Ordinary(fs, op)
    ensures KeepsComplete(fs, op)
  {
    if op.Remove? {
      RemoveOnlyEmpty(fs, sender, op);
    } else if !op.Mkdir? && TargetOf(op).Some? {
      NoDirectoryNoChildren(fs, TargetOf(op).value);
    }
  }

  // ----------------------------------------------------------------------- runs

  function After(fs: Fs, sender: Bytes, ops: seq<Op>): Fs
    decreases ops
  {
    if ops == [] then fs else After(Step(fs, sender, ops[0]), sender, ops[1..])
  }

  ghost predicate AllAllowed(ops: seq<Op>) {
    forall i :: 0 <= i < |ops| ==> Allowed(ops[i]) && !OntoItself(ops[i])
  }

  /** The state every computer starts from. */
  function Initial(sender: Bytes): Fs {
    Initialized(Fs(None, map[], map[], None), ROOT_KEY, sender).fs
  }

  lemma InitialIsGood(sender: Bytes)
    ensures Tidy(Initial(sender)) && Sound(Initial(sender)) && Complete(Initial(sender))
  {
    var fs := Initial(sender);
    EmptyEntries();
    assert NodeOk(fs, ROOT);
    assert IndexOk(fs, ROOT);
    assert Listed(fs, ROOT) == {};
  }

  /** Over every run of allowed operations the indexes stay sound. */
  lemma {:induction false} RunsStaySound(fs: Fs, sender: Bytes, ops: seq<Op>)
    requires Tidy(fs) && Sound(fs) && AllAllowed(ops)
    ensures Tidy(After(fs, sender, ops)) && Sound(After(fs, sender, ops))
    decreases ops
  {
    if ops != [] {
      StepTidy(fs, sender, ops[0]);
      RunsStaySound(Step(fs, sender, ops[0]), sender, ops[1..]);
    }
  }

  /** Every state of the run is complete. */
  ghost predicate AlwaysComplete(fs: Fs, sender: Bytes, ops: seq<Op>)
    decreases ops
  {
    Complete(fs) && (ops != [] ==> AlwaysComplete(Step(fs, sender, ops[0]), sender, ops[1..]))
  }

  /** A computer used only through allowed operations has sound indexes. */
  lemma ComputersAreSound(sender: Bytes, ops: seq<Op>)
    requires AllAllowed(ops)
    ensures Tidy(After(Initial(sender), sender, ops)) && Sound(After(Initial(sender), sender, ops))
  {
    InitialIsGood(sender);
    RunsStaySound(Initial(sender), sender, ops);
  }

  predicate AlwaysOrdinary(fs: Fs, sender: Bytes, ops: seq<Op>)
    decreases ops
  {
    ops != [] ==> Ordinary(fs, ops[0]) && AlwaysOrdinary(Step(fs, sender, ops[0]), sender, ops[1..])
  }

  lemma {:induction false} OrdinaryRunsStayComplete(fs: Fs, sender: Bytes, ops: seq<Op>)
    requires Tidy(fs) && Sound(fs) && Complete(fs) && AllAllowed(ops) && AlwaysOrdinary(fs, sender, ops)
    ensures AlwaysComplete(fs, sender, ops)
    decreases ops
  {
    if ops != [] {
      var op := ops[0];
      StepTidy(fs, sender, op);
      CleanStepComplete(fs, sender, op);
      if Succeeds(fs, sender, op) {
        OrdinaryOperationsKeepComplete(fs, sender, op);
      }
      OrdinaryRunsStayComplete(Step(fs, sender, op), sender, ops[1..]);
    }
  }

  /** A computer used only through ordinary allowed operations lists every live node, from
      its first state to its last. */
  lemma ComputersAreComplete(sender: Bytes, ops: seq<Op>)
    requires AllAllowed(ops) && AlwaysOrdinary(Initial(sender), sender, ops)
    ensures AlwaysComplete(Initial(sender), sender, ops)
  {
    InitialIsGood(sender);
    OrdinaryRunsStayComplete(Initial(sender), sender, ops);
  }

  // ------------------------------------------------------------ runs of all operations

  /** Every state of the run is sound. */
  ghost predicate AlwaysSound(fs: Fs, sender: Bytes, ops: seq<Op>)
    decreases ops
  {
    Sound(fs) && (ops != [] ==> AlwaysSound(Step(fs, sender, ops[0]), sender, ops[1..]))
  }

  /** The names each operation that goes through brings in are live when it is made. */
  ghost predicate AlwaysLive(fs: Fs, sender: Bytes, ops: seq<Op>)
    decreases ops
  {
    ops != [] ==>
      (Succeeds(fs, sender, ops[0]) ==> NamesLive(fs, ops[0]))
      && AlwaysLive(Step(fs, sender, ops[0]), sender, ops[1..])
  }

  /** Whatever operations are made, the indexes are sound throughout exactly when every name
      that comes into one is live. */
  lemma {:induction false} RunsAreSoundExactly(fs: Fs, sender: Bytes, ops: seq<Op>)
    requires Shaped(fs) && Sound(fs)
    ensures AlwaysSound(fs, sender, ops) <==> AlwaysLive(fs, sender, ops)
    decreases ops
  {
    if ops != [] {
      StepSound(fs, sender, ops[0]);
      if Sound(Step(fs, sender, ops[0])) {
        RunsAreSoundExactly(Step(fs, sender, ops[0]), sender, ops[1..]);
      }
    }
  }

  lemma ComputersAreSoundExactly(sender: Bytes, ops: seq<Op>)
    ensures AlwaysSound(Initial(sender), sender, ops) <==> AlwaysLive(Initial(sender), sender, ops)
  {
    InitialIsGood(sender);
    TidyIsShaped(Initial(sender));
    RunsAreSoundExactly(Initial(sender), sender, ops);
  }
}
