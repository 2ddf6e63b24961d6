// When an operation keeps every live node listed, over all operations.
module FsComplete {
  import opened Bytes
  import opened DirectoryIndex
  import opened ComputerService
  import opened LiveFileSystem
  import opened FsInvariant
  import opened FsSound
  import opened FsRuns
  import opened JamFs

  // ----------------------------------------------------- names no index can list

  /** The operation brings in a name that no index can list. */
  ghost predicate AddsUnclean(op: Op) {
    && !op.Remove? && !OntoItself(op) && TargetOf(op).Some? && TargetOf(op).value != ROOT
    && !CleanName(NameOf(TargetOf(op).value))
  }

  lemma UncleanUnlisted(fs: Fs, path: Bytes)
    requires Shaped(fs) && Live(fs, path) && path != ROOT && !CleanName(NameOf(path))
    ensures !Complete(fs)
  {
    ShapedLookup(fs, Dirname(path));
    assert !CompleteAt(fs, path);
  }

  /** An operation that brings in such a name and goes through always breaks completeness. */
  lemma UncleanNeverComplete(fs: Fs, sender: Bytes, op: Op)
    requires Shaped(fs) && AddsUnclean(op) && Succeeds(fs, sender, op)
    ensures !Complete(Step(fs, sender, op))
  {
    var target := TargetOf(op).value;
    TargetIsNormal(op);
    match op
    case Mkdir(_, now) =>
      var node, entries := MkdirAddsNode(fs, sender, target, now);
      AddedShaped(fs, target, node, entries, true);
      UncleanUnlisted(Added(fs, target, node, entries, true), target);
    case Write(_, _, _, _, _) =>
      var node, entries := WriteAddsNode(fs, sender, target, op);
      AddedShaped(fs, target, node, entries, false);
      UncleanUnlisted(Added(fs, target, node, entries, false), target);
    case Rename(from, _, now) =>
      var source := Normalize(from, HOME).value;
      var fromEntries, toEntries := RenameMovesNode(fs, sender, source, target, now);
      MovedShaped(fs, source, target, fromEntries, toEntries, now);
      LiveMoved(fs, source, target, fromEntries, toEntries, now, target);
      UncleanUnlisted(Moved(fs, source, target, fromEntries, toEntries, now), target);
  }

  // -------------------------------------------------------- a rename to the root

  /** Under a root that is a file no node can be complete. */
  lemma {:induction false} NothingUnderFile(fs: Fs, path: Bytes)
    requires Shaped(fs) && fs.nodes[ROOT].kind == FILE && Live(fs, path) && path != ROOT
    ensures !Complete(fs)
    decreases |path|
  {
    assert NodeShaped(fs, path);
    TidyParts(path);
    if CompleteAt(fs, path) {
      NothingUnderFile(fs, Dirname(path));
    }
  }

  /** A live node has a listed ancestor in the root. */
  lemma {:induction false} RootLists(fs: Fs, path: Bytes)
    requires Tidy(fs) && Complete(fs) && Live(fs, path) && path != ROOT
    ensures Listed(fs, ROOT) != {}
    decreases |path|
  {
    assert NodeOk(fs, path) && CompleteAt(fs, path);
    TidyParts(path);
    if Dirname(path) != ROOT {
      RootLists(fs, Dirname(path));
    }
  }

  /** Only a file that is alone on the computer. */
  ghost predicate Alone(fs: Fs, source: Bytes) {
    forall path :: Live(fs, path) ==> path == ROOT || path == source
  }

  lemma {:induction false} OnlySource(fs: Fs, source: Bytes, path: Bytes)
    requires Tidy(fs) && Complete(fs) && Live(fs, source) && fs.nodes[source].kind == FILE
    requires MoveGuard(fs, source, ROOT) && source != ROOT && Live(fs, path) && path != ROOT
    ensures path == source
    decreases |path|
  {
    RootLists(fs, source);
    assert NodeOk(fs, source) && NodeOk(fs, path) && CompleteAt(fs, path);
    TidyParts(source);
    TidyParts(path);
    if Dirname(path) != ROOT {
      OnlySource(fs, source, Dirname(path));
    }
  }

  lemma GuardMeansAlone(fs: Fs, source: Bytes)
    requires Tidy(fs) && Sound(fs) && Complete(fs)
    requires Live(fs, source) && fs.nodes[source].kind == FILE && source != ROOT
    ensures MoveGuard(fs, source, ROOT) <==> Alone(fs, source)
  {
    if MoveGuard(fs, source, ROOT) {
      forall path | Live(fs, path) ensures path == ROOT || path == source {
        if path != ROOT { OnlySource(fs, source, path); }
      }
    }
    if Alone(fs, source) {
      assert NodeOk(fs, source) && CompleteAt(fs, source);
      TidyParts(source);
      assert Dirname(source) == ROOT;
      forall name | name in Listed(fs, ROOT) ensures name == NameOf(source) {
        ListedChild(fs, ROOT, name);
        assert Live(fs, Child(ROOT, name));
      }
      assert Dirname(ROOT) == ROOT;
    }
  }

  lemma RootMoved(fs: Fs, source: Bytes, fromEntries: Bytes, toEntries: Bytes, now: nat)
    requires Tidy(fs) && Sound(fs) && Complete(fs) && Moves(fs, source, ROOT, fromEntries, toEntries)
    requires fs.nodes[source].kind == FILE
    ensures Complete(Moved(fs, source, ROOT, fromEntries, toEntries, now)) <==> MoveGuard(fs, source, ROOT)
  {
    var fs' := Moved(fs, source, ROOT, fromEntries, toEntries, now);
    assert NodeOk(fs, ROOT);
    MovedShaped(fs, source, ROOT, fromEntries, toEntries, now);
    GuardMeansAlone(fs, source);
    forall path ensures Live(fs', path) <==> path != source && (path == ROOT || Live(fs, path)) {
      LiveMoved(fs, source, ROOT, fromEntries, toEntries, now, path);
    }
    if !Alone(fs, source) {
      var path :| Live(fs, path) && path != ROOT && path != source;
      NothingUnderFile(fs', path);
    } else {
      assert forall path :: CompleteAt(fs', path);
    }
  }

  lemma RootRenamed(fs: Fs, sender: Bytes, op: Op)
    requires Tidy(fs) && Sound(fs) && Complete(fs) && op.Rename? && Succeeds(fs, sender, op)
    requires TargetOf(op) == Some(ROOT)
    ensures Normalize(op.from, HOME).Some?
    ensures Complete(Step(fs, sender, op)) <==> MoveGuard(fs, Normalize(op.from, HOME).value, ROOT)
  {
    var source := Normalize(op.from, HOME).value;
    TidyIsShaped(fs);
    TargetIsNormal(op);
    var fromEntries, toEntries := RenameMovesNode(fs, sender, source, ROOT, op.now);
    var _, _ := RenameTaken(fs, sender, source, ROOT, op.now);
    assert NodeOk(fs, source);
    RootMoved(fs, source, fromEntries, toEntries, op.now);
  }

  // -------------------------------------------------------------- every operation

  /** What a caller can check before the call: an index can list the name, and nothing is
      listed under the target or unlisted beside it. */
  ghost predicate CompleteGuard(fs: Fs, op: Op) {
    (op.Remove? || AddsCleanName(TargetOf(op))) && KeepsComplete(fs, op)
  }

  lemma TidyNamesAreClean(fs: Fs, sender: Bytes, op: Op)
    requires Tidy(fs) && op.Rename? && Succeeds(fs, sender, op) && OntoItself(op)
    ensures AddsCleanName(TargetOf(op))
  {
    assert NodeOk(fs, TargetOf(op).value);
  }

  /** Over every operation: completeness survives exactly when it fails or passes the guard. */
  lemma StepComplete(fs: Fs, sender: Bytes, op: Op)
    requires Tidy(fs) && Sound(fs) && Complete(fs)
    ensures Complete(Step(fs, sender, op)) <==> (Succeeds(fs, sender, op) ==> CompleteGuard(fs, op))
  {
    if Succeeds(fs, sender, op) {
      if Allowed(op) {
        CleanStepComplete(fs, sender, op);
      } else if TargetOf(op) == Some(ROOT) {
        RootRenamed(fs, sender, op);
      } else {
        if OntoItself(op) { TidyNamesAreClean(fs, sender, op); }
        TidyIsShaped(fs);
        UncleanNeverComplete(fs, sender, op);
      }
    }
  }

  // ----------------------------------------------------------------------- runs

  /** A rename is to another path, and not to the root's. */
  ghost predicate Proper(op: Op) {
    op.Rename? ==> !OntoItself(op) && TargetOf(op) != Some(ROOT)
  }

  /** Every operation that goes through passes the guard when it is made. */
  ghost predicate AlwaysGuarded(fs: Fs, sender: Bytes, ops: seq<Op>)
    decreases ops
  {
    ops != [] ==>
      (Succeeds(fs, sender, ops[0]) ==> CompleteGuard(fs, ops[0]))
      && AlwaysGuarded(Step(fs, sender, ops[0]), sender, ops[1..])
  }

  lemma GuardedStaysGood(fs: Fs, sender: Bytes, op: Op)
    requires Tidy(fs) && Sound(fs) && Proper(op) && (Succeeds(fs, sender, op) ==> CompleteGuard(fs, op))
    ensures Tidy(Step(fs, sender, op)) && Sound(Step(fs, sender, op))
  {
    if Succeeds(fs, sender, op) {
      StepTidy(fs, sender, op);
    }
  }

  /** Over every run from a good state, whatever names come in, the indexes are complete
      throughout exactly when every operation passes the guard. */
  lemma {:induction false} RunsStayComplete(fs: Fs, sender: Bytes, ops: seq<Op>)
    requires Tidy(fs) && Sound(fs) && Complete(fs) && forall i :: 0 <= i < |ops| ==> Proper(ops[i])
    ensures AlwaysComplete(fs, sender, ops) <==> AlwaysGuarded(fs, sender, ops)
    decreases ops
  {
    if ops != [] {
      StepComplete(fs, sender, ops[0]);
      if Complete(Step(fs, sender, ops[0])) {
        GuardedStaysGood(fs, sender, ops[0]);
        RunsStayComplete(Step(fs, sender, ops[0]), sender, ops[1..]);
      }
    }
  }
}
