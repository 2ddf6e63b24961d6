// The filesystem client: it reads nodes and indexes, computes each new index, and submits
// one service action per operation.
module LiveFileSystem {
  import opened Bytes
  import opened Text
  import opened JamFs
  import opened DirectoryIndex
  import opened ComputerService

  // ------------------------------------------------------------------- reading

  function WithoutNul(s: Bytes): Bytes {
    if s == [] then [] else (if s[0] == 0 then [] else [s[0]]) + WithoutNul(s[1..])
  }

  /** The client's `text`: decoded, NULs dropped, trimmed. */
  function Plain(s: Bytes): Bytes {
    Trim(WithoutNul(s))
  }

  datatype FileEntry = FileEntry(path: Bytes, isDirectory: bool, size: nat, mime: Bytes, updatedAt: nat)

  function EntryOf(path: Bytes, node: Node): FileEntry {
    FileEntry(if Plain(node.path) == [] then path else Plain(node.path), Plain(node.kind) == DIRECTORY,
              node.size, Plain(node.mime), node.updatedAt)
  }

  /** stat on a normalized path: None is null (missing or removed). */
  function StatNormal(fs: Fs, path: Bytes): Option<FileEntry> {
    if path !in fs.nodes || fs.nodes[path].removed then None else Some(EntryOf(path, fs.nodes[path]))
  }

  /** stat: the outer None is a thrown path error. */
  function Stat(fs: Fs, path: Bytes): Option<Option<FileEntry>> {
    match Normalize(path, HOME)
    case None => None
    case Some(normalized) => Some(StatNormal(fs, normalized))
  }

  /** The names the directory index of `path` lists. */
  function Lookup(fs: Fs, path: Bytes): seq<Bytes> {
    if path in fs.indexes then DecodeIndex(fs.indexes[path]) else []
  }

  function Child(directory: Bytes, name: Bytes): Bytes {
    (if directory == ROOT then [] else directory) + [SLASH] + name
  }

  function StatAll(fs: Fs, directory: Bytes, names: seq<Bytes>): Option<seq<FileEntry>> {
    if names == [] then Some([]) else
    match (Stat(fs, Child(directory, names[0])), StatAll(fs, directory, names[1..]))
    case (Some(first), Some(rest)) => Some((if first.Some? then [first.value] else []) + rest)
    case _ => None
  }

  /** list: the live entries of a directory's index, or a thrown path error. */
  function List(fs: Fs, path: Bytes): Option<seq<FileEntry>> {
    match Normalize(path, HOME)
    case None => None
    case Some(normalized) => StatAll(fs, normalized, Lookup(fs, normalized))
  }

  function Dirname(path: Bytes): Bytes {
    var front := BeforeLast(path, SLASH);
    if front == [] then ROOT else front
  }

  function NameOf(path: Bytes): Bytes {
    AfterLast(path, SLASH)
  }

  /** "application/octet-stream" */
  const OCTET_STREAM: Bytes := [97, 112, 112, 108, 105, 99, 97, 116, 105, 111, 110, 47,
                                111, 99, 116, 101, 116, 45, 115, 116, 114, 101, 97, 109]

  function MimeOrDefault(mime: Bytes): Bytes {
    if mime == [] then OCTET_STREAM else mime
  }

  // ---------------------------------------------------------------- operations

  datatype Op =
    | Mkdir(path: Bytes, now: nat)
    | Write(path: Bytes, mime: Bytes, size: nat, contentRoot: Bytes, now: nat)
    | Remove(path: Bytes, recursive: bool, now: nat)
    | Rename(from: Bytes, to: Bytes, now: nat)

  /** The action input's bounds, checked when the action is encoded. */
  predicate PathFits(path: Bytes) {
    |path| <= 256
  }

  function MkdirAction(fs: Fs, sender: Bytes, path: Bytes, now: nat): Option<ActionResult> {
    var parent, name := Dirname(path), if NameOf(path) == [] then ROOT else NameOf(path);
    var parentNode := StatNormal(fs, parent);
    if parentNode.None? || !parentNode.value.isDirectory then None
    else if StatNormal(fs, path).Some? then None
    else match EncodeIndex(Lookup(fs, parent) + [name])
         case None => None
         case Some(entries) =>
           if !PathFits(path) || !PathFits(parent) then None
           else Some(DirectoryMade(fs, ROOT_KEY, sender, path, parent, now, entries))
  }

  function WriteAction(fs: Fs, sender: Bytes, path: Bytes, mime: Bytes, size: nat, contentRoot: Bytes, now: nat): Option<ActionResult> {
    var parent := Dirname(path);
    var parentNode := StatNormal(fs, parent);
    if parentNode.None? || !parentNode.value.isDirectory then None
    else match EncodeIndex(Lookup(fs, parent) + [NameOf(path)])
         case None => None
         case Some(entries) =>
           if !PathFits(path) || !PathFits(parent) || |MimeOrDefault(mime)| > 96 then None
           else Some(FileWritten(fs, ROOT_KEY, sender, path, parent, MimeOrDefault(mime), size, contentRoot, now, entries))
  }

  function RemoveAction(fs: Fs, sender: Bytes, path: Bytes, recursive: bool, now: nat): Option<ActionResult> {
    if path !in fs.nodes then None
    else if Plain(fs.nodes[path].kind) == DIRECTORY && !recursive && List(fs, path) != Some([]) then None
    else match EncodeIndex(Without(Lookup(fs, Dirname(path)), NameOf(path)))
         case None => None
         case Some(entries) =>
           if !PathFits(path) then None
           else Some(NodeRemoved(fs, ROOT_KEY, sender, path, now, entries))
  }

  function RenameAction(fs: Fs, sender: Bytes, source: Bytes, target: Bytes, now: nat): Option<ActionResult> {
    if source !in fs.nodes then None
    else if Plain(fs.nodes[source].kind) == DIRECTORY then None
    else
      var fromParent, toParent := Dirname(source), Dirname(target);
      if StatNormal(fs, toParent).None? then None else
      var fromName, toName := NameOf(source), NameOf(target);
      var fromEntries := EncodeIndex(Without(Lookup(fs, fromParent), fromName));
      var toEntries := EncodeIndex(Without(Without(Lookup(fs, toParent), fromName), toName) + [toName]);
      if fromEntries.None? || toEntries.None? then None
      else if !PathFits(source) || !PathFits(target) || !PathFits(fromParent) || !PathFits(toParent) then None
      else Some(FileRenamed(fs, ROOT_KEY, sender, source, target, fromParent, toParent, now,
                            fromEntries.value, toEntries.value))
  }

  /** What an operation submits; None when the client throws first. */
  function Submit(fs: Fs, sender: Bytes, op: Op): Option<ActionResult> {
    match op
    case Mkdir(path, now) =>
      (match Normalize(path, HOME) case None => None case Some(p) => MkdirAction(fs, sender, p, now))
    case Write(path, mime, size, contentRoot, now) =>
      (match Normalize(path, HOME)
       case None => None
       case Some(p) => WriteAction(fs, sender, p, mime, size, contentRoot, now))
    case Remove(path, recursive, now) =>
      (match Normalize(path, HOME)
       case None => None
       case Some(p) => RemoveAction(fs, sender, p, recursive, now))
    case Rename(from, to, now) =>
      (match (Normalize(from, HOME), Normalize(to, HOME))
       case (Some(source), Some(target)) => RenameAction(fs, sender, source, target, now)
       case _ => None)
  }

  lemma RenameSubmits(fs: Fs, sender: Bytes, op: Op, source: Bytes, target: Bytes)
    requires op.Rename? && Normalize(op.from, HOME) == Some(source) && Normalize(op.to, HOME) == Some(target)
    ensures Submit(fs, sender, op) == RenameAction(fs, sender, source, target, op.now)
  {
  }

  /** The operation went through. */
  predicate Succeeds(fs: Fs, sender: Bytes, op: Op) {
    Submit(fs, sender, op).Some? && Submit(fs, sender, op).value.Applied?
  }

  function Step(fs: Fs, sender: Bytes, op: Op): Fs {
    if Succeeds(fs, sender, op) then Submit(fs, sender, op).value.fs else fs
  }

  // ---------------------------------------------------------------- the client

  /** Each operation leaves the service in the step's state, and reports success exactly
      when the step succeeds. */
  class Client {
    const service: Service
    const sender: Bytes

    constructor (service: Service, sender: Bytes)
      ensures this.service == service && this.sender == sender
    {
      this.service, this.sender := service, sender;
    }

    ghost predicate Stepped(before: Fs, op: Op, ok: bool)
      reads service
    {
      ok == Succeeds(before, sender, op) && service.State() == Step(before, sender, op)
    }

    method MakeDirectory(input: Bytes, now: nat) returns (ok: bool)
      modifies service
      ensures Stepped(old(service.State()), Mkdir(input, now), ok)
    {
      var normalized := NormalizePath(input, HOME);
      if normalized.None? { return false; }
      var path := normalized.value;
      var parent, name := Dirname(path), if NameOf(path) == [] then ROOT else NameOf(path);
      var fs := service.State();
      var parentNode := StatNormal(fs, parent);
      if parentNode.None? || !parentNode.value.isDirectory { return false; }
      if StatNormal(fs, path).Some? { return false; }
      var parentEntries := EncodeIndex(Lookup(fs, parent) + [name]);
      if parentEntries.None? || !PathFits(path) || !PathFits(parent) { return false; }
      var abort := service.Mkdir(ROOT_KEY, sender, path, parent, now, parentEntries.value);
      ok := abort.None?;
    }

    method WriteContent(input: Bytes, mime: Bytes, size: nat, contentRoot: Bytes, now: nat) returns (ok: bool)
      modifies service
      ensures Stepped(old(service.State()), Write(input, mime, size, contentRoot, now), ok)
    {
      var normalized := NormalizePath(input, HOME);
      if normalized.None? { return false; }
      var path := normalized.value;
      var parent := Dirname(path);
      var fs := service.State();
      var parentNode := StatNormal(fs, parent);
      if parentNode.None? || !parentNode.value.isDirectory { return false; }
      var parentEntries := EncodeIndex(Lookup(fs, parent) + [NameOf(path)]);
      var stored := MimeOrDefault(mime);
      if parentEntries.None? || !PathFits(path) || !PathFits(parent) || |stored| > 96 { return false; }
      var abort := service.WriteFile(ROOT_KEY, sender, path, parent, stored, size, contentRoot, now, parentEntries.value);
      ok := abort.None?;
    }

    method RemoveEntry(input: Bytes, recursive: bool, now: nat) returns (ok: bool)
      modifies service
      ensures Stepped(old(service.State()), Remove(input, recursive, now), ok)
    {
      var normalized := NormalizePath(input, HOME);
      if normalized.None? { return false; }
      var path := normalized.value;
      var fs := service.State();
      if path !in fs.nodes { return false; }
      if Plain(fs.nodes[path].kind) == DIRECTORY && !recursive {
        var listed := List(fs, path);
        if listed != Some([]) { return false; }
      }
      var parentEntries := EncodeIndex(Without(Lookup(fs, Dirname(path)), NameOf(path)));
      if parentEntries.None? || !PathFits(path) { return false; }
      var abort := service.RemoveNode(ROOT_KEY, sender, path, now, parentEntries.value);
      ok := abort.None?;
    }

    method RenameEntry(from: Bytes, to: Bytes, now: nat) returns (ok: bool)
      modifies service
      ensures Stepped(old(service.State()), Rename(from, to, now), ok)
    {
      var fromPath := NormalizePath(from, HOME);
      if fromPath.None? { return false; }
      var toPath := NormalizePath(to, HOME);
      if toPath.None? { return false; }
      RenameSubmits(service.State(), sender, Rename(from, to, now), fromPath.value, toPath.value);
      ok := RenameNormal(fromPath.value, toPath.value, now);
    }

    /** The index a rename leaves behind. */
    method IndexWithout(fs: Fs, parent: Bytes, name: Bytes) returns (entries: Option<Bytes>)
      ensures entries == EncodeIndex(Without(Lookup(fs, parent), name))
    {
      entries := EncodeIndex(Without(Lookup(fs, parent), name));
    }

    /** The index a rename brings its new name into. */
    method IndexWith(fs: Fs, parent: Bytes, fromName: Bytes, toName: Bytes) returns (entries: Option<Bytes>)
      ensures entries == EncodeIndex(Without(Without(Lookup(fs, parent), fromName), toName) + [toName])
    {
      var names := Without(Without(Lookup(fs, parent), fromName), toName);
      names := names + [toName];
      entries := EncodeIndex(names);
    }

    method RenameNormal(source: Bytes, target: Bytes, now: nat) returns (ok: bool)
      modifies service
      ensures var action := RenameAction(old(service.State()), sender, source, target, now);
              ok == (action.Some? && action.value.Applied?)
              && service.State() == if ok then action.value.fs else old(service.State())
    {
      var fs := service.State();
      if source !in fs.nodes || Plain(fs.nodes[source].kind) == DIRECTORY { return false; }
      var fromParent, toParent := Dirname(source), Dirname(target);
      if StatNormal(fs, toParent).None? { return false; }
      var fromEntries := IndexWithout(fs, fromParent, NameOf(source));
      var toEntries := IndexWith(fs, toParent, NameOf(source), NameOf(target));
      if fromEntries.None? || toEntries.None? { return false; }
      if !PathFits(source) || !PathFits(target) || !PathFits(fromParent) || !PathFits(toParent) { return false; }
      var abort := service.RenameFile(ROOT_KEY, sender, source, target, fromParent, toParent, now,
                                      fromEntries.value, toEntries.value);
      ok := abort.None?;
    }
  }
}
