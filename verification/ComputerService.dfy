// The Computer Service's filesystem actions: nodes by path, and one name index per
// directory, updated together.
module ComputerService {
  import opened Bytes

  const ROOT_PATH: Bytes := [47]
  const ROOT_KEY: Bytes := [0]
  /** "directory" */
  const DIRECTORY: Bytes := [100, 105, 114, 101, 99, 116, 111, 114, 121]
  /** "file" */
  const FILE: Bytes := [102, 105, 108, 101]
  /** "inode/directory" */
  const DIRECTORY_MIME: Bytes := [105, 110, 111, 100, 101, 47, 100, 105, 114, 101, 99, 116, 111, 114, 121]

  /** new Uint8Array(n) */
  function Zeros(n: nat): Bytes {
    if n == 0 then [] else [0] + Zeros(n - 1)
  }

  datatype Node = Node(path: Bytes, kind: Bytes, parent: Bytes, mime: Bytes, size: nat,
                       contentRoot: Bytes, removed: bool, updatedAt: nat)

  datatype Manifest = Manifest(index: Bytes, entries: Bytes, publishedAt: nat, published: bool)

  /** The state maps the filesystem actions read and write. */
  datatype Fs = Fs(owner: Option<Bytes>, nodes: map<Bytes, Node>, indexes: map<Bytes, Bytes>,
                   manifest: Option<Manifest>)

  datatype ActionResult = Applied(fs: Fs) | Aborted(code: nat)

  predicate LiveDirectory(fs: Fs, path: Bytes) {
    path in fs.nodes && !fs.nodes[path].removed && |fs.nodes[path].kind| == 9
  }

  /** requireSender: the abort code, if any. */
  function SenderAbort(fs: Fs, key: Bytes, sender: Bytes): Option<nat> {
    if key != ROOT_KEY then Some(1)
    else if fs.owner.None? then Some(2)
    else if !(|fs.owner.value| == |sender| == 32 && fs.owner.value == sender) then Some(3)
    else None
  }

  function DirectoryNode(path: Bytes, parent: Bytes, updatedAt: nat): Node {
    Node(path, DIRECTORY, parent, DIRECTORY_MIME, 0, Zeros(32), false, updatedAt)
  }

  function Initialized(fs: Fs, key: Bytes, sender: Bytes): ActionResult {
    if key != ROOT_KEY then Aborted(1)
    else if fs.owner.Some? then Aborted(4)
    else Applied(Fs(Some(sender), fs.nodes[ROOT_PATH := DirectoryNode(ROOT_PATH, [], 0)],
                    fs.indexes[ROOT_PATH := []], Some(Manifest([], [], 0, false))))
  }

  function FileWritten(fs: Fs, key: Bytes, sender: Bytes, path: Bytes, parent: Bytes, mime: Bytes, size: nat,
                       contentRoot: Bytes, updatedAt: nat, parentEntries: Bytes): ActionResult {
    if SenderAbort(fs, key, sender).Some? then Aborted(SenderAbort(fs, key, sender).value)
    else if path == [] || path[0] != 47 || |path| == 1 then Aborted(8)
    else if !LiveDirectory(fs, parent) then Aborted(9)
    else Applied(fs.(nodes := fs.nodes[path := Node(path, FILE, parent, mime, size, contentRoot, false, updatedAt)],
                     indexes := fs.indexes[parent := parentEntries]))
  }

  function DirectoryMade(fs: Fs, key: Bytes, sender: Bytes, path: Bytes, parent: Bytes, updatedAt: nat,
                         parentEntries: Bytes): ActionResult {
    if SenderAbort(fs, key, sender).Some? then Aborted(SenderAbort(fs, key, sender).value)
    else if path == [] || path[0] != 47 || |path| == 1 then Aborted(8)
    else if !LiveDirectory(fs, parent) then Aborted(9)
    else Applied(fs.(nodes := fs.nodes[path := DirectoryNode(path, parent, updatedAt)],
                     indexes := fs.indexes[path := []][parent := parentEntries]))
  }

  function NodeRemoved(fs: Fs, key: Bytes, sender: Bytes, path: Bytes, updatedAt: nat, parentEntries: Bytes): ActionResult {
    if SenderAbort(fs, key, sender).Some? then Aborted(SenderAbort(fs, key, sender).value)
    else if path !in fs.nodes || fs.nodes[path].removed || |fs.nodes[path].path| == 1 then Aborted(6)
    else Applied(fs.(nodes := fs.nodes[path := fs.nodes[path].(removed := true, updatedAt := updatedAt)],
                     indexes := fs.indexes[fs.nodes[path].parent := parentEntries]))
  }

  function FileRenamed(fs: Fs, key: Bytes, sender: Bytes, from: Bytes, to: Bytes, fromParent: Bytes, toParent: Bytes,
                       updatedAt: nat, fromEntries: Bytes, toEntries: Bytes): ActionResult {
    if SenderAbort(fs, key, sender).Some? then Aborted(SenderAbort(fs, key, sender).value)
    else if from !in fs.nodes || fs.nodes[from].removed || |fs.nodes[from].kind| != 4
            || fs.nodes[from].parent != fromParent then Aborted(6)
    else if !LiveDirectory(fs, toParent) then Aborted(9)
    else
      var current := fs.nodes[from];
      var moved := current.(path := to, parent := toParent, removed := false, updatedAt := updatedAt);
      Applied(fs.(nodes := fs.nodes[to := moved][from := current.(removed := true, updatedAt := updatedAt)],
                  indexes := fs.indexes[fromParent := fromEntries][toParent := toEntries]))
  }

  function SitePublished(fs: Fs, key: Bytes, sender: Bytes, index: Bytes, entries: Bytes, publishedAt: nat): ActionResult {
    if SenderAbort(fs, key, sender).Some? then Aborted(SenderAbort(fs, key, sender).value)
    else Applied(fs.(manifest := Some(Manifest(index, entries, publishedAt, true))))
  }

  // -------------------------------------------------------------- the service

  /** The state maps as fields, and the actions as methods: each either applies as its
      specification says, or aborts and changes nothing. */
  class Service {
    var owner: Option<Bytes>
    var nodes: map<Bytes, Node>
    var indexes: map<Bytes, Bytes>
    var manifest: Option<Manifest>

    constructor ()
      ensures State() == Fs(None, map[], map[], None)
    {
      owner, nodes, indexes, manifest := None, map[], map[], None;
    }

    function State(): Fs
      reads this
    {
      Fs(owner, nodes, indexes, manifest)
    }

    ghost predicate Did(before: Fs, result: ActionResult, abort: Option<nat>)
      reads this
    {
      match result
      case Applied(fs) => abort.None? && State() == fs
      case Aborted(code) => abort == Some(code) && State() == before
    }

    method SameBytes(left: Bytes, right: Bytes) returns (same: bool)
      ensures same == (left == right)
    {
      if |left| != |right| { return false; }
      for index := 0 to |left|
        invariant left[..index] == right[..index]
      {
        if left[index] != right[index] { return false; }
      }
      assert left == left[..|left|] && right == right[..|right|];
      return true;
    }

    method RequireSender(key: Bytes, sender: Bytes) returns (abort: Option<nat>)
      ensures abort == SenderAbort(State(), key, sender)
      ensures abort == None <==> key == [0] && owner.Some? && |owner.value| == |sender| == 32 && owner.value == sender
      ensures abort == Some(1) <==> key != [0]
      ensures abort == Some(2) <==> key == [0] && owner.None?
      ensures abort == Some(3) <==> key == [0] && owner.Some?
                                    && !(|owner.value| == |sender| == 32 && owner.value == sender)
    {
      if !(|key| == 1 && key[0] == 0) { return Some(1); }
      if owner.None? { return Some(2); }
      var same := SameBytes(owner.value, sender);
      if |owner.value| != 32 || |sender| != 32 || !same { return Some(3); }
      return None;
    }

    method Initialize(key: Bytes, sender: Bytes) returns (abort: Option<nat>)
      modifies this
      ensures Did(old(State()), Initialized(old(State()), key, sender), abort)
    {
      if !(|key| == 1 && key[0] == 0) { return Some(1); }
      if owner.Some? { return Some(4); }
      owner := Some(sender);
      manifest := Some(Manifest([], [], 0, false));
      indexes := indexes[ROOT_PATH := []];
      nodes := nodes[ROOT_PATH := DirectoryNode(ROOT_PATH, [], 0)];
      return None;
    }

    method WriteFile(key: Bytes, sender: Bytes, path: Bytes, parent: Bytes, mime: Bytes, size: nat,
                     contentRoot: Bytes, updatedAt: nat, parentEntries: Bytes) returns (abort: Option<nat>)
      modifies this
      ensures Did(old(State()), FileWritten(old(State()), key, sender, path, parent, mime, size, contentRoot,
                                            updatedAt, parentEntries), abort)
    {
      abort := RequireSender(key, sender);
      if abort.Some? { return; }
      if |path| == 0 || path[0] != 47 || |path| == 1 { return Some(8); }
      if parent !in nodes || nodes[parent].removed || |nodes[parent].kind| != 9 { return Some(9); }
      nodes := nodes[path := Node(path, FILE, parent, mime, size, contentRoot, false, updatedAt)];
      indexes := indexes[parent := parentEntries];
    }

    method Mkdir(key: Bytes, sender: Bytes, path: Bytes, parent: Bytes, updatedAt: nat, parentEntries: Bytes)
      returns (abort: Option<nat>)
      modifies this
      ensures Did(old(State()), DirectoryMade(old(State()), key, sender, path, parent, updatedAt, parentEntries), abort)
    {
      abort := RequireSender(key, sender);
      if abort.Some? { return; }
      if |path| == 0 || path[0] != 47 || |path| == 1 { return Some(8); }
      if parent !in nodes || nodes[parent].removed || |nodes[parent].kind| != 9 { return Some(9); }
      nodes := nodes[path := DirectoryNode(path, parent, updatedAt)];
      indexes := indexes[path := []];
      indexes := indexes[parent := parentEntries];
    }

    method RemoveNode(key: Bytes, sender: Bytes, path: Bytes, updatedAt: nat, parentEntries: Bytes)
      returns (abort: Option<nat>)
      modifies this
      ensures Did(old(State()), NodeRemoved(old(State()), key, sender, path, updatedAt, parentEntries), abort)
    {
      abort := RequireSender(key, sender);
      if abort.Some? { return; }
      if path !in nodes || nodes[path].removed || |nodes[path].path| == 1 { return Some(6); }
      var current := nodes[path];
      nodes := nodes[path := current.(removed := true, updatedAt := updatedAt)];
      indexes := indexes[current.parent := parentEntries];
    }

    method RenameFile(key: Bytes, sender: Bytes, from: Bytes, to: Bytes, fromParent: Bytes, toParent: Bytes,
                      updatedAt: nat, fromEntries: Bytes, toEntries: Bytes) returns (abort: Option<nat>)
      modifies this
      ensures Did(old(State()), FileRenamed(old(State()), key, sender, from, to, fromParent, toParent, updatedAt,
                                            fromEntries, toEntries), abort)
    {
      abort := RequireSender(key, sender);
      if abort.Some? { return; }
      if from !in nodes || nodes[from].removed || |nodes[from].kind| != 4 { return Some(6); }
      var current := nodes[from];
      var sameParent := SameBytes(current.parent, fromParent);
      if !sameParent { return Some(6); }
      if toParent !in nodes || nodes[toParent].removed || |nodes[toParent].kind| != 9 { return Some(9); }
      nodes := nodes[to := current.(path := to, parent := toParent, removed := false, updatedAt := updatedAt)];
      nodes := nodes[from := current.(removed := true, updatedAt := updatedAt)];
      indexes := indexes[fromParent := fromEntries];
      indexes := indexes[toParent := toEntries];
    }

    method PublishSite(key: Bytes, sender: Bytes, index: Bytes, entries: Bytes, publishedAt: nat)
      returns (abort: Option<nat>)
      modifies this
      ensures Did(old(State()), SitePublished(old(State()), key, sender, index, entries, publishedAt), abort)
    {
      abort := RequireSender(key, sender);
      if abort.Some? { return; }
      manifest := Some(Manifest(index, entries, publishedAt, true));
    }
  }
}
