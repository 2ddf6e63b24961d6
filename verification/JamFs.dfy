// JAM FS paths and content chunks.
module JamFs {
  import opened Bytes
  import opened Text

  const MAX_PATH_LENGTH := 512
  const MAX_COMPONENT_LENGTH := 128
  const ROOT: Bytes := [SLASH]
  const DOT: Bytes := [46]
  const DOT_DOT: Bytes := [46, 46]
  /** "/home/user" */
  const HOME: Bytes := [47, 104, 111, 109, 101, 47, 117, 115, 101, 114]

  // -------------------------------------------------------------------- paths

  /** What the component loop makes of `pieces` on top of `stack`. */
  function Resolve(pieces: seq<Bytes>, stack: seq<Bytes>): Option<seq<Bytes>>
    decreases pieces
  {
    if pieces == [] then Some(stack)
    else if pieces[0] == [] || pieces[0] == DOT then Resolve(pieces[1..], stack)
    else if pieces[0] == DOT_DOT then
      if stack == [] then None else Resolve(pieces[1..], stack[..|stack| - 1])
    else if |pieces[0]| > MAX_COMPONENT_LENGTH then None
    else Resolve(pieces[1..], stack + [pieces[0]])
  }

  function PathOf(parts: seq<Bytes>): Bytes {
    ROOT + Join(parts, SLASH)
  }

  function Raw(input: Bytes, cwd: Bytes): Bytes {
    if input != [] && input[0] == SLASH then input else cwd + [SLASH] + input
  }

  function Normalize(input: Bytes, cwd: Bytes): Option<Bytes>
    decreases if input != [] then 0 else if cwd != [] then 1 else 2
  {
    if 0 in input then None
    else if input == [] then Normalize(cwd, HOME)
    else match Resolve(Split(Raw(input, cwd), SLASH), [])
         case None => None
         case Some(parts) => if |PathOf(parts)| > MAX_PATH_LENGTH then None else Some(PathOf(parts))
  }

  /** normalizePath. */
  method NormalizePath(input: Bytes, cwd: Bytes) returns (r: Option<Bytes>)
    ensures r == Normalize(input, cwd)
    decreases if input != [] then 0 else if cwd != [] then 1 else 2
  {
    if 0 in input {
      return None;
    }
    if input == [] {
      r := NormalizePath(cwd, HOME);
      return;
    }
    var raw := if input[0] == SLASH then input else cwd + [SLASH] + input;
    var parts: seq<Bytes> := [];
    var pieces := Split(raw, SLASH);
    for i := 0 to |pieces|
      invariant Resolve(pieces[i..], parts) == Resolve(pieces, [])
    {
      var part := pieces[i];
      assert pieces[i..][0] == part && pieces[i..][1..] == pieces[i + 1..];
      if part == [] || part == DOT { continue; }
      if part == DOT_DOT {
        if parts == [] { return None; }
        parts := parts[..|parts| - 1];
      } else {
        if |part| > MAX_COMPONENT_LENGTH { return None; }
        parts := parts + [part];
      }
    }
    var result := ROOT + Join(parts, SLASH);
    if |result| > MAX_PATH_LENGTH { return None; }
    return Some(result);
  }

  // ------------------------------------------------------------- normal paths

  predicate Component(part: Bytes) {
    && part != [] && part != DOT && part != DOT_DOT
    && SLASH !in part && |part| <= MAX_COMPONENT_LENGTH
  }

  predicate AllComponents(parts: seq<Bytes>) {
    forall i :: 0 <= i < |parts| ==> Component(parts[i])
  }

  /** Absolute, within both length limits, and no empty, "." or ".." component. */
  ghost predicate NormalForm(path: Bytes) {
    |path| <= MAX_PATH_LENGTH && exists parts :: AllComponents(parts) && path == PathOf(parts)
  }

  lemma {:induction false} ResolveKeepsComponents(pieces: seq<Bytes>, stack: seq<Bytes>)
    requires Free(pieces, SLASH) && AllComponents(stack)
    ensures Resolve(pieces, stack).Some? ==> AllComponents(Resolve(pieces, stack).value)
    decreases pieces
  {
    if pieces != [] {
      assert SLASH !in pieces[0];
      if pieces[0] == [] || pieces[0] == DOT {
        ResolveKeepsComponents(pieces[1..], stack);
      } else if pieces[0] == DOT_DOT {
        if stack != [] { ResolveKeepsComponents(pieces[1..], stack[..|stack| - 1]); }
      } else if |pieces[0]| <= MAX_COMPONENT_LENGTH {
        ResolveKeepsComponents(pieces[1..], stack + [pieces[0]]);
      }
    }
  }

  /** Everything normalizePath accepts comes back in normal form. */
  lemma NormalizedIsNormal(input: Bytes, cwd: Bytes)
    ensures Normalize(input, cwd).Some? ==> NormalForm(Normalize(input, cwd).value)
    decreases if input != [] then 0 else if cwd != [] then 1 else 2
  {
    if 0 !in input {
      if input == [] {
        NormalizedIsNormal(cwd, HOME);
      } else {
        var pieces := Split(Raw(input, cwd), SLASH);
        SplitFree(Raw(input, cwd), SLASH);
        ResolveKeepsComponents(pieces, []);
        if Normalize(input, cwd).Some? {
          var parts := Resolve(pieces, []).value;
          assert AllComponents(parts) && Normalize(input, cwd).value == PathOf(parts);
        }
      }
    }
  }

  lemma {:induction false} ResolveWithout(pieces: seq<Bytes>, stack: seq<Bytes>, b: Byte)
    requires Free(pieces, b) && Free(stack, b)
    ensures Resolve(pieces, stack).Some? ==> Free(Resolve(pieces, stack).value, b)
    decreases pieces
  {
    if pieces != [] {
      assert b !in pieces[0];
      if pieces[0] == [] || pieces[0] == DOT {
        ResolveWithout(pieces[1..], stack, b);
      } else if pieces[0] == DOT_DOT {
        if stack != [] { ResolveWithout(pieces[1..], stack[..|stack| - 1], b); }
      } else if |pieces[0]| <= MAX_COMPONENT_LENGTH {
        ResolveWithout(pieces[1..], stack + [pieces[0]], b);
      }
    }
  }

  /** With a NUL-free working directory, no accepted path holds a NUL. */
  lemma NormalizedNulFree(input: Bytes, cwd: Bytes)
    requires 0 !in cwd
    ensures Normalize(input, cwd).Some? ==> 0 !in Normalize(input, cwd).value
    decreases if input != [] then 0 else if cwd != [] then 1 else 2
  {
    if 0 !in input {
      if input == [] {
        NormalizedNulFree(cwd, HOME);
      } else {
        var raw := Raw(input, cwd);
        SplitWithout(raw, SLASH, 0);
        ResolveWithout(Split(raw, SLASH), [], 0);
        if Resolve(Split(raw, SLASH), []).Some? {
          JoinWithout(Resolve(Split(raw, SLASH), []).value, SLASH, 0);
        }
      }
    }
  }

  lemma {:induction false} ResolveComponents(parts: seq<Bytes>, stack: seq<Bytes>)
    requires AllComponents(parts)
    ensures Resolve(parts, stack) == Some(stack + parts)
    decreases parts
  {
    if parts == [] {
      assert stack + parts == stack;
    } else {
      assert Component(parts[0]);
      ResolveComponents(parts[1..], stack + [parts[0]]);
      assert stack + [parts[0]] + parts[1..] == stack + parts;
    }
  }

  lemma ComponentsFree(parts: seq<Bytes>)
    requires AllComponents(parts)
    ensures Free(parts, SLASH)
  {
    forall i | 0 <= i < |parts| ensures SLASH !in parts[i] {
      assert Component(parts[i]);
    }
  }

  lemma ResolvePath(parts: seq<Bytes>)
    requires AllComponents(parts)
    ensures Resolve(Split(PathOf(parts), SLASH), []) == Some(parts)
  {
    var path := PathOf(parts);
    assert path[1..] == Join(parts, SLASH);
    ComponentsFree(parts);
    if parts == [] {
      var empty: Bytes := [];
      assert path[1..] == empty && Split(path, SLASH) == [empty, empty];
      assert [empty, empty][1..] == [empty] && [empty][1..] == [];
      assert Resolve([empty], []) == Some([]);
    } else {
      SplitOfJoin(parts, SLASH);
      assert Split(path, SLASH) == [[]] + parts;
      assert ([[]] + parts)[1..] == parts;
      ResolveComponents(parts, []);
      assert [] + parts == parts;
    }
  }

  /** Normalizing a normal path returns it, unless it holds a NUL (which a working directory
      can bring in: only the input is checked for it). */
  lemma NormalizeIsIdempotent(path: Bytes, cwd: Bytes)
    requires NormalForm(path)
    ensures Normalize(path, cwd) == Some(path) <==> 0 !in path
  {
    var parts :| AllComponents(parts) && path == PathOf(parts);
    ResolvePath(parts);
  }

  /** "x" under a working directory that holds a NUL: the result cannot be normalized again. */
  lemma NulWorkingDirectory(input: Bytes, cwd: Bytes)
    requires input == [120] && cwd == ROOT + [0]
    ensures var r := Normalize(input, cwd);
            r == Some(ROOT + [0] + [SLASH] + [120]) && Normalize(r.value, cwd).None? && NormalForm(r.value)
  {
    var parts := [[0], [120]];
    assert Join([[120]], SLASH) == [120] && parts[1..] == [[120]];
    assert PathOf(parts) == ROOT + [0] + [SLASH] + [120] == Raw(input, cwd);
    assert AllComponents(parts);
    ResolvePath(parts);
  }

  // --------------------------------------------------------- parent, name, join

  function ParentPath(path: Bytes): Option<Bytes> {
    match Normalize(path, HOME)
    case None => None
    case Some(normalized) =>
      var front := BeforeLast(normalized, SLASH);
      Some(if front == [] then ROOT else front)
  }

  function Basename(path: Bytes): Option<Bytes> {
    match Normalize(path, HOME)
    case None => None
    case Some(normalized) =>
      Some(if normalized == ROOT then ROOT else AfterLast(normalized, SLASH))
  }

  function JoinPath(base: Bytes, child: Bytes): Option<Bytes> {
    Normalize(base + [SLASH] + child, HOME)
  }

  /** A normal path other than "/" is its front, a slash and its last component. */
  lemma PathEnds(parts: seq<Bytes>)
    requires AllComponents(parts) && parts != []
    ensures var n := |parts| - 1;
            var front := if n == 0 then [] else PathOf(parts[..n]);
            PathOf(parts) == front + [SLASH] + parts[n]
            && BeforeLast(PathOf(parts), SLASH) == front && AfterLast(PathOf(parts), SLASH) == parts[n]
  {
    var n := |parts| - 1;
    var last := parts[n];
    assert Component(last);
    if n == 0 {
      assert PathOf(parts) == [] + [SLASH] + last;
      AfterLastOf([], last, SLASH);
    } else {
      assert parts == parts[..n] + [last];
      JoinSnoc(parts[..n], last, SLASH);
      assert PathOf(parts) == PathOf(parts[..n]) + [SLASH] + last;
      AfterLastOf(PathOf(parts[..n]), last, SLASH);
    }
  }

  lemma ResolveRootJoin(part: Bytes)
    requires Component(part)
    ensures Resolve(Split(ROOT + [SLASH] + part, SLASH), []) == Some([part])
  {
    var s := ROOT + [SLASH] + part;
    assert s[1..] == PathOf([part]);
    ComponentsFree([part]);
    assert Split(s, SLASH) == [[]] + Split(PathOf([part]), SLASH);
    assert ([[]] + Split(PathOf([part]), SLASH))[1..] == Split(PathOf([part]), SLASH);
    ResolvePath([part]);
  }

  /** Joining a path's parent and its name gives the path back. */
  lemma JoinParentBasename(path: Bytes)
    requires NormalForm(path) && 0 !in path && path != ROOT
    ensures ParentPath(path).Some? && Basename(path).Some?
    ensures JoinPath(ParentPath(path).value, Basename(path).value) == Some(path)
  {
    var parts :| AllComponents(parts) && path == PathOf(parts);
    var n := |parts| - 1;
    assert n >= 0;
    NormalizeIsIdempotent(path, HOME);
    PathEnds(parts);
    assert Component(parts[n]);
    if n == 0 {
      assert parts == [parts[0]];
      ResolveRootJoin(parts[0]);
      assert 0 !in ROOT + [SLASH] + parts[0] by { assert path == [SLASH] + parts[0]; }
    } else {
      ResolvePath(parts);
    }
  }

  // ------------------------------------------------------------------- chunks

  /** The cuts from `offset` on: slice drops the fraction of both its bounds. */
  function Chunks(value: Bytes, offset: real, size: real): seq<Bytes>
    requires size >= 1.0 && offset >= 0.0
    decreases |value| - Cut(value, offset)
  {
    if offset >= |value| as real then []
    else [value[Cut(value, offset)..Cut(value, offset + size)]] + Chunks(value, offset + size, size)
  }

  function Cut(value: Bytes, offset: real): nat
    requires offset >= 0.0
  {
    if offset.Floor < |value| then offset.Floor else |value|
  }

  /** chunkBytes: at least one chunk, or a range error. */
  method ChunkBytes(value: Bytes, chunkSize: real) returns (r: Option<seq<Bytes>>)
    ensures chunkSize < 1.0 ==> r.None?
    ensures chunkSize >= 1.0 ==>
              r == Some(if value == [] then [[]] else Chunks(value, 0.0, chunkSize))
  {
    if chunkSize < 1.0 { return None; }
    var chunks: seq<Bytes> := [];
    var offset := 0.0;
    while offset < |value| as real
      invariant 0.0 <= offset
      invariant chunks + Chunks(value, offset, chunkSize) == Chunks(value, 0.0, chunkSize)
      invariant offset > 0.0 ==> chunks != []
      decreases |value| - Cut(value, offset)
    {
      chunks := chunks + [value[Cut(value, offset)..Cut(value, offset + chunkSize)]];
      offset := offset + chunkSize;
    }
    assert chunks + [] == chunks;
    return Some(if |chunks| > 0 then chunks else [[]]);
  }

  /** reassembleChunks: a buffer of the summed length, filled chunk by chunk. */
  method ReassembleChunks(chunks: seq<Bytes>) returns (result: array<Byte>)
    ensures fresh(result) && result[..] == Concat(chunks)
  {
    var size := 0;
    for i := 0 to |chunks|
      invariant size + |Concat(chunks[i..])| == |Concat(chunks)|
    {
      assert chunks[i..][1..] == chunks[i + 1..];
      size := size + |chunks[i]|;
    }
    result := new Byte[size];
    var offset := 0;
    for i := 0 to |chunks|
      invariant 0 <= offset <= size
      invariant result[..offset] + Concat(chunks[i..]) == Concat(chunks)
    {
      assert chunks[i..][1..] == chunks[i + 1..];
      assert |result[..offset]| + (|chunks[i]| + |Concat(chunks[i + 1..])|) == |Concat(chunks)| == size;
      ghost var done := result[..offset];
      forall k | 0 <= k < |chunks[i]| { result[offset + k] := chunks[i][k]; }
      assert result[..offset + |chunks[i]|] == done + chunks[i];
      offset := offset + |chunks[i]|;
    }
    assert chunks[|chunks|..] == [] && result[..offset] + [] == result[..offset];
    assert result[..] == result[..offset];
  }

  lemma {:induction false} ConcatChunks(value: Bytes, offset: real, size: real)
    requires size >= 1.0 && offset >= 0.0
    ensures Concat(Chunks(value, offset, size)) == value[Cut(value, offset)..]
    decreases |value| - Cut(value, offset)
  {
    if offset < |value| as real {
      var first, rest := value[Cut(value, offset)..Cut(value, offset + size)], Chunks(value, offset + size, size);
      ConcatChunks(value, offset + size, size);
      assert ([first] + rest)[1..] == rest;
      assert value[Cut(value, offset)..] == first + value[Cut(value, offset + size)..];
    }
  }

  /** i sizes, added one after another as the loop does. */
  function Start(size: real, i: nat): real {
    if i == 0 then 0.0 else size + Start(size, i - 1)
  }

  lemma {:induction false} StartIsMultiple(size: real, i: nat)
    ensures Start(size, i) == i as real * size
    ensures size >= 0.0 ==> Start(size, i) >= 0.0
  {
    if i > 0 {
      StartIsMultiple(size, i - 1);
      assert i as real == (i - 1) as real + 1.0;
    }
  }

  ghost predicate IsChunk(value: Bytes, chunk: Bytes, start: real, size: real)
    requires size >= 1.0 && start >= 0.0
  {
    chunk == value[Cut(value, start)..Cut(value, start + size)] && chunk != []
  }

  lemma {:induction false} ChunkFrom(value: Bytes, offset: real, size: real, i: nat)
    requires size >= 1.0 && offset >= 0.0
    ensures i < |Chunks(value, offset, size)| <==> offset + Start(size, i) < |value| as real
    ensures Start(size, i) >= 0.0
    ensures i < |Chunks(value, offset, size)| ==>
              IsChunk(value, Chunks(value, offset, size)[i], offset + Start(size, i), size)
    decreases i
  {
    if i > 0 {
      ChunkFrom(value, offset + size, size, i - 1);
    }
  }

  lemma ChunkBounds(value: Bytes, size: real, i: nat, start: real, end: real)
    requires size >= 1.0 && start == Start(size, i) && end == Start(size, i + 1)
    ensures i < |Chunks(value, 0.0, size)| <==> start < |value| as real
    ensures 0.0 <= start <= end
    ensures i < |Chunks(value, 0.0, size)| ==>
              Chunks(value, 0.0, size)[i] == value[Cut(value, start)..Cut(value, end)] && Chunks(value, 0.0, size)[i] != []
  {
    ChunkFrom(value, 0.0, size, i);
    assert 0.0 + start == start && start + size == end;
  }

  /** The i-th chunk runs from i * size to (i + 1) * size, fractions dropped, and is not empty;
      there is one for each multiple of the size inside the value. */
  lemma ChunkAt(value: Bytes, size: real, i: nat, start: real, end: real)
    requires size >= 1.0 && start == i as real * size && end == (i + 1) as real * size
    ensures i < |Chunks(value, 0.0, size)| <==> start < |value| as real
    ensures 0.0 <= start <= end
    ensures i < |Chunks(value, 0.0, size)| ==>
              Chunks(value, 0.0, size)[i] == value[Cut(value, start)..Cut(value, end)] && Chunks(value, 0.0, size)[i] != []
  {
    StartIsMultiple(size, i);
    StartIsMultiple(size, i + 1);
    ChunkBounds(value, size, i, start, end);
  }

  /** Reassembling what chunkBytes cut gives the value back, for every chunk size. */
  lemma ReassembleOfChunks(value: Bytes, size: real)
    requires size >= 1.0
    ensures Concat(if value == [] then [[]] else Chunks(value, 0.0, size)) == value
  {
    ConcatChunks(value, 0.0, size);
    var empty: Bytes := [];
    assert Concat([empty]) == empty + Concat([empty][1..]);
  }
}
