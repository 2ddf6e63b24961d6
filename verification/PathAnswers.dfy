// What a path normalizes to, component by component.
module PathAnswers {
  import opened Bytes
  import opened Text
  import opened Spelling
  import opened JamFs

  /** The components that a text leads to, from the root; None where it climbs above it or a
      component is too long. */
  function Components(text: Bytes): Option<seq<Bytes>> {
    Resolve(Split(text, SLASH), [])
  }

  /** One more component: nothing and "." stay, ".." goes back, and a name of at most 128
      bytes goes on. */
  function Gone(parts: Option<seq<Bytes>>, piece: Bytes): Option<seq<Bytes>> {
    if parts.None? || piece == [] || piece == Ascii(".") then parts
    else if piece == Ascii("..") then
      if |parts.value| == 0 then None else Some(parts.value[..|parts.value| - 1])
    else if |piece| > 128 then None
    else Some(parts.value + [piece])
  }

  lemma DotsSpelled()
    ensures DOT == Ascii(".") && DOT_DOT == Ascii("..")
  {
  }

  lemma HomeSpelled()
    ensures HOME == Ascii("/home/user")
  {
  }

  lemma {:induction false} ResolveSteps(pieces: seq<Bytes>, last: Bytes, stack: seq<Bytes>)
    ensures Resolve(pieces + [last], stack) == Gone(Resolve(pieces, stack), last)
    decreases pieces
  {
    DotsSpelled();
    var all := pieces + [last];
    if pieces == [] {
      assert all[1..] == [];
    } else {
      assert all[0] == pieces[0] && all[1..] == pieces[1..] + [last];
      if pieces[0] == [] || pieces[0] == DOT {
        ResolveSteps(pieces[1..], last, stack);
      } else if pieces[0] == DOT_DOT {
        if stack != [] { ResolveSteps(pieces[1..], last, stack[..|stack| - 1]); }
      } else if |pieces[0]| <= MAX_COMPONENT_LENGTH {
        ResolveSteps(pieces[1..], last, stack + [pieces[0]]);
      }
    }
  }

  /** Each text is a piece without slashes, or ends in one behind a slash; these are the
      components it leads to. */
  lemma ComponentsSpelled(front: Bytes, piece: Bytes)
    requires 47 !in piece
    ensures Components(front + [47] + piece) == Gone(Components(front), piece)
    ensures Components(piece) == Gone(Some([]), piece)
  {
    SplitConcat(front, piece, SLASH);
    SplitPiece(piece, SLASH);
    ResolveSteps(Split(front, SLASH), piece, []);
    ResolveSteps([], piece, []);
    assert [] + [piece] == [piece];
  }

  /** The path of at most 512 bytes to some components. */
  function Joined(parts: Option<seq<Bytes>>): Option<Bytes> {
    if parts.None? || |Ascii("/") + Join(parts.value, 47)| > 512 then None
    else Some(Ascii("/") + Join(parts.value, 47))
  }

  lemma RootSpelled()
    ensures ROOT == Ascii("/")
  {
  }

  /** A NUL in the input is refused; an absolute input stands for itself, any other for what
      it is below the working directory. */
  lemma NormalizeSpelled(input: Bytes, cwd: Bytes)
    requires input != []
    ensures Normalize(input, cwd)
            == if 0 in input then None
               else if input[0] == 47 then Joined(Components(input))
               else Joined(Components(cwd + [47] + input))
  {
    RootSpelled();
  }

  /** An empty input stands for the working directory, below the home directory. */
  lemma EmptyInput(input: Bytes, cwd: Bytes, home: Bytes)
    requires input == [] && home == Ascii("/home/user")
    ensures Normalize(input, cwd) == Normalize(cwd, home)
  {
    HomeSpelled();
  }
}
