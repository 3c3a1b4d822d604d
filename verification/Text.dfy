/** Cutting texts at a separator, joining them again, and wrapping lines
    (StringTools; the cutting is shared with the path strings). */
module Text {
  import opened Sequences

  // ---------- Cutting and joining ----------

  function Pieces(s: string, sep: char): (r: seq<string>)
    ensures r != []
    decreases |s|
  {
    var n := IndexOf(s, sep);
    if n == |s| then [s] else [s[..n]] + Pieces(s[n + 1..], sep)
  }

  function Join(pieces: seq<string>, sep: char): string {
    if pieces == [] then []
    else if |pieces| == 1 then pieces[0]
    else pieces[0] + [sep] + Join(pieces[1..], sep)
  }

  ghost predicate Free(pieces: seq<string>, sep: char) {
    forall i :: 0 <= i < |pieces| ==> sep !in pieces[i]
  }

  lemma IndexOfFree(s: string, c: char, t: string)
    requires c !in s
    ensures IndexOf(s, c) == |s| && IndexOf(s + [c] + t, c) == |s|
  {
    var u := s + [c] + t;
    assert u[|s|] == c;
    assert forall i :: 0 <= i < |s| ==> u[i] == s[i];
  }

  lemma PiecesCut(s: string, sep: char)
    ensures var n := IndexOf(s, sep);
      Pieces(s, sep) == if n == |s| then [s] else [s[..n]] + Pieces(s[n + 1..], sep)
  {
    hide IndexOf;
  }

  lemma JoinFirst(first: string, more: seq<string>, sep: char)
    requires more != []
    ensures Join([first] + more, sep) == first + [sep] + Join(more, sep)
  {
    assert ([first] + more)[1..] == more;
  }

  /** Joining the pieces gives back any text, and the pieces are free of the separator. */
  lemma {:induction false} JoinPieces(s: string, sep: char)
    ensures Join(Pieces(s, sep), sep) == s && Free(Pieces(s, sep), sep)
    decreases |s|
  {
    hide Pieces, IndexOf;
    var n := IndexOf(s, sep);
    PiecesCut(s, sep);
    if n < |s| {
      var more := Pieces(s[n + 1..], sep);
      JoinPieces(s[n + 1..], sep);
      JoinFirst(s[..n], more, sep);
      assert s == s[..n] + [sep] + s[n + 1..];
    }
  }

  /** Cutting a joined text gives back the pieces. */
  lemma {:induction false} PiecesJoin(pieces: seq<string>, sep: char)
    requires pieces != [] && Free(pieces, sep)
    ensures Pieces(Join(pieces, sep), sep) == pieces
  {
    hide Pieces, IndexOf;
    PiecesCut(Join(pieces, sep), sep);
    if |pieces| == 1 {
      IndexOfFree(pieces[0], sep, []);
    } else {
      var more := Join(pieces[1..], sep);
      PiecesJoin(pieces[1..], sep);
      IndexOfFree(pieces[0], sep, more);
      var s := Join(pieces, sep);
      assert s[..|pieces[0]|] == pieces[0] && s[|pieces[0]| + 1..] == more;
    }
  }

  lemma {:induction false} JoinConcat(a: seq<string>, b: seq<string>, sep: char)
    requires a != [] && b != []
    ensures Join(a + b, sep) == Join(a, sep) + [sep] + Join(b, sep)
  {
    if |a| == 1 {
      assert (a + b)[1..] == b;
    } else {
      assert (a + b)[1..] == a[1..] + b;
      JoinConcat(a[1..], b, sep);
      assert Join(a, sep) == a[0] + [sep] + Join(a[1..], sep);
    }
  }

  lemma PiecesStep(s: string, start: nat, end: nat, sep: char)
    requires start <= |s| && end == start + IndexOf(s[start..], sep)
    ensures end <= |s|
    ensures end == |s| ==> Pieces(s[start..], sep) == [s[start..end]]
    ensures end < |s| ==> Pieces(s[start..], sep) == [s[start..end]] + Pieces(s[end + 1..], sep)
  {
    hide IndexOf, Pieces;
    var t := s[start..];
    PiecesCut(t, sep);
    assert t[..end - start] == s[start..end];
    if end < |s| {
      assert t[end - start + 1..] == s[end + 1..];
    } else {
      assert t == s[start..end];
    }
  }

  /** StringTools::split.  The empty text has no pieces; any other is cut at every
      separator, so joining the result gives the text back. */
  method Split(text: string, separator: char) returns (pieces: seq<string>)
    ensures pieces == if text == [] then [] else Pieces(text, separator)
    ensures Join(pieces, separator) == text && Free(pieces, separator)
  {
    hide Pieces, Join, Free;
    pieces := [];
    JoinPieces(text, separator);
    var start := 0;
    var going := text != [];
    assert text[start..] == text;
    assert pieces + Pieces(text, separator) == Pieces(text, separator);
    while going
      invariant 0 <= start <= |text| && (going ==> text != [])
      invariant going ==> pieces + Pieces(text[start..], separator) == Pieces(text, separator)
      invariant !going ==> pieces == if text == [] then [] else Pieces(text, separator)
      decreases going, |text| - start
    {
      var end := start + IndexOf(text[start..], separator);
      PiecesStep(text, start, end, separator);
      ghost var before := pieces;
      pieces := pieces + [text[start..end]];
      if end == |text| {
        going := false;
      } else {
        ghost var more := Pieces(text[end + 1..], separator);
        assert before + ([text[start..end]] + more) == pieces + more;
        start := end + 1;
      }
    }
    if text == [] { EmptyJoin(separator); }
  }

  lemma EmptyJoin(sep: char)
    ensures Join([], sep) == [] && Free([], sep)
  {
  }

  // ---------- Wrapping ----------

  const LINE_BREAK := '\n'

  /** A line cut every `c` characters. */
  function Chunks(line: string, c: nat): (r: seq<string>)
    requires c > 0
    ensures r != []
    decreases |line|
  {
    if |line| <= c then [line] else [line[..c]] + Chunks(line[c..], c)
  }

  function AllChunks(lines: seq<string>, c: nat): (r: seq<string>)
    requires c > 0
    ensures lines != [] ==> r != []
  {
    if lines == [] then [] else Chunks(lines[0], c) + AllChunks(lines[1..], c)
  }

  function Lines(text: string): seq<string> {
    if text == [] then [] else Pieces(text, LINE_BREAK)
  }

  function Wrapped(text: string, c: nat): string
    requires c > 0
  {
    Join(AllChunks(Lines(text), c), LINE_BREAK)
  }

  /** A text with its line breaks deleted. */
  function Unbroken(s: string): string {
    if s == [] then [] else (if s[0] == LINE_BREAK then [] else [s[0]]) + Unbroken(s[1..])
  }

  /** The pieces one after the other. */
  function Flat(pieces: seq<string>): string {
    if pieces == [] then [] else pieces[0] + Flat(pieces[1..])
  }

  ghost predicate Fits(pieces: seq<string>, c: nat) {
    forall i :: 0 <= i < |pieces| ==> |pieces[i]| <= c
  }

  /** All chunks but the last are full, and only an empty line has an empty one. */
  lemma {:induction false} ChunksAreFull(line: string, c: nat, i: nat)
    requires c > 0 && i < |Chunks(line, c)|
    ensures i < |Chunks(line, c)| - 1 ==> |Chunks(line, c)[i]| == c
    ensures i == |Chunks(line, c)| - 1 ==> |Chunks(line, c)[i]| <= c && (line != [] ==> Chunks(line, c)[i] != [])
    decreases |line|
  {
    if |line| > c && i > 0 { ChunksAreFull(line[c..], c, i - 1); }
  }

  lemma {:induction false} ChunksFit(line: string, c: nat)
    requires c > 0 && LINE_BREAK !in line
    ensures Fits(Chunks(line, c), c) && Free(Chunks(line, c), LINE_BREAK)
    ensures Flat(Chunks(line, c)) == line
    decreases |line|
  {
    if |line| > c {
      ChunksFit(line[c..], c);
      assert ([line[..c]] + Chunks(line[c..], c))[1..] == Chunks(line[c..], c);
      assert line == line[..c] + line[c..];
    } else {
      assert [line][1..] == [];
    }
  }

  lemma {:induction false} FlatConcat(a: seq<string>, b: seq<string>)
    ensures Flat(a + b) == Flat(a) + Flat(b)
  {
    if a == [] {
      assert a + b == b;
    } else {
      assert (a + b)[1..] == a[1..] + b;
      FlatConcat(a[1..], b);
    }
  }

  lemma {:induction false} AllChunksFit(lines: seq<string>, c: nat)
    requires c > 0 && Free(lines, LINE_BREAK)
    ensures Fits(AllChunks(lines, c), c) && Free(AllChunks(lines, c), LINE_BREAK)
    ensures Flat(AllChunks(lines, c)) == Flat(lines)
  {
    if lines != [] {
      ChunksFit(lines[0], c);
      AllChunksFit(lines[1..], c);
      FlatConcat(Chunks(lines[0], c), AllChunks(lines[1..], c));
    }
  }

  lemma {:induction false} FittingStays(lines: seq<string>, c: nat)
    requires c > 0 && Fits(lines, c)
    ensures AllChunks(lines, c) == lines
  {
    if lines != [] {
      FittingStays(lines[1..], c);
      assert lines == [lines[0]] + lines[1..];
    }
  }

  lemma {:induction false} UnbrokenFree(s: string)
    requires LINE_BREAK !in s
    ensures Unbroken(s) == s
  {
    if s != [] { UnbrokenFree(s[1..]); }
  }

  lemma {:induction false} UnbrokenJoin(pieces: seq<string>)
    requires Free(pieces, LINE_BREAK)
    ensures Unbroken(Join(pieces, LINE_BREAK)) == Flat(pieces)
  {
    hide Unbroken;
    if pieces != [] {
      if |pieces| > 1 {
        UnbrokenJoin(pieces[1..]);
        UnbrokenPiece(pieces[0], Join(pieces[1..], LINE_BREAK));
      } else {
        UnbrokenFree(pieces[0]);
        assert pieces[1..] == [];
      }
    } else {
      UnbrokenFree([]);
    }
  }

  lemma {:induction false} UnbrokenPiece(s: string, more: string)
    requires LINE_BREAK !in s
    ensures Unbroken(s + [LINE_BREAK] + more) == s + Unbroken(more)
  {
    var t := s + [LINE_BREAK] + more;
    if s == [] {
      assert t[1..] == more;
    } else {
      UnbrokenPiece(s[1..], more);
      assert t[1..] == s[1..] + [LINE_BREAK] + more;
    }
  }

  lemma LinesJoin(text: string)
    ensures Join(Lines(text), LINE_BREAK) == text && Free(Lines(text), LINE_BREAK)
  {
    JoinPieces(text, LINE_BREAK);
  }

  lemma LinesOfWrapped(text: string, c: nat)
    requires c > 0
    ensures Wrapped(text, c) == [] ==> text == []
    ensures Lines(Wrapped(text, c)) == AllChunks(Lines(text), c)
  {
    LinesJoin(text);
    AllChunksFit(Lines(text), c);
    if text != [] {
      PiecesJoin(AllChunks(Lines(text), c), LINE_BREAK);
      if Wrapped(text, c) == [] {
        assert AllChunks(Lines(text), c) == Pieces([], LINE_BREAK) == [[]];
        UnbrokenJoin(Lines(text));
        OneEmptyLine(Lines(text), c);
      }
    }
  }

  lemma OneEmptyLine(lines: seq<string>, c: nat)
    requires c > 0 && AllChunks(lines, c) == [[]]
    ensures lines == [[]]
  {
    var first, more := Chunks(lines[0], c), AllChunks(lines[1..], c);
    assert |first| + |more| == 1;
    assert (first + more)[0] == first[0];
  }

  /** Wrapping yields lines of at most `c` characters, deletes nothing but line
      breaks, adds nothing but line breaks, and is idempotent. */
  lemma WrapPromise(text: string, c: nat)
    requires c > 0
    ensures Fits(Lines(Wrapped(text, c)), c)
    ensures Unbroken(Wrapped(text, c)) == Unbroken(text)
    ensures Wrapped(Wrapped(text, c), c) == Wrapped(text, c)
  {
    LinesJoin(text);
    AllChunksFit(Lines(text), c);
    LinesOfWrapped(text, c);
    UnbrokenJoin(AllChunks(Lines(text), c));
    UnbrokenJoin(Lines(text));
    FittingStays(AllChunks(Lines(text), c), c);
  }

  /** StringTools::wrap.  A column of zero would never end. */
  method Wrap(text: string, wrapColumn: nat) returns (wrapped: string)
    requires wrapColumn > 0
    ensures wrapped == Wrapped(text, wrapColumn)
  {
    hide AllChunks, Chunks, Join, Pieces;
    var lines := Split(text, LINE_BREAK);
    wrapped := [];
    var k := 0;
    assert lines[..0] == [];
    NoChunks(wrapColumn);
    while k < |lines|
      invariant 0 <= k <= |lines|
      invariant wrapped == Join(AllChunks(lines[..k], wrapColumn), LINE_BREAK)
    {
      ghost var before := AllChunks(lines[..k], wrapColumn);
      if k > 0 {
        wrapped := wrapped + [LINE_BREAK];
      }
      var line := lines[k];
      var slices := WrapLine(line, wrapColumn);
      AllChunksAppend(lines[..k], line, wrapColumn);
      assert lines[..k + 1] == lines[..k] + [line];
      if k > 0 {
        JoinConcat(before, Chunks(line, wrapColumn), LINE_BREAK);
      } else {
        assert lines[..k] == [];
        assert before + Chunks(line, wrapColumn) == Chunks(line, wrapColumn);
        assert wrapped + slices == slices;
      }
      wrapped := wrapped + slices;
      k := k + 1;
    }
    assert lines[..k] == lines;
  }

  lemma NoChunks(c: nat)
    requires c > 0
    ensures AllChunks([], c) == [] && Join([], LINE_BREAK) == []
  {
  }

  lemma {:induction false} AllChunksAppend(lines: seq<string>, line: string, c: nat)
    requires c > 0
    ensures AllChunks(lines + [line], c) == AllChunks(lines, c) + Chunks(line, c)
  {
    if lines == [] {
      assert lines + [line] == [line];
      assert [line][1..] == [];
    } else {
      assert (lines + [line])[1..] == lines[1..] + [line];
      AllChunksAppend(lines[1..], line, c);
    }
  }

  lemma WrapSlice(line: string, c: nat)
    requires c > 0
    ensures |line| <= c ==> Join(Chunks(line, c), LINE_BREAK) == line
    ensures |line| > c ==> Join(Chunks(line, c), LINE_BREAK)
                           == line[..c] + [LINE_BREAK] + Join(Chunks(line[c..], c), LINE_BREAK)
  {
    if |line| > c { assert Chunks(line, c)[1..] == Chunks(line[c..], c); }
  }

  /** The inner loop of wrap. */
  method WrapLine(line: string, wrapColumn: nat) returns (wrapped: string)
    requires wrapColumn > 0
    ensures wrapped == Join(Chunks(line, wrapColumn), LINE_BREAK)
  {
    hide Join, Chunks;
    wrapped := [];
    var index := 0;
    WrapSlice(line, wrapColumn);
    assert line[index..] == line;
    while index < |line|
      invariant 0 <= index
      invariant index < |line| ==>
        wrapped + Join(Chunks(line[index..], wrapColumn), LINE_BREAK) == Join(Chunks(line, wrapColumn), LINE_BREAK)
      invariant index >= |line| ==> wrapped == Join(Chunks(line, wrapColumn), LINE_BREAK)
    {
      ghost var rest, start := line[index..], wrapped;
      WrapSlice(rest, wrapColumn);
      var end := if index + wrapColumn < |line| then index + wrapColumn else |line|;
      var lineSlice := line[index..end];
      wrapped := wrapped + lineSlice;
      index := index + wrapColumn;
      if index < |line| {
        wrapped := wrapped + [LINE_BREAK];
        ghost var more := Join(Chunks(line[index..], wrapColumn), LINE_BREAK);
        assert rest[..wrapColumn] == lineSlice && rest[wrapColumn..] == line[index..];
        assert start + (lineSlice + [LINE_BREAK] + more) == wrapped + more;
      } else {
        assert lineSlice == rest;
      }
    }
  }
}
