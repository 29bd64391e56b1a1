// Cutting a configuration file into lines, as its reader does, and into pieces of at most a buffer,
// as its rewriter does.

module ConfigLines {
  import opened ConfigText

  // ---------------------------------------------------------------- lines

  ghost predicate Complete(t: string) { t == "" || t[|t| - 1] == '\n' }

  // Lines as a text is cut into them: none is empty, only the last may lack its newline.
  ghost predicate AreLines(lines: seq<string>)
  {
    forall i :: 0 <= i < |lines| ==>
      && lines[i] != "" && LineLength(lines[i]) == |lines[i]|
      && (i < |lines| - 1 ==> Complete(lines[i]))
  }

  lemma LinesUnfold(t: string)
    requires t != ""
    ensures Lines(t) == [t[..LineLength(t)]] + Lines(t[LineLength(t)..])
    ensures Lines(t)[0] == t[..LineLength(t)] && Lines(t)[1..] == Lines(t[LineLength(t)..])
  {
    hide LineLength;
  }

  lemma {:induction false} LinesAppend(a: string, b: string)
    requires Complete(a)
    ensures Lines(a + b) == Lines(a) + Lines(b)
    decreases |a|
  {
    hide LineLength, Lines, Complete;
    if a == "" {
      assert a + b == b;
      NoLines();
    } else {
      var n := LineLength(a);
      LinesUnfold(a);
      LinesUnfold(a + b);
      FirstLineOfAppend(a, b);
      assert (a + b)[..n] == a[..n] && (a + b)[n..] == a[n..] + b;
      LinesAppend(a[n..], b);
    }
  }

  lemma NoLines()
    ensures Lines("") == []
  {
  }

  lemma FirstLineOfAppend(a: string, b: string)
    requires a != "" && Complete(a)
    ensures LineLength(a + b) == LineLength(a) && Complete(a[LineLength(a)..])
  {
    var n := LineLength(a);
    assert a[n - 1] == '\n';
    assert forall k :: 0 <= k < n - 1 ==> (a + b)[k] != '\n';
    IndexOfIs(a + b, '\n', n - 1);
  }

  lemma {:induction false} LinesAreLines(t: string)
    ensures AreLines(Lines(t)) && Joined(Lines(t)) == t
    decreases |t|
  {
    hide LineLength;
    if t != "" {
      var n := LineLength(t);
      LinesAreLines(t[n..]);
      OneLine(t);
      assert Lines(t)[1..] == Lines(t[n..]);
      assert t == t[..n] + t[n..];
    }
  }

  lemma OneLine(t: string)
    requires t != ""
    ensures LineLength(t[..LineLength(t)]) == LineLength(t)
    ensures LineLength(t) < |t| ==> Complete(t[..LineLength(t)])
  {
    var n := LineLength(t);
    var l := t[..n];
    if l[n - 1] == '\n' { IndexOfIs(l, '\n', n - 1); }
  }

  lemma {:induction false} LinesOfJoined(lines: seq<string>)
    requires AreLines(lines)
    ensures Lines(Joined(lines)) == lines
    decreases |lines|
  {
    hide Lines, LineLength, Complete;
    if lines == [] {
      NoLines();
    } else {
      var l, rest := lines[0], lines[1..];
      assert AreLines(rest);
      LinesOfJoined(rest);
      SingleLine(l);
      if |lines| > 1 {
        LinesAppend(l, Joined(rest));
      } else {
        assert Joined(rest) == "" && l + "" == l;
      }
      assert [l] + rest == lines;
    }
  }

  lemma TrimNewline(s: string)
    ensures Trim(s + "\n") == Trim(s)
  {
    TrimLeftNewline(s);
    assert (TrimLeft(s) + "\n")[..|TrimLeft(s)|] == TrimLeft(s);
  }

  lemma {:induction false} TrimLeftNewline(s: string)
    ensures TrimLeft(s + "\n") == TrimLeft(s) + "\n"
  {
    if s != "" && Indent(s[0]) {
      assert (s + "\n")[1..] == s[1..] + "\n";
      TrimLeftNewline(s[1..]);
    }
  }

  lemma SingleLine(t: string)
    requires t != "" && LineLength(t) == |t|
    ensures Lines(t) == [t]
  {
    hide LineLength;
    assert t[..|t|] == t && t[|t|..] == "";
  }

  lemma OpenLine(t: string)
    requires t != "" && LineLength(t) == |t| && !Complete(t)
    ensures LineLength(t + "\n") == |t| + 1
  {
    assert forall k :: 0 <= k < |t| ==> t[k] != '\n';
    IndexOfIs(t + "\n", '\n', |t|);
  }

  lemma FirstLineKept(t: string)
    requires t != "" && (LineLength(t) == |t| ==> Complete(t))
    ensures LineLength(t + "\n") == LineLength(t)
  {
    IndexOfIs(t + "\n", '\n', LineLength(t) - 1);
  }

  // ---------------------------------------------------------------- pieces

  // On lines that fit the buffer the rewriter's pieces are the lines.
  lemma {:induction false} PiecesAreLines(t: string)
    requires forall l :: l in Lines(t) ==> Fits(l)
    ensures Pieces(t) == Lines(t)
    decreases |t|
  {
    hide LineLength;
    if t != "" {
      assert Fits(Lines(t)[0]);
      PiecesAreLines(t[LineLength(t)..]);
    }
  }

  lemma PiecesUnfold(t: string)
    requires t != ""
    ensures Pieces(t) != [] && Pieces(t) == [t[..PieceLength(t)]] + Pieces(t[PieceLength(t)..])
    ensures Pieces(t)[0] == t[..PieceLength(t)] && Pieces(t)[1..] == Pieces(t[PieceLength(t)..])
  {
    hide PieceLength;
  }

  lemma OnePiece(line: string)
    requires line != "" && LineLength(line) == |line| < LINE_MAX
    ensures Pieces(line) == [line]
  {
    assert line[..|line|] == line && line[|line|..] == "";
  }

  // The rest of a line behind a full piece is a line.
  lemma RestIsLine(t: string)
    requires t != "" && LineLength(t) >= LINE_MAX
    ensures LineLength(t[LINE_MAX - 1..]) == LineLength(t) - (LINE_MAX - 1)
  {
    var n, rest := LineLength(t), t[LINE_MAX - 1..];
    if t[n - 1] == '\n' {
      IndexOfIs(rest, '\n', n - LINE_MAX);
    } else {
      assert forall k :: 0 <= k < |rest| ==> rest[k] == t[k + (LINE_MAX - 1)];
    }
  }

  lemma {:induction false} FirstLinePieces(t: string)
    requires t != ""
    ensures Pieces(t) == Pieces(t[..LineLength(t)]) + Pieces(t[LineLength(t)..])
    decreases |t|
  {
    hide LineLength, Pieces;
    var n := LineLength(t);
    var line := t[..n];
    OneLine(t);
    PiecesUnfold(t);
    if n < LINE_MAX {
      OnePiece(line);
    } else {
      var p := LINE_MAX - 1;
      RestIsLine(t);
      FirstLinePieces(t[p..]);
      assert t[p..][..n - p] == line[p..] && t[p..][n - p..] == t[n..];
      PiecesUnfold(line);
      assert line[..p] == t[..p];
    }
  }

  // The pieces the rewriter reads are those of the lines one after the other.
  lemma {:induction false} PiecesByLines(t: string)
    ensures PiecesOf(Lines(t)) == Pieces(t)
    decreases |t|
  {
    hide LineLength, PieceLength;
    if t != "" {
      LinesUnfold(t);
      FirstLinePieces(t);
      PiecesByLines(t[LineLength(t)..]);
    }
  }

  lemma {:induction false} PiecesJoin(t: string)
    ensures Joined(Pieces(t)) == t && (t != "" ==> Pieces(t) != [])
    decreases |t|
  {
    hide PieceLength;
    if t != "" {
      PiecesJoin(t[PieceLength(t)..]);
      assert t == t[..PieceLength(t)] + t[PieceLength(t)..];
    }
  }

  lemma {:induction false} JoinedAppend(a: seq<string>, b: seq<string>)
    ensures Joined(a + b) == Joined(a) + Joined(b)
  {
    if a == [] {
      assert a + b == b;
    } else {
      assert (a + b)[1..] == a[1..] + b;
      JoinedAppend(a[1..], b);
    }
  }
}
