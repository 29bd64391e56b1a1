// A condition on the text of a configuration file alone under which it can be rewritten safely:
// every line fits the buffer, headers are tidy and byte order marks stand where they may.

module ConfigTidy {
  import opened ConfigText
  import opened ConfigLines
  import opened ConfigHeaders
  import opened ConfigMeaning

  lemma TidyAgrees(current: string, first: bool, line: string)
    requires TidyLine(first, line) && line != "" && LineLength(line) == |line|
    ensures Agrees(current, first, line)
  {
    hide Agrees, TidyHeader, LineLength, Fits, ReaderHeader, SectionName, Trim, Classify, Bom;
    AgreesIff(current, first, line);
    if first && Bom(Trim(line)) {
      ReadersHeader(first, line);
      OnlyBracketsAreHeaders(TextOf(true, line));
    }
  }

  lemma {:induction false} TidyInTune(current: string, first: bool, lines: seq<string>)
    requires TidyLines(first, lines) && AreLines(lines)
    ensures InTune(current, first, lines)
    decreases |lines|
  {
    hide TidyLine, LineLength, Agrees, ReaderHeader, Complete;
    if lines != [] {
      TidyAgrees(current, first, lines[0]);
      RestIsTidy(first, lines);
      assert AreLines(lines[1..]);
      TidyInTune(NextSection(current, ReaderHeader(first, lines[0])), false, lines[1..]);
    }
  }

  lemma RestIsTidy(first: bool, lines: seq<string>)
    requires TidyLines(first, lines) && lines != []
    ensures TidyLine(first, lines[0]) && TidyLines(false, lines[1..])
  {
    hide TidyLine;
    assert TidyLine(first && 0 == 0, lines[0]);
    forall i | 0 <= i < |lines[1..]| ensures TidyLine(false, lines[1..][i]) {
      assert TidyLine(first && i + 1 == 0, lines[i + 1]);
    }
  }

  // Reader and rewriter agree throughout a well-formed file.
  lemma WellFormedIsInTune(t: string)
    requires WellFormed(t)
    ensures TextInTune(t)
  {
    hide Lines, TidyLines, InTune;
    LinesAreLines(t);
    TidyInTune("", true, Lines(t));
  }

  // ---------------------------------------------------------------- rewriting keeps files well formed

  lemma {:induction false} KeptIsTidy(current: string, first: bool, lines: seq<string>, section: string)
    requires TidyLines(first, lines)
    ensures TidyLines(first, KeptLines(current, first, lines, section))
    decreases |lines|
  {
    hide TidyLine, ReaderHeader;
    if lines != [] {
      RestIsTidy(first, lines);
      var next := NextSection(current, ReaderHeader(first, lines[0]));
      KeptIsTidy(next, false, lines[1..], section);
      var rest := KeptLines(next, false, lines[1..], section);
      if next == section {
        LaterIsTidy(first, rest);
        assert [] + rest == rest;
      } else {
        ConsTidy(first, lines[0], rest);
      }
    }
  }

  lemma LaterIsTidy(first: bool, lines: seq<string>)
    requires TidyLines(false, lines)
    ensures TidyLines(first, lines)
  {
    hide TidyHeader, Trim, Fits;
    forall i | 0 <= i < |lines| ensures TidyLine(first && i == 0, lines[i]) {
      assert TidyLine(false, lines[i]);
    }
  }

  lemma ConsTidy(first: bool, line: string, lines: seq<string>)
    requires TidyLine(first, line) && TidyLines(false, lines)
    ensures TidyLines(first, [line] + lines)
  {
    hide TidyLine;
  }

  lemma BlankIsTidy(first: bool)
    ensures Lines("\n") == ["\n"] && TidyLine(first, "\n")
  {
    assert TrimLeft("\n") == "\n";
    assert "\n"[..0] == "";
    LoneLine();
  }

  lemma OpenLineIsTidy(first: bool, t: string)
    requires t != "" && LineLength(t) == |t| && !Complete(t) && TidyLine(first, t)
    ensures TidyLine(first, t + "\n")
  {
    hide TidyHeader, Classify, LineLength, Trim;
    TrimNewline(t);
  }

  lemma {:induction false} NewlineIsTidy(first: bool, t: string)
    requires TidyLines(first, Lines(t))
    ensures TidyLines(first, Lines(t + "\n"))
    decreases |t|
  {
    hide TidyLine, LineLength;
    if t == "" {
      BlankIsTidy(first);
      assert t + "\n" == "\n";
    } else {
      var n := LineLength(t);
      RestIsTidy(first, Lines(t));
      if n == |t| && !Complete(t) {
        OpenLine(t);
        SingleLine(t);
        SingleLine(t + "\n");
        OpenLineIsTidy(first, t);
      } else {
        FirstLineKept(t);
        assert (t + "\n")[..n] == t[..n] && (t + "\n")[n..] == t[n..] + "\n";
        LinesUnfold(t);
        NewlineIsTidy(false, t[n..]);
        var rest := Lines(t[n..] + "\n");
        assert Lines(t + "\n") == [t[..n]] + rest;
        ConsTidy(first, t[..n], rest);
      }
    }
  }

  lemma TidyAppend(first: bool, a: seq<string>, b: seq<string>)
    requires TidyLines(first, a) && TidyLines(false, b)
    ensures TidyLines(first, a + b)
  {
    hide TidyLine;
    LaterIsTidy(first, b);
    forall i | 0 <= i < |a + b| ensures TidyLine(first && i == 0, (a + b)[i]) {
      assert i < |a| ==> (a + b)[i] == a[i];
      assert i >= |a| ==> (a + b)[i] == b[i - |a|];
    }
  }

  lemma Formed(t: string)
    ensures WellFormed(t) <==> TidyLines(true, Lines(t))
  {
  }

  // A well-formed file stays so when a section is replaced by tidy lines.
  lemma ReplaceIsWellFormed(t: string, section: string, written: string)
    requires WellFormed(t) && ValidSection(section) && TidyLines(false, Lines(written))
    ensures WellFormed(Replace(t, section, written))
  {
    hide *;
    var kept, header := Remaining(t, section), SectionHeader(section);
    ReplaceLines(t, section, written);
    WellFormedIsInTune(t);
    ValidIsNonEmpty(section);
    RemainingLines(t, section);
    Formed(t);
    KeptIsTidy("", true, Lines(t), section);
    NewlineIsTidy(true, kept);
    HeaderLine(section);
    ConsTidy(false, header, Lines(written));
    TidyAppend(true, Lines(kept + "\n"), [header] + Lines(written));
    Regrouped(Lines(kept + "\n"), [header], Lines(written));
    Formed(Replace(t, section, written));
  }
}
