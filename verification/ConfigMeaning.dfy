// Rewriting one section of a configuration file preserves what the file means to the reader.

module ConfigMeaning {
  import opened Bytes
  import opened ConfigText
  import opened ConfigLines
  import opened ConfigHeaders

  // ---------------------------------------------------------------- filtering entries

  lemma {:induction false} OthersAppend(a: seq<Entry>, b: seq<Entry>, section: string)
    ensures Others(a + b, section) == Others(a, section) + Others(b, section)
  {
    if a == [] {
      assert a + b == b;
    } else {
      assert (a + b)[1..] == a[1..] + b;
      OthersAppend(a[1..], b, section);
    }
  }

  lemma {:induction false} OthersAgain(a: seq<Entry>, section: string)
    ensures Others(Others(a, section), section) == Others(a, section)
  {
    if a != [] {
      OthersAgain(a[1..], section);
      var rest := Others(a[1..], section);
      if a[0].section != section {
        assert Others(a, section)[0] == a[0] && Others(a, section)[1..] == rest;
      } else {
        assert Others(a, section) == rest;
      }
    }
  }

  // ---------------------------------------------------------------- reading the kept lines

  // What the reader makes of the file (whole) and of the lines outside a section (kept).
  ghost predicate InStep(whole: Reading, kept: Reading, section: string)
  {
    && kept.entries == Others(whole.entries, section)
    && (whole.section != section ==> kept.section == whole.section)
    && (whole.first ==> kept.first)
    // The first kept line of a file that starts with dropped ones is a header.
    && (kept.first && !whole.first ==> whole.section == section)
  }

  lemma StepSection(st: Reading, line: string)
    ensures ReadStep(st, line).section == NextSection(st.section, ReaderHeader(st.first, line))
  {
    hide Classify, TextOf, Fits;
  }

  // A line that opens another section while the reader is first in the kept text only.
  lemma HeaderHasNoMark(first: bool, line: string)
    requires ReaderHeader(false, line).Some?
    ensures TextOf(first, line) == Trim(line) && ReaderHeader(first, line) == ReaderHeader(false, line)
  {
    hide Trim, Fits, Classify;
    OnlyBracketsAreHeaders(Trim(line));
  }

  // Whatever lets the line be dropped or kept, the reader takes it the same way in both texts.
  lemma SameText(whole: Reading, kept: Reading, section: string, line: string)
    requires InStep(whole, kept, section)
    requires NextSection(whole.section, ReaderHeader(whole.first, line)) != section
    ensures TextOf(kept.first, line) == TextOf(whole.first, line)
    ensures ReaderHeader(kept.first, line) == ReaderHeader(whole.first, line)
  {
    hide TextOf, ReaderHeader, Others;
    if kept.first != whole.first {
      HeaderHasNoMark(true, line);
      HeaderHasNoMark(false, line);
    }
  }

  lemma StepInStep(whole: Reading, kept: Reading, section: string, line: string)
    requires InStep(whole, kept, section)
    ensures var next := ReadStep(whole, line);
            InStep(next, if next.section == section then kept else ReadStep(kept, line), section)
  {
    hide Classify, TextOf, Fits;
    var c := if Fits(line) then Classify(TextOf(whole.first, line)) else Bad;
    StepSection(whole, line);
    if c.Pair? { OthersAppend(whole.entries, [Entry(whole.section, c.key, c.value)], section); }
    if ReadStep(whole, line).section != section { SameText(whole, kept, section, line); }
  }

  lemma NoLongerFirst(st: Reading, line: string)
    ensures !ReadStep(st, line).first
  {
  }

  // Reading the lines outside a section gives the entries outside that section.
  lemma {:induction false} RunInStep(whole: Reading, kept: Reading, section: string, lines: seq<string>)
    requires InStep(whole, kept, section)
    ensures InStep(ReadAll(whole, lines), ReadAll(kept, KeptLines(whole.section, whole.first, lines, section)), section)
    decreases |lines|
  {
    hide InStep, ReadStep, ReaderHeader;
    if lines != [] {
      var next := ReadStep(whole, lines[0]);
      StepInStep(whole, kept, section, lines[0]);
      StepSection(whole, lines[0]);
      NoLongerFirst(whole, lines[0]);
      var rest := KeptLines(next.section, false, lines[1..], section);
      if next.section == section {
        RunInStep(next, kept, section, lines[1..]);
        assert [] + rest == rest;
      } else {
        RunInStep(next, ReadStep(kept, lines[0]), section, lines[1..]);
        assert ([lines[0]] + rest)[1..] == rest;
      }
    }
  }

  // ---------------------------------------------------------------- the rewriter keeps those lines

  lemma {:induction false} LeadsKeep(current: string, pieces: seq<string>, next: string, section: string)
    requires Leads(current, pieces, next) && pieces != []
    ensures Keep(current == section, pieces, section) == if next == section then [] else pieces
    ensures SkipAfter(current == section, pieces, section) == (next == section)
    decreases |pieces|
  {
    hide SectionName;
    assert SkipNext(current == section, pieces[0], section) == (next == section);
    if |pieces| > 1 { LeadsKeep(next, pieces[1..], next, section); }
  }

  lemma {:induction false} KeepInTune(current: string, first: bool, lines: seq<string>, section: string)
    requires InTune(current, first, lines) && NonEmpty(lines)
    ensures Joined(Keep(current == section, PiecesOf(lines), section)) ==
            Joined(KeptLines(current, first, lines, section))
    decreases |lines|
  {
    hide ReaderHeader, SectionName, Pieces, Leads, Keep, SkipAfter;
    if lines == [] {
      NothingKept(current == section, section);
    } else {
      var line, next := lines[0], NextSection(current, ReaderHeader(first, lines[0]));
      assert NonEmpty(lines[1..]);
      KeepInTune(next, false, lines[1..], section);
      PiecesJoin(line);
      LeadsKeep(current, Pieces(line), next, section);
      KeepAppend(current == section, Pieces(line), PiecesOf(lines[1..]), section);
      JoinedAppend(Keep(current == section, Pieces(line), section), Keep(next == section, PiecesOf(lines[1..]), section));
      JoinedAppend(if next == section then [] else [line], KeptLines(next, false, lines[1..], section));
      JoinedOne(line);
    }
  }

  lemma NothingKept(skipping: bool, section: string)
    ensures Keep(skipping, [], section) == []
  {
  }

  lemma JoinedOne(line: string)
    ensures Joined([line]) == line && Joined([]) == ""
  {
    assert [line][1..] == [] && line + "" == line;
  }

  lemma {:induction false} KeptAreLines(current: string, first: bool, lines: seq<string>, section: string)
    requires AreLines(lines)
    ensures AreLines(KeptLines(current, first, lines, section))
    decreases |lines|
  {
    hide LineLength, ReaderHeader, Complete;
    if lines != [] {
      assert AreLines(lines[1..]);
      KeptAreLines(NextSection(current, ReaderHeader(first, lines[0])), false, lines[1..], section);
      if |lines| == 1 { assert lines[1..] == []; }
    }
  }

  // In a file that is in tune the rewriter leaves exactly the lines outside the section.
  lemma RemainingLines(t: string, section: string)
    requires TextInTune(t) && section != ""
    ensures Lines(Remaining(t, section)) == KeptLines("", true, Lines(t), section)
  {
    hide *;
    LinesAreLines(t);
    LinesNonEmpty(Lines(t));
    TextTune(t);
    KeepInTune("", true, Lines(t), section);
    PiecesByLines(t);
    RemainingIs(t, section);
    KeptAreLines("", true, Lines(t), section);
    LinesOfJoined(KeptLines("", true, Lines(t), section));
  }

  lemma LinesNonEmpty(lines: seq<string>)
    requires AreLines(lines)
    ensures NonEmpty(lines)
  {
    hide LineLength, Complete;
  }

  lemma RemainingIs(t: string, section: string)
    requires section != ""
    ensures Remaining(t, section) == Joined(Keep("" == section, Pieces(t), section))
  {
  }

  // Removing a section leaves the entries of all other sections, in order, and nothing else.
  lemma RemoveMeans(t: string, section: string)
    requires TextInTune(t) && section != ""
    ensures Read(Remaining(t, section)).entries == Others(Read(t).entries, section)
  {
    hide Lines, KeptLines, Remaining, ReadAll, TextInTune;
    RemainingLines(t, section);
    var st := Reading("", [], 0, true);
    RunInStep(st, st, section, Lines(t));
  }

  // ---------------------------------------------------------------- the appended section

  lemma {:induction false} ReadAppend(st: Reading, a: seq<string>, b: seq<string>)
    ensures ReadAll(st, a + b) == ReadAll(ReadAll(st, a), b)
    decreases |a|
  {
    if a == [] {
      assert a + b == b;
    } else {
      assert (a + b)[1..] == a[1..] + b;
      ReadAppend(ReadStep(st, a[0]), a[1..], b);
    }
  }

  lemma OpenLineReads(st: Reading, t: string)
    requires t != "" && LineLength(t) == |t| && !Complete(t)
    ensures ReadStep(st, t + "\n") == ReadStep(st, t)
    ensures ReaderHeader(st.first, t + "\n") == ReaderHeader(st.first, t)
  {
    hide Classify, LineLength, Trim;
    TrimNewline(t);
  }

  // A newline at the end of a file closes its last line or adds an empty one: the reader sees no
  // difference.
  lemma {:induction false} ExtraNewline(st: Reading, t: string)
    ensures ReadAll(st, Lines(t + "\n")) == ReadAll(st, Lines(t)).(first := false)
    decreases |t|
  {
    hide ReadStep, LineLength;
    if t == "" {
      LoneNewline(st);
      assert t + "\n" == "\n";
    } else {
      var n := LineLength(t);
      NoLongerFirst(st, t[..n]);
      NoLongerFirst(st, t + "\n");
      if n == |t| && !Complete(t) {
        OpenLine(t);
        SingleLine(t);
        SingleLine(t + "\n");
        OpenLineReads(st, t);
      } else {
        FirstLineKept(t);
        assert (t + "\n")[..n] == t[..n] && (t + "\n")[n..] == t[n..] + "\n";
        ExtraNewline(ReadStep(st, t[..n]), t[n..]);
        var rest := Lines(t[n..] + "\n");
        assert Lines(t + "\n") == [t[..n]] + rest;
        assert ([t[..n]] + rest)[1..] == rest;
      }
    }
  }

  lemma LoneNewline(st: Reading)
    ensures Lines("\n") == ["\n"] && ReadAll(st, ["\n"]) == st.(first := false)
  {
    assert "\n"[1..] == "" && "\n"[..1] == "\n";
    BlankLine(st.first);
    assert ReadStep(st, "\n") == st.(first := false);
  }

  lemma BlankLine(first: bool)
    ensures TextOf(first, "\n") == "" && Classify("") == Blank && ReaderHeader(first, "\n") == None
    ensures SectionName("\n") == None
  {
    assert TrimLeft("\n") == "\n";
    assert "\n"[..0] == "";
  }

  lemma TrimLeftSame(s: string)
    requires s != "" && !Indent(s[0])
    ensures TrimLeft(s) == s
  {
  }

  lemma TrimRightSame(s: string)
    requires s != "" ==> !Space(s[|s| - 1])
    ensures TrimRight(s) == s
  {
  }

  lemma TrimSame(s: string)
    requires s != "" ==> !Indent(s[0]) && !Space(s[|s| - 1])
    ensures Trim(s) == s
  {
    if s != "" { TrimLeftSame(s); }
    TrimRightSame(s);
  }

  lemma BracketsTrim(section: string)
    ensures Trim(SectionHeader(section)) == "[" + section + "]"
  {
    hide TrimLeft, TrimRight, Trim;
    var text := "[" + section + "]";
    TrimNewline(text);
    TrimSame(text);
  }

  lemma BracketsAt(section: string, rest: string)
    requires ']' !in section
    ensures var text := "[" + section + "]" + rest;
            && IndexOf(text[1..], ']') == |section|
            && text[1..|section| + 1] == section && text[|section| + 2..] == rest
  {
    var text := "[" + section + "]" + rest;
    assert forall k :: 0 <= k < |section| ==> text[1..][k] == section[k];
    assert text[1..][|section|] == ']';
    IndexOfIs(text[1..], ']', |section|);
  }

  lemma BracketsClassify(section: string)
    requires ValidSection(section)
    ensures Classify("[" + section + "]") == Header(section) && TidyHeader("[" + section + "]")
  {
    hide TrimLeft, TrimRight, TrimIndents, IndexOf;
    BracketsAt(section, "");
    assert "[" + section + "]" + "" == "[" + section + "]";
    TrimSame(section);
    TrimSame("");
    TrimLeftSame(section);
    TrimIndentsSame(section);
  }

  lemma HeaderIsOneLine(section: string)
    requires '\n' !in section
    ensures Lines(SectionHeader(section)) == [SectionHeader(section)] && Complete(SectionHeader(section))
  {
    var line := SectionHeader(section);
    assert forall k :: 0 <= k <= |section| + 1 ==> line[k] != '\n';
    IndexOfIs(line, '\n', |section| + 2);
    SingleLine(line);
  }

  // The emitted header is one line that opens the section for reader and rewriter.
  lemma HeaderLine(section: string)
    requires ValidSection(section)
    ensures var line := SectionHeader(section);
            && Lines(line) == [line] && Complete(line) && TidyLine(false, line) && Trim(line)[0] == '['
            && ReaderHeader(false, line) == Some(section) == SectionName(line)
  {
    hide TrimLeft, TrimRight, Trim, TidyHeader, Classify, Lines, SectionName, ReaderHeader;
    var line := SectionHeader(section);
    HeaderIsOneLine(section);
    BracketsTrim(section);
    BracketsClassify(section);
    HeadersAgree(line);
    ReadersHeader(false, line);
  }

  // The sections whose emitted header the reader takes for what it names.
  lemma ValidSectionIff(section: string)
    ensures ValidSection(section) <==>
            Lines(SectionHeader(section)) == [SectionHeader(section)] &&
            ReaderHeader(false, SectionHeader(section)) == Some(section)
  {
    hide Trim, Classify, Lines, SectionHeader, ValidSection;
    if ValidSection(section) { HeaderLine(section); }
    var line := SectionHeader(section);
    if Lines(line) == [line] && ReaderHeader(false, line) == Some(section) {
      OneLineHeader(section);
      ReadersHeader(false, line);
      BracketsTrim(section);
      OnlyBracketsAreHeaders("[" + section + "]");
      NamedBrackets(section);
      IsValid(section);
    }
  }

  lemma OneLineHeader(section: string)
    requires Lines(SectionHeader(section)) == [SectionHeader(section)]
    ensures '\n' !in section
  {
    hide Lines;
    var line := SectionHeader(section);
    LinesUnfold(line);
    assert LineLength(line) == |line|;
    forall k | 0 <= k < |section| ensures section[k] != '\n' { assert line[k + 1] == section[k]; }
  }

  lemma NamedBrackets(section: string)
    requires ClassifyHeader("[" + section + "]") == Header(section)
    ensures ']' !in section && Trim(section) == section && 0 < |section| < SECTION_MAX
  {
    hide TrimLeft, TrimRight, IndexOf, Trim;
    var text := "[" + section + "]";
    var end := IndexOf(text[1..], ']');
    assert text[1..][|section|] == ']';
    assert |Trim(text[1..end + 1])| <= end by { TrimNotLonger(text[1..end + 1]); }
    assert end == |section| && text[1..end + 1] == section;
    forall k | 0 <= k < |section| ensures section[k] != ']' { assert text[1..][k] == section[k]; }
  }

  lemma TrimNotLonger(s: string)
    ensures |Trim(s)| <= |s|
  {
  }

  lemma IsValid(section: string)
    requires ']' !in section && '\n' !in section && Trim(section) == section && 0 < |section| < SECTION_MAX
    ensures ValidSection(section)
  {
    hide Trim;
    TrimmedEnds(section);
  }

  lemma TrimmedEnds(s: string)
    requires s != "" && Trim(s) == s
    ensures !Indent(s[0]) && !Space(s[|s| - 1])
  {
  }

  lemma TrimIndentsSame(s: string)
    requires s != "" && !Indent(s[|s| - 1])
    ensures TrimIndents(s) == s
  {
  }

  // The reader only ever adds entries, and what it adds depends on the section and the text.
  lemma {:induction false} EntriesAreAdded(st: Reading, lines: seq<string>)
    ensures ReadAll(st, lines).entries == st.entries + ReadAll(st.(entries := [], errors := 0), lines).entries
    decreases |lines|
  {
    hide Classify, TextOf;
    if lines != [] {
      var l := lines[0];
      var st0 := st.(entries := [], errors := 0);
      var a, b := ReadStep(st, l), ReadStep(st0, l);
      EntriesAreAdded(a, lines[1..]);
      EntriesAreAdded(b, lines[1..]);
      assert a.(entries := [], errors := 0) == b.(entries := [], errors := 0);
      assert a.entries == st.entries + b.entries;
    }
  }

  // ---------------------------------------------------------------- what a rewrite means

  lemma ReplaceIs(t: string, section: string, written: string)
    ensures Replace(t, section, written) == (Remaining(t, section) + "\n") + (SectionHeader(section) + written)
  {
    hide Remaining, SectionHeader;
  }

  lemma ClosedIsComplete(t: string)
    ensures Complete(t + "\n")
  {
  }

  lemma Regrouped(a: seq<string>, b: seq<string>, c: seq<string>)
    ensures a + b + c == a + (b + c)
  {
  }

  lemma ReplaceLines(t: string, section: string, written: string)
    requires ValidSection(section)
    ensures Lines(Replace(t, section, written)) ==
            Lines(Remaining(t, section) + "\n") + [SectionHeader(section)] + Lines(written)
  {
    hide *;
    var kept, header := Remaining(t, section), SectionHeader(section);
    ReplaceIs(t, section, written);
    HeaderLine(section);
    ClosedIsComplete(kept);
    LinesAppend(kept + "\n", header + written);
    LinesAppend(header, written);
    Regrouped(Lines(kept + "\n"), [header], Lines(written));
  }

  // Replacing a section keeps the entries of all other sections, in order, and adds exactly what
  // the writer's text says when read under that section.
  lemma ReplaceMeans(t: string, section: string, written: string)
    requires TextInTune(t) && ValidSection(section)
    ensures Read(Replace(t, section, written)).entries ==
            Others(Read(t).entries, section) + ReadFrom(section, written).entries
  {
    hide Lines, Remaining, Replace, ReadStep, ValidSection, TextInTune, SectionHeader;
    var st := Reading("", [], 0, true);
    var kept, header := Remaining(t, section), SectionHeader(section);
    ReplaceLines(t, section, written);
    RemoveMeansFor(t, section);
    ExtraNewline(st, kept);
    ReadAppend(st, Lines(kept + "\n") + [header], Lines(written));
    ReadAppend(st, Lines(kept + "\n"), [header]);
    var before := ReadAll(st, Lines(kept + "\n"));
    HeaderReads(before, section);
    assert ReadAll(before, [header]) == ReadStep(before, header);
    EntriesAreAdded(before.(section := section), Lines(written));
    assert before.(section := section, entries := [], errors := 0) == Reading(section, [], 0, false);
  }

  lemma RemoveMeansFor(t: string, section: string)
    requires TextInTune(t) && ValidSection(section)
    ensures Read(Remaining(t, section)).entries == Others(Read(t).entries, section)
  {
    RemoveMeans(t, section);
  }

  lemma HeaderReads(st: Reading, section: string)
    requires ValidSection(section) && !st.first
    ensures ReadStep(st, SectionHeader(section)) == st.(section := section)
  {
    hide Trim, Classify, TidyHeader, SectionHeader, ValidSection, Fits;
    HeaderLine(section);
  }

  // ---------------------------------------------------------------- rewriting again

  // A kept line agrees in the kept text as well, where the section before it may be another one.
  lemma LeadsElsewhere(current: string, kept: string, pieces: seq<string>, next: string, section: string)
    requires Leads(current, pieces, next) && next != section && (current != section ==> kept == current)
    ensures Leads(kept, pieces, next)
  {
    hide SectionName;
  }

  lemma {:induction false} KeptInTune(whole: Reading, kept: Reading, lines: seq<string>, section: string)
    requires InTune(whole.section, whole.first, lines) && NonEmpty(lines) && InStep(whole, kept, section)
    ensures InTune(kept.section, kept.first, KeptLines(whole.section, whole.first, lines, section))
    decreases |lines|
  {
    hide InStep, ReadStep, ReaderHeader, Leads, Pieces;
    if lines != [] {
      var line, next := lines[0], ReadStep(whole, lines[0]);
      assert NonEmpty(lines[1..]);
      StepInStep(whole, kept, section, line);
      StepSection(whole, line);
      StepSection(kept, line);
      NoLongerFirst(whole, line);
      NoLongerFirst(kept, line);
      var rest := KeptLines(next.section, false, lines[1..], section);
      if next.section == section {
        KeptInTune(next, kept, lines[1..], section);
        assert [] + rest == rest;
      } else {
        KeptInTune(next, ReadStep(kept, line), lines[1..], section);
        SameText(whole, kept, section, line);
        KeptSection(whole, kept, section, line);
        assert ([line] + rest)[1..] == rest;
      }
    }
  }

  lemma KeptSection(whole: Reading, kept: Reading, section: string, line: string)
    requires InStep(whole, kept, section) && line != ""
    requires Agrees(whole.section, whole.first, line)
    requires NextSection(whole.section, ReaderHeader(whole.first, line)) != section
    ensures Agrees(kept.section, kept.first, line)
    ensures NextSection(kept.section, ReaderHeader(kept.first, line)) ==
            NextSection(whole.section, ReaderHeader(whole.first, line))
  {
    hide ReaderHeader, Leads, Pieces, Others;
    SameText(whole, kept, section, line);
    var next := NextSection(whole.section, ReaderHeader(whole.first, line));
    LeadsElsewhere(whole.section, kept.section, Pieces(line), next, section);
  }

  lemma {:induction false} TuneAppend(current: string, first: bool, a: seq<string>, b: seq<string>)
    requires InTune(current, first, a) && InTune(ReaderSection(current, first, a), first && a == [], b)
    ensures InTune(current, first, a + b)
    decreases |a|
  {
    hide ReaderHeader, Agrees;
    if a == [] {
      assert a + b == b;
    } else {
      assert (a + b)[1..] == a[1..] + b;
      TuneAppend(NextSection(current, ReaderHeader(first, a[0])), false, a[1..], b);
    }
  }

  lemma SectionNameNewline(piece: string)
    ensures SectionName(piece + "\n") == SectionName(piece)
  {
    hide TrimIndents, TrimLeft, IndexOf;
    TrimLeftNewline(piece);
    var start := TrimLeft(piece);
    if start != "" && start[0] == '[' { BracketNewline(start); }
  }

  lemma BracketNewline(start: string)
    requires start != ""
    ensures var e, f := IndexOf(start[1..], ']'), IndexOf((start + "\n")[1..], ']');
            && (e == |start| - 1 <==> f == |start|)
            && (e < |start| - 1 ==> e == f && (start + "\n")[1..e + 1] == start[1..e + 1])
  {
    assert (start + "\n")[1..] == start[1..] + "\n";
    IndexOfNewline(start[1..]);
  }

  lemma IndexOfNewline(s: string)
    ensures IndexOf(s + "\n", ']') == if IndexOf(s, ']') < |s| then IndexOf(s, ']') else |s| + 1
  {
    var i := IndexOf(s, ']');
    if i < |s| {
      IndexOfIs(s + "\n", ']', i);
    } else {
      assert forall k :: 0 <= k <= |s| ==> (s + "\n")[k] != ']';
    }
  }

  // Closing an open line changes neither its header nor where its pieces lead.
  lemma {:induction false} NewlineLeads(current: string, line: string, next: string)
    requires line != "" && '\n' !in line && Leads(current, Pieces(line), next)
    ensures Leads(current, Pieces(line + "\n"), next)
    decreases |line|
  {
    hide SectionName, LineLength, Pieces;
    var whole := line + "\n";
    NewlineCloses(line);
    PiecesUnfold(line);
    PiecesUnfold(whole);
    if |line| < LINE_MAX - 1 {
      SectionNameNewline(line);
      assert line[..|line|] == line && whole[..|whole|] == whole;
      NothingLeft(line[|line|..]);
      NothingLeft(whole[|whole|..]);
    } else {
      var p := LINE_MAX - 1;
      assert line[..p] == whole[..p] && whole[p..] == line[p..] + "\n";
      if |line| == p {
        NewlinePiece();
        NothingLeft(line[p..]);
        assert whole[p..] == "\n" && ["\n"][1..] == [];
        assert Leads(next, ["\n"], next);
      } else {
        NewlineLeads(next, line[p..], next);
      }
    }
  }

  lemma NothingLeft(t: string)
    requires t == ""
    ensures Pieces(t) == []
  {
  }

  lemma NewlineCloses(line: string)
    requires line != "" && '\n' !in line
    ensures LineLength(line) == |line| && LineLength(line + "\n") == |line| + 1
  {
    assert forall k :: 0 <= k < |line| ==> line[k] != '\n';
    IndexOfIs(line + "\n", '\n', |line|);
  }

  lemma NewlinePiece()
    ensures Pieces("\n") == ["\n"] && SectionName("\n") == None
  {
    BlankLine(false);
    assert LineLength("\n") == 1;
    OnePiece("\n");
  }

  lemma OpenLineAgrees(current: string, first: bool, line: string)
    requires line != "" && LineLength(line) == |line| && !Complete(line) && Agrees(current, first, line)
    ensures Agrees(current, first, line + "\n")
    ensures ReaderHeader(first, line + "\n") == ReaderHeader(first, line)
  {
    hide ReaderHeader, Leads, Pieces, LineLength;
    OpenLineReads(Reading(current, [], 0, first), line);
    OpenHasNoNewline(line);
    NewlineLeads(current, line, NextSection(current, ReaderHeader(first, line)));
  }

  lemma OpenHasNoNewline(line: string)
    requires line != "" && LineLength(line) == |line| && !Complete(line)
    ensures '\n' !in line
  {
  }

  lemma BlankAgrees(current: string, first: bool)
    ensures Agrees(current, first, "\n")
  {
    hide ReaderHeader, SectionName;
    BlankLine(first);
    NewlinePiece();
    assert ["\n"][1..] == [];
  }

  lemma LoneLine()
    ensures Lines("\n") == ["\n"]
  {
    assert "\n"[1..] == "" && "\n"[..1] == "\n";
  }

  lemma {:induction false} NewlineInTune(current: string, first: bool, t: string)
    requires InTune(current, first, Lines(t))
    ensures InTune(current, first, Lines(t + "\n")) && Lines(t + "\n") != []
    decreases |t|
  {
    hide Agrees, LineLength, ReaderHeader;
    if t == "" {
      BlankAgrees(current, first);
      LoneLine();
      assert t + "\n" == "\n";
    } else {
      var n := LineLength(t);
      if n == |t| && !Complete(t) {
        OpenLine(t);
        SingleLine(t);
        SingleLine(t + "\n");
        OpenLineAgrees(current, first, t);
      } else {
        FirstLineKept(t);
        assert (t + "\n")[..n] == t[..n] && (t + "\n")[n..] == t[n..] + "\n";
        LinesUnfold(t);
        NewlineInTune(NextSection(current, ReaderHeader(first, t[..n])), false, t[n..]);
        var rest := Lines(t[n..] + "\n");
        assert Lines(t + "\n") == [t[..n]] + rest;
        assert ([t[..n]] + rest)[1..] == rest;
      }
    }
  }

  lemma HeaderAgrees(current: string, section: string)
    requires ValidSection(section)
    ensures Agrees(current, false, SectionHeader(section))
    ensures ReaderHeader(false, SectionHeader(section)) == Some(section)
  {
    hide *;
    HeaderLine(section);
    HeaderFits(section);
    FittingAgrees(current, false, SectionHeader(section));
    SomeIsNext(current, section);
  }

  lemma SomeIsNext(current: string, section: string)
    ensures NextSection(current, Some(section)) == section
  {
  }

  lemma ValidIsNonEmpty(section: string)
    requires ValidSection(section)
    ensures section != ""
  {
  }

  lemma HeaderFits(section: string)
    requires ValidSection(section)
    ensures var line := SectionHeader(section); line != "" && LineLength(line) == |line| && Fits(line)
  {
    var line := SectionHeader(section);
    assert forall k :: 0 <= k <= |section| + 1 ==> line[k] != '\n';
    IndexOfIs(line, '\n', |section| + 2);
  }

  lemma {:induction false} StaysInTune(section: string, lines: seq<string>)
    requires StaysIn(section, lines)
    ensures InTune(section, false, lines)
  {
    hide ReaderHeader, Pieces, Leads;
    if lines != [] {
      LeadsBack(section, Pieces(lines[0]));
      StaysInTune(section, lines[1..]);
    }
  }

  // A rewritten file is in tune again, so it can be rewritten any number of times.
  lemma ReplaceIsInTune(t: string, section: string, written: string)
    requires TextInTune(t) && ValidSection(section) && WriterText(section, written)
    ensures TextInTune(Replace(t, section, written))
  {
    hide *;
    var kept, header := Remaining(t, section), SectionHeader(section);
    ReplaceLines(t, section, written);
    ValidIsNonEmpty(section);
    RemainsInTune(t, section);
    TextTune(kept);
    NewlineInTune("", true, kept);
    HeaderAgrees(ReaderSection("", true, Lines(kept + "\n")), section);
    WriterStays(section, written);
    StaysInTune(section, Lines(written));
    TuneHeader(ReaderSection("", true, Lines(kept + "\n")), section, header, Lines(written));
    NotFirst(true, Lines(kept + "\n"));
    TuneAppend("", true, Lines(kept + "\n"), [header] + Lines(written));
    Regrouped(Lines(kept + "\n"), [header], Lines(written));
    TextTune(Replace(t, section, written));
  }

  lemma NotFirst(first: bool, lines: seq<string>)
    requires lines != []
    ensures (first && lines == []) == false
  {
  }

  lemma WriterStays(section: string, written: string)
    ensures WriterText(section, written) == StaysIn(section, Lines(written))
  {
  }

  lemma TuneHeader(current: string, section: string, header: string, lines: seq<string>)
    requires Agrees(current, false, header) && ReaderHeader(false, header) == Some(section)
    requires InTune(section, false, lines)
    ensures InTune(current, false, [header] + lines)
  {
    hide Agrees, ReaderHeader;
    assert ([header] + lines)[1..] == lines;
  }

  // So is a file from which a section was removed.
  lemma RemainsInTune(t: string, section: string)
    requires TextInTune(t) && section != ""
    ensures TextInTune(Remaining(t, section))
  {
    hide Lines, KeptLines, Remaining, InTune;
    var st := Reading("", [], 0, true);
    RemainingLines(t, section);
    LinesAreLines(t);
    LinesNonEmpty(Lines(t));
    KeptInTune(st, st, Lines(t), section);
  }

  lemma {:induction false} WriterStaysInSection(st: Reading, lines: seq<string>)
    requires !st.first && StaysIn(st.section, lines)
    ensures ReadAll(st, lines).section == st.section
    ensures st.entries == [] ==> Others(ReadAll(st, lines).entries, st.section) == []
    decreases |lines|
  {
    hide ReadStep, ReaderHeader;
    if lines != [] {
      var next := ReadStep(st, lines[0]);
      StepSection(st, lines[0]);
      NoLongerFirst(st, lines[0]);
      StepEntries(st, lines[0]);
      assert StaysIn(st.section, lines[1..]);
      WriterStaysInSection(next.(entries := [], errors := 0), lines[1..]);
      WriterStaysInSection(next, lines[1..]);
      EntriesAreAdded(next, lines[1..]);
      OthersAppend(next.entries, ReadAll(next.(entries := [], errors := 0), lines[1..]).entries, st.section);
    }
  }

  lemma StepEntries(st: Reading, line: string)
    ensures st.entries == [] ==> Others(ReadStep(st, line).entries, st.section) == []
  {
    hide Classify, TextOf, Fits;
  }

  // Replacing a section twice reads as the second replacement alone.
  lemma ReplaceTwice(t: string, section: string, first: string, second: string)
    requires TextInTune(t) && ValidSection(section) && WriterText(section, first)
    ensures Read(Replace(Replace(t, section, first), section, second)).entries ==
            Read(Replace(t, section, second)).entries
  {
    hide Lines, Replace, Read, TextInTune, ValidSection, StaysIn;
    ReplaceIsInTune(t, section, first);
    ReplaceMeans(t, section, first);
    ReplaceMeans(t, section, second);
    ReplaceMeans(Replace(t, section, first), section, second);
    var others := Others(Read(t).entries, section);
    WriterStaysInSection(Reading(section, [], 0, false), Lines(first));
    OthersAppend(others, ReadFrom(section, first).entries, section);
    OthersAgain(Read(t).entries, section);
  }
}
