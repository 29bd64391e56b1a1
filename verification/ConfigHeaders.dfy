// When reader and rewriter of a configuration file agree on which line is in which section: for a
// single header, for a single line, and for every position of a whole file.

module ConfigHeaders {
  import opened Bytes
  import opened ConfigText
  import opened ConfigLines

  // ---------------------------------------------------------------- one header

  lemma TrimIsPrefix(s: string)
    ensures TrimRight(s) <= TrimIndents(s)
  {
  }

  lemma BracketIsKept(start: string)
    requires start != "" && start[0] == '['
    ensures var text := TrimRight(start);
            && text != "" && text[0] == '['
            && var e, f := IndexOf(start[1..], ']'), IndexOf(text[1..], ']');
               && (e == |start| - 1 <==> f == |text| - 1)
               && (f < |text| - 1 ==> e == f && start[1..e + 1] == text[1..f + 1])
  {
    hide TrimRight, IndexOf;
    TrimKeepsFirst(start);
    var text := TrimRight(start);
    BracketInPrefix(start[1..], text[1..]);
    assert forall n :: 0 <= n <= |text| - 1 ==> start[1..n + 1] == start[1..][..n] && text[1..n + 1] == text[1..][..n];
  }

  lemma TrimKeepsFirst(start: string)
    requires start != "" && start[0] == '['
    ensures var text := TrimRight(start);
            && text != "" && text[0] == '[' && text[1..] <= start[1..]
            && forall i :: |text| - 1 <= i < |start| - 1 ==> Space(start[1..][i])
  {
    hide TrimRight;
    var text := TrimRight(start);
    assert text == start[..|text|];
    if text == "" { assert false; }
    assert text[1..] == start[1..][..|text| - 1];
  }

  // A bracket is not trimmed away.
  lemma BracketInPrefix(s: string, t: string)
    requires t <= s && forall i :: |t| <= i < |s| ==> Space(s[i])
    ensures var e, f := IndexOf(s, ']'), IndexOf(t, ']');
            && (e == |s| <==> f == |t|) && (f < |t| ==> e == f && s[..e] == t[..f])
  {
    hide IndexOf;
    var e, f := IndexOf(s, ']'), IndexOf(t, ']');
    if f < |t| {
      assert s[f] == t[f];
      IndexOfIs(s, ']', f);
    } else if e < |s| {
      assert false;
    }
  }

  function HeaderOf(line: Line): Option<string>
  {
    match line
    case Header(name) => Some(name)
    case _ => None
  }

  // Without a byte order mark in the way, the rewriter takes a line for the header the reader
  // takes it for exactly when the line is tidy.
  lemma HeadersAgree(line: string)
    ensures SectionName(line) == HeaderOf(Classify(Trim(line))) <==> TidyHeader(Trim(line))
  {
    hide TrimLeft, TrimRight, TrimIndents, IndexOf, TidyHeader, ClassifyHeader, Classify, BareHeader, SectionName;
    var start := TrimLeft(line);
    OnlyBracketsAreHeaders(Trim(line));
    NamesOfBrackets(line);
    if start != "" && start[0] == '[' { BareNames(Trim(line)); } else { NoBracketIsTidy(start); }
  }

  // The rewriter's header of a line is that of its trimmed text.
  lemma NamesOfBrackets(line: string)
    ensures var start, text := TrimLeft(line), Trim(line);
            if start == "" || start[0] != '[' then SectionName(line) == None
            else text != "" && text[0] == '[' && SectionName(line) == BareHeader(text)
  {
    hide TrimLeft, TrimRight, TrimIndents, IndexOf;
    var start := TrimLeft(line);
    if start != "" && start[0] == '[' { BracketIsKept(start); }
  }

  lemma NoBracketIsTidy(start: string)
    requires start == "" || start[0] != '['
    ensures var text := TrimRight(start); (text == "" || text[0] != '[') && TidyHeader(text)
  {
  }

  lemma OnlyBracketsAreHeaders(text: string)
    ensures Classify(text).Header? ==> text != "" && text[0] == '['
    ensures text != "" && text[0] == '[' ==> Classify(text) == ClassifyHeader(text)
  {
  }

  // The name of a header as the rewriter takes it.
  function BareHeader(text: string): Option<string>
    requires text != ""
  {
    var end := IndexOf(text[1..], ']');
    if end == |text| - 1 then None
    else
      var bare := TrimIndents(TrimLeft(text[1..end + 1]));
      if 0 < |bare| < SECTION_MAX then Some(bare) else None
  }

  lemma BareNames(text: string)
    requires text != "" && text[0] == '['
    ensures BareHeader(text) == HeaderOf(ClassifyHeader(text)) <==> TidyHeader(text)
  {
    hide TrimLeft, TrimRight, TrimIndents, IndexOf;
    var end := IndexOf(text[1..], ']');
    if end < |text| - 1 { TrimIsPrefix(TrimLeft(text[1..end + 1])); }
  }

  // ---------------------------------------------------------------- one line

  lemma {:induction false} LeadsBack(current: string, pieces: seq<string>)
    ensures Leads(current, pieces, current) <==> forall p :: p in pieces ==> NoneOr(SectionName(p), current)
    decreases |pieces|
  {
    hide SectionName;
    if pieces != [] { LeadsBack(current, pieces[1..]); }
  }

  lemma FittingLine(line: string)
    requires line != "" && LineLength(line) == |line| && Fits(line)
    ensures Pieces(line) == [line]
  {
    OnePiece(line);
  }

  lemma MarkedLine(line: string)
    requires Bom(Trim(line))
    ensures SectionName(line) == None && TidyHeader(Trim(line))
  {
    hide TrimRight, IndexOf;
  }

  lemma ReadersHeader(first: bool, line: string)
    ensures ReaderHeader(first, line) == if Fits(line) then HeaderOf(Classify(TextOf(first, line))) else None
  {
    hide Classify, TextOf, Fits;
  }

  lemma LeadsOne(current: string, piece: string, next: string)
    ensures Leads(current, [piece], next) <==> NextSection(current, SectionName(piece)) == next
  {
    hide SectionName;
    assert [piece][1..] == [];
  }

  lemma FittingAgrees(current: string, first: bool, line: string)
    requires line != "" && LineLength(line) == |line| && Fits(line)
    ensures Agrees(current, first, line) <==>
            NextSection(current, SectionName(line)) == NextSection(current, ReaderHeader(first, line))
  {
    hide Fits, Classify, TextOf, SectionName, LineLength, Pieces, ReaderHeader;
    FittingLine(line);
    LeadsOne(current, line, NextSection(current, ReaderHeader(first, line)));
  }

  lemma OverlongAgrees(current: string, first: bool, line: string)
    requires !Fits(line)
    ensures Agrees(current, first, line) <==> forall p :: p in Pieces(line) ==> NoneOr(SectionName(p), current)
  {
    hide Fits, Classify, TextOf, SectionName, Pieces, Leads;
    LeadsBack(current, Pieces(line));
  }

  // When a line agrees: an overlong one when none of its pieces opens another section; one that
  // fits when it is tidy or opens no other section; one behind a byte order mark when its header,
  // which the rewriter cannot see, opens no other section.
  lemma AgreesIff(current: string, first: bool, line: string)
    requires line != "" && LineLength(line) == |line|
    ensures !Fits(line) ==>
              (Agrees(current, first, line) <==> forall p :: p in Pieces(line) ==> NoneOr(SectionName(p), current))
    ensures Fits(line) && !(first && Bom(Trim(line))) ==>
              (Agrees(current, first, line) <==> TidyHeader(Trim(line)) || Reopens(current, first, line))
    ensures Fits(line) && first && Bom(Trim(line)) ==>
              (Agrees(current, first, line) <==> NoneOr(ReaderHeader(first, line), current))
  {
    hide Fits, Classify, TidyHeader, SectionName, Trim, LineLength, Pieces, Agrees, ReaderHeader;
    ReadersHeader(first, line);
    if !Fits(line) {
      OverlongAgrees(current, first, line);
    } else {
      FittingAgrees(current, first, line);
      if first && Bom(Trim(line)) { MarkedLine(line); } else { HeadersAgree(line); }
    }
  }

  // ---------------------------------------------------------------- every position

  lemma {:induction false} SkipIsSection(current: string, section: string, pieces: seq<string>)
    ensures SkipAfter(current == section, pieces, section) == (RewriterSection(current, pieces) == section)
    decreases |pieces|
  {
    hide SectionName;
    if pieces != [] { SkipIsSection(NextSection(current, SectionName(pieces[0])), section, pieces[1..]); }
  }

  lemma {:induction false} RewriterAppend(current: string, a: seq<string>, b: seq<string>)
    ensures RewriterSection(current, a + b) == RewriterSection(RewriterSection(current, a), b)
    decreases |a|
  {
    hide SectionName;
    if a == [] {
      assert a + b == b;
    } else {
      assert (a + b)[1..] == a[1..] + b;
      RewriterAppend(NextSection(current, SectionName(a[0])), a[1..], b);
    }
  }

  lemma {:induction false} LeadsAt(current: string, pieces: seq<string>, next: string, j: nat)
    requires Leads(current, pieces, next) && j < |pieces|
    ensures RewriterSection(current, pieces[..j + 1]) == next
    decreases |pieces|
  {
    hide SectionName;
    var after := NextSection(current, SectionName(pieces[0]));
    assert pieces[..j + 1][1..] == pieces[1..][..j];
    if j > 0 { LeadsAt(after, pieces[1..], next, j - 1); }
  }

  lemma {:induction false} LeadsIfAt(current: string, pieces: seq<string>, next: string)
    requires forall j :: 0 < j <= |pieces| ==> RewriterSection(current, pieces[..j]) == next
    ensures Leads(current, pieces, next)
    decreases |pieces|
  {
    hide SectionName;
    if pieces != [] {
      var after := NextSection(current, SectionName(pieces[0]));
      assert after == next by {
        assert pieces[..1][1..] == [];
        assert RewriterSection(current, pieces[..1]) == after;
      }
      forall j | 0 < j <= |pieces[1..]| ensures RewriterSection(next, pieces[1..][..j]) == next {
        assert pieces[..j + 1][1..] == pieces[1..][..j];
        assert RewriterSection(current, pieces[..j + 1]) == next;
      }
      LeadsIfAt(next, pieces[1..], next);
    }
  }

  // What the rewriter has read when it has read the given piece of the given line.
  function UpTo(lines: seq<string>, i: nat, j: nat): seq<string>
    requires i < |lines| && j < |Pieces(lines[i])|
  {
    PiecesOf(lines[..i]) + Pieces(lines[i])[..j + 1]
  }

  ghost predicate NonEmpty(lines: seq<string>) { forall i :: 0 <= i < |lines| ==> lines[i] != "" }

  // At every piece of every line the rewriter is in the section the reader is in after that line.
  ghost predicate SameSections(current: string, first: bool, lines: seq<string>)
  {
    forall i, j :: 0 <= i < |lines| && 0 <= j < |Pieces(lines[i])| ==>
      RewriterSection(current, UpTo(lines, i, j)) == ReaderSection(current, first, lines[..i + 1])
  }

  lemma UpToStart(lines: seq<string>, j: nat)
    requires lines != [] && j < |Pieces(lines[0])|
    ensures UpTo(lines, 0, j) == Pieces(lines[0])[..j + 1]
  {
    assert [] + Pieces(lines[0])[..j + 1] == Pieces(lines[0])[..j + 1];
  }

  lemma UpToRest(lines: seq<string>, i: nat, j: nat)
    requires 0 < i < |lines| && j < |Pieces(lines[i])|
    ensures UpTo(lines, i, j) == Pieces(lines[0]) + UpTo(lines[1..], i - 1, j)
  {
    assert lines[..i][1..] == lines[1..][..i - 1];
  }

  lemma ReaderUnfolds(current: string, first: bool, lines: seq<string>, i: nat)
    requires 0 <= i < |lines|
    ensures ReaderSection(current, first, lines[..i + 1]) ==
            ReaderSection(NextSection(current, ReaderHeader(first, lines[0])), false, lines[1..][..i])
  {
    hide ReaderHeader;
    assert lines[..i + 1][1..] == lines[1..][..i];
  }

  lemma {:induction false} TuneIsSameSections(current: string, first: bool, lines: seq<string>)
    requires NonEmpty(lines)
    ensures InTune(current, first, lines) <==> SameSections(current, first, lines)
    decreases |lines|
  {
    hide ReaderHeader, SectionName, Pieces, Leads, RewriterSection, SameSections, UpTo, ReaderSection;
    if lines == [] {
      NothingIsSame(current, first);
    } else {
      var next := NextSection(current, ReaderHeader(first, lines[0]));
      FirstLineAgrees(current, first, lines);
      assert NonEmpty(lines[1..]);
      TuneIsSameSections(next, false, lines[1..]);
      if Agrees(current, first, lines[0]) {
        RestIsSame(current, first, lines);
      }
    }
  }

  lemma NothingIsSame(current: string, first: bool)
    ensures SameSections(current, first, [])
  {
  }

  // The first line's part of SameSections.
  lemma FirstLineAgrees(current: string, first: bool, lines: seq<string>)
    requires lines != []
    ensures SameSections(current, first, lines) ==> Agrees(current, first, lines[0])
  {
    hide ReaderHeader, SectionName, Pieces, Leads, RewriterSection, UpTo;
    var next := NextSection(current, ReaderHeader(first, lines[0]));
    if SameSections(current, first, lines) {
      forall j | 0 < j <= |Pieces(lines[0])| ensures RewriterSection(current, Pieces(lines[0])[..j]) == next {
        UpToStart(lines, j - 1);
        ReaderUnfolds(current, first, lines, 0);
        assert RewriterSection(current, UpTo(lines, 0, j - 1)) == ReaderSection(current, first, lines[..0 + 1]);
      }
      LeadsIfAt(current, Pieces(lines[0]), next);
    }
  }

  lemma AfterLine(current: string, line: string, next: string)
    requires line != "" && Leads(current, Pieces(line), next)
    ensures RewriterSection(current, Pieces(line)) == next
  {
    hide RewriterSection, Leads;
    PiecesJoin(line);
    LeadsAt(current, Pieces(line), next, |Pieces(line)| - 1);
    assert Pieces(line)[..|Pieces(line)|] == Pieces(line);
  }

  // When the first line agrees, the other lines decide.
  lemma RestIsSame(current: string, first: bool, lines: seq<string>)
    requires lines != [] && lines[0] != "" && Agrees(current, first, lines[0])
    ensures SameSections(current, first, lines) <==>
            SameSections(NextSection(current, ReaderHeader(first, lines[0])), false, lines[1..])
  {
    hide ReaderHeader, SectionName, Pieces, Leads, RewriterSection, UpTo, ReaderSection;
    var next := NextSection(current, ReaderHeader(first, lines[0]));
    AfterLine(current, lines[0], next);
    forall i, j | 0 < i < |lines| && 0 <= j < |Pieces(lines[i])|
      ensures RewriterSection(current, UpTo(lines, i, j)) == RewriterSection(next, UpTo(lines[1..], i - 1, j))
      ensures ReaderSection(current, first, lines[..i + 1]) == ReaderSection(next, false, lines[1..][..i])
    {
      UpToRest(lines, i, j);
      RewriterAppend(current, Pieces(lines[0]), UpTo(lines[1..], i - 1, j));
      ReaderUnfolds(current, first, lines, i);
    }
    if SameSections(current, first, lines) {
      forall i, j | 0 <= i < |lines[1..]| && 0 <= j < |Pieces(lines[1..][i])|
        ensures RewriterSection(next, UpTo(lines[1..], i, j)) == ReaderSection(next, false, lines[1..][..i + 1])
      {
        assert RewriterSection(current, UpTo(lines, i + 1, j)) == ReaderSection(current, first, lines[..(i + 1) + 1]);
      }
    }
    if SameSections(next, false, lines[1..]) {
      forall i, j | 0 <= i < |lines| && 0 <= j < |Pieces(lines[i])|
        ensures RewriterSection(current, UpTo(lines, i, j)) == ReaderSection(current, first, lines[..i + 1])
      {
        if i == 0 {
          UpToStart(lines, j);
          LeadsAt(current, Pieces(lines[0]), next, j);
          ReaderUnfolds(current, first, lines, 0);
          NoMoreLines(next, lines[1..]);
        } else {
          assert RewriterSection(next, UpTo(lines[1..], i - 1, j)) == ReaderSection(next, false, lines[1..][..(i - 1) + 1]);
        }
      }
    }
  }

  lemma NoMoreLines(current: string, lines: seq<string>)
    ensures ReaderSection(current, false, lines[..0]) == current
  {
  }

  // At every piece of every line: the rewriter drops it exactly when the reader files its line
  // under the section.
  ghost predicate DropsAsRead(lines: seq<string>, section: string)
  {
    forall i, j :: 0 <= i < |lines| && 0 <= j < |Pieces(lines[i])| ==>
      (SkipAfter(false, UpTo(lines, i, j), section) <==> ReaderSection("", true, lines[..i + 1]) == section)
  }

  // Whatever section is rewritten, the rewriter drops exactly what the reader files under it, if
  // and only if the file is in tune.
  lemma DropsAsReadIff(t: string)
    ensures (forall section :: section != "" ==> DropsAsRead(Lines(t), section)) <==> TextInTune(t)
  {
    hide Lines, InTune, Pieces, UpTo, SkipAfter, RewriterSection, ReaderSection, LineLength;
    var lines := Lines(t);
    LinesAreLines(t);
    TuneIsSameSections("", true, lines);
    if SameSections("", true, lines) {
      forall section | section != "" ensures DropsAsRead(lines, section) { SameIsDropped(lines, section); }
    }
    if forall section :: section != "" ==> DropsAsRead(lines, section) { DroppedIsSame(lines); }
  }

  lemma SameIsDropped(lines: seq<string>, section: string)
    requires SameSections("", true, lines) && section != ""
    ensures DropsAsRead(lines, section)
  {
    hide Pieces, UpTo, SkipAfter, RewriterSection, ReaderSection;
    forall i, j | 0 <= i < |lines| && 0 <= j < |Pieces(lines[i])|
      ensures SkipAfter(false, UpTo(lines, i, j), section) <==> ReaderSection("", true, lines[..i + 1]) == section
    {
      SkipIsSection("", section, UpTo(lines, i, j));
    }
  }

  lemma DroppedIsSame(lines: seq<string>)
    requires forall section :: section != "" ==> DropsAsRead(lines, section)
    ensures SameSections("", true, lines)
  {
    hide Pieces, UpTo, SkipAfter, RewriterSection, ReaderSection;
    forall i, j | 0 <= i < |lines| && 0 <= j < |Pieces(lines[i])|
      ensures RewriterSection("", UpTo(lines, i, j)) == ReaderSection("", true, lines[..i + 1])
    {
      var w, r := RewriterSection("", UpTo(lines, i, j)), ReaderSection("", true, lines[..i + 1]);
      var section := if r != "" then r else w;
      if w != r {
        assert DropsAsRead(lines, section);
        SkipIsSection("", section, UpTo(lines, i, j));
        assert false;
      }
    }
  }

  lemma {:induction false} KeepAppend(skipping: bool, a: seq<string>, b: seq<string>, section: string)
    ensures Keep(skipping, a + b, section) ==
            Keep(skipping, a, section) + Keep(SkipAfter(skipping, a, section), b, section)
    decreases |a|
  {
    hide SkipNext;
    if a == [] {
      assert a + b == b;
    } else {
      assert (a + b)[1..] == a[1..] + b;
      KeepAppend(SkipNext(skipping, a[0], section), a[1..], b, section);
    }
  }

  lemma {:induction false} SkipAppend(skipping: bool, a: seq<string>, b: seq<string>, section: string)
    ensures SkipAfter(skipping, a + b, section) == SkipAfter(SkipAfter(skipping, a, section), b, section)
    decreases |a|
  {
    hide SkipNext;
    if a == [] {
      assert a + b == b;
    } else {
      assert (a + b)[1..] == a[1..] + b;
      SkipAppend(SkipNext(skipping, a[0], section), a[1..], b, section);
    }
  }

  lemma KeepOne(skipping: bool, piece: string, section: string)
    ensures Keep(skipping, [piece], section) == if SkipAfter(skipping, [piece], section) then [] else [piece]
  {
    hide SkipNext;
    assert [piece][1..] == [];
  }

  // The rewriter's copy, position by position: of any pieces read, the last one is copied exactly
  // when the rewriter is not skipping then.
  lemma KeepLast(skipping: bool, pieces: seq<string>, last: string, section: string)
    ensures Keep(skipping, pieces + [last], section) ==
            Keep(skipping, pieces, section) + if SkipAfter(skipping, pieces + [last], section) then [] else [last]
  {
    hide Keep, SkipAfter, SkipNext;
    KeepAppend(skipping, pieces, [last], section);
    SkipAppend(skipping, pieces, [last], section);
    KeepOne(SkipAfter(skipping, pieces, section), last, section);
  }

  // The rewriter drops the line exactly when the reader files it under the section.
  predicate LineDropsAsRead(lines: seq<string>, i: nat, section: string)
    requires i < |lines|
  {
    SkipAfter(false, lines[..i + 1], section) <==> ReaderSection("", true, lines[..i + 1]) == section
  }

  // The same for files whose lines all fit and carry no byte order mark: line by line, every header
  // that the two take differently must name the section already open.
  lemma DropsLinesAsReadIff(t: string)
    requires forall l :: l in Lines(t) ==> Fits(l) && !Bom(Trim(l))
    ensures (forall section, i :: section != "" && 0 <= i < |Lines(t)| ==>
               LineDropsAsRead(Lines(t), i, section))
       <==> (forall i :: 0 <= i < |Lines(t)| ==>
               TidyHeader(Trim(Lines(t)[i])) ||
               Reopens(ReaderSection("", true, Lines(t)[..i]), i == 0, Lines(t)[i]))
  {
    hide *;
    LinesAreLines(t);
    DropsAsReadIff(t);
    TuneByLines("", true, Lines(t));
    DropsByLines(Lines(t));
    TextTune(t);
  }

  lemma TextTune(t: string)
    ensures TextInTune(t) == InTune("", true, Lines(t))
  {
  }

  lemma DropsByLines(lines: seq<string>)
    requires AreLines(lines) && forall l :: l in lines ==> Fits(l)
    ensures (forall section :: section != "" ==> DropsAsRead(lines, section)) <==>
            (forall section, i :: section != "" && 0 <= i < |lines| ==>
               LineDropsAsRead(lines, i, section))
  {
    hide Pieces, SkipAfter, ReaderSection, LineLength, Fits, UpTo;
    forall i | 0 <= i < |lines| ensures Pieces(lines[i]) == [lines[i]] && UpTo(lines, i, 0) == lines[..i + 1] {
      FittingLine(lines[i]);
      LinesUpTo(lines, i);
    }
    if forall section :: section != "" ==> DropsAsRead(lines, section) {
      forall section, i | section != "" && 0 <= i < |lines| ensures LineDropsAsRead(lines, i, section) {
        assert DropsAsRead(lines, section);
        assert SkipAfter(false, UpTo(lines, i, 0), section) <==> ReaderSection("", true, lines[..i + 1]) == section;
      }
    }
    if forall section, i :: section != "" && 0 <= i < |lines| ==> LineDropsAsRead(lines, i, section) {
      forall section | section != "" ensures DropsAsRead(lines, section) {
        forall i, j | 0 <= i < |lines| && 0 <= j < |Pieces(lines[i])|
          ensures SkipAfter(false, UpTo(lines, i, j), section) <==> ReaderSection("", true, lines[..i + 1]) == section
        {
          assert LineDropsAsRead(lines, i, section);
        }
      }
    }
  }

  lemma LinesUpTo(lines: seq<string>, i: nat)
    requires AreLines(lines) && (forall l :: l in lines ==> Fits(l)) && i < |lines|
    ensures Pieces(lines[i]) == [lines[i]] && UpTo(lines, i, 0) == lines[..i + 1]
  {
    hide Pieces, LineLength, Fits;
    FittingLine(lines[i]);
    FittingPieces(lines[..i]);
    assert lines[..i + 1] == lines[..i] + [lines[i]];
  }

  lemma {:induction false} FittingPieces(lines: seq<string>)
    requires forall l :: l in lines ==> l != "" && LineLength(l) == |l| && Fits(l)
    ensures PiecesOf(lines) == lines
  {
    hide Pieces, LineLength, Fits;
    if lines != [] {
      FittingLine(lines[0]);
      FittingPieces(lines[1..]);
    }
  }

  lemma {:induction false} TuneByLines(current: string, first: bool, lines: seq<string>)
    requires AreLines(lines) && forall l :: l in lines ==> Fits(l) && !Bom(Trim(l))
    ensures InTune(current, first, lines) <==>
            forall i :: 0 <= i < |lines| ==>
              TidyHeader(Trim(lines[i])) || Reopens(ReaderSection(current, first, lines[..i]), first && i == 0, lines[i])
    decreases |lines|
  {
    hide Fits, Trim, TidyHeader, LineLength, ReaderHeader, Agrees, Bom, Complete, Reopens;
    if lines != [] {
      var next, rest := NextSection(current, ReaderHeader(first, lines[0])), lines[1..];
      AgreesIff(current, first, lines[0]);
      assert AreLines(rest);
      TuneByLines(next, false, rest);
      assert lines[..0] == [];
      forall i | 0 < i < |lines| ensures ReaderSection(current, first, lines[..i]) == ReaderSection(next, false, rest[..i - 1]) {
        ReaderUnfolds(current, first, lines, i - 1);
      }
      assert forall i :: 0 < i < |lines| ==> lines[i] == rest[i - 1];
      assert forall i :: 0 <= i < |rest| ==> rest[i] == lines[i + 1];
    }
  }
}
