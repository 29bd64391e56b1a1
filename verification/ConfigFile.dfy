// The code that reads a configuration file line by line and the code that copies all but one of
// its sections, proved against the text functions of ConfigText.

module ConfigFile {
  import opened Bytes
  import opened ConfigText
  import opened ConfigLines
  import opened ConfigHeaders
  import opened ConfigMeaning
  import opened ConfigTidy

  // ---------------------------------------------------------------- settings

  // A value is read back as it stands exactly when it has no surrounding blanks, does not open
  // with a quote and holds nothing that starts a comment.
  lemma PlainValueIff(v: string)
    ensures ParseValue(v) == Some(v) <==> PlainValue(v)
  {
    hide TrimLeft, TrimRight;
    var s := Trim(v);
    if s == "" || (s[0] != '\'' && s[0] != '"') {
      var c := CommentAt(s, 0);
      assert |Trim(s[..c])| <= c <= |s| <= |v|;
      if PlainValue(v) { assert s[..c] == s; }
      if Trim(s[..c]) == v {
        assert s[..c] == s;
        assert s == v by { TrimShortens(v); }
      }
    }
  }

  lemma TrimShortens(v: string)
    ensures |Trim(v)| <= |v| && (|Trim(v)| == |v| ==> Trim(v) == v)
  {
  }

  predicate PlainValue(v: string)
  {
    Trim(v) == v && (v != "" ==> v[0] != '\'' && v[0] != '"') && CommentAt(v, 0) == |v|
  }

  // A key that can stand in front of any value of one line.
  predicate PairFits(key: string, raw: string)
  {
    && key != "" && Trim(key) == key && key[0] != '[' && !Comment(key[0]) && '=' !in key
    && '\n' !in key && '\n' !in raw && |key| + |raw| + 2 < LINE_MAX
  }

  function PairLine(key: string, raw: string): string { key + "=" + raw + "\n" }

  ghost predicate PairsFit(pairs: seq<(string, string)>) { forall p :: p in pairs ==> PairFits(p.0, p.1) }

  function Written(pairs: seq<(string, string)>): string
  {
    if pairs == [] then "" else PairLine(pairs[0].0, pairs[0].1) + Written(pairs[1..])
  }

  // What the pairs mean: a value whose quoting is malformed gives no entry.
  function EntriesOf(section: string, pairs: seq<(string, string)>): seq<Entry>
  {
    if pairs == [] then []
    else
      (match ParseValue(pairs[0].1)
       case Some(value) => [Entry(section, pairs[0].0, value)]
       case None => []) + EntriesOf(section, pairs[1..])
  }

  // Plain values mean themselves.
  lemma {:induction false} PlainPairsMean(section: string, pairs: seq<(string, string)>)
    requires forall p :: p in pairs ==> PlainValue(p.1)
    ensures |EntriesOf(section, pairs)| == |pairs|
    ensures forall i :: 0 <= i < |pairs| ==> EntriesOf(section, pairs)[i] == Entry(section, pairs[i].0, pairs[i].1)
  {
    hide PlainValue, ParseValue;
    if pairs != [] {
      PlainValueIff(pairs[0].1);
      PlainPairsMean(section, pairs[1..]);
    }
  }

  lemma TrimRightAppend(p: string, s: string)
    requires p != "" && !Space(p[|p| - 1])
    ensures TrimRight(p + s) == p + TrimRight(s)
  {
    hide TrimRight;
    var n := |p| + |TrimRight(s)|;
    assert n > |p| ==> (p + s)[n - 1] == TrimRight(s)[n - 1 - |p|];
    TrimRightTo(p + s, n);
    assert (p + s)[..n] == p + TrimRight(s);
  }

  lemma TrimOfTrimRight(s: string)
    ensures Trim(TrimRight(s)) == Trim(s)
  {
    hide TrimLeft, TrimRight;
    var t, l := TrimRight(s), TrimLeft(s);
    LeadingIndents(s);
    if |t| <= |s| - |l| {
      TrimRightTo(l, 0);
      IndentsTrimAway(t);
    } else {
      var a, b := |s| - |l|, |t|;
      assert s[a] == l[0] && s[b - 1] == t[b - 1];
      hide Trim;
      TrimsMeet(s, a, b);
    }
  }

  lemma TrimsMeet(s: string, a: nat, b: nat)
    requires a < b <= |s| && !Indent(s[a]) && !Space(s[b - 1])
    requires forall k :: 0 <= k < a ==> Indent(s[k])
    requires forall k :: b <= k < |s| ==> Space(s[k])
    ensures Trim(s[..b]) == Trim(s)
  {
    hide TrimLeft, TrimRight, Trim;
    TrimCore(s[..b], s[..b][a..], a, 0);
    assert s[a..b] == s[..b][a..];
    TrimCore(s, s[a..b], a, |s| - b);
  }

  // Indents in front and spaces behind a text that starts and ends in neither are trimmed away.
  lemma TrimCore(s: string, core: string, before: nat, behind: nat)
    requires before + behind < |s| && s[before..|s| - behind] == core
    requires !Indent(core[0]) && !Space(core[|core| - 1])
    requires forall k :: 0 <= k < before ==> Indent(s[k])
    requires forall k :: |s| - behind <= k < |s| ==> Space(s[k])
    ensures Trim(s) == core
  {
    hide TrimLeft, TrimRight;
    assert s[before] == core[0];
    TrimLeftFrom(s, before);
    var text := s[before..];
    assert text[|core| - 1] == core[|core| - 1];
    TrimRightTo(text, |core|);
    assert text[..|core|] == core;
  }

  lemma {:induction false} LeadingIndents(s: string)
    ensures forall k :: 0 <= k < |s| - |TrimLeft(s)| ==> Indent(s[k])
  {
    if s != "" && Indent(s[0]) {
      LeadingIndents(s[1..]);
      assert forall k :: 0 < k < |s| ==> s[k] == s[1..][k - 1];
    }
  }

  lemma IndentsTrimAway(t: string)
    requires forall k :: 0 <= k < |t| ==> Indent(t[k])
    ensures Trim(t) == ""
  {
    hide TrimLeft, TrimRight;
    TrimLeftFrom(t, |t|);
    TrimSame("");
  }

  lemma PairText(key: string, raw: string)
    requires PairFits(key, raw)
    ensures Trim(PairLine(key, raw)) == key + "=" + TrimRight(raw)
    ensures TrimLeft(PairLine(key, raw)) == PairLine(key, raw)
  {
    hide TrimLeft, TrimRight;
    var text := key + "=" + raw;
    TrimNewline(text);
    TrimmedEnds(key);
    TrimLeftSame(text);
    TrimLeftSame(PairLine(key, raw));
    TrimRightAppend(key + "=", raw);
  }

  lemma PairClassifies(key: string, raw: string)
    requires PairFits(key, raw)
    ensures Classify(key + "=" + TrimRight(raw)) ==
            match ParseValue(raw) case Some(value) => Pair(key, value) case None => Bad
  {
    hide Trim, TrimRight, ParseValue, IndexOf;
    var text := key + "=" + TrimRight(raw);
    assert forall k :: 0 <= k < |key| ==> text[k] == key[k];
    IndexOfIs(text, '=', |key|);
    assert text[..|key|] == key && text[|key| + 1..] == TrimRight(raw);
    TrimmedValue(raw);
  }

  lemma TrimmedValue(raw: string)
    ensures ParseValue(TrimRight(raw)) == ParseValue(raw)
  {
    hide Trim, TrimRight, Quoted, CommentAt, IndexOf;
    TrimOfTrimRight(raw);
  }

  lemma PairIsOneLine(key: string, raw: string)
    requires PairFits(key, raw)
    ensures var line := PairLine(key, raw);
            && Lines(line) == [line] && Complete(line) && Fits(line) && LineLength(line) == |line|
            && SectionName(line) == None && ReaderHeader(false, line) == None
  {
    hide Trim, ParseValue, TrimRight;
    PairText(key, raw);
    PairClassifies(key, raw);
    var line := PairLine(key, raw);
    var n := |key| + |raw| + 1;
    assert forall k :: 0 <= k < n ==> line[k] != '\n';
    IndexOfIs(line, '\n', n);
    SingleLine(line);
  }

  lemma PairReads(st: Reading, key: string, raw: string)
    requires PairFits(key, raw) && !st.first
    ensures ReadStep(st, PairLine(key, raw)) ==
            match ParseValue(raw)
            case Some(value) => st.(entries := st.entries + [Entry(st.section, key, value)])
            case None => st.(errors := st.errors + 1)
  {
    hide Trim, Classify, PairFits, ParseValue, TrimRight;
    PairText(key, raw);
    PairClassifies(key, raw);
    PairIsOneLine(key, raw);
  }

  lemma StaysCons(section: string, line: string, lines: seq<string>)
    requires LineLength(line) == |line| && line != "" && Fits(line)
    requires SectionName(line) == None && ReaderHeader(false, line) == None && StaysIn(section, lines)
    ensures StaysIn(section, [line] + lines)
  {
    hide LineLength, Fits, SectionName, ReaderHeader, Pieces;
    FittingLine(line);
  }

  // Settings written one to a line read back in order under their section, with the values their
  // texts mean.
  lemma {:induction false} PairsAreRead(section: string, pairs: seq<(string, string)>)
    requires PairsFit(pairs)
    ensures ReadFrom(section, Written(pairs)).entries == EntriesOf(section, pairs)
    ensures WriterText(section, Written(pairs))
  {
    hide PairFits, PairLine, Lines, ReadStep, LineLength, Fits, SectionName, ReaderHeader, StaysIn, ParseValue;
    if pairs == [] {
      NoLines();
      NoLineStays(section);
    } else {
      var (key, raw) := pairs[0];
      var line, rest := PairLine(key, raw), Written(pairs[1..]);
      PairsAreRead(section, pairs[1..]);
      PairIsOneLine(key, raw);
      LinesAppend(line, rest);
      LineIsNotEmpty(key, raw);
      StaysCons(section, line, Lines(rest));
      PairThenRest(section, key, raw, rest);
    }
  }

  lemma PairThenRest(section: string, key: string, raw: string, rest: string)
    requires PairFits(key, raw) && Lines(PairLine(key, raw) + rest) == [PairLine(key, raw)] + Lines(rest)
    ensures ReadFrom(section, PairLine(key, raw) + rest).entries ==
            (match ParseValue(raw)
             case Some(value) => [Entry(section, key, value)]
             case None => []) + ReadFrom(section, rest).entries
  {
    hide PairFits, PairLine, Lines, ReadStep, ParseValue;
    var st := Reading(section, [], 0, false);
    PairReads(st, key, raw);
    assert ([PairLine(key, raw)] + Lines(rest))[1..] == Lines(rest);
    EntriesAreAdded(ReadStep(st, PairLine(key, raw)), Lines(rest));
  }

  lemma LineIsNotEmpty(key: string, raw: string)
    ensures PairLine(key, raw) != ""
  {
  }

  lemma NoLineStays(section: string)
    ensures StaysIn(section, [])
  {
  }

  // Saving settings under a section: every other section's entries stay, and the saved pairs are
  // what the section now holds.
  lemma SavedSettingsAreRead(t: string, section: string, pairs: seq<(string, string)>)
    requires TextInTune(t) && ValidSection(section) && PairsFit(pairs)
    ensures Read(Replace(t, section, Written(pairs))).entries ==
            Others(Read(t).entries, section) + EntriesOf(section, pairs)
    ensures TextInTune(Replace(t, section, Written(pairs)))
  {
    hide *;
    PairsAreRead(section, pairs);
    ReplaceMeans(t, section, Written(pairs));
    ReplaceIsInTune(t, section, Written(pairs));
  }

  lemma PairIsTidy(key: string, raw: string)
    requires PairFits(key, raw) && !Bom(key)
    ensures TidyLine(false, PairLine(key, raw))
  {
    hide Trim, Fits, TrimRight;
    PairText(key, raw);
    PairIsOneLine(key, raw);
  }

  lemma {:induction false} PairsAreTidy(pairs: seq<(string, string)>)
    requires PairsFit(pairs) && forall p :: p in pairs ==> !Bom(p.0)
    ensures TidyLines(false, Lines(Written(pairs)))
  {
    hide PairFits, PairLine, Lines, TidyLine, Bom;
    if pairs == [] {
      NoLines();
    } else {
      var (key, raw) := pairs[0];
      PairsAreTidy(pairs[1..]);
      PairIsTidy(key, raw);
      PairIsOneLine(key, raw);
      LinesAppend(PairLine(key, raw), Written(pairs[1..]));
      ConsTidy(false, PairLine(key, raw), Lines(Written(pairs[1..])));
    }
  }

  // A well-formed file stays so when settings are saved whose keys begin with no byte order mark.
  lemma SavedFileIsWellFormed(t: string, section: string, pairs: seq<(string, string)>)
    requires WellFormed(t) && ValidSection(section) && PairsFit(pairs) && forall p :: p in pairs ==> !Bom(p.0)
    ensures WellFormed(Replace(t, section, Written(pairs)))
  {
    hide *;
    PairsAreTidy(pairs);
    ReplaceIsWellFormed(t, section, Written(pairs));
  }

  // ---------------------------------------------------------------- a header with a tail

  function TailedHeader(section: string): string { "[" + section + "]" + "x" + "\n" }

  lemma TailedText(section: string)
    ensures Trim(TailedHeader(section)) == "[" + section + "]" + "x"
    ensures TrimLeft(TailedHeader(section)) == "[" + section + "]" + "x\n"
  {
    hide TrimLeft, TrimRight, Trim;
    var text := "[" + section + "]" + "x";
    TrimNewline(text);
    TrimSame(text);
    assert TailedHeader(section) == "[" + section + "]" + "x\n";
    TrimLeftSame(TailedHeader(section));
  }

  // The reader refuses a header with text after its bracket; the rewriter takes it.
  lemma TailedHeaderIsTakenTwoWays(section: string)
    requires ValidSection(section)
    ensures Classify("[" + section + "]" + "x") == Bad && !TidyHeader("[" + section + "]" + "x")
    ensures SectionName(TailedHeader(section)) == Some(section)
  {
    hide *;
    ReaderRefusesTail(section);
    RewriterTakesTail(section);
  }

  lemma ReaderRefusesTail(section: string)
    requires ValidSection(section)
    ensures Classify("[" + section + "]" + "x") == Bad && !TidyHeader("[" + section + "]" + "x")
  {
    hide TrimLeft, TrimRight, TrimIndents, IndexOf, Trim, ParseValue;
    BracketsAt(section, "x");
    TrimSame("x");
    TrimSame(section);
    TrimLeftSame(section);
    TrimIndentsSame(section);
  }

  lemma RewriterTakesTail(section: string)
    requires ValidSection(section)
    ensures SectionName(TailedHeader(section)) == Some(section)
  {
    hide TrimLeft, TrimRight, TrimIndents, IndexOf, Trim, TailedHeader;
    TailedText(section);
    BracketsAt(section, "x\n");
    TrimLeftSame(section);
    TrimIndentsSame(section);
  }

  lemma TailedLine(section: string)
    requires ValidSection(section)
    ensures var line := TailedHeader(section);
            && Lines(line) == [line] && Complete(line) && Fits(line) && LineLength(line) == |line|
            && !TidyLine(true, line) && !Agrees("", true, line)
            && ReadStep(Reading("", [], 0, true), line) == Reading("", [], 1, false)
  {
    hide Trim, TidyHeader, Classify, Lines, TailedHeader, ValidSection, Complete, Agrees, Fits, SectionName;
    TailedText(section);
    TailedHeaderIsTakenTwoWays(section);
    TailedIsOneLine(section);
    assert !Bom("[" + section + "]" + "x");
    FittingAgrees("", true, TailedHeader(section));
    ReadersHeader(true, TailedHeader(section));
    ValidIsNonEmpty(section);
  }

  lemma TailedIsOneLine(section: string)
    requires ValidSection(section)
    ensures var line := TailedHeader(section);
            line != "" && Lines(line) == [line] && Complete(line) && Fits(line) && LineLength(line) == |line|
  {
    var line := TailedHeader(section);
    assert forall k :: 0 <= k <= |section| + 2 ==> line[k] != '\n';
    IndexOfIs(line, '\n', |section| + 3);
    SingleLine(line);
  }

  lemma UntidyStart(lines: seq<string>)
    requires lines != [] && !TidyLine(true, lines[0])
    ensures !TidyLines(true, lines)
  {
    hide TidyLine;
    assert !TidyLine(true && 0 == 0, lines[0]);
  }

  lemma {:induction false} PairsAreSkipped(section: string, pairs: seq<(string, string)>)
    requires PairsFit(pairs)
    ensures Keep(true, Lines(Written(pairs)), section) == []
    ensures forall l :: l in Lines(Written(pairs)) ==> Fits(l)
  {
    hide PairFits, PairLine, Lines, SectionName, Classify, Fits, ReaderHeader, LineLength;
    NoLines();
    if pairs != [] {
      var line, rest := PairLine(pairs[0].0, pairs[0].1), Written(pairs[1..]);
      PairsAreSkipped(section, pairs[1..]);
      PairIsOneLine(pairs[0].0, pairs[0].1);
      LinesAppend(line, rest);
      assert ([line] + Lines(rest))[1..] == Lines(rest);
    }
  }

  // Where reader and rewriter part: settings that follow "[section]x" belong to no section for the
  // reader, and replacing that section loses them.
  lemma HeaderWithTailLosesEntries(section: string, pairs: seq<(string, string)>)
    requires ValidSection(section) && PairsFit(pairs)
    ensures var t := TailedHeader(section) + Written(pairs);
            && !TextInTune(t) && !WellFormed(t)
            && Read(t).entries == EntriesOf("", pairs) && Remaining(t, section) == ""
  {
    hide *;
    var line, rest := TailedHeader(section), Lines(Written(pairs));
    var t := line + Written(pairs);
    TailedLine(section);
    TailedHeaderIsTakenTwoWays(section);
    LinesAppend(line, Written(pairs));
    PairsAreRead("", pairs);
    PairsAreSkipped(section, pairs);
    TailedIsOutOfTune(t, line, rest);
    TailedIsRead(t, line, rest, Written(pairs));
    TailedIsSkipped(t, line, rest, section);
  }

  lemma TailedIsOutOfTune(t: string, line: string, rest: seq<string>)
    requires Lines(t) == [line] + rest && !TidyLine(true, line) && !Agrees("", true, line)
    ensures !TextInTune(t) && !WellFormed(t)
  {
    hide TidyLine, Agrees, ReaderHeader, Lines;
    UntidyStart(Lines(t));
  }

  lemma TailedIsRead(t: string, line: string, rest: seq<string>, written: string)
    requires Lines(t) == [line] + rest && rest == Lines(written)
    requires ReadStep(Reading("", [], 0, true), line) == Reading("", [], 1, false)
    ensures Read(t).entries == ReadFrom("", written).entries
  {
    hide Lines, ReadStep;
    assert Lines(t)[0] == line && Lines(t)[1..] == rest;
    var st := Reading("", [], 1, false);
    EntriesAreAdded(st, rest);
    assert st.(entries := [], errors := 0) == Reading("", [], 0, false);
    assert [] + ReadFrom("", written).entries == ReadFrom("", written).entries;
  }

  lemma TailedIsSkipped(t: string, line: string, rest: seq<string>, section: string)
    requires Lines(t) == [line] + rest && Fits(line) && forall l :: l in rest ==> Fits(l)
    requires SectionName(line) == Some(section) && Keep(true, rest, section) == []
    ensures Remaining(t, section) == ""
  {
    hide Lines, Fits, SectionName, Pieces;
    PiecesAreLines(t);
    assert Lines(t)[0] == line && Lines(t)[1..] == rest;
    assert Keep(false, Lines(t), section) == [] + Keep(true, rest, section);
  }

  // ---------------------------------------------------------------- string scanning

  lemma {:induction false} TrimLeftFrom(s: string, i: nat)
    requires i <= |s| && forall k :: 0 <= k < i ==> Indent(s[k])
    requires i < |s| ==> !Indent(s[i])
    ensures TrimLeft(s) == s[i..]
  {
    if i > 0 {
      TrimLeftFrom(s[1..], i - 1);
      assert s[1..][i - 1..] == s[i..];
    }
  }

  lemma {:induction false} TrimRightTo(s: string, i: nat)
    requires i <= |s| && forall k :: i <= k < |s| ==> Space(s[k])
    requires i > 0 ==> !Space(s[i - 1])
    ensures TrimRight(s) == s[..i]
    decreases |s|
  {
    if i < |s| {
      TrimRightTo(s[..|s| - 1], i);
      assert s[..|s| - 1][..i] == s[..i];
    } else {
      assert s[..i] == s;
    }
  }

  lemma {:induction false} TrimIndentsTo(s: string, i: nat)
    requires i <= |s| && forall k :: i <= k < |s| ==> Indent(s[k])
    requires i > 0 ==> !Indent(s[i - 1])
    ensures TrimIndents(s) == s[..i]
    decreases |s|
  {
    if i < |s| {
      TrimIndentsTo(s[..|s| - 1], i);
      assert s[..|s| - 1][..i] == s[..i];
    } else {
      assert s[..i] == s;
    }
  }

  method TrimAscii(s: string) returns (r: string)
    ensures r == Trim(s)
  {
    hide TrimLeft, TrimRight;
    var start := 0;
    while start < |s| && Indent(s[start])
      invariant start <= |s| && forall k :: 0 <= k < start ==> Indent(s[k])
    {
      start := start + 1;
    }
    TrimLeftFrom(s, start);
    var text := s[start..];
    var end: nat := |text|;
    while end > 0 && Space(text[end - 1])
      invariant end <= |text| && forall k :: end <= k < |text| ==> Space(text[k])
    {
      end := end - 1;
    }
    TrimRightTo(text, end);
    r := text[..end];
  }

  method Strchr(s: string, c: char) returns (i: nat)
    ensures i == IndexOf(s, c)
  {
    i := 0;
    while i < |s| && s[i] != c
      invariant i <= |s| && forall k :: 0 <= k < i ==> s[k] != c
    {
      i := i + 1;
    }
    if i < |s| { IndexOfIs(s, c, i); }
    NotFound(s, c, i);
  }

  lemma NotFound(s: string, c: char, i: nat)
    ensures i == |s| && (forall k :: 0 <= k < i ==> s[k] != c) ==> IndexOf(s, c) == i
  {
  }

  // ---------------------------------------------------------------- values

  // The decoded value overwrites the quoted one from its opening quote on; the writing position
  // never catches up with the reading position.
  method UnquoteInPlace(a: array<char>, n: nat) returns (len: nat, src: nat)
    requires 0 < n <= a.Length
    modifies a
    ensures var q := Quoted(old(a[1..n]), old(a[0]));
            len == |q.0| && src == 1 + q.1 && len < src <= n && a[..len] == q.0
    ensures a[src..n] == old(a[src..n])
  {
    hide Quoted, Resumes;
    ghost var was := a[..];
    var quote := a[0];
    src, len := 1, 0;
    QuotedStarts(was[1..n], quote);
    while src < n && a[src] != quote
      invariant len < src <= n
      invariant a[src..n] == was[src..n]
      invariant Resumes(was[1..n], was[src..n], quote, a[..len], src - 1)
    {
      ghost var done := a[..len];
      assert a[src] == a[src..n][0] && (src + 1 < n ==> a[src + 1] == a[src..n][1]);
      QuotedUnfolds(was[1..n], was[src..n], quote, done, src - 1);
      if a[src] == '\\' && quote == '"' && src + 1 < n {
        a[len] := Unescape(a[src + 1]);
        src := src + 2;
      } else {
        a[len] := a[src];
        src := src + 1;
      }
      len := len + 1;
      assert a[..len] == done + [a[len - 1]];
      assert was[src..n] == was[src - 1..n][1..];
      assert src >= 2 && len < src;
    }
    QuotedEnds(was[1..n], was[src..n], quote, a[..len], src - 1);
    assert was[1..n] == old(a[1..n]);
  }

  // Decoding that has produced done from the first used characters continues with rest.
  ghost predicate Resumes(s: string, rest: string, quote: char, done: string, used: nat)
  {
    Quoted(s, quote).0 == done + Quoted(rest, quote).0 && Quoted(s, quote).1 == used + Quoted(rest, quote).1
  }

  lemma QuotedUnfolds(s: string, rest: string, quote: char, done: string, used: nat)
    requires Resumes(s, rest, quote, done, used) && rest != "" && rest[0] != quote
    ensures if rest[0] == '\\' && quote == '"' && |rest| > 1
            then Resumes(s, rest[2..], quote, done + [Unescape(rest[1])], used + 2)
            else Resumes(s, rest[1..], quote, done + [rest[0]], used + 1)
  {
  }

  lemma QuotedStarts(s: string, quote: char)
    ensures Resumes(s, s, quote, "", 0)
  {
    assert "" + Quoted(s, quote).0 == Quoted(s, quote).0;
  }

  lemma QuotedEnds(s: string, rest: string, quote: char, done: string, used: nat)
    requires Resumes(s, rest, quote, done, used) && (rest == "" || rest[0] == quote)
    ensures Quoted(s, quote) == (done, used)
  {
    assert done + "" == done;
  }

  method ParseValueText(raw: string) returns (value: Option<string>)
    ensures value == ParseValue(raw)
  {
    hide Trim, Quoted;
    var s := TrimAscii(raw);
    if s == "" || (s[0] != '\'' && s[0] != '"') {
      var p := 0;
      while p < |s| && !(Comment(s[p]) && (p == 0 || Indent(s[p - 1])))
        invariant p <= |s| && CommentAt(s, 0) == CommentAt(s, p)
      {
        p := p + 1;
      }
      var text := TrimAscii(s[..p]);
      return Some(text);
    }
    value := ParseQuoted(s);
  }

  method ParseQuoted(s: string) returns (value: Option<string>)
    requires s != ""
    ensures value == var q := Quoted(s[1..], s[0]);
                     if q.1 == |s| - 1 then None
                     else if TailOk(Trim(s[q.1 + 2..])) then Some(q.0) else None
  {
    hide Trim, Quoted, Unescape;
    var a := new char[|s|](i requires 0 <= i < |s| => s[i]);
    assert a[1..|s|] == s[1..] && a[0] == s[0];
    label before:
    var len, src := UnquoteInPlace(a, |s|);
    if src == |s| { return None; }
    assert a[src + 1..|s|] == a[src..|s|][1..] && s[src + 1..] == old@before(a[src..|s|])[1..];
    var tail := TrimAscii(a[src + 1..|s|]);
    if tail != "" && !Comment(tail[0]) { return None; }
    value := Some(a[..len]);
  }

  // ---------------------------------------------------------------- files

  class TextFile {
    const text: string
    var at: nat
    var eof: bool

    ghost predicate Valid()
      reads this
    {
      at <= |text| && (eof ==> at == |text|)
    }

    constructor (text: string)
      ensures Valid() && this.text == text && at == 0 && !eof
    {
      this.text := text;
      at := 0;
      eof := false;
    }

    // fgets: up to size - 1 characters, ending after a newline; nothing at the end of the file.
    method Gets(size: nat) returns (line: string)
      requires Valid() && size > 1
      modifies this
      ensures Valid() && old(at) <= at && line == text[old(at)..at]
      ensures |line| == var n := LineLength(text[old(at)..]); if n < size then n else size - 1
      ensures eof == (old(eof) || (|line| < size - 1 && !(line != "" && line[|line| - 1] == '\n')))
    {
      var start := at;
      while at < |text| && at - start < size - 1 && (at == start || text[at - 1] != '\n')
        invariant start <= at <= |text| && at - start <= size - 1 && eof == old(eof)
        invariant forall k :: start <= k < at - 1 ==> text[k] != '\n'
      {
        at := at + 1;
      }
      line := text[start..at];
      assert line != "" ==> line[|line| - 1] == text[at - 1];
      if |line| < size - 1 && !(line != "" && line[|line| - 1] == '\n') { eof := true; }
      var rest := text[start..];
      assert line == rest[..|line|];
      if line != "" && line[|line| - 1] == '\n' { IndexOfIs(rest, '\n', |line| - 1); }
    }

    // fgetc: true and one character further, or false at the end of the file.
    method GetC() returns (c: char, ok: bool)
      requires Valid()
      modifies this
      ensures Valid() && ok == (old(at) < |text|) && at == old(at) + (if ok then 1 else 0)
      ensures ok ==> c == text[old(at)] && eof == old(eof)
      ensures !ok ==> eof
    {
      ok := at < |text|;
      c := ' ';
      if ok {
        c := text[at];
        at := at + 1;
      } else {
        eof := true;
      }
    }
  }

  // The line that starts at a position, as the reader gets it, and where the next one starts.
  ghost predicate HasLine(text: string, at: nat, next: nat, line: string, more: bool, overlong: bool)
    requires at <= |text|
  {
    && more == (at < |text|)
    && (more ==>
          var rest := text[at..]; var n := LineLength(rest);
          && next == at + n && overlong == !Fits(rest[..n]) && line == if overlong then "" else rest[..n])
  }

  // A line that does not fit is read to its end, blanked and reported.
  method ReadCompleteLine(file: TextFile) returns (line: string, more: bool, overlong: bool)
    requires file.Valid() && (file.eof ==> file.at == |file.text|)
    modifies file
    ensures file.Valid()
    ensures old(file.at) <= |file.text|
    ensures HasLine(file.text, old(file.at), file.at, line, more, overlong)
  {
    ghost var start := file.at;
    ghost var rest := file.text[start..];
    overlong := false;
    line := file.Gets(LINE_MAX);
    more := line != "";
    assert |line| <= LineLength(rest) && line == rest[..|line|];
    if !more || line[|line| - 1] == '\n' || file.eof { return; }
    var c, ok := file.GetC();
    while ok && c != '\n'
      invariant file.Valid() && start + |line| <= file.at <= start + LineLength(rest)
      invariant ok ==> file.at > start + |line| && c == file.text[file.at - 1]
      invariant ok && c == '\n' ==> file.at == start + LineLength(rest)
      invariant !ok ==> file.at == |file.text| == start + LineLength(rest)
      decreases |file.text| - file.at, ok
    {
      c, ok := file.GetC();
    }
    line, overlong := "", true;
  }

  // ---------------------------------------------------------------- the reader

  // Reading so far, and the line number handed to the callback with each entry.
  datatype Progress = Progress(state: Reading, numbers: seq<nat>)

  function NumberedStep(p: Progress, number: nat, line: string): Progress
  {
    var next := ReadStep(p.state, line);
    Progress(next, if |next.entries| > |p.state.entries| then p.numbers + [number] else p.numbers)
  }

  predicate Stops(p: Progress, next: Progress, number: nat, accepts: (Entry, nat) -> bool)
  {
    var entries := next.state.entries;
    |entries| > |p.state.entries| && !accepts(entries[|entries| - 1], number)
  }

  // Reading stops after the first entry the callback refuses.
  function ReadUntil(p: Progress, number: nat, lines: seq<string>, accepts: (Entry, nat) -> bool): Progress
    decreases |lines|
  {
    if lines == [] then p
    else
      var next := NumberedStep(p, number, lines[0]);
      if Stops(p, next, number, accepts) then next else ReadUntil(next, number + 1, lines[1..], accepts)
  }

  const START := Progress(Reading("", [], 0, true), [])

  // A callback that accepts everything sees the whole file.
  lemma {:induction false} AcceptingReadsAll(p: Progress, number: nat, lines: seq<string>, accepts: (Entry, nat) -> bool)
    requires forall e, n :: accepts(e, n)
    ensures ReadUntil(p, number, lines, accepts).state == ReadAll(p.state, lines)
    decreases |lines|
  {
    hide ReadStep;
    if lines != [] { AcceptingReadsAll(NumberedStep(p, number, lines[0]), number + 1, lines[1..], accepts); }
  }

  // Line number n of the file holds the entry, under the section open there.
  predicate FromLine(entry: Entry, lines: seq<string>, n: nat)
  {
    && 0 < n <= |lines| && Fits(lines[n - 1])
    && entry.section == ReaderSection("", true, lines[..n - 1])
    && Classify(TextOf(n == 1, lines[n - 1])) == Pair(entry.key, entry.value)
  }

  ghost predicate Numbered(p: Progress, lines: seq<string>, upTo: nat)
  {
    && |p.numbers| == |p.state.entries|
    && (forall k :: 0 <= k < |p.numbers| ==> p.numbers[k] <= upTo && FromLine(p.state.entries[k], lines, p.numbers[k]))
    && forall j, k :: 0 <= j < k < |p.numbers| ==> p.numbers[j] < p.numbers[k]
  }

  lemma NumberedNext(p: Progress, lines: seq<string>, m: nat)
    requires m < |lines| && Numbered(p, lines, m)
    requires p.state.section == ReaderSection("", true, lines[..m]) && p.state.first == (m == 0)
    ensures Numbered(NumberedStep(p, m + 1, lines[m]), lines, m + 1)
  {
    hide Classify, TextOf, Fits, ReaderSection;
    var line := lines[m];
    var c := if Fits(line) then Classify(TextOf(m == 0, line)) else Bad;
    if c.Pair? {
      var entry := Entry(p.state.section, c.key, c.value);
      assert FromLine(entry, lines, m + 1);
    }
  }

  lemma {:induction false} SectionSnoc(current: string, first: bool, lines: seq<string>)
    requires lines != []
    ensures ReaderSection(current, first, lines) ==
            NextSection(ReaderSection(current, first, lines[..|lines| - 1]),
                        ReaderHeader(first && |lines| == 1, lines[|lines| - 1]))
    decreases |lines|
  {
    hide ReaderHeader;
    if |lines| > 1 {
      SectionSnoc(NextSection(current, ReaderHeader(first, lines[0])), false, lines[1..]);
      assert lines[..|lines| - 1][1..] == lines[1..][..|lines| - 2];
    }
  }

  lemma {:induction false} NumbersFrom(p: Progress, lines: seq<string>, m: nat, accepts: (Entry, nat) -> bool)
    requires m <= |lines| && Numbered(p, lines, m)
    requires p.state.section == ReaderSection("", true, lines[..m]) && p.state.first == (m == 0)
    ensures Numbered(ReadUntil(p, m + 1, lines[m..], accepts), lines, |lines|)
    decreases |lines| - m
  {
    hide ReadStep, ReaderHeader, ReaderSection, FromLine, Numbered;
    if m < |lines| {
      var next := NumberedStep(p, m + 1, lines[m]);
      NumberedNext(p, lines, m);
      assert lines[m..][1..] == lines[m + 1..];
      NextInFile(p, lines, m);
      NumberedMore(next, lines, m + 1);
      NumbersFrom(next, lines, m + 1, accepts);
    } else {
      NumberedMore(p, lines, m);
    }
  }

  lemma NextInFile(p: Progress, lines: seq<string>, m: nat)
    requires m < |lines| && p.state.section == ReaderSection("", true, lines[..m]) && p.state.first == (m == 0)
    ensures var next := NumberedStep(p, m + 1, lines[m]);
            next.state.section == ReaderSection("", true, lines[..m + 1]) && !next.state.first
  {
    hide ReadStep, ReaderHeader, ReaderSection;
    assert lines[..m + 1][..m] == lines[..m];
    SectionSnoc("", true, lines[..m + 1]);
    StepSection(p.state, lines[m]);
    NoLongerFirst(p.state, lines[m]);
  }

  lemma NumberedMore(p: Progress, lines: seq<string>, m: nat)
    requires m <= |lines| && Numbered(p, lines, m)
    ensures Numbered(p, lines, |lines|)
  {
    hide FromLine;
  }

  // Every entry handed over comes with the number of the line that holds it, in rising order.
  lemma EntriesAreNumbered(lines: seq<string>, accepts: (Entry, nat) -> bool)
    ensures Numbered(ReadUntil(START, 1, lines, accepts), lines, |lines|)
  {
    hide ReadUntil, Numbered;
    assert lines[0..] == lines;
    StartIsNumbered(lines);
    NumbersFrom(START, lines, 0, accepts);
  }

  lemma StartIsNumbered(lines: seq<string>)
    ensures Numbered(START, lines, 0) && START.state.section == ReaderSection("", true, lines[..0])
  {
    assert lines[..0] == [];
  }

  method ReadHeader(text: string) returns (line: Line)
    requires text != ""
    ensures line == ClassifyHeader(text)
  {
    hide Trim, IndexOf;
    var end := Strchr(text[1..], ']');
    if end == |text| - 1 { return Bad; }
    var name := TrimAscii(text[1..end + 1]);
    var tail := TrimAscii(text[end + 2..]);
    if name == "" || (tail != "" && !Comment(tail[0])) || |name| >= SECTION_MAX { return Bad; }
    line := Header(name);
  }

  method ReadLine(first: bool, raw: string) returns (line: Line)
    ensures line == Classify(TextOf(first, raw))
  {
    hide Trim, IndexOf, ParseValue, ClassifyHeader;
    var text := TrimAscii(raw);
    if first && Bom(text) { text := TrimAscii(text[3..]); }
    if text == "" || Comment(text[0]) { return Blank; }
    if text[0] == '[' {
      line := ReadHeader(text);
      return;
    }
    var eq := Strchr(text, '=');
    if eq == |text| { return Bad; }
    var key := TrimAscii(text[..eq]);
    var value := ParseValueText(text[eq + 1..]);
    if value.None? { return Bad; }
    if key == "" { return Blank; }
    line := Pair(key, value.value);
  }

  method ReadConfig(file: TextFile, accepts: (Entry, nat) -> bool)
    returns (entries: seq<Entry>, numbers: seq<nat>, errors: nat)
    requires file.Valid() && file.at == 0 && !file.eof
    modifies file
    ensures var r := ReadUntil(START, 1, Lines(file.text), accepts);
            entries == r.state.entries && numbers == r.numbers && errors == r.state.errors
  {
    hide Fits, Classify, TextOf, LineLength, ReadUntil, Lines, ReadStep, NumberedStep, Stops, HasLine;
    ghost var whole := ReadUntil(START, 1, Lines(file.text), accepts);
    var section := "";
    entries, numbers, errors := [], [], 0;
    var lineNumber := 0;
    assert file.text[0..] == file.text;
    var line, more, overlong := ReadCompleteLine(file);
    ghost var at := 0;
    while more
      invariant file.Valid() && at <= |file.text|
      invariant HasLine(file.text, at, file.at, line, more, overlong)
      invariant whole == ReadUntil(Progress(Reading(section, entries, errors, lineNumber == 0), numbers),
                                   lineNumber + 1, Lines(file.text[at..]), accepts)
      decreases |file.text| - at
    {
      ghost var p := Progress(Reading(section, entries, errors, lineNumber == 0), numbers);
      ghost var rest := file.text[at..];
      HasLineIs(file.text, at, file.at, line, overlong);
      LinesUnfold(rest);
      ReadUntilUnfolds(p, lineNumber + 1, Lines(rest), accepts);
      lineNumber := lineNumber + 1;
      var parsed := Bad;
      if !overlong { parsed := ReadLine(lineNumber == 1, line); }
      StepIs(p, lineNumber, rest[..LineLength(rest)], parsed, accepts);
      at := file.at;
      match parsed {
        case Blank =>
        case Bad => errors := errors + 1;
        case Header(name) => section := name;
        case Pair(key, value) =>
          var entry := Entry(section, key, value);
          entries, numbers := entries + [entry], numbers + [lineNumber];
          if !accepts(entry, lineNumber) { return; }
      }
      line, more, overlong := ReadCompleteLine(file);
    }
    ReadUntilEnds(Progress(Reading(section, entries, errors, lineNumber == 0), numbers), lineNumber + 1, accepts);
    NoLineLeft(file.text, at, file.at, line);
  }

  lemma HasLineIs(text: string, at: nat, next: nat, line: string, overlong: bool)
    requires at <= |text| && HasLine(text, at, next, line, true, overlong)
    ensures var rest := text[at..]; var n := LineLength(rest);
            && rest != "" && next == at + n <= |text| && rest[n..] == text[next..]
            && overlong == !Fits(rest[..n]) && (!overlong ==> line == rest[..n])
  {
    hide LineLength, Fits;
  }

  lemma NoLineLeft(text: string, at: nat, next: nat, line: string)
    requires at <= |text| && (exists overlong :: HasLine(text, at, next, line, false, overlong))
    ensures text[at..] == ""
  {
  }

  lemma ReadUntilUnfolds(p: Progress, number: nat, lines: seq<string>, accepts: (Entry, nat) -> bool)
    requires lines != []
    ensures var next := NumberedStep(p, number, lines[0]);
            ReadUntil(p, number, lines, accepts) ==
            if Stops(p, next, number, accepts) then next else ReadUntil(next, number + 1, lines[1..], accepts)
  {
    hide ReadStep;
  }

  lemma ReadUntilEnds(p: Progress, number: nat, accepts: (Entry, nat) -> bool)
    ensures ReadUntil(p, number, Lines(""), accepts) == p
  {
  }

  // What one line does to the progress, by what the line was parsed to.
  lemma StepIs(p: Progress, number: nat, line: string, parsed: Line, accepts: (Entry, nat) -> bool)
    requires parsed == if Fits(line) then Classify(TextOf(p.state.first, line)) else Bad
    ensures var next := NumberedStep(p, number, line);
            && next.state == Apply(p.state, parsed)
            && next.numbers == (if parsed.Pair? then p.numbers + [number] else p.numbers)
            && (Stops(p, next, number, accepts) <==>
                parsed.Pair? && !accepts(Entry(p.state.section, parsed.key, parsed.value), number))
  {
    hide Fits, Classify, TextOf;
  }

  // ---------------------------------------------------------------- the rewriter

  method LineSectionName(line: string) returns (section: Option<string>)
    ensures section == SectionName(line)
  {
    hide IndexOf, TrimIndents, TrimLeft;
    var start := 0;
    while start < |line| && Indent(line[start])
      invariant start <= |line| && forall k :: 0 <= k < start ==> Indent(line[k])
    {
      start := start + 1;
    }
    TrimLeftFrom(line, start);
    var text := line[start..];
    if text == "" || text[0] != '[' { return None; }
    var close := Strchr(text[1..], ']');
    if close == |text| - 1 { return None; }
    var name := BareName(text[1..close + 1]);
    if name == "" || |name| >= SECTION_MAX { return None; }
    section := Some(name);
  }

  method BareName(inside: string) returns (name: string)
    ensures name == TrimIndents(TrimLeft(inside))
  {
    hide TrimLeft, TrimIndents;
    var start := 0;
    while start < |inside| && Indent(inside[start])
      invariant start <= |inside| && forall k :: 0 <= k < start ==> Indent(inside[k])
    {
      start := start + 1;
    }
    TrimLeftFrom(inside, start);
    var text := inside[start..];
    var end: nat := |text|;
    while end > 0 && Indent(text[end - 1])
      invariant end <= |text| && forall k :: end <= k < |text| ==> Indent(text[k])
    {
      end := end - 1;
    }
    TrimIndentsTo(text, end);
    name := text[..end];
  }

  method CopyOtherSections(file: TextFile, section: string) returns (output: string)
    requires file.Valid() && file.at == 0 && !file.eof
    modifies file
    ensures output == Remaining(file.text, section)
  {
    hide SectionName, LineLength, PieceLength, Pieces, Keep;
    output := "";
    var skipping := false;
    assert file.text[0..] == file.text;
    var line := file.Gets(LINE_MAX);
    PieceIs(file.text, |line|);
    ghost var at := 0;
    while line != ""
      invariant file.Valid() && at <= file.at && line == file.text[at..file.at]
      invariant at <= |file.text| && |line| == PieceLength(file.text[at..])
      invariant Joined(Keep(false, Pieces(file.text), section)) ==
                output + Joined(Keep(skipping, Pieces(file.text[at..]), section))
      decreases |file.text| - at
    {
      ghost var rest := file.text[at..];
      assert rest[..|line|] == line && rest[|line|..] == file.text[file.at..];
      PiecesUnfold(rest);
      KeepUnfolds(skipping, Pieces(rest), section);
      var name := LineSectionName(line);
      if name.Some? { skipping := name.value == section; }
      if !skipping { output := output + line; }
      at := file.at;
      line := file.Gets(LINE_MAX);
      PieceIs(file.text[at..], |line|);
    }
    NoPieces(file.text[at..], skipping, section);
  }

  lemma PieceIs(t: string, n: nat)
    ensures n == (var l := LineLength(t); if l < LINE_MAX then l else LINE_MAX - 1) ==> n == PieceLength(t)
  {
  }

  lemma NoPieces(t: string, skipping: bool, section: string)
    requires PieceLength(t) == 0
    ensures Joined(Keep(skipping, Pieces(t), section)) == ""
  {
  }

  lemma KeepUnfolds(skipping: bool, lines: seq<string>, section: string)
    requires lines != []
    ensures var skip := SkipNext(skipping, lines[0], section);
            Joined(Keep(skipping, lines, section)) ==
            (if skip then "" else lines[0]) + Joined(Keep(skip, lines[1..], section))
  {
    hide SkipNext;
    var skip := SkipNext(skipping, lines[0], section);
    var rest := Keep(skip, lines[1..], section);
    assert !skip ==> Keep(skipping, lines, section)[1..] == rest;
    assert skip ==> Keep(skipping, lines, section) == rest;
  }
}
