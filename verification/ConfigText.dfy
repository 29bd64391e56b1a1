// The text of a sectioned key=value file: how the reader understands a line, how the rewriter
// recognises a section header, and what a rewritten file contains. Text is a sequence of octets
// without NUL, one character each.

module ConfigText {
  import opened Bytes

  const LINE_MAX: nat := 384
  const SECTION_MAX: nat := 320

  datatype Entry = Entry(section: string, key: string, value: string)

  datatype Line = Blank | Bad | Header(name: string) | Pair(key: string, value: string)

  datatype Reading = Reading(section: string, entries: seq<Entry>, errors: nat, first: bool)

  // ---------------------------------------------------------------- strings

  predicate Indent(c: char) { c == ' ' || c == '\t' }

  predicate Space(c: char) { Indent(c) || c == '\r' || c == '\n' }

  function TrimLeft(s: string): (r: string)
    ensures |r| <= |s| && r == s[|s| - |r|..]
    ensures r != "" ==> !Indent(r[0])
  {
    if s != "" && Indent(s[0]) then TrimLeft(s[1..]) else s
  }

  function TrimRight(s: string): (r: string)
    ensures |r| <= |s| && r == s[..|r|]
    ensures forall i :: |r| <= i < |s| ==> Space(s[i])
    ensures r != "" ==> !Space(r[|r| - 1])
  {
    if s != "" && Space(s[|s| - 1]) then TrimRight(s[..|s| - 1]) else s
  }

  function Trim(s: string): string { TrimRight(TrimLeft(s)) }

  // The rewriter's trimming of a section name leaves carriage returns alone.
  function TrimIndents(s: string): (r: string)
    ensures |r| <= |s| && r == s[..|r|]
    ensures forall i :: |r| <= i < |s| ==> Indent(s[i])
    ensures r != "" ==> !Indent(r[|r| - 1])
  {
    if s != "" && Indent(s[|s| - 1]) then TrimIndents(s[..|s| - 1]) else s
  }

  function IndexOf(s: string, c: char): (i: nat)
    ensures i <= |s|
    ensures forall k :: 0 <= k < i ==> s[k] != c
    ensures i < |s| ==> s[i] == c
  {
    if s == "" || s[0] == c then 0 else 1 + IndexOf(s[1..], c)
  }

  lemma IndexOfIs(s: string, c: char, i: nat)
    requires i < |s| && s[i] == c && forall k :: 0 <= k < i ==> s[k] != c
    ensures IndexOf(s, c) == i
  {
  }

  // ---------------------------------------------------------------- values

  predicate Comment(c: char) { c == '#' || c == ';' }

  // Nothing but a comment may follow a quoted value or a section header.
  predicate TailOk(s: string) { s == "" || Comment(s[0]) }

  // Where an unquoted value ends: at a comment sign that starts it or follows a blank.
  function CommentAt(s: string, from: nat): (i: nat)
    requires from <= |s|
    ensures from <= i <= |s|
    decreases |s| - from
  {
    if from == |s| then from
    else if Comment(s[from]) && (from == 0 || Indent(s[from - 1])) then from
    else CommentAt(s, from + 1)
  }

  function Unescape(c: char): char
  {
    if c == 'n' then '\n' else if c == 'r' then '\r' else if c == 't' then '\t' else c
  }

  // What follows an opening quote: the decoded value, and how far the closing quote (or the end
  // of the text) lies.
  function Quoted(s: string, quote: char): (r: (string, nat))
    ensures |r.0| <= r.1 <= |s|
    ensures r.1 < |s| ==> s[r.1] == quote
  {
    if s == "" || s[0] == quote then ("", 0)
    else if s[0] == '\\' && quote == '"' && |s| > 1 then
      var rest := Quoted(s[2..], quote);
      ([Unescape(s[1])] + rest.0, 2 + rest.1)
    else
      var rest := Quoted(s[1..], quote);
      ([s[0]] + rest.0, 1 + rest.1)
  }

  function ParseValue(raw: string): Option<string>
  {
    var s := Trim(raw);
    if s == "" || (s[0] != '\'' && s[0] != '"') then Some(Trim(s[..CommentAt(s, 0)]))
    else
      var q := Quoted(s[1..], s[0]);
      if q.1 == |s| - 1 then None
      else if TailOk(Trim(s[q.1 + 2..])) then Some(q.0)
      else None
  }

  // ---------------------------------------------------------------- the reader's view of a line

  // A line fits the reader's buffer: 383 characters, of which a complete line's newline is one.
  predicate Fits(line: string)
  {
    if line != "" && line[|line| - 1] == '\n' then |line| < LINE_MAX else |line| < LINE_MAX - 1
  }

  predicate Bom(s: string) { |s| >= 3 && s[0] == '\U{ef}' && s[1] == '\U{bb}' && s[2] == '\U{bf}' }

  function TextOf(first: bool, line: string): string
  {
    var text := Trim(line);
    if first && Bom(text) then Trim(text[3..]) else text
  }

  function ClassifyHeader(text: string): Line
    requires text != ""
  {
    var end := IndexOf(text[1..], ']');
    if end == |text| - 1 then Bad
    else
      var name, tail := Trim(text[1..end + 1]), Trim(text[end + 2..]);
      if name == "" || !TailOk(tail) || |name| >= SECTION_MAX then Bad else Header(name)
  }

  function Classify(text: string): Line
  {
    if text == "" || Comment(text[0]) then Blank
    else if text[0] == '[' then ClassifyHeader(text)
    else
      var eq := IndexOf(text, '=');
      if eq == |text| then Bad
      else
        var key, value := Trim(text[..eq]), ParseValue(text[eq + 1..]);
        if value.None? then Bad else if key == "" then Blank else Pair(key, value.value)
  }

  function Apply(st: Reading, line: Line): Reading
  {
    match line
    case Blank => st.(first := false)
    case Bad => st.(errors := st.errors + 1, first := false)
    case Header(name) => st.(section := name, first := false)
    case Pair(key, value) => st.(entries := st.entries + [Entry(st.section, key, value)], first := false)
  }

  function ReadStep(st: Reading, line: string): Reading
  {
    Apply(st, if Fits(line) then Classify(TextOf(st.first, line)) else Bad)
  }

  function ReadAll(st: Reading, lines: seq<string>): Reading
    decreases |lines|
  {
    if lines == [] then st else ReadAll(ReadStep(st, lines[0]), lines[1..])
  }

  // ---------------------------------------------------------------- lines

  // Length of the first line, its newline included.
  function LineLength(t: string): (n: nat)
    ensures n <= |t| && (t != "" ==> n > 0)
    ensures forall k :: 0 <= k < n - 1 ==> t[k] != '\n'
    ensures n < |t| ==> t[n - 1] == '\n'
  {
    var i := IndexOf(t, '\n');
    if i == |t| then i else i + 1
  }

  function Lines(t: string): seq<string>
    decreases |t|
  {
    if t == "" then [] else [t[..LineLength(t)]] + Lines(t[LineLength(t)..])
  }

  function Joined(lines: seq<string>): string
  {
    if lines == [] then "" else lines[0] + Joined(lines[1..])
  }

  function Read(t: string): Reading { ReadAll(Reading("", [], 0, true), Lines(t)) }

  function ReadFrom(section: string, t: string): Reading { ReadAll(Reading(section, [], 0, false), Lines(t)) }

  // ---------------------------------------------------------------- the rewriter

  function SectionName(line: string): Option<string>
  {
    var start := TrimLeft(line);
    if start == "" || start[0] != '[' then None
    else
      var end := IndexOf(start[1..], ']');
      if end == |start| - 1 then None
      else
        var name := TrimIndents(TrimLeft(start[1..end + 1]));
        if name == "" || |name| >= SECTION_MAX then None else Some(name)
  }

  function SkipNext(skipping: bool, line: string, section: string): bool
  {
    match SectionName(line)
    case Some(name) => name == section
    case None => skipping
  }

  // The rewriter reads through the same buffer without noticing lines that do not fit: it sees
  // them in pieces.
  function PieceLength(t: string): (n: nat)
    ensures n <= |t| && (t != "" ==> n > 0)
  {
    if LineLength(t) < LINE_MAX then LineLength(t) else LINE_MAX - 1
  }

  function Pieces(t: string): seq<string>
    decreases |t|
  {
    if t == "" then [] else [t[..PieceLength(t)]] + Pieces(t[PieceLength(t)..])
  }

  function Keep(skipping: bool, lines: seq<string>, section: string): seq<string>
    decreases |lines|
  {
    if lines == [] then []
    else
      var skip := SkipNext(skipping, lines[0], section);
      (if skip then [] else [lines[0]]) + Keep(skip, lines[1..], section)
  }

  function Remaining(t: string, section: string): string { Joined(Keep(false, Pieces(t), section)) }

  function SectionHeader(section: string): string { "[" + section + "]" + "\n" }

  function Replace(t: string, section: string, written: string): string
  {
    Remaining(t, section) + "\n" + SectionHeader(section) + written
  }

  // ---------------------------------------------------------------- sections, seen twice

  function NextSection(current: string, header: Option<string>): string
  {
    match header
    case Some(name) => name
    case None => current
  }

  // The section a line opens for the reader.
  function ReaderHeader(first: bool, line: string): Option<string>
  {
    if !Fits(line) then None
    else
      match Classify(TextOf(first, line))
      case Header(name) => Some(name)
      case _ => None
  }

  // The section the reader is in after some lines.
  function ReaderSection(current: string, first: bool, lines: seq<string>): string
    decreases |lines|
  {
    if lines == [] then current
    else ReaderSection(NextSection(current, ReaderHeader(first, lines[0])), false, lines[1..])
  }

  // The section the rewriter is in after some of its pieces.
  function RewriterSection(current: string, pieces: seq<string>): string
    decreases |pieces|
  {
    if pieces == [] then current
    else RewriterSection(NextSection(current, SectionName(pieces[0])), pieces[1..])
  }

  // Whether the rewriter is skipping after some of its pieces.
  function SkipAfter(skipping: bool, pieces: seq<string>, section: string): bool
    decreases |pieces|
  {
    if pieces == [] then skipping else SkipAfter(SkipNext(skipping, pieces[0], section), pieces[1..], section)
  }

  function PiecesOf(lines: seq<string>): seq<string>
  {
    if lines == [] then [] else Pieces(lines[0]) + PiecesOf(lines[1..])
  }

  // The lines the reader does not file under a section.
  function KeptLines(current: string, first: bool, lines: seq<string>, section: string): seq<string>
    decreases |lines|
  {
    if lines == [] then []
    else
      var next := NextSection(current, ReaderHeader(first, lines[0]));
      (if next == section then [] else [lines[0]]) + KeptLines(next, false, lines[1..], section)
  }

  // The rewriter is in the section next from the first of the pieces on.
  predicate Leads(current: string, pieces: seq<string>, next: string)
    decreases |pieces|
  {
    pieces == [] || (NextSection(current, SectionName(pieces[0])) == next && Leads(next, pieces[1..], next))
  }

  // A line that reader and rewriter meet in the same section leaves both in the same section.
  predicate Agrees(current: string, first: bool, line: string)
  {
    Leads(current, Pieces(line), NextSection(current, ReaderHeader(first, line)))
  }

  predicate InTune(current: string, first: bool, lines: seq<string>)
    decreases |lines|
  {
    || lines == []
    || (Agrees(current, first, lines[0]) && InTune(NextSection(current, ReaderHeader(first, lines[0])), false, lines[1..]))
  }

  // The files in which every line is in the same section for the reader and for the rewriter.
  predicate TextInTune(t: string) { InTune("", true, Lines(t)) }

  // ---------------------------------------------------------------- conditions on single lines

  ghost predicate ValidSection(section: string)
  {
    && 0 < |section| < SECTION_MAX
    && ']' !in section && '\n' !in section
    && !Indent(section[0]) && !Space(section[|section| - 1])
  }

  // Reader and rewriter take a header the same way: no carriage return stands before the closing
  // bracket and nothing but a comment behind it, unless the name is refused by both anyway.
  predicate TidyHeader(text: string)
  {
    if text == "" || text[0] != '[' then true
    else
      var end := IndexOf(text[1..], ']');
      if end == |text| - 1 then true
      else
        var bare, name := TrimIndents(TrimLeft(text[1..end + 1])), Trim(text[1..end + 1]);
        var taken := 0 < |name| < SECTION_MAX && TailOk(Trim(text[end + 2..]));
        if bare == name then 0 < |name| < SECTION_MAX ==> taken else |bare| >= SECTION_MAX && !taken
  }

  predicate NoneOr(header: Option<string>, section: string) { header.None? || header.value == section }

  // Whatever reader and rewriter make of the line, it opens no other section than the current one.
  predicate Reopens(current: string, first: bool, line: string)
  {
    NoneOr(ReaderHeader(first, line), current) && NoneOr(SectionName(line), current)
  }

  // A byte order mark may only open the file, and not in front of a header.
  predicate TidyLine(first: bool, line: string)
  {
    && Fits(line) && TidyHeader(Trim(line))
    && (Bom(Trim(line)) ==> first && (TextOf(true, line) != "" ==> TextOf(true, line)[0] != '['))
  }

  ghost predicate TidyLines(first: bool, lines: seq<string>)
  {
    forall i :: 0 <= i < |lines| ==> TidyLine(first && i == 0, lines[i])
  }

  ghost predicate WellFormed(t: string) { TidyLines(true, Lines(t)) }

  // Lines that open no section but the given one, for the reader or for the rewriter.
  ghost predicate StaysIn(section: string, lines: seq<string>)
  {
    forall l :: l in lines ==>
      NoneOr(ReaderHeader(false, l), section) && forall p :: p in Pieces(l) ==> NoneOr(SectionName(p), section)
  }

  // What a section writer may emit: any lines but headers of other sections.
  ghost predicate WriterText(section: string, t: string) { StaysIn(section, Lines(t)) }

  function Others(entries: seq<Entry>, section: string): seq<Entry>
  {
    if entries == [] then []
    else (if entries[0].section == section then [] else [entries[0]]) + Others(entries[1..], section)
  }
}
