// What a setting's text means, said by the positions of its characters alone: a plain value with or
// without a comment behind it, a value in double quotes with escapes, a value in single quotes.

module ConfigValues {
  import opened Bytes
  import opened ConfigText
  import opened ConfigLines
  import opened ConfigMeaning
  import opened ConfigFile

  // ---------------------------------------------------------------- spellings

  predicate IsBlank(c: char) { c == ' ' || c == '\t' }

  predicate Blanks(s: string) { forall i :: 0 <= i < |s| ==> IsBlank(s[i]) }

  // Neither a blank in front nor a blank or line end behind.
  predicate Bare(s: string)
  {
    s != "" ==> !IsBlank(s[0]) && !IsBlank(s[|s| - 1]) && s[|s| - 1] != '\r' && s[|s| - 1] != '\n'
  }

  predicate Sign(c: char) { c == '#' || c == ';' }

  // Nothing, or a comment.
  predicate Remark(s: string) { s == "" || Sign(s[0]) }

  // A value that can stand without quotes: it opens with none, and no comment sign stands at its
  // start or behind a blank.
  predicate PlainText(v: string)
  {
    && Bare(v) && (v != "" ==> v[0] != '\'' && v[0] != '"')
    && forall i :: 0 <= i < |v| && Sign(v[i]) ==> i > 0 && !IsBlank(v[i - 1])
  }

  datatype Style = Plain | Double | Single

  // A value as it is written in a file, with the blanks around it and the comment behind it.
  datatype Spelling = Spelling(style: Style, lead: string, value: string, gap: string, remark: string)

  function Escape(c: char): string
  {
    if c == '"' then "\\\"" else if c == '\\' then "\\\\" else if c == '\n' then "\\n"
    else if c == '\r' then "\\r" else if c == '\t' then "\\t" else [c]
  }

  function Escaped(v: string): string { if v == "" then "" else Escape(v[0]) + Escaped(v[1..]) }

  function Core(s: Spelling): string
  {
    match s.style
    case Plain => s.value
    case Double => "\"" + Escaped(s.value) + "\""
    case Single => "'" + s.value + "'"
  }

  function Text(s: Spelling): string { s.lead + Core(s) + s.gap + s.remark }

  predicate Spells(s: Spelling)
  {
    && Blanks(s.lead) && Blanks(s.gap) && Remark(s.remark)
    && match s.style
       case Plain => PlainText(s.value) && (s.remark != "" ==> s.gap != "" || s.value == "")
       case Double => true
       case Single => '\'' !in s.value
  }

  // ---------------------------------------------------------------- trimming

  lemma LeadIsTrimmed(lead: string, s: string)
    requires Blanks(lead) && (s != "" ==> !IsBlank(s[0]))
    ensures TrimLeft(lead + s) == s
  {
    hide TrimLeft;
    TrimLeftFrom(lead + s, |lead|);
    assert (lead + s)[|lead|..] == s;
  }

  lemma BlanksTrim(s: string)
    requires Blanks(s)
    ensures Trim(s) == ""
  {
    IndentsTrimAway(s);
  }

  lemma BareTrims(s: string, gap: string)
    requires Bare(s) && Blanks(gap)
    ensures Trim(s + gap) == s && Trim(s) == s
  {
    hide TrimLeft, TrimRight, Trim;
    TrimSame(s);
    if s == "" {
      assert s + gap == gap;
      BlanksTrim(gap);
    } else {
      TrimCore(s + gap, s, 0, |gap|);
    }
  }

  // The comment behind a value, trimmed, still starts with its sign.
  lemma RemarkIsTail(gap: string, remark: string)
    requires Blanks(gap) && Remark(remark)
    ensures TailOk(Trim(gap + remark))
  {
    hide TrimLeft, TrimRight;
    if remark == "" {
      assert gap + remark == gap;
      hide Trim;
      BlanksTrim(gap);
    } else {
      LeadIsTrimmed(gap, remark);
      TrimRightAppend([remark[0]], remark[1..]);
      assert remark == [remark[0]] + remark[1..];
    }
  }

  // ---------------------------------------------------------------- plain values

  lemma {:induction false} CommentFrom(s: string, from: nat, n: nat)
    requires from <= n <= |s|
    requires forall i :: from <= i < n && Comment(s[i]) ==> i > 0 && !Indent(s[i - 1])
    requires n < |s| ==> Comment(s[n]) && (n == 0 || Indent(s[n - 1]))
    ensures CommentAt(s, from) == n
    decreases n - from
  {
    if from < n { CommentFrom(s, from + 1, n); }
  }

  lemma UnquotedIs(raw: string, s: string, n: nat)
    requires Trim(raw) == s && (s != "" ==> s[0] != '\'' && s[0] != '"') && n <= |s| && CommentAt(s, 0) == n
    ensures ParseValue(raw) == Some(Trim(s[..n]))
  {
    hide Trim, CommentAt, Quoted;
  }

  lemma PlainIsRead(v: string, gap: string, remark: string)
    requires PlainText(v) && Blanks(gap) && Remark(remark) && (remark != "" ==> gap != "" || v == "")
    ensures ParseValue(v + gap + remark) == Some(v)
  {
    hide Trim, CommentAt, ParseValue;
    if remark == "" {
      assert v + gap + remark == v + gap;
      BareTrims(v, gap);
      BareTrims(v, "");
      CommentFrom(v, 0, |v|);
      assert v[..|v|] == v;
      UnquotedIs(v + gap, v, |v|);
    } else {
      PlainWithRemark(v, gap, remark);
    }
  }

  lemma PlainWithRemark(v: string, gap: string, remark: string)
    requires PlainText(v) && Blanks(gap) && Remark(remark) && remark != "" && (gap != "" || v == "")
    ensures ParseValue(v + gap + remark) == Some(v)
  {
    hide TrimRight, Trim, CommentAt, ParseValue;
    var raw, tail := v + gap + remark, TrimRight(remark[1..]);
    var head := if v == "" then "" else v + gap;
    var s := head + [remark[0]] + tail;
    TrimmedRemark(v, gap, remark);
    forall i | 0 <= i < |head| ensures Comment(s[i]) ==> i > 0 && !Indent(s[i - 1]) {
      assert s[i] == head[i] == (if i < |v| then v[i] else gap[i - |v|]);
    }
    assert s[|head|] == remark[0];
    assert |head| > 0 ==> gap != "" && s[|head| - 1] == gap[|gap| - 1];
    CommentFrom(s, 0, |head|);
    assert s[..|head|] == head;
    BareTrims(v, gap);
    BareTrims("", "");
    assert s[0] == if v == "" then remark[0] else v[0];
    UnquotedIs(raw, s, |head|);
  }

  lemma TrimmedRemark(v: string, gap: string, remark: string)
    requires PlainText(v) && Blanks(gap) && Remark(remark) && remark != ""
    ensures Trim(v + gap + remark) == (if v == "" then "" else v + gap) + [remark[0]] + TrimRight(remark[1..])
  {
    hide TrimLeft, TrimRight;
    var head := if v == "" then "" else v + gap;
    var front := head + [remark[0]];
    var raw := v + gap + remark;
    if v == "" {
      assert raw == gap + remark;
      LeadIsTrimmed(gap, remark);
      assert remark == front + remark[1..];
    } else {
      assert raw[0] == v[0];
      TrimLeftSame(raw);
      assert raw == front + remark[1..];
    }
    TrimRightAppend(front, remark[1..]);
  }

  // ---------------------------------------------------------------- quoted values

  lemma EscapedPair(c: char, rest: string)
    ensures var q := Quoted(rest, '"'); Quoted(['\\', c] + rest, '"') == ([Unescape(c)] + q.0, 2 + q.1)
  {
    hide Unescape;
    assert (['\\', c] + rest)[2..] == rest;
  }

  lemma BareCharacter(c: char, rest: string)
    requires c != '"' && c != '\\'
    ensures var q := Quoted(rest, '"'); Quoted([c] + rest, '"') == ([c] + q.0, 1 + q.1)
  {
    hide Unescape;
    assert ([c] + rest)[1..] == rest;
  }

  lemma EscapeShape(c: char) returns (x: char)
    ensures if Escapes(c) then Escape(c) == ['\\', x] && Unescape(x) == c else Escape(c) == [c]
  {
    x := if c == '\n' then 'n' else if c == '\r' then 'r' else if c == '\t' then 't' else c;
  }

  predicate Escapes(c: char) { c == '"' || c == '\\' || c == '\n' || c == '\r' || c == '\t' }

  // One escape gives one character.
  lemma EscapeDecodes(c: char, rest: string)
    ensures var e, q := Escape(c), Quoted(rest, '"');
            Quoted(e + rest, '"') == ([c] + q.0, |e| + q.1)
  {
    hide Quoted, Escape, Unescape;
    var x := EscapeShape(c);
    if Escapes(c) { EscapedPair(x, rest); } else { BareCharacter(c, rest); }
  }

  lemma {:induction false} DoubleDecodes(v: string, rest: string)
    ensures Quoted(Escaped(v) + "\"" + rest, '"') == (v, |Escaped(v)|)
  {
    hide Escape;
    if v == "" {
      assert Escaped(v) + "\"" + rest == "\"" + rest;
    } else {
      hide Quoted;
      DoubleDecodes(v[1..], rest);
      EscapeDecodes(v[0], Escaped(v[1..]) + "\"" + rest);
      assert Escaped(v) + "\"" + rest == Escape(v[0]) + (Escaped(v[1..]) + "\"" + rest);
      assert v == [v[0]] + v[1..];
    }
  }

  lemma {:induction false} SingleDecodes(v: string, rest: string)
    requires '\'' !in v
    ensures Quoted(v + "'" + rest, '\'') == (v, |v|)
  {
    if v == "" {
      assert v + "'" + rest == "'" + rest;
    } else {
      SingleDecodes(v[1..], rest);
      assert (v + "'" + rest)[1..] == v[1..] + "'" + rest;
      assert v == [v[0]] + v[1..];
    }
  }

  // What stands behind a closing quote, without the blanks and the line end at its end.
  function Cut(s: string): string { TrimRight(s) }

  // What stands between the quotes, and the rest of the text.
  lemma QuotedText(quote: char, inside: string, rest: string)
    requires quote == '\'' || quote == '"'
    ensures Trim([quote] + inside + [quote] + rest) == [quote] + inside + [quote] + Cut(rest)
  {
    hide TrimLeft, TrimRight;
    var front := [quote] + inside + [quote];
    TrimLeftSame(front + rest);
    TrimRightAppend(front, rest);
  }

  lemma CutTrims(s: string)
    ensures Trim(Cut(s)) == Trim(s)
  {
    TrimOfTrimRight(s);
  }

  lemma QuotedIs(raw: string, s: string, q: (string, nat))
    requires Trim(raw) == s && s != "" && (s[0] == '\'' || s[0] == '"')
    requires q == Quoted(s[1..], s[0])
    ensures ParseValue(raw) ==
            if q.1 == |s| - 1 then None else if TailOk(Trim(s[q.1 + 2..])) then Some(q.0) else None
  {
    hide Trim, CommentAt, Quoted;
  }

  lemma QuoteLayout(quote: char, inside: string, gap: string, remark: string, tail: string)
    ensures [quote] + inside + [quote] + gap + remark == [quote] + inside + [quote] + (gap + remark)
    ensures var s := [quote] + inside + [quote] + tail;
            && s != "" && s[0] == quote && |s| > |inside| + 1
            && s[1..] == inside + [quote] + tail && s[|inside| + 2..] == tail
  {
  }

  lemma QuotedIsRead(quote: char, inside: string, value: string, gap: string, remark: string, cut: string)
    requires quote == '\'' || quote == '"'
    requires cut == Cut(gap + remark) && Quoted(inside + [quote] + cut, quote) == (value, |inside|)
    requires Blanks(gap) && Remark(remark)
    ensures ParseValue([quote] + inside + [quote] + gap + remark) == Some(value)
  {
    hide *;
    var raw, s := [quote] + inside + [quote] + gap + remark, [quote] + inside + [quote] + cut;
    QuoteLayout(quote, inside, gap, remark, cut);
    assert Trim(raw) == s by { QuotedText(quote, inside, gap + remark); }
    CutIsTail(gap, remark);
    QuotedEndsWell(raw, s, value, |inside|, cut);
  }

  lemma CutIsTail(gap: string, remark: string)
    requires Blanks(gap) && Remark(remark)
    ensures TailOk(Trim(Cut(gap + remark)))
  {
    hide *;
    CutTrims(gap + remark);
    RemarkIsTail(gap, remark);
  }

  lemma QuotedEndsWell(raw: string, s: string, value: string, n: nat, tail: string)
    requires Trim(raw) == s && |s| > n + 1 && (s[0] == '\'' || s[0] == '"')
    requires Quoted(s[1..], s[0]) == (value, n) && s[n + 2..] == tail && TailOk(Trim(tail))
    ensures ParseValue(raw) == Some(value)
  {
    hide *;
    QuotedIs(raw, s, (value, n));
  }

  // Text behind the closing quote that is no comment makes the whole value malformed.
  lemma TailIsRefused(v: string, gap: string, tail: string)
    requires Blanks(gap) && tail != "" && !Sign(tail[0]) && !IsBlank(tail[0]) && tail[0] != '\r' && tail[0] != '\n'
    ensures ParseValue("\"" + Escaped(v) + "\"" + gap + tail) == None
  {
    hide *;
    var inside, cut := Escaped(v), Cut(gap + tail);
    var raw, s := ['"'] + inside + ['"'] + gap + tail, ['"'] + inside + ['"'] + cut;
    QuoteLayout('"', inside, gap, tail, cut);
    assert Trim(raw) == s by { QuotedText('"', inside, gap + tail); }
    assert !TailOk(Trim(cut)) by {
      CutTrims(gap + tail);
      TailIsNoRemark(gap, tail);
    }
    DoubleDecodes(v, cut);
    QuotedEndsBadly(raw, s, v, |inside|, cut);
  }

  lemma QuotedEndsBadly(raw: string, s: string, value: string, n: nat, tail: string)
    requires Trim(raw) == s && |s| > n + 1 && (s[0] == '\'' || s[0] == '"')
    requires Quoted(s[1..], s[0]) == (value, n) && s[n + 2..] == tail && !TailOk(Trim(tail))
    ensures ParseValue(raw) == None
  {
    hide *;
    QuotedIs(raw, s, (value, n));
  }

  lemma TailIsNoRemark(gap: string, tail: string)
    requires Blanks(gap) && tail != "" && !Sign(tail[0]) && !IsBlank(tail[0]) && tail[0] != '\r' && tail[0] != '\n'
    ensures !TailOk(Trim(gap + tail))
  {
    hide TrimLeft, TrimRight;
    LeadIsTrimmed(gap, tail);
    StaysInFront("", tail);
    assert "" + tail == tail;
  }

  lemma StaysInFront(gap: string, tail: string)
    requires tail != "" && !Space(tail[0])
    ensures var t := TrimRight(gap + tail); |gap| < |t| && t[|gap|] == tail[0]
  {
    hide TrimRight;
    assert gap + tail == (gap + [tail[0]]) + tail[1..];
    TrimRightAppend(gap + [tail[0]], tail[1..]);
  }

  // So does a quote that is never closed.
  lemma UnclosedIsRefused(quote: char, inside: string)
    requires quote == '\'' || quote == '"'
    requires quote !in inside
    ensures ParseValue([quote] + inside) == None
  {
    hide *;
    var s := [quote] + Cut(inside);
    UnclosedText(quote, inside);
    CutHolds(inside, quote);
    NeverClosed(Cut(inside), quote);
    assert s[1..] == Cut(inside);
    QuotedIs([quote] + inside, s, Quoted(s[1..], quote));
  }

  lemma UnclosedText(quote: char, inside: string)
    requires quote == '\'' || quote == '"'
    ensures Trim([quote] + inside) == [quote] + Cut(inside)
  {
    hide TrimLeft, TrimRight;
    var raw := [quote] + inside;
    assert TrimLeft(raw) == raw by { TrimLeftSame(raw); }
    TrimRightAppend([quote], inside);
  }

  lemma CutHolds(s: string, c: char)
    requires c !in s
    ensures c !in Cut(s)
  {
    hide TrimRight;
    assert forall i :: 0 <= i < |TrimRight(s)| ==> TrimRight(s)[i] == s[i];
  }

  lemma {:induction false} NeverClosed(s: string, quote: char)
    requires quote !in s
    ensures Quoted(s, quote).1 == |s|
    decreases |s|
  {
    if s != "" {
      NeverClosed(s[1..], quote);
      if |s| > 1 { NeverClosed(s[2..], quote); }
    }
  }

  // Every spelling of a value is read as that value.
  lemma SpellingIsRead(s: Spelling)
    requires Spells(s)
    ensures ParseValue(Text(s)) == Some(s.value)
  {
    hide Trim, Quoted, CommentAt, ParseValue, Escaped;
    var body := Core(s) + s.gap + s.remark;
    match s.style {
      case Plain =>
        PlainIsRead(s.value, s.gap, s.remark);
      case Double =>
        DoubleDecodes(s.value, Cut(s.gap + s.remark));
        QuotedIsRead('"', Escaped(s.value), s.value, s.gap, s.remark, Cut(s.gap + s.remark));
      case Single =>
        SingleDecodes(s.value, Cut(s.gap + s.remark));
        QuotedIsRead('\'', s.value, s.value, s.gap, s.remark, Cut(s.gap + s.remark));
    }
    LeadChangesNothing(s.lead, body);
    assert Text(s) == s.lead + body;
  }

  lemma LeadChangesNothing(lead: string, body: string)
    requires Blanks(lead)
    ensures ParseValue(lead + body) == ParseValue(body)
  {
    hide TrimLeft, TrimRight, ParseValue;
    TrimLeftOver(lead, body);
    hide Trim;
    SameTrim(lead + body, body);
  }

  lemma SameTrim(a: string, b: string)
    requires Trim(a) == Trim(b)
    ensures ParseValue(a) == ParseValue(b)
  {
    hide Trim, Quoted, CommentAt;
  }

  lemma {:induction false} TrimLeftOver(lead: string, body: string)
    requires Blanks(lead)
    ensures TrimLeft(lead + body) == TrimLeft(body)
  {
    if lead == "" {
      assert lead + body == body;
    } else {
      assert (lead + body)[1..] == lead[1..] + body;
      TrimLeftOver(lead[1..], body);
    }
  }


  // ---------------------------------------------------------------- whole lines

  // A key as it may be written, blanks around it aside.
  predicate IsKey(key: string)
  {
    && key != "" && Bare(key) && key[0] != '[' && !Sign(key[0]) && '=' !in key
    && !(|key| >= 3 && key[0] == '\U{ef}' && key[1] == '\U{bb}' && key[2] == '\U{bf}')
  }

  datatype Setting = Setting(indent: string, key: string, gap: string, value: Spelling)

  function SettingText(s: Setting): string { s.indent + s.key + s.gap + "=" + Text(s.value) }

  function SettingLine(s: Setting): string { SettingText(s) + "\n" }

  predicate Stands(s: Setting)
  {
    && Blanks(s.indent) && IsKey(s.key) && Blanks(s.gap) && Spells(s.value)
    && '\n' !in SettingText(s) && |SettingLine(s)| < LINE_MAX
  }

  lemma SettingTrims(indent: string, key: string, gap: string, raw: string)
    requires Blanks(indent) && IsKey(key)
    ensures Trim(indent + key + gap + "=" + raw + "\n") == key + gap + "=" + Cut(raw)
  {
    hide TrimLeft, TrimRight, Trim;
    var front := key + gap + "=";
    assert indent + key + gap + "=" + raw + "\n" == (indent + (front + raw)) + "\n";
    TrimNewline(indent + (front + raw));
    assert Trim(indent + (front + raw)) == TrimRight(front + raw) by { TrimOver(indent, front + raw); }
    TrimRightAppend(front, raw);
  }

  lemma TrimOver(indent: string, s: string)
    requires Blanks(indent) && s != "" && !IsBlank(s[0])
    ensures Trim(indent + s) == TrimRight(s)
  {
    hide TrimLeft, TrimRight;
    LeadIsTrimmed(indent, s);
  }

  lemma SettingClassifies(key: string, gap: string, raw: string, value: string)
    requires IsKey(key) && Blanks(gap) && ParseValue(raw) == Some(value)
    ensures Classify(key + gap + "=" + Cut(raw)) == Pair(key, value)
  {
    hide Trim, ParseValue, IndexOf, Cut;
    var text := key + gap + "=" + Cut(raw);
    var n := |key| + |gap|;
    forall k | 0 <= k < n ensures text[k] != '=' {
      assert text[k] == if k < |key| then key[k] else gap[k - |key|];
    }
    IndexOfIs(text, '=', n);
    assert text[..n] == key + gap && text[n + 1..] == Cut(raw);
    BareTrims(key, gap);
    CutTrims(raw);
    SameTrim(Cut(raw), raw);
  }

  // One line with a setting adds that entry, in any state of the reader.
  lemma SettingIsRead(st: Reading, s: Setting)
    requires Stands(s)
    ensures ReadStep(st, SettingLine(s)) ==
            st.(entries := st.entries + [Entry(st.section, s.key, s.value.value)], first := false)
  {
    hide Trim, ParseValue, Spells, Text, Blanks, Bare, Classify, Cut;
    var raw, line := Text(s.value), SettingLine(s);
    SpellingIsRead(s.value);
    SettingTrims(s.indent, s.key, s.gap, raw);
    SettingClassifies(s.key, s.gap, raw, s.value.value);
    assert line == s.indent + s.key + s.gap + "=" + raw + "\n";
    NoMark(s.key, s.gap, Cut(raw));
  }

  lemma NoMark(key: string, gap: string, rest: string)
    requires IsKey(key) && Blanks(gap)
    ensures !Bom(key + gap + "=" + rest)
  {
    var text := key + gap + "=" + rest;
    assert forall k :: 0 <= k < |key| ==> text[k] == key[k];
    assert forall k :: |key| <= k < |key| + |gap| ==> text[k] == gap[k - |key|];
    assert text[|key| + |gap|] == '=';
  }

  lemma SettingIsOneLine(s: Setting)
    requires Stands(s)
    ensures var line := SettingLine(s); Lines(line) == [line] && Complete(line)
  {
    hide SettingText;
    var line, n := SettingLine(s), |SettingText(s)|;
    assert forall k :: 0 <= k < n ==> line[k] == SettingText(s)[k];
    IndexOfIs(line, '\n', n);
    SingleLine(line);
  }

  function SettingLines(settings: seq<Setting>): string
  {
    if settings == [] then "" else SettingLine(settings[0]) + SettingLines(settings[1..])
  }

  function Meant(section: string, settings: seq<Setting>): (r: seq<Entry>)
    ensures |r| == |settings|
    ensures forall i :: 0 <= i < |r| ==> r[i] == Entry(section, settings[i].key, settings[i].value.value)
  {
    seq(|settings|, i requires 0 <= i < |settings| => Entry(section, settings[i].key, settings[i].value.value))
  }

  lemma {:induction false} SettingsAreRead(st: Reading, settings: seq<Setting>)
    requires forall s :: s in settings ==> Stands(s)
    ensures ReadAll(st, Lines(SettingLines(settings))) ==
            st.(entries := st.entries + Meant(st.section, settings), first := st.first && settings == [])
    decreases |settings|
  {
    hide Stands, SettingLine, Lines, ReadStep;
    if settings == [] {
      NoLines();
      assert st.entries + [] == st.entries;
    } else {
      var s, rest := settings[0], SettingLines(settings[1..]);
      SettingIsOneLine(s);
      LinesAppend(SettingLine(s), rest);
      SettingIsRead(st, s);
      assert ([SettingLine(s)] + Lines(rest))[1..] == Lines(rest);
      var next := ReadStep(st, SettingLine(s));
      SettingsAreRead(next, settings[1..]);
      assert st.entries + [Entry(st.section, s.key, s.value.value)] + Meant(st.section, settings[1..]) ==
             st.entries + Meant(st.section, settings);
    }
  }

  // A file of settings under one section, however they are spelled, is read as those settings, in
  // order, without an error.
  lemma SectionIsRead(section: string, settings: seq<Setting>)
    requires ValidSection(section) && forall s :: s in settings ==> Stands(s)
    ensures var r := Read(SectionHeader(section) + SettingLines(settings));
            r.entries == Meant(section, settings) && r.errors == 0
  {
    hide Stands, Lines, ReadStep, SectionHeader, ValidSection, SettingLines, Trim, Classify, Fits, ReaderHeader;
    var header, text := SectionHeader(section), SettingLines(settings);
    HeaderLine(section);
    LinesAppend(header, text);
    var st := Reading("", [], 0, true);
    assert ([header] + Lines(text))[1..] == Lines(text);
    FirstHeader(section);
    SettingsAreRead(ReadStep(st, header), settings);
    assert [] + Meant(section, settings) == Meant(section, settings);
  }

  lemma FirstHeader(section: string)
    requires ValidSection(section)
    ensures ReadStep(Reading("", [], 0, true), SectionHeader(section)) == Reading(section, [], 0, false)
  {
    hide Trim, Classify, SectionHeader, ValidSection, TidyHeader;
    HeaderLine(section);
    BracketsTrim(section);
    assert ("[" + section + "]")[0] == '[';
    BracketsClassify(section);
  }

  // That is what the reading code hands over to a callback that accepts everything.
  lemma SectionIsHandedOver(section: string, settings: seq<Setting>, accepts: (Entry, nat) -> bool)
    requires ValidSection(section) && forall s :: s in settings ==> Stands(s)
    requires forall e, n :: accepts(e, n)
    ensures var r := ReadUntil(START, 1, Lines(SectionHeader(section) + SettingLines(settings)), accepts);
            r.state.entries == Meant(section, settings) && r.state.errors == 0
  {
    hide Stands, Lines, ReadAll, SectionHeader, ValidSection, SettingLines, ReadUntil;
    SectionIsRead(section, settings);
    AcceptingReadsAll(START, 1, Lines(SectionHeader(section) + SettingLines(settings)), accepts);
  }
}
