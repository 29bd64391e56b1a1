// What the other lines of a configuration file mean, said by their characters alone: section
// headers, for the reader and for the rewriter, comments, and lines that count as errors.

module ConfigForms {
  import opened Bytes
  import opened ConfigText
  import opened ConfigFile
  import opened ConfigLines
  import opened ConfigValues

  // ---------------------------------------------------------------- headers

  // A header as it is written, with blanks at every place and text behind it.
  datatype Heading = Heading(indent: string, lead: string, name: string, gap: string, behind: string, tail: string)

  function HeadingText(h: Heading): string
  {
    h.indent + "[" + h.lead + h.name + h.gap + "]" + h.behind + h.tail
  }

  function Inside(h: Heading): string { h.lead + h.name + h.gap }

  function Bracketed(inside: string, rest: string): string { "[" + inside + "]" + rest }

  predicate Names(h: Heading)
  {
    && Blanks(h.indent) && Blanks(h.lead) && Blanks(h.gap) && Blanks(h.behind)
    && h.name != "" && Bare(h.name) && ']' !in h.name && |h.name| < 320
    && '\n' !in HeadingText(h) && |HeadingText(h)| + 1 < 384
  }

  // Text that does not open with a blank, a return or a comment sign.
  predicate Other(tail: string)
  {
    tail != "" && !Sign(tail[0]) && !IsBlank(tail[0]) && tail[0] != '\r' && tail[0] != '\n'
  }

  lemma BareWithin(h: Heading)
    requires Names(h)
    ensures Trim(Inside(h)) == h.name && TrimIndents(TrimLeft(Inside(h))) == h.name
  {
    hide Trim, TrimLeft, TrimRight, TrimIndents;
    TrimCore(Inside(h), h.name, |h.lead|, |h.gap|);
    assert Inside(h) == h.lead + (h.name + h.gap);
    LeadIsTrimmed(h.lead, h.name + h.gap);
    BlanksBehind(h.name, h.gap);
  }

  lemma {:induction false} BlanksBehind(s: string, gap: string)
    requires s != "" && !IsBlank(s[|s| - 1]) && Blanks(gap)
    ensures TrimIndents(s + gap) == s
    decreases |gap|
  {
    if gap == "" {
      assert s + gap == s;
    } else {
      assert (s + gap)[..|s + gap| - 1] == s + gap[..|gap| - 1];
      BlanksBehind(s, gap[..|gap| - 1]);
    }
  }

  // The rewriter takes the name of every such header, whatever stands behind it.
  lemma HeadingIsTaken(h: Heading)
    requires Names(h)
    ensures SectionName(HeadingText(h) + "\n") == Some(h.name)
  {
    hide *;
    var start := Bracketed(Inside(h), h.behind + h.tail + "\n");
    StartIs(h, start);
    InsideEnds(h, h.behind + h.tail + "\n");
    BareWithin(h);
    NameIsSome(h);
    NameParts(HeadingText(h) + "\n", start, Inside(h), h.name);
  }

  lemma StartIs(h: Heading, start: string)
    requires Names(h) && start == Bracketed(Inside(h), h.behind + h.tail + "\n")
    ensures TrimLeft(HeadingText(h) + "\n") == start && start != "" && start[0] == '['
  {
    hide TrimLeft;
    assert HeadingText(h) + "\n" == h.indent + start;
    LeadIsTrimmed(h.indent, start);
  }

  lemma NameIsSome(h: Heading)
    requires Names(h)
    ensures h.name != "" && |h.name| < 320
  {}

  lemma NameParts(line: string, start: string, inside: string, name: string)
    requires TrimLeft(line) == start && start != "" && start[0] == '['
    requires IndexOf(start[1..], ']') == |inside| < |start| - 1 && start[1..|inside| + 1] == inside
    requires TrimIndents(TrimLeft(inside)) == name && name != "" && |name| < 320
    ensures SectionName(line) == Some(name)
  {
    hide TrimLeft, TrimIndents, IndexOf;
  }

  lemma InsideEnds(h: Heading, rest: string)
    requires Names(h)
    ensures var inside, text := Inside(h), Bracketed(Inside(h), rest);
            && text != "" && |inside| < |text| - 1 && IndexOf(text[1..], ']') == |inside|
            && text[1..|inside| + 1] == inside && text[|inside| + 2..] == rest
  {
    hide IndexOf;
    var inside, text := Inside(h), Bracketed(Inside(h), rest);
    forall k | 0 <= k < |inside| ensures text[1..][k] != ']' {
      assert text[1..][k] == inside[k];
      assert inside[k] == if k < |h.lead| then h.lead[k] else if k < |h.lead| + |h.name| then h.name[k - |h.lead|]
                          else h.gap[k - |h.lead| - |h.name|];
    }
    IndexOfIs(text[1..], ']', |inside|);
  }

  lemma HeadingTrims(h: Heading)
    requires Names(h)
    ensures Trim(HeadingText(h) + "\n") == Bracketed(Inside(h), Cut(h.behind + h.tail))
  {
    hide TrimLeft, TrimRight, Trim;
    var front, raw := Bracketed(Inside(h), ""), h.behind + h.tail;
    assert HeadingText(h) == h.indent + (front + raw);
    TrimNewline(HeadingText(h));
    assert Trim(h.indent + (front + raw)) == TrimRight(front + raw) by { TrimOver(h.indent, front + raw); }
    TrimRightAppend(front, raw);
  }

  lemma OpensWithBracket(inside: string, rest: string)
    ensures Bracketed(inside, rest) != "" && Bracketed(inside, rest)[0] == '['
  {}

  lemma HeadingClassifies(h: Heading, rest: string)
    requires Names(h)
    ensures Bracketed(Inside(h), rest) != "" && Bracketed(Inside(h), rest)[0] == '['
    ensures ClassifyHeader(Bracketed(Inside(h), rest)) == if TailOk(Trim(rest)) then Header(h.name) else Bad
  {
    hide *;
    OpensWithBracket(Inside(h), rest);
    InsideEnds(h, rest);
    BareWithin(h);
    NameIsSome(h);
    HeaderParts(Bracketed(Inside(h), rest), Inside(h), rest, h.name);
  }

  lemma HeaderParts(text: string, inside: string, rest: string, name: string)
    requires text != "" && |inside| < |text| - 1 && IndexOf(text[1..], ']') == |inside|
    requires text[1..|inside| + 1] == inside && text[|inside| + 2..] == rest
    requires Trim(inside) == name && name != "" && |name| < 320
    ensures ClassifyHeader(text) == if TailOk(Trim(rest)) then Header(name) else Bad
  {
    hide Trim, IndexOf, TailOk;
  }

  // The reader enters the section of a header with nothing or a comment behind it, and counts any
  // other tail as an error.
  lemma HeadingIsRead(st: Reading, h: Heading)
    requires Names(h) && (Remark(h.tail) || Other(h.tail))
    ensures ReadStep(st, HeadingText(h) + "\n") ==
            if Remark(h.tail) then st.(section := h.name, first := false)
            else st.(errors := st.errors + 1, first := false)
  {
    hide Trim, Cut, TailOk, ClassifyHeader, HeadingText, Bracketed;
    HeadingTrims(h);
    HeadingClassifies(h, Cut(h.behind + h.tail));
    if Remark(h.tail) {
      CutIsTail(h.behind, h.tail);
    } else {
      CutTrims(h.behind + h.tail);
      TailIsNoRemark(h.behind, h.tail);
    }
  }

  // ---------------------------------------------------------------- other lines

  lemma OneLine(indent: string, text: string)
    requires Blanks(indent) && (text != "" ==> !IsBlank(text[0]))
    ensures Trim(indent + text + "\n") == TrimRight(text)
  {
    hide TrimLeft, TrimRight, Trim;
    TrimNewline(indent + text);
    if text == "" {
      assert indent + text == indent;
      BlanksTrim(indent);
      NothingToTrim();
    } else {
      TrimOver(indent, text);
    }
  }

  lemma NothingToTrim()
    ensures TrimRight("") == ""
  {}

  lemma FirstStays(text: string)
    requires text != "" && text[0] != '\r' && text[0] != '\n' && !IsBlank(text[0])
    ensures TrimRight(text) != "" && TrimRight(text)[0] == text[0]
  {
    hide TrimRight;
    TrimRightAppend([text[0]], text[1..]);
    assert text == [text[0]] + text[1..];
  }

  // Empty lines and comments, indented or not, change nothing.
  lemma RemarkIsSkipped(st: Reading, indent: string, remark: string)
    requires Blanks(indent) && Remark(remark) && |indent| + |remark| + 1 < 384
    ensures ReadStep(st, indent + remark + "\n") == st.(first := false)
  {
    hide Trim, TrimRight, ParseValue;
    OneLine(indent, remark);
    if remark == "" { NothingToTrim(); } else { FirstStays(remark); }
  }

  // A line without an equals sign that is no header is an error, and so is a header without its
  // closing bracket.
  lemma LooseTextIsRefused(st: Reading, indent: string, text: string)
    requires Blanks(indent) && Other(text) && |indent| + |text| + 1 < 384
    requires if text[0] == '[' then ']' !in text else '=' !in text && !Bom(text)
    ensures ReadStep(st, indent + text + "\n") == st.(errors := st.errors + 1, first := false)
  {
    hide Trim, TrimRight, ParseValue;
    OneLine(indent, text);
    FirstStays(text);
    var t := TrimRight(text);
    Nowhere(t, '=');
    Nowhere(t[1..], ']');
  }

  lemma Nowhere(s: string, c: char)
    ensures c !in s ==> IndexOf(s, c) == |s|
  {}

  // A line that does not fit the reader's buffer is an error, whatever it says.
  lemma OverlongIsRefused(st: Reading, text: string)
    requires '\n' !in text && |text| + 1 >= 384
    ensures ReadStep(st, text + "\n") == st.(errors := st.errors + 1, first := false)
  {
    hide Classify, TextOf;
  }

  // A value without a key is passed over; a malformed one is an error all the same.
  lemma NamelessIsSkipped(st: Reading, indent: string, raw: string)
    requires Blanks(indent) && '\n' !in raw && |indent| + |raw| + 2 < 384
    ensures ReadStep(st, indent + "=" + raw + "\n") ==
            if ParseValue(raw).Some? then st.(first := false) else st.(errors := st.errors + 1, first := false)
  {
    hide Trim, TrimRight, ParseValue, Cut;
    OneLine(indent, "=" + raw);
    assert indent + "=" + raw == indent + ("=" + raw);
    CutBehind(raw);
    CutTrims(raw);
    SameTrim(Cut(raw), raw);
    IndexOfIs("=" + Cut(raw), '=', 0);
    assert ("=" + Cut(raw))[1..] == Cut(raw) && ("=" + Cut(raw))[..0] == "";
    NothingTrims();
  }

  lemma CutBehind(raw: string)
    ensures TrimRight("=" + raw) == "=" + Cut(raw)
  {
    hide TrimRight;
    TrimRightAppend("=", raw);
  }

  lemma NothingTrims()
    ensures Trim("") == ""
  {}
}
