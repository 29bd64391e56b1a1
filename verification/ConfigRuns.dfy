// Sequences of rewrites of one configuration file, any of whose disk operations may be refused and
// any of which may be cut short by a loss of power: what becomes of the settings that none of them
// was meant to touch.

module ConfigRuns {
  import opened Bytes
  import opened ConfigText
  import opened ConfigMeaning

  // ---------------------------------------------------------------- the states of a rewrite

  // What is found at the path, under its backup name and under its temporary name.
  datatype Cells = Cells(at: Option<string>, backup: Option<string>, temporary: Option<string>)

  // The state after each disk operation, and the answer.
  datatype Course = Course(states: seq<Cells>, ret: int)

  // The file a rewrite produces from a text.
  function Rewritten(t: string, section: string, writer: Option<string>): string
  {
    match writer
    case Some(written) => Replace(t, section, written)
    case None => Remaining(t, section)
  }

  // The text a rewrite starts from: nothing when there is no file, and nothing when there is one
  // that does not open.
  function SourceText(file: Option<string>, refused: bool): string
  {
    if refused then "" else match file case Some(t) => t case None => ""
  }

  // A course that passes through a state first.
  function Through(s: Cells, rest: Course): Course { Course([s] + rest.states, rest.ret) }

  // Where a rename does not replace its target: the backup is unlinked, the old file steps aside, the
  // new one takes its place, and the old one is unlinked or put back. The first operation of each
  // course is the n-th of the disk.
  function SwapCourse(c: Cells, refuses: nat -> bool, n: nat): Course
  {
    var cleared := if refuses(n) then c else c.(backup := None);
    Through(cleared, AsideCourse(cleared, refuses, n + 1))
  }

  function AsideCourse(c: Cells, refuses: nat -> bool, n: nat): Course
  {
    if refuses(n) then Course([c], -1)
    else
      var aside := if c.at.None? then c else Cells(None, c.at, c.temporary);
      Through(aside, SuccessorCourse(aside, c.at.Some?, refuses, n + 1))
  }

  function SuccessorCourse(c: Cells, moved: bool, refuses: nat -> bool, n: nat): Course
  {
    if !refuses(n) && c.temporary.Some? then
      var done := Cells(c.temporary, c.backup, None);
      Course([done] + if moved then [if refuses(n + 1) then done else done.(backup := None)] else [], 0)
    else
      var back := if refuses(n + 1) || c.backup.None? then c else Cells(c.backup, None, c.temporary);
      Course([c] + if moved then [back] else [], -1)
  }

  function CommitCourse(c: Cells, refuses: nat -> bool, n: nat): Course
  {
    if !refuses(n) && c.temporary.Some? then Course([Cells(c.temporary, c.backup, None)], 0)
    else
      var rest := SwapCourse(c, refuses, n + 1);
      Course([c] + rest.states, rest.ret)
  }

  function Discarded(c: Cells, refused: bool): Cells { if refused then c else c.(temporary := None) }

  function Last(c: Cells, states: seq<Cells>): Cells { if states == [] then c else states[|states| - 1] }

  // The output is complete and closed.
  function PlaceCourse(c: Cells, output: string, refuses: nat -> bool, n: nat): Course
  {
    if refuses(n) then Course([c], -1)
    else
      var ready := c.(temporary := Some(output));
      var commit := CommitCourse(ready, refuses, n + 1);
      Course([ready] + commit.states, commit.ret)
  }

  // An unsuccessful rewrite removes its temporary file.
  function Settled(c: Cells, course: Course, refuses: nat -> bool, n: nat): Course
  {
    if course.ret == 0 then course
    else Course(course.states + [Discarded(Last(c, course.states), refuses(n + |course.states|))], course.ret)
  }

  // A whole rewrite; writes says whether all reading and writing before the temporary file is
  // closed succeeds.
  function RewriteCourse(c: Cells, section: string, writer: Option<string>, writes: bool, refuses: nat -> bool, n: nat): Course
  {
    if section == "" then Course([], -2)
    else if refuses(n + 1) then Course([c, c], -1)
    else
      var output := Rewritten(SourceText(c.at, refuses(n)), section, writer);
      var created := c.(temporary := Some(""));
      var placing := if writes then PlaceCourse(created, output, refuses, n + 2) else Course([], -1);
      var rest := Settled(created, placing, refuses, n + 2);
      Course([c, created] + rest.states, rest.ret)
  }

  // ---------------------------------------------------------------- one rewrite, state by state

  // Nothing but the old and the new version is ever at the path; one of them is there, or the old
  // one is under its backup name.
  predicate Safe(s: Cells, was: Option<string>, becomes: Option<string>)
  {
    && (s.at == was || s.at.None? || s.at == becomes)
    && (was.Some? && s.at.None? ==> s.backup == was)
  }

  // Every state is safe, success means the new version is at the path, and an error that the old one
  // is, unless it waits under its backup name.
  predicate SafeCourse(c: Cells, course: Course, becomes: Option<string>)
  {
    var last := Last(c, course.states);
    && (forall s :: s in course.states ==> Safe(s, c.at, becomes))
    && (course.ret == 0 ==> becomes.Some? && last.at == becomes)
    && (course.ret != 0 ==> last.at == c.at || (c.at.Some? && last.at.None? && last.backup == c.at))
  }

  lemma SwapIsSafe(c: Cells, refuses: nat -> bool, n: nat)
    ensures var course := SwapCourse(c, refuses, n);
            course.ret in {0, -1} && course.states != [] && SafeCourse(c, course, c.temporary)
  {
  }

  lemma CommitIsSafe(c: Cells, refuses: nat -> bool, n: nat)
    ensures var course := CommitCourse(c, refuses, n);
            course.ret in {0, -1} && course.states != [] && SafeCourse(c, course, c.temporary)
  {
    hide SwapCourse;
    SwapIsSafe(c, refuses, n + 1);
  }

  lemma PlaceIsSafe(c: Cells, output: string, refuses: nat -> bool, n: nat)
    ensures var course := PlaceCourse(c, output, refuses, n);
            course.ret in {0, -1} && SafeCourse(c, course, Some(output))
  {
    hide CommitCourse;
    CommitIsSafe(c.(temporary := Some(output)), refuses, n + 1);
  }

  lemma SettledIsSafe(c: Cells, course: Course, refuses: nat -> bool, n: nat, was: Option<string>, becomes: Option<string>)
    requires Safe(c, was, becomes) && forall s :: s in course.states ==> Safe(s, was, becomes)
    ensures var settled := Settled(c, course, refuses, n);
            && settled.ret == course.ret
            && (forall s :: s in settled.states ==> Safe(s, was, becomes))
            && Last(c, settled.states).at == Last(c, course.states).at
            && Last(c, settled.states).backup == Last(c, course.states).backup
  {
    var last := Last(c, course.states);
    assert Safe(last, was, becomes);
    assert Safe(last.(temporary := None), was, becomes);
  }

  // Whatever is refused, every state of a rewrite holds a complete version, and the answer says
  // which one is at the path, unless the old file waits under its backup name.
  lemma RewriteIsSafe(c: Cells, section: string, writer: Option<string>, writes: bool, refuses: nat -> bool, n: nat)
    ensures var course := RewriteCourse(c, section, writer, writes, refuses, n);
            && course.ret in {0, -1, -2} && (course.ret == 0 ==> section != "")
            && SafeCourse(c, course, Some(Rewritten(SourceText(c.at, refuses(n)), section, writer)))
  {
    hide PlaceCourse, Settled, Rewritten, SourceText;
    var output := Rewritten(SourceText(c.at, refuses(n)), section, writer);
    var created := c.(temporary := Some(""));
    PlaceIsSafe(created, output, refuses, n + 2);
    var placing := if writes then PlaceCourse(created, output, refuses, n + 2) else Course([], -1);
    SettledIsSafe(created, placing, refuses, n + 2, c.at, Some(output));
  }

  // ---------------------------------------------------------------- the entries of other sections

  function Outside(entries: seq<Entry>, sections: set<string>): seq<Entry>
  {
    if entries == [] then []
    else (if entries[0].section in sections then [] else [entries[0]]) + Outside(entries[1..], sections)
  }

  lemma {:induction false} OutsideAppend(a: seq<Entry>, b: seq<Entry>, sections: set<string>)
    ensures Outside(a + b, sections) == Outside(a, sections) + Outside(b, sections)
  {
    if a == [] {
      assert a + b == b;
    } else {
      assert (a + b)[1..] == a[1..] + b;
      OutsideAppend(a[1..], b, sections);
    }
  }

  lemma {:induction false} OutsideOthers(entries: seq<Entry>, section: string, sections: set<string>)
    requires section in sections
    ensures Outside(Others(entries, section), sections) == Outside(entries, sections)
  {
    if entries != [] {
      OutsideOthers(entries[1..], section, sections);
      var rest := Others(entries[1..], section);
      if entries[0].section == section {
        assert Others(entries, section) == rest;
      } else {
        assert ([entries[0]] + rest)[1..] == rest;
      }
    }
  }

  // A rewrite of the section that its writer, if there is one, keeps to.
  ghost predicate Proper(section: string, writer: Option<string>)
  {
    match writer
    case Some(written) => ValidSection(section) && WriterText(section, written)
    case None => section != ""
  }

  // A rewrite keeps a text in tune and its entries outside the section as they are.
  lemma RewriteKeepsOthers(t: string, section: string, writer: Option<string>)
    requires TextInTune(t) && Proper(section, writer)
    ensures TextInTune(Rewritten(t, section, writer))
    ensures Others(Read(Rewritten(t, section, writer)).entries, section) == Others(Read(t).entries, section)
  {
    hide TextInTune, Read, Replace, Remaining, ValidSection, StaysIn, Lines;
    OthersAgain(Read(t).entries, section);
    match writer {
      case Some(written) =>
        ReplaceIsInTune(t, section, written);
        ReplaceMeans(t, section, written);
        WriterStaysInSection(Reading(section, [], 0, false), Lines(written));
        OthersAppend(Others(Read(t).entries, section), ReadFrom(section, written).entries, section);
      case None =>
        RemainsInTune(t, section);
        RemoveMeans(t, section);
    }
  }

  lemma NothingIsRead()
    ensures TextInTune("") && Read("").entries == []
  {
  }

  // After a reported success the other sections' entries are those of the old file exactly when the
  // file opened, or held none. A file that is there and does not open is taken for no file.
  lemma OthersKeptIff(file: Option<string>, refused: bool, section: string, writer: Option<string>)
    requires TextInTune(SourceText(file, false)) && Proper(section, writer)
    ensures var old_ := Others(Read(SourceText(file, false)).entries, section);
            Others(Read(Rewritten(SourceText(file, refused), section, writer)).entries, section) == old_ <==>
            file.None? || !refused || old_ == []
  {
    hide TextInTune, Read, Rewritten, Proper;
    NothingIsRead();
    RewriteKeepsOthers(SourceText(file, refused), section, writer);
    assert Others([], section) == [];
  }

  // A text that is in tune and holds exactly the given entries outside some sections.
  ghost predicate Keeps(file: Option<string>, sections: set<string>, entries: seq<Entry>)
  {
    file.Some? && TextInTune(file.value) && Outside(Read(file.value).entries, sections) == entries
  }

  ghost predicate AtHand(c: Cells, sections: set<string>, entries: seq<Entry>)
  {
    Keeps(c.at, sections, entries) || Keeps(c.backup, sections, entries)
  }

  lemma RewriteKeepsOutside(t: string, section: string, writer: Option<string>, sections: set<string>)
    requires TextInTune(t) && Proper(section, writer) && section in sections
    ensures TextInTune(Rewritten(t, section, writer))
    ensures Outside(Read(Rewritten(t, section, writer)).entries, sections) == Outside(Read(t).entries, sections)
  {
    hide TextInTune, Read, Rewritten, Proper;
    RewriteKeepsOthers(t, section, writer);
    OutsideOthers(Read(t).entries, section, sections);
    OutsideOthers(Read(Rewritten(t, section, writer)).entries, section, sections);
  }

  lemma RewriteOfNothing(section: string, writer: Option<string>, sections: set<string>)
    requires Proper(section, writer) && section in sections
    ensures Outside(Read(Rewritten("", section, writer)).entries, sections) == []
  {
    hide TextInTune, Read, Rewritten, Proper;
    NothingIsRead();
    RewriteKeepsOutside("", section, writer, sections);
  }

  // ---------------------------------------------------------------- one call, cut short anywhere

  // One call that replaces a section or, without a writer, removes it, and what happens to it:
  // refuses(from + i) says whether its i-th operation is refused, and power is lost after stop
  // operations, if there are that many.
  datatype Request = Request(section: string, writer: Option<string>, writes: bool,
                             refuses: nat -> bool, from: nat, stop: nat)
  {
    // A removal first asks whether the file is there.
    function Asks(): nat { if writer.None? then 1 else 0 }

    // A removal of a file that is not there, as far as it can tell, does nothing.
    predicate Declined(c: Cells) { writer.None? && (refuses(from) || c.at.None?) }

    // Whether the i-th operation of the rewrite proper is refused; its first opens the file.
    predicate Refused(i: nat) { refuses(from + Asks() + i) }

    predicate Opens() { !Refused(0) }

    // How many operations of the rewrite proper are carried out.
    function Rest(): nat { if stop < Asks() then 0 else stop - Asks() }
  }

  function RewriteOf(c: Cells, r: Request): Course
  {
    RewriteCourse(c, r.section, r.writer, r.writes, r.refuses, r.from + r.Asks())
  }

  function CourseOf(c: Cells, r: Request): Course
  {
    if r.Declined(c) then Course([c], -1)
    else if r.writer.None? then Through(c, RewriteOf(c, r))
    else RewriteOf(c, r)
  }

  // The state in which power is lost, or the last one.
  function Picked(c: Cells, states: seq<Cells>, stop: nat): Cells
  {
    if stop == 0 then c else if stop <= |states| then states[stop - 1] else Last(c, states)
  }

  function After(c: Cells, r: Request): Cells { Picked(c, CourseOf(c, r).states, r.stop) }

  function RewriteAfter(c: Cells, r: Request): Cells { Picked(c, RewriteOf(c, r).states, r.Rest()) }

  lemma AfterIs(c: Cells, r: Request)
    ensures After(c, r) == if r.Declined(c) then c else RewriteAfter(c, r)
  {
    hide RewriteOf;
  }

  lemma PickedIsAState(c: Cells, states: seq<Cells>, stop: nat)
    ensures Picked(c, states, stop) == c || Picked(c, states, stop) in states
  {
  }

  // A call that finds a file opens it; a removal may also find none.
  predicate Finds(c: Cells, r: Request) { if c.at.Some? then r.Opens() else r.writer.None? }

  // The entries are at the path or the backup, and at the path if there is a file.
  ghost predicate Intact(c: Cells, sections: set<string>, entries: seq<Entry>)
  {
    AtHand(c, sections, entries) && (c.at.Some? ==> Keeps(c.at, sections, entries))
  }

  // A call that finds and opens the file keeps the entries, wherever it is cut short.
  lemma FoundIsKept(c: Cells, r: Request, sections: set<string>, entries: seq<Entry>)
    requires Intact(c, sections, entries) && Finds(c, r)
    requires Proper(r.section, r.writer) && r.section in sections
    ensures Intact(After(c, r), sections, entries)
  {
    hide TextInTune, Read, Rewritten, Proper, RewriteCourse, Picked;
    AfterIs(c, r);
    if !r.Declined(c) {
      RewriteKeepsOutside(c.at.value, r.section, r.writer, sections);
      RewriteIsSafe(c, r.section, r.writer, r.writes, r.refuses, r.from + r.Asks());
      PickedIsAState(c, RewriteOf(c, r).states, r.Rest());
    }
  }

  // The outcome that shows the danger: the first rename is refused, everything else succeeds, and
  // the new file ends up alone.
  function NoReplacing(section: string, writer: Option<string>, opens: bool): Request
  {
    var asks := if writer.None? then 1 else 0;
    Request(section, writer, true, i => i == asks + 3 || (i == asks && !opens), 0, asks + 8)
  }

  lemma NewFileAlone(c: Cells, section: string, writer: Option<string>, opens: bool)
    requires section != "" && (c.at.Some? || writer.Some?)
    ensures NoReplacing(section, writer, opens).Opens() == opens
    ensures After(c, NoReplacing(section, writer, opens)) ==
            Cells(Some(Rewritten(SourceText(c.at, !opens), section, writer)), None, None)
  {
    hide Rewritten, SourceText, After, RewriteAfter;
    var r := NoReplacing(section, writer, opens);
    AfterIs(c, r);
    assert r.Refused(1) == r.Refused(2) == r.Refused(4) == r.Refused(5) == r.Refused(6) == r.Refused(7) == false;
    assert r.Refused(3) && r.Refused(0) == !opens && r.Rest() == 8;
    hide NoReplacing;
    EndsAlone(c, r);
  }

  lemma EndsAlone(c: Cells, r: Request)
    requires r.section != "" && r.writes && r.Rest() == 8 && r.Refused(3)
    requires !r.Refused(1) && !r.Refused(2) && !r.Refused(4) && !r.Refused(5) && !r.Refused(6) && !r.Refused(7)
    ensures RewriteAfter(c, r) == Cells(Some(Rewritten(SourceText(c.at, r.Refused(0)), r.section, r.writer)), None, None)
  {
    hide Rewritten, SourceText, SwapCourse, RewriteOf;
    var output := Rewritten(SourceText(c.at, r.Refused(0)), r.section, r.writer);
    var ready := c.(temporary := Some(output));
    var swap := SwapCourse(ready, r.refuses, r.from + r.Asks() + 4);
    SwapSucceeds(ready, r.refuses, r.from + r.Asks() + 4);
    var tail := SwappedStates(c, r);
    assert swap.states[|swap.states| - 1] == Cells(Some(output), None, None);
  }

  lemma SwapSucceeds(c: Cells, refuses: nat -> bool, n: nat)
    requires c.temporary.Some? && !refuses(n) && !refuses(n + 1) && !refuses(n + 2) && !refuses(n + 3)
    ensures var course := SwapCourse(c, refuses, n);
            && course.ret == 0 && |course.states| == (if c.at.Some? then 4 else 3)
            && course.states[|course.states| - 1] == Cells(c.temporary, None, None)
  {
  }

  // Entries outside the rewritten sections survive a call whatever is refused on its way and
  // wherever it stops, if and only if it finds them at the path and the file opens. (A removal that
  // finds no file leaves everything as it is.)
  lemma CallIsSafeIff(c: Cells, section: string, writer: Option<string>, opens: bool,
                      sections: set<string>, entries: seq<Entry>)
    requires Proper(section, writer) && section in sections && entries != []
    requires c.at.Some? ==> TextInTune(c.at.value)
    ensures (forall r: Request :: r.section == section && r.writer == writer && r.Opens() == opens ==>
               AtHand(After(c, r), sections, entries))
       <==> if c.at.None? && writer.None? then Keeps(c.backup, sections, entries)
            else opens && Keeps(c.at, sections, entries)
  {
    hide TextInTune, Read, Rewritten, CourseOf;
    var r0 := NoReplacing(section, writer, opens);
    if c.at.None? && writer.None? {
      NothingHappens(c, section, writer, opens, sections, entries);
    } else if opens && Keeps(c.at, sections, entries) {
      hide Proper, Keeps, After;
      forall r: Request | r.section == section && r.writer == writer && r.Opens() == opens
        ensures AtHand(After(c, r), sections, entries)
      {
        FoundIsKept(c, r, sections, entries);
      }
    } else {
      LostWhenAlone(c, section, writer, opens, sections, entries);
    }
  }

  lemma NothingHappens(c: Cells, section: string, writer: Option<string>, opens: bool,
                       sections: set<string>, entries: seq<Entry>)
    requires c.at.None? && writer.None?
    ensures forall r: Request :: r.writer == writer ==> After(c, r) == c
    ensures AtHand(c, sections, entries) <==> Keeps(c.backup, sections, entries)
    ensures NoReplacing(section, writer, opens).Opens() == opens
  {
    hide RewriteOf, TextInTune, Read, After;
    forall r: Request | r.writer == writer ensures After(c, r) == c { AfterIs(c, r); }
  }

  lemma LostWhenAlone(c: Cells, section: string, writer: Option<string>, opens: bool,
                      sections: set<string>, entries: seq<Entry>)
    requires Proper(section, writer) && section in sections && entries != []
    requires c.at.Some? ==> TextInTune(c.at.value)
    requires (c.at.Some? || writer.Some?) && !(opens && Keeps(c.at, sections, entries))
    ensures NoReplacing(section, writer, opens).Opens() == opens
    ensures !AtHand(After(c, NoReplacing(section, writer, opens)), sections, entries)
  {
    hide TextInTune, Read, Rewritten, After, Request.Opens;
    assert section != "";
    hide Proper;
    NewFileAlone(c, section, writer, opens);
    if opens && c.at.Some? {
      RewriteKeepsOutside(c.at.value, section, writer, sections);
    } else {
      RewriteOfNothing(section, writer, sections);
    }
  }

  // When a call that finds a file leaves none at the path: the first rename is refused, the file has
  // stepped aside, and either power is lost there or its successor is refused and putting it back
  // did not happen.
  lemma FileIsGoneIff(c: Cells, r: Request)
    requires c.at.Some?
    ensures After(c, r).at.None? <==>
            && !r.Declined(c) && r.section != "" && r.writes
            && !r.Refused(1) && !r.Refused(2) && r.Refused(3) && !r.Refused(5)
            && (r.Rest() == 6 || (r.Rest() > 6 && r.Refused(6) && (r.Rest() == 7 || r.Refused(7))))
  {
    hide RewriteOf, After, RewriteAfter, Request.Refused, Request.Rest;
    AfterIs(c, r);
    if r.section == "" || r.Refused(1) || !r.writes || r.Refused(2) {
      StaysInPlace(c, r);
    } else if !r.Refused(3) {
      ReplacedAtOnce(c, r);
    } else {
      SwappedCourse(c, r);
    }
  }

  lemma StaysInPlace(c: Cells, r: Request)
    requires r.section == "" || r.Refused(1) || !r.writes || r.Refused(2)
    ensures RewriteAfter(c, r).at == c.at
  {
    hide Rewritten, SourceText;
  }

  lemma ReplacedAtOnce(c: Cells, r: Request)
    requires r.section != "" && r.writes && !r.Refused(1) && !r.Refused(2) && !r.Refused(3)
    ensures r.Rest() <= 3 ==> RewriteAfter(c, r).at == c.at
    ensures r.Rest() > 3 ==> RewriteAfter(c, r).at.Some?
  {
    hide Rewritten, SourceText;
  }

  lemma SwappedCourse(c: Cells, r: Request)
    requires r.section != "" && r.writes && !r.Refused(1) && !r.Refused(2) && r.Refused(3) && c.at.Some?
    ensures RewriteAfter(c, r).at.None? <==>
            !r.Refused(5) && (r.Rest() == 6 || (r.Rest() > 6 && r.Refused(6) && (r.Rest() == 7 || r.Refused(7))))
  {
    hide RewriteOf, SwapCourse, SourceText, Rewritten, Picked;
    var ready := c.(temporary := Some(Rewritten(SourceText(c.at, r.Refused(0)), r.section, r.writer)));
    var swap := SwapCourse(ready, r.refuses, r.from + r.Asks() + 4).states;
    SwapLeaves(ready, r.refuses, r.from + r.Asks() + 4);
    var tail := SwappedStates(c, r);
    PickedInSwap(c, [c, c.(temporary := Some("")), ready, ready], swap, tail, r.Rest());
  }

  lemma PickedInSwap(c: Cells, head: seq<Cells>, swap: seq<Cells>, tail: seq<Cells>, stop: nat)
    requires |head| == 4 && swap != [] && |tail| <= 1 && c.at.Some?
    requires forall i :: 0 <= i < 4 ==> head[i].at == c.at
    requires tail != [] ==> tail[0].at == swap[|swap| - 1].at
    ensures Picked(c, head + swap + tail, stop).at.None? <==>
            stop > 4 && swap[if stop - 5 < |swap| then stop - 5 else |swap| - 1].at.None?
  {
  }

  // The states of a rewrite whose first rename was refused.
  lemma SwappedStates(c: Cells, r: Request) returns (tail: seq<Cells>)
    requires r.section != "" && r.writes && !r.Refused(1) && !r.Refused(2) && r.Refused(3)
    ensures var ready := c.(temporary := Some(Rewritten(SourceText(c.at, r.Refused(0)), r.section, r.writer)));
            var swap := SwapCourse(ready, r.refuses, r.from + r.Asks() + 4).states;
            && RewriteOf(c, r).states == [c, c.(temporary := Some("")), ready, ready] + swap + tail
            && |tail| <= 1 && (tail != [] ==> tail[0].at == Last(ready, swap).at)
            && (SwapCourse(ready, r.refuses, r.from + r.Asks() + 4).ret == 0 ==> tail == [])
  {
    hide Rewritten, SourceText, SwapCourse;
    var ready := c.(temporary := Some(Rewritten(SourceText(c.at, r.Refused(0)), r.section, r.writer)));
    var swap := SwapCourse(ready, r.refuses, r.from + r.Asks() + 4);
    SwapIsSafe(ready, r.refuses, r.from + r.Asks() + 4);
    var placed := [ready, ready] + swap.states;
    var from := r.from + r.Asks() + 2;
    assert PlaceCourse(c.(temporary := Some("")), ready.temporary.value, r.refuses, from).states == placed;
    tail := if swap.ret == 0 then [] else [Discarded(Last(ready, swap.states), r.refuses(from + |placed|))];
    assert RewriteOf(c, r).states == [c, c.(temporary := Some(""))] + (placed + tail);
  }

  lemma SwapLeaves(c: Cells, refuses: nat -> bool, n: nat)
    requires c.at.Some? && c.temporary.Some?
    ensures var states := SwapCourse(c, refuses, n).states;
            && (refuses(n + 1) ==> |states| == 2 && states[0].at == states[1].at == c.at)
            && (!refuses(n + 1) ==> |states| == 4 && states[0].at == c.at && states[1].at == None)
            && (!refuses(n + 1) && !refuses(n + 2) ==> states[2].at == states[3].at == c.temporary)
            && (!refuses(n + 1) && refuses(n + 2) ==> states[2].at == None && (states[3].at.None? <==> refuses(n + 3)))
  {
  }

  // ---------------------------------------------------------------- many calls

  function RunAfter(c: Cells, requests: seq<Request>): Cells
  {
    if requests == [] then c else After(RunAfter(c, requests[..|requests| - 1]), requests[|requests| - 1])
  }

  ghost predicate AllProper(requests: seq<Request>, sections: set<string>)
  {
    forall k :: 0 <= k < |requests| ==>
      Proper(requests[k].section, requests[k].writer) && requests[k].section in sections
  }

  // Every call of the run finds a file at the path and opens it; removals may find none.
  predicate AllFind(c: Cells, requests: seq<Request>)
  {
    requests == [] ||
    var before, last := requests[..|requests| - 1], requests[|requests| - 1];
    AllFind(c, before) && Finds(RunAfter(c, before), last)
  }

  // Over any sequence of calls, refusals and losses of power: as long as each call finds the file and
  // opens it, the entries outside the rewritten sections are at the path or the backup, and they are
  // at the path whenever a file is there.
  lemma {:induction false} RunKeepsEntries(c: Cells, requests: seq<Request>, sections: set<string>, entries: seq<Entry>)
    requires Keeps(c.at, sections, entries) && AllProper(requests, sections) && AllFind(c, requests)
    ensures AtHand(RunAfter(c, requests), sections, entries)
    ensures RunAfter(c, requests).at.Some? ==> Keeps(RunAfter(c, requests).at, sections, entries)
  {
    hide Keeps, Proper, After, Finds;
    if requests != [] {
      var n := |requests| - 1;
      assert AllProper(requests[..n], sections) by {
        assert forall k :: 0 <= k < n ==> requests[..n][k] == requests[k];
      }
      RunKeepsEntries(c, requests[..n], sections, entries);
      FoundIsKept(RunAfter(c, requests[..n]), requests[n], sections, entries);
    }
  }

  // After such a run, the next call is safe whatever happens on its way if and only if it too finds
  // the file and opens it.
  lemma NextIsSafeIff(c: Cells, requests: seq<Request>, section: string, writer: Option<string>, opens: bool,
                      sections: set<string>, entries: seq<Entry>)
    requires Keeps(c.at, sections, entries) && AllProper(requests, sections) && AllFind(c, requests)
    requires Proper(section, writer) && section in sections && entries != []
    ensures (forall r: Request :: r.section == section && r.writer == writer && r.Opens() == opens ==>
               AtHand(After(RunAfter(c, requests), r), sections, entries))
       <==> if RunAfter(c, requests).at.Some? then opens else writer.None?
  {
    hide TextInTune, Read, Proper, RunAfter, After, AllProper, AllFind, Outside, Request.Opens;
    RunKeepsEntries(c, requests, sections, entries);
    CallIsSafeIff(RunAfter(c, requests), section, writer, opens, sections, entries);
  }

  // ---------------------------------------------------------------- how entries are lost

  // A file that is there and does not open: the rewrite succeeds and every entry of another section
  // is gone, with nothing under the backup name that was not there before.
  lemma RefusedOpenLosesEntries(t: string, backup: Option<string>, section: string, writer: Option<string>, entry: Entry)
    requires Proper(section, writer)
    requires entry in Read(t).entries && entry.section != section
    ensures var course := RewriteCourse(Cells(Some(t), backup, None), section, writer, true, i => i == 0, 0);
            var last := Last(Cells(Some(t), backup, None), course.states);
            && course.ret == 0 && last == Cells(Some(Rewritten("", section, writer)), backup, None)
            && entry !in Read(last.at.value).entries
  {
    hide Rewritten, Read;
    assert section != "";
    hide Proper;
    RewriteOfNothing(section, writer, {section});
    NotOutside(Read(Rewritten("", section, writer)).entries, entry, {section});
  }

  lemma {:induction false} NotOutside(entries: seq<Entry>, entry: Entry, sections: set<string>)
    requires Outside(entries, sections) == [] && entry.section !in sections
    ensures entry !in entries
  {
    if entries != [] { NotOutside(entries[1..], entry, sections); }
  }

  // Three replacements of one section: power is lost while the file stands aside; the next one finds
  // no file and starts an empty one; the third has its first rename refused and, to make room for
  // the second attempt, unlinks the backup, which held the last copy of everything else.
  lemma MissingFileLosesEntries(t: string, section: string, written: string, entries: seq<Entry>)
    requires Proper(section, Some(written)) && Keeps(Some(t), {section}, entries) && entries != []
    ensures var start, w := Cells(Some(t), None, None), Some(written);
            var first := Request(section, w, true, i => i == 3, 0, 6);
            var second := Request(section, w, true, _ => false, 0, 4);
            var third := Request(section, w, true, i => i == 3, 0, 5);
            var a := After(start, first); var b := After(a, second); var c := After(b, third);
            && a.at == None && a.backup == Some(t)
            && CourseOf(a, second).ret == 0 && !Keeps(b.at, {section}, entries) && b.backup == Some(t)
            && !AtHand(c, {section}, entries)
  {
    hide Rewritten, Read, TextInTune, After, CourseOf;
    assert section != "";
    hide Proper;
    var w := Some(written);
    var start := Cells(Some(t), None, None);
    var first := Request(section, w, true, i => i == 3, 0, 6);
    var second := Request(section, w, true, _ => false, 0, 4);
    var third := Request(section, w, true, i => i == 3, 0, 5);
    var a := After(start, first);
    StoppedAside(start, first);
    RewriteOfNothing(section, w, {section});
    Replaced(a, second);
    var b := After(a, second);
    BackupUnlinked(b, third);
  }

  lemma StoppedAside(c: Cells, r: Request)
    requires r.writer.Some? && r.section != "" && r.writes && r.stop == 6 && c.at.Some?
    requires forall i :: 0 <= i <= 5 ==> r.Refused(i) == (i == 3)
    ensures After(c, r).at == None && After(c, r).backup == c.at
  {
    hide Rewritten, SourceText;
    assert r.Refused(1) == false && r.Refused(2) == false && r.Refused(3) && r.Refused(5) == false;
  }

  lemma Replaced(c: Cells, r: Request)
    requires r.writer.Some? && r.section != "" && r.writes && r.stop == 4
    requires forall i :: 0 <= i <= 3 ==> !r.Refused(i)
    ensures CourseOf(c, r).ret == 0 && After(c, r).backup == c.backup
    ensures After(c, r).at == Some(Rewritten(SourceText(c.at, false), r.section, r.writer))
  {
    hide Rewritten, SourceText;
    assert !r.Refused(0) && !r.Refused(1) && !r.Refused(2) && !r.Refused(3);
  }

  lemma BackupUnlinked(c: Cells, r: Request)
    requires r.writer.Some? && r.section != "" && r.writes && r.stop == 5
    requires forall i :: 0 <= i <= 4 ==> r.Refused(i) == (i == 3)
    ensures After(c, r).at == c.at && After(c, r).backup == None
  {
    hide Rewritten, SourceText;
    assert r.Refused(1) == false && r.Refused(2) == false && r.Refused(3) && r.Refused(4) == false;
  }
}
