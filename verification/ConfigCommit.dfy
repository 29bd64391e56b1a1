// Putting a rewritten configuration file in place. Any operation on the disk may be refused, the
// opening of an existing file included, and the device may lose power between any two of them;
// renames and unlinks are atomic.

module ConfigCommit {
  import opened Bytes
  import opened ConfigText
  import opened ConfigMeaning
  import opened ConfigFile
  import opened ConfigRuns

  type Files = map<string, string>

  function BackupOf(path: string): string { path + ".bak" }

  function TemporaryOf(path: string): string { path + ".tmp" }

  class Disk {
    const refuses: nat -> bool
    var files: Files
    var operations: nat
    // Every state the disk has been in: the first one, and one after each operation.
    ghost var history: seq<Files>

    ghost predicate Valid()
      reads this
    {
      history != [] && history[|history| - 1] == files
    }

    constructor (refuses: nat -> bool, files: Files)
      ensures Valid() && this.files == files && this.refuses == refuses && history == [files] && operations == 0
    {
      this.refuses := refuses;
      this.files := files;
      operations := 0;
      history := [files];
    }

    // access: whether the file is there, as far as can be told.
    method Exists(path: string) returns (found: bool)
      requires Valid()
      modifies this
      ensures Valid() && history == old(history) + [files] && operations == old(operations) + 1
      ensures found == (!refuses(old(operations)) && path in files) && files == old(files)
    {
      found := !refuses(operations) && path in files;
      operations := operations + 1;
      history := history + [files];
    }

    // fopen for reading: nothing when there is no file or when opening it is refused.
    method Open(path: string) returns (text: Option<string>)
      requires Valid()
      modifies this
      ensures Valid() && history == old(history) + [files] && operations == old(operations) + 1
      ensures text == (if refuses(old(operations)) then None else Content(files, path)) && files == old(files)
    {
      text := if !refuses(operations) && path in files then Some(files[path]) else None;
      operations := operations + 1;
      history := history + [files];
    }

    // A rename replaces its target. It fails without effect when refused (which includes a file
    // system that does not replace) or when there is nothing to rename.
    method Rename(from: string, to: string) returns (ok: bool, missing: bool)
      requires Valid() && from != to
      modifies this
      ensures Valid() && history == old(history) + [files] && operations == old(operations) + 1
      ensures ok == (!refuses(old(operations)) && from in old(files))
      ensures missing == (!refuses(old(operations)) && from !in old(files))
      ensures files == if ok then (old(files) - {from})[to := old(files)[from]] else old(files)
    {
      missing := !refuses(operations) && from !in files;
      ok := !refuses(operations) && from in files;
      if ok { files := (files - {from})[to := files[from]]; }
      operations := operations + 1;
      history := history + [files];
    }

    method Unlink(path: string)
      requires Valid()
      modifies this
      ensures Valid() && history == old(history) + [files] && operations == old(operations) + 1
      ensures files == if refuses(old(operations)) then old(files) else old(files) - {path}
    {
      if !refuses(operations) { files := files - {path}; }
      operations := operations + 1;
      history := history + [files];
    }

    method Write(path: string, content: string) returns (ok: bool)
      requires Valid()
      modifies this
      ensures Valid() && history == old(history) + [files] && operations == old(operations) + 1
      ensures ok == !refuses(old(operations)) && files == if ok then old(files)[path := content] else old(files)
    {
      ok := !refuses(operations);
      if ok { files := files[path := content]; }
      operations := operations + 1;
      history := history + [files];
    }
  }

  // The content of a file, where there is one.
  function Content(files: Files, path: string): Option<string>
  {
    if path in files then Some(files[path]) else None
  }

  ghost predicate OnlyTouches(before: Files, after: Files, touched: set<string>)
  {
    forall p :: p !in touched ==> Content(before, p) == Content(after, p)
  }

  // A complete version, the old or the new, is found at the path or beside it.
  ghost predicate Recoverable(files: Files, path: string, was: string, becomes: Option<string>)
  {
    || Content(files, path) == Some(was)
    || (becomes.Some? && Content(files, path) == becomes)
    || Content(files, BackupOf(path)) == Some(was)
  }

  // Every state from the given one on is recoverable.
  ghost predicate AlwaysRecoverable(history: seq<Files>, from: nat, path: string, was: string, becomes: Option<string>)
  {
    forall i :: from <= i < |history| ==> Recoverable(history[i], path, was, becomes)
  }

  // The history has grown by recoverable states only.
  ghost predicate GrewSafely(before: seq<Files>, after: seq<Files>, was: Files, temporary: string, path: string)
  {
    && |before| <= |after| && after[..|before|] == before
    && (path in was ==> AlwaysRecoverable(after, |before|, path, was[path], Content(was, temporary)))
  }

  lemma TouchesChain(a: Files, b: Files, c: Files, touched: set<string>)
    requires OnlyTouches(a, b, touched) && OnlyTouches(b, c, touched)
    ensures OnlyTouches(a, c, touched)
  {
    forall p | p !in touched ensures Content(a, p) == Content(c, p) {
      assert Content(a, p) == Content(b, p);
    }
  }

  // ---------------------------------------------------------------- the three names

  function CellsOf(files: Files, temporary: string, path: string): Cells
  {
    Cells(Content(files, path), Content(files, BackupOf(path)), Content(files, temporary))
  }

  predicate Apart(temporary: string, path: string)
  {
    temporary != path && temporary != BackupOf(path) && path != BackupOf(path)
  }

  function Three(temporary: string, path: string): set<string> { {temporary, path, BackupOf(path)} }

  lemma UnlinkedCells(files: Files, temporary: string, path: string)
    requires Apart(temporary, path)
    ensures CellsOf(files - {BackupOf(path)}, temporary, path) == CellsOf(files, temporary, path).(backup := None)
    ensures CellsOf(files - {temporary}, temporary, path) == CellsOf(files, temporary, path).(temporary := None)
    ensures OnlyTouches(files, files - {BackupOf(path)}, Three(temporary, path))
    ensures OnlyTouches(files, files - {temporary}, Three(temporary, path))
    ensures OnlyTouches(files, files, Three(temporary, path))
  {
    hide BackupOf;
  }

  lemma WrittenCells(files: Files, temporary: string, path: string, text: string)
    requires Apart(temporary, path)
    ensures CellsOf(files[temporary := text], temporary, path) == CellsOf(files, temporary, path).(temporary := Some(text))
    ensures OnlyTouches(files, files[temporary := text], Three(temporary, path))
  {
    hide BackupOf;
  }

  lemma RenamedCells(files: Files, temporary: string, path: string)
    requires Apart(temporary, path)
    ensures var c := CellsOf(files, temporary, path); var backup := BackupOf(path);
            && (path in files ==>
                  var next := (files - {path})[backup := files[path]];
                  CellsOf(next, temporary, path) == Cells(None, c.at, c.temporary) &&
                  OnlyTouches(files, next, Three(temporary, path)))
            && (temporary in files ==>
                  var next := (files - {temporary})[path := files[temporary]];
                  CellsOf(next, temporary, path) == Cells(c.temporary, c.backup, None) &&
                  OnlyTouches(files, next, Three(temporary, path)))
            && (backup in files ==>
                  var next := (files - {backup})[path := files[backup]];
                  CellsOf(next, temporary, path) == Cells(c.backup, None, c.temporary) &&
                  OnlyTouches(files, next, Three(temporary, path)))
    ensures OnlyTouches(files, files, Three(temporary, path))
  {
    hide BackupOf;
  }

  // The history has grown by states in which the three names hold the given cells.
  ghost predicate Went(before: seq<Files>, after: seq<Files>, temporary: string, path: string, states: seq<Cells>)
  {
    && |after| == |before| + |states| && after[..|before|] == before
    && forall i :: 0 <= i < |states| ==> CellsOf(after[|before| + i], temporary, path) == states[i]
  }

  lemma WentNowhere(before: seq<Files>, temporary: string, path: string)
    ensures Went(before, before, temporary, path, [])
  {
  }

  lemma WentOn(before: seq<Files>, after: seq<Files>, files: Files, temporary: string, path: string, states: seq<Cells>)
    requires Went(before, after, temporary, path, states)
    ensures Went(before, after + [files], temporary, path, states + [CellsOf(files, temporary, path)])
  {
    hide CellsOf;
  }

  lemma WentFurther(a: seq<Files>, b: seq<Files>, c: seq<Files>, temporary: string, path: string,
                    first: seq<Cells>, second: seq<Cells>)
    requires Went(a, b, temporary, path, first) && Went(b, c, temporary, path, second)
    ensures Went(a, c, temporary, path, first + second)
  {
    hide CellsOf;
    assert c[..|a|] == c[..|b|][..|a|];
    forall i | 0 <= i < |first + second| ensures CellsOf(c[|a| + i], temporary, path) == (first + second)[i] {
      if i < |first| {
        assert c[|a| + i] == c[..|b|][|a| + i] == b[|a| + i];
      } else {
        assert c[|a| + i] == c[|b| + (i - |first|)];
      }
    }
  }

  // A course whose states are safe is a growth by recoverable states.
  lemma WentSafely(before: seq<Files>, after: seq<Files>, temporary: string, path: string, states: seq<Cells>,
                   was: Option<string>, becomes: Option<string>)
    requires Went(before, after, temporary, path, states) && forall s :: s in states ==> Safe(s, was, becomes)
    ensures was.Some? ==> AlwaysRecoverable(after, |before|, path, was.value, becomes)
  {
    if was.Some? {
      forall i | |before| <= i < |after| ensures Recoverable(after[i], path, was.value, becomes) {
        var k := i - |before|;
        assert CellsOf(after[|before| + k], temporary, path) == states[k];
        assert states[k] in states;
      }
    }
  }

  // ---------------------------------------------------------------- the commit

  // Where a rename does not replace its target: the old file steps aside first.
  method SwapThroughBackup(disk: Disk, temporary: string, path: string) returns (ret: int, ghost stranded: bool)
    requires disk.Valid() && Apart(temporary, path)
    modifies disk
    ensures disk.Valid() && ret in {0, -1}
    ensures GrewSafely(old(disk.history), disk.history, old(disk.files), temporary, path)
    ensures ret == 0 ==> temporary in old(disk.files) && Content(disk.files, path) == old(Content(disk.files, temporary))
    ensures ret != 0 ==> (Content(disk.files, path) == old(Content(disk.files, path)) <==> !stranded)
    ensures stranded ==> path in old(disk.files) && path !in disk.files &&
                         Content(disk.files, BackupOf(path)) == old(Content(disk.files, path))
    // The states of the disk, one by one, and the answer.
    ensures var course := SwapCourse(CellsOf(old(disk.files), temporary, path), disk.refuses, old(disk.operations));
            && Went(old(disk.history), disk.history, temporary, path, course.states) && ret == course.ret
            && disk.operations == old(disk.operations) + |course.states|
    ensures OnlyTouches(old(disk.files), disk.files, Three(temporary, path))
  {
    hide Went, BackupOf, OnlyTouches, CellsOf, Apart, Three, GrewSafely, SwapCourse;
    ghost var h0, was, n := disk.history, disk.files, disk.operations;
    ret := SwapFile(disk, temporary, path);
    SwapEnds(h0, disk.history, temporary, path, disk.refuses, n);
    stranded := ret != 0 && Content(disk.files, path) != Content(was, path);
  }

  // Its operations one after the other.
  method SwapFile(disk: Disk, temporary: string, path: string) returns (ret: int)
    requires disk.Valid() && Apart(temporary, path)
    modifies disk
    ensures disk.Valid()
    ensures var course := SwapCourse(CellsOf(old(disk.files), temporary, path), disk.refuses, old(disk.operations));
            && Went(old(disk.history), disk.history, temporary, path, course.states) && ret == course.ret
            && disk.operations == old(disk.operations) + |course.states|
    ensures OnlyTouches(old(disk.files), disk.files, Three(temporary, path))
  {
    hide Went, BackupOf, OnlyTouches, CellsOf, Apart, Three, AsideCourse;
    ghost var h0, f0 := disk.history, disk.files;
    UnlinkedCells(f0, temporary, path);
    disk.Unlink(BackupOf(path));
    ghost var f1, h1 := disk.files, disk.history;
    WentOne(h0, f1, temporary, path);
    ret := StepAside(disk, temporary, path);
    WentFurther(h0, h1, disk.history, temporary, path, [CellsOf(f1, temporary, path)],
                AsideCourse(CellsOf(f1, temporary, path), disk.refuses, old(disk.operations) + 1).states);
    TouchesChain(f0, f1, disk.files, Three(temporary, path));
  }

  method StepAside(disk: Disk, temporary: string, path: string) returns (ret: int)
    requires disk.Valid() && Apart(temporary, path)
    modifies disk
    ensures disk.Valid()
    ensures var course := AsideCourse(CellsOf(old(disk.files), temporary, path), disk.refuses, old(disk.operations));
            && Went(old(disk.history), disk.history, temporary, path, course.states) && ret == course.ret
            && disk.operations == old(disk.operations) + |course.states|
    ensures OnlyTouches(old(disk.files), disk.files, Three(temporary, path))
  {
    hide Went, BackupOf, OnlyTouches, CellsOf, Apart, Three, SuccessorCourse;
    ghost var h0, f0, n := disk.history, disk.files, disk.operations;
    ApartNames(temporary, path);
    RenamedCells(f0, temporary, path);
    CellsPresent(f0, temporary, path);
    var moved, absent := disk.Rename(path, BackupOf(path));
    ghost var f1, h1 := disk.files, disk.history;
    WentOne(h0, f1, temporary, path);
    if !moved && !absent { return -1; }
    ret := PutInPlace(disk, temporary, path, moved);
    WentFurther(h0, h1, disk.history, temporary, path, [CellsOf(f1, temporary, path)],
                SuccessorCourse(CellsOf(f1, temporary, path), moved, disk.refuses, n + 1).states);
    TouchesChain(f0, f1, disk.files, Three(temporary, path));
  }

  method PutInPlace(disk: Disk, temporary: string, path: string, moved: bool) returns (ret: int)
    requires disk.Valid() && Apart(temporary, path)
    modifies disk
    ensures disk.Valid()
    ensures var course := SuccessorCourse(CellsOf(old(disk.files), temporary, path), moved,
                                          disk.refuses, old(disk.operations));
            && Went(old(disk.history), disk.history, temporary, path, course.states) && ret == course.ret
            && disk.operations == old(disk.operations) + |course.states|
    ensures OnlyTouches(old(disk.files), disk.files, Three(temporary, path))
  {
    hide Went, BackupOf, OnlyTouches, CellsOf, Apart, Three;
    ghost var h0, f0 := disk.history, disk.files;
    ApartNames(temporary, path);
    RenamedCells(f0, temporary, path);
    CellsPresent(f0, temporary, path);
    var placed, _ := disk.Rename(temporary, path);
    ghost var f1, h1 := disk.files, disk.history;
    WentOne(h0, f1, temporary, path);
    assert [CellsOf(f1, temporary, path)] + [] == [CellsOf(f1, temporary, path)];
    ret := if placed then 0 else -1;
    if moved {
      UnlinkedCells(f1, temporary, path);
      RenamedCells(f1, temporary, path);
      CellsPresent(f1, temporary, path);
      if placed {
        disk.Unlink(BackupOf(path));
      } else {
        var _, _ := disk.Rename(BackupOf(path), path);
      }
      WentOn(h0, h1, disk.files, temporary, path, [CellsOf(f1, temporary, path)]);
      TouchesChain(f0, f1, disk.files, Three(temporary, path));
    }
  }

  // The states in which power may be lost are those of the course.
  lemma StopIsPicked(before: seq<Files>, after: seq<Files>, temporary: string, path: string, states: seq<Cells>,
                     c: Cells, stop: nat)
    requires Went(before, after, temporary, path, states) && stop <= |states|
    requires before != [] && CellsOf(before[|before| - 1], temporary, path) == c
    ensures CellsOf(after[|before| - 1 + stop], temporary, path) == Picked(c, states, stop)
  {
    hide CellsOf;
    if stop == 0 {
      assert after[|before| - 1] == after[..|before|][|before| - 1];
    } else {
      assert CellsOf(after[|before| + (stop - 1)], temporary, path) == states[stop - 1];
    }
  }

  lemma WentOne(before: seq<Files>, files: Files, temporary: string, path: string)
    ensures Went(before, before + [files], temporary, path, [CellsOf(files, temporary, path)])
  {
    hide CellsOf;
  }

  // A safe course is a growth by recoverable states, and its answer says how it ended.
  lemma CourseEnds(before: seq<Files>, after: seq<Files>, temporary: string, path: string, c: Cells,
                   course: Course, becomes: Option<string>)
    requires Went(before, after, temporary, path, course.states) && SafeCourse(c, course, becomes)
    requires before != [] && CellsOf(before[|before| - 1], temporary, path) == c
    ensures after != [] && |before| <= |after| && after[..|before|] == before
    ensures var was, now := before[|before| - 1], after[|after| - 1];
            && (path in was ==> AlwaysRecoverable(after, |before|, path, was[path], becomes))
            && (course.ret == 0 ==> becomes.Some? && Content(now, path) == becomes)
            && (course.ret != 0 && Content(now, path) != Content(was, path) ==>
                  path in was && path !in now && Content(now, BackupOf(path)) == Content(was, path))
  {
    hide AlwaysRecoverable, BackupOf;
    WentSafely(before, after, temporary, path, course.states, c.at, becomes);
    WentTo(before, after, temporary, path, course.states, c);
  }

  lemma SwapEnds(before: seq<Files>, after: seq<Files>, temporary: string, path: string, refuses: nat -> bool, n: nat)
    requires before != []
    requires var course := SwapCourse(CellsOf(before[|before| - 1], temporary, path), refuses, n);
             Went(before, after, temporary, path, course.states)
    ensures after != []
    ensures var was, now := before[|before| - 1], after[|after| - 1];
            var ret := SwapCourse(CellsOf(was, temporary, path), refuses, n).ret;
            && ret in {0, -1} && GrewSafely(before, after, was, temporary, path)
            && (ret == 0 ==> temporary in was && Content(now, path) == Content(was, temporary))
            && (ret != 0 && Content(now, path) != Content(was, path) ==>
                  path in was && path !in now && Content(now, BackupOf(path)) == Content(was, path))
  {
    hide SwapCourse, Went, AlwaysRecoverable, BackupOf;
    var c := CellsOf(before[|before| - 1], temporary, path);
    SwapIsSafe(c, refuses, n);
    CourseEnds(before, after, temporary, path, c, SwapCourse(c, refuses, n), c.temporary);
  }

  lemma ApartNames(temporary: string, path: string)
    requires Apart(temporary, path)
    ensures path != BackupOf(path) && temporary != path
  {
  }

  lemma CellsPresent(files: Files, temporary: string, path: string)
    ensures var c := CellsOf(files, temporary, path);
            && (c.at.Some? <==> path in files) && (c.backup.Some? <==> BackupOf(path) in files)
            && (c.temporary.Some? <==> temporary in files)
  {
  }

  method CommitFile(disk: Disk, temporary: string, path: string) returns (ret: int)
    requires disk.Valid() && Apart(temporary, path)
    modifies disk
    ensures disk.Valid()
    ensures var course := CommitCourse(CellsOf(old(disk.files), temporary, path), disk.refuses, old(disk.operations));
            && Went(old(disk.history), disk.history, temporary, path, course.states) && ret == course.ret
            && disk.operations == old(disk.operations) + |course.states|
    ensures OnlyTouches(old(disk.files), disk.files, Three(temporary, path))
  {
    hide Went, BackupOf, OnlyTouches, CellsOf, Apart, SwapCourse, Three;
    ghost var h0, f0 := disk.history, disk.files;
    ghost var c := CellsOf(f0, temporary, path);
    WentNowhere(h0, temporary, path);
    assert path != BackupOf(path) && temporary != path by { ApartNames(temporary, path); }
    RenamedCells(f0, temporary, path);
    CellsPresent(f0, temporary, path);
    var ok, _ := disk.Rename(temporary, path);
    ghost var f1, h1 := disk.files, disk.history;
    WentOn(h0, h0, f1, temporary, path, []);
    assert [] + [CellsOf(f1, temporary, path)] == [CellsOf(f1, temporary, path)];
    if ok { return 0; }
    ghost var stranded;
    ret, stranded := SwapThroughBackup(disk, temporary, path);
    ghost var swap := SwapCourse(c, disk.refuses, old(disk.operations) + 1);
    WentFurther(h0, h1, disk.history, temporary, path, [c], swap.states);
  }

  // unifrog_config_commit.
  method Commit(disk: Disk, temporary: string, path: string) returns (ret: int, ghost stranded: bool)
    requires disk.Valid() && temporary != path && temporary != BackupOf(path)
    modifies disk
    ensures disk.Valid() && ret in {0, -1, -2}
    // A stop after any step leaves a complete version.
    ensures GrewSafely(old(disk.history), disk.history, old(disk.files), temporary, path)
    ensures ret == 0 ==> temporary in old(disk.files) && Content(disk.files, path) == old(Content(disk.files, temporary))
    // An error leaves the old file in place, except when putting it back was refused as well.
    ensures ret != 0 ==> (Content(disk.files, path) == old(Content(disk.files, path)) <==> !stranded)
    ensures stranded ==> path in old(disk.files) && path !in disk.files &&
                         Content(disk.files, BackupOf(path)) == old(Content(disk.files, path))
    ensures OnlyTouches(old(disk.files), disk.files, {temporary, path, BackupOf(path)})
    // The states of the disk, one by one, and the answer.
    ensures if |BackupOf(path)| >= SECTION_MAX then ret == -2 && disk.history == old(disk.history)
            else
              var course := CommitCourse(CellsOf(old(disk.files), temporary, path), disk.refuses, old(disk.operations));
              && Went(old(disk.history), disk.history, temporary, path, course.states) && ret == course.ret
              && disk.operations == old(disk.operations) + |course.states|
  {
    Distinct(path);
    if |BackupOf(path)| >= SECTION_MAX { return -2, false; }
    hide CommitCourse, Went;
    ghost var c, n, h0 := CellsOf(disk.files, temporary, path), disk.operations, disk.history;
    ret := CommitFile(disk, temporary, path);
    CommitIsSafe(c, disk.refuses, n);
    CourseEnds(h0, disk.history, temporary, path, c, CommitCourse(c, disk.refuses, n), c.temporary);
    stranded := ret != 0 && Content(disk.files, path) != c.at;
  }

  // Where a course that begins in the given cells ends.
  lemma WentTo(before: seq<Files>, after: seq<Files>, temporary: string, path: string, states: seq<Cells>, c: Cells)
    requires Went(before, after, temporary, path, states)
    requires before != [] && CellsOf(before[|before| - 1], temporary, path) == c
    ensures after != [] && CellsOf(after[|after| - 1], temporary, path) == Last(c, states) && after[..|before|] == before
  {
    hide CellsOf;
    if states != [] {
      assert CellsOf(after[|before| + (|states| - 1)], temporary, path) == states[|states| - 1];
    } else {
      assert after == after[..|before|];
    }
  }

  // ---------------------------------------------------------------- the whole rewrite

  function TextAt(files: Files, path: string): string { if path in files then files[path] else "" }

  // rewrite_section. The text it starts from is that of the file at the path when that opens, and
  // nothing otherwise. writes says whether all reading and writing before the temporary file is
  // closed succeeds.
  method RewriteSection(disk: Disk, path: string, section: string, writer: Option<string>, writes: bool)
    returns (ret: int, ghost stranded: bool)
    requires disk.Valid()
    modifies disk
    ensures disk.Valid() && old(disk.history) <= disk.history
    ensures path in old(disk.files) ==>
              AlwaysRecoverable(disk.history, |old(disk.history)|, path, old(disk.files)[path],
                                Some(Rewritten(OpenedText(old(disk.files), path, disk.refuses(old(disk.operations))),
                                               section, writer)))
    ensures ret == 0 ==>
              Content(disk.files, path) ==
              Some(Rewritten(OpenedText(old(disk.files), path, disk.refuses(old(disk.operations))), section, writer))
    ensures ret != 0 ==> (Content(disk.files, path) == old(Content(disk.files, path)) <==> !stranded)
    ensures stranded ==> path in old(disk.files) && path !in disk.files &&
                         Content(disk.files, BackupOf(path)) == old(Content(disk.files, path))
    ensures OnlyTouches(old(disk.files), disk.files, {TemporaryOf(path), path, BackupOf(path)})
    ensures ret == 0 ==> section != ""
    // The states of the disk, one by one, and the answer.
    ensures if |TemporaryOf(path)| >= SECTION_MAX then ret == -2 && disk.history == old(disk.history)
            else
              var course := RewriteCourse(CellsOf(old(disk.files), TemporaryOf(path), path), section, writer, writes,
                                          disk.refuses, old(disk.operations));
              Went(old(disk.history), disk.history, TemporaryOf(path), path, course.states) && ret == course.ret
  {
    stranded := false;
    var temporary := TemporaryOf(path);
    WentNowhere(disk.history, temporary, path);
    if section == "" || |temporary| >= SECTION_MAX { return -2, false; }
    Distinct(path);
    ghost var c, n, h0 := CellsOf(disk.files, temporary, path), disk.operations, disk.history;
    hide RewriteCourse, Went, Rewritten, TemporaryOf;
    ret := RewriteFile(disk, path, section, writer, writes);
    ghost var output := Rewritten(SourceText(c.at, disk.refuses(n)), section, writer);
    RewriteIsSafe(c, section, writer, writes, disk.refuses, n);
    CourseEnds(h0, disk.history, temporary, path, c,
               RewriteCourse(c, section, writer, writes, disk.refuses, n), Some(output));
    stranded := ret != 0 && Content(disk.files, path) != c.at;
  }

  // The text a rewrite finds at the path.
  function OpenedText(files: Files, path: string, refused: bool): string { SourceText(Content(files, path), refused) }

  method RewriteFile(disk: Disk, path: string, section: string, writer: Option<string>, writes: bool) returns (ret: int)
    requires disk.Valid() && section != ""
    modifies disk
    ensures disk.Valid()
    ensures var course := RewriteCourse(CellsOf(old(disk.files), TemporaryOf(path), path), section, writer, writes,
                                        disk.refuses, old(disk.operations));
            Went(old(disk.history), disk.history, TemporaryOf(path), path, course.states) && ret == course.ret
    ensures OnlyTouches(old(disk.files), disk.files, Three(TemporaryOf(path), path))
  {
    hide Went, BackupOf, TemporaryOf, OnlyTouches, CellsOf, Three, PlaceCourse, Rewritten, Settled;
    var temporary := TemporaryOf(path);
    assert Apart(temporary, path) by { Distinct(path); }
    hide Apart;
    ghost var c, n, h0, f0 := CellsOf(disk.files, temporary, path), disk.operations, disk.history, disk.files;
    WentNowhere(h0, temporary, path);
    UnlinkedCells(f0, temporary, path);
    AtIs(f0, temporary, path);
    var input := disk.Open(path);
    ghost var h1 := disk.history;
    WentOn(h0, h0, f0, temporary, path, []);
    assert [] + [c] == [c];
    var source := if input.Some? then input.value else "";
    assert source == SourceText(c.at, disk.refuses(n));
    WrittenCells(f0, temporary, path, "");
    var created := disk.Write(temporary, "");
    ghost var f2, h2 := disk.files, disk.history;
    ghost var c2 := CellsOf(f2, temporary, path);
    WentOn(h0, h1, f2, temporary, path, [c]);
    assert [c] + [c2] == [c, c2];
    if !created { return -1; }
    var output := BuildOutput(source, section, writer);
    ghost var placing := if writes then PlaceCourse(c2, output, disk.refuses, n + 2) else Course([], -1);
    ret := -1;
    WentNowhere(h2, temporary, path);
    UnlinkedCells(f2, temporary, path);
    if writes { ret := PlaceOutput(disk, path, output); }
    ghost var f3 := disk.files;
    ret := Settle(disk, path, ret, h2, f2, placing, n + 2);
    WentFurther(h0, h2, disk.history, temporary, path, [c, c2], Settled(c2, placing, disk.refuses, n + 2).states);
    TouchesChain(f0, f2, f3, Three(temporary, path));
    TouchesChain(f0, f3, disk.files, Three(temporary, path));
  }

  lemma AtIs(files: Files, temporary: string, path: string)
    ensures CellsOf(files, temporary, path).at == Content(files, path)
  {
  }

  method PlaceOutput(disk: Disk, path: string, output: string) returns (ret: int)
    requires disk.Valid() && Apart(TemporaryOf(path), path)
    modifies disk
    ensures disk.Valid()
    ensures var course := PlaceCourse(CellsOf(old(disk.files), TemporaryOf(path), path), output,
                                      disk.refuses, old(disk.operations));
            && Went(old(disk.history), disk.history, TemporaryOf(path), path, course.states) && ret == course.ret
            && disk.operations == old(disk.operations) + |course.states|
    ensures OnlyTouches(old(disk.files), disk.files, Three(TemporaryOf(path), path))
  {
    hide Went, BackupOf, TemporaryOf, OnlyTouches, CellsOf, Apart, Three, CommitCourse;
    var temporary := TemporaryOf(path);
    ghost var h0, f0 := disk.history, disk.files;
    WentNowhere(h0, temporary, path);
    WrittenCells(f0, temporary, path, output);
    UnlinkedCells(f0, temporary, path);
    var closed := disk.Write(temporary, output);
    ghost var f1, h1 := disk.files, disk.history;
    ghost var ready := CellsOf(f1, temporary, path);
    WentOn(h0, h0, f1, temporary, path, []);
    assert [] + [ready] == [ready];
    if !closed { return -1; }
    ret := CommitFile(disk, temporary, path);
    ghost var commit := CommitCourse(ready, disk.refuses, old(disk.operations) + 1);
    WentFurther(h0, h1, disk.history, temporary, path, [ready], commit.states);
    TouchesChain(f0, f1, disk.files, Three(temporary, path));
  }

  // An unsuccessful rewrite removes its temporary file.
  method Settle(disk: Disk, path: string, answer: int, ghost h: seq<Files>, ghost f: Files, ghost course: Course, ghost n: nat)
    returns (ret: int)
    requires disk.Valid() && Apart(TemporaryOf(path), path) && answer == course.ret
    requires h != [] && h[|h| - 1] == f && Went(h, disk.history, TemporaryOf(path), path, course.states)
    requires disk.operations == n + |course.states|
    modifies disk
    ensures disk.Valid()
    ensures var settled := Settled(CellsOf(f, TemporaryOf(path), path), course, disk.refuses, n);
            Went(h, disk.history, TemporaryOf(path), path, settled.states) && ret == settled.ret
    ensures OnlyTouches(old(disk.files), disk.files, Three(TemporaryOf(path), path))
  {
    hide Went, BackupOf, TemporaryOf, OnlyTouches, CellsOf, Apart, Three;
    var temporary := TemporaryOf(path);
    ret := answer;
    UnlinkedCells(disk.files, temporary, path);
    WentTo(h, disk.history, temporary, path, course.states, CellsOf(f, temporary, path));
    if ret != 0 {
      ghost var h1 := disk.history;
      disk.Unlink(temporary);
      WentOn(h, h1, disk.files, temporary, path, course.states);
    }
  }

  method BuildOutput(text: string, section: string, writer: Option<string>) returns (output: string)
    ensures output == Rewritten(text, section, writer)
  {
    var input := new TextFile(text);
    output := CopyOtherSections(input, section);
    if writer.Some? { output := output + "\n" + SectionHeader(section) + writer.value; }
  }

  lemma Distinct(path: string)
    ensures TemporaryOf(path) != path && BackupOf(path) != path && TemporaryOf(path) != BackupOf(path)
  {
    assert |TemporaryOf(path)| == |path| + 4 == |BackupOf(path)|;
    assert TemporaryOf(path)[|path| + 1] == 't' && BackupOf(path)[|path| + 1] == 'b';
  }

  // Saving a section, with everything that can go wrong on the way. After a reported success a
  // reader sees the new settings, and before them the other sections as they were in the text that
  // was opened: those of the old file, exactly when that opened or held none. After a reported error
  // it sees the old file, unless that waits under its backup name.
  method SaveSection(disk: Disk, path: string, section: string, pairs: seq<(string, string)>, writes: bool)
    returns (ret: int, ghost stranded: bool)
    requires disk.Valid() && ValidSection(section) && TextInTune(TextAt(disk.files, path)) && PairsFit(pairs)
    modifies disk
    ensures ret == 0 ==>
              && path in disk.files
              && Read(disk.files[path]).entries ==
                 Others(Read(OpenedText(old(disk.files), path, disk.refuses(old(disk.operations)))).entries, section) +
                 EntriesOf(section, pairs)
              && TextInTune(disk.files[path])
              && (WellFormed(old(TextAt(disk.files, path))) && (forall p :: p in pairs ==> !Bom(p.0)) ==>
                    WellFormed(disk.files[path]))
    ensures ret == 0 ==>
              var was := Others(Read(old(TextAt(disk.files, path))).entries, section);
              Others(Read(disk.files[path]).entries, section) == was <==>
              path !in old(disk.files) || !disk.refuses(old(disk.operations)) || was == []
    ensures path in old(disk.files) && !disk.refuses(old(disk.operations)) ==>
              AlwaysRecoverable(disk.history, |old(disk.history)|, path, old(disk.files)[path],
                                Some(Replace(old(disk.files)[path], section, Written(pairs))))
    ensures ret != 0 && !stranded ==> Content(disk.files, path) == old(Content(disk.files, path))
    ensures stranded ==> Content(disk.files, BackupOf(path)) == old(Content(disk.files, path))
    // The states of the disk are those of the call.
    ensures |TemporaryOf(path)| < SECTION_MAX ==>
              var call := Request(section, Some(Written(pairs)), writes, disk.refuses, old(disk.operations), 0);
              var course := CourseOf(CellsOf(old(disk.files), TemporaryOf(path), path), call);
              Went(old(disk.history), disk.history, TemporaryOf(path), path, course.states) && ret == course.ret
  {
    hide TextInTune, WellFormed, ValidSection, PairsFit, Replace, Read, WriterText, Went, CellsOf, RewriteCourse;
    hide AlwaysRecoverable, Recoverable, BackupOf, TemporaryOf, OnlyTouches;
    ghost var file, refused := Content(disk.files, path), disk.refuses(disk.operations);
    ghost var source := SourceText(file, refused);
    OpenedIsInTune(file, refused);
    SavedSettingsAreRead(source, section, pairs);
    PairsAreRead(section, pairs);
    OthersKeptIff(file, refused, section, Some(Written(pairs)));
    EmptyIsWellFormed();
    if WellFormed(source) && forall p :: p in pairs ==> !Bom(p.0) { SavedFileIsWellFormed(source, section, pairs); }
    ret, stranded := RewriteSection(disk, path, section, Some(Written(pairs)), writes);
  }

  lemma OpenedIsInTune(file: Option<string>, refused: bool)
    requires TextInTune(SourceText(file, false))
    ensures TextInTune(SourceText(file, refused))
  {
    hide TextInTune;
    NothingIsRead();
  }

  lemma EmptyIsWellFormed()
    ensures WellFormed("")
  {
  }

  // The file must be there for access, and is then opened by the rewrite: the second operation.
  method RemoveSection(disk: Disk, path: string, section: string, writes: bool)
    returns (ret: int, ghost stranded: bool)
    requires disk.Valid() && TextInTune(TextAt(disk.files, path))
    modifies disk
    ensures ret == 0 ==> path in old(disk.files) && path in disk.files
    ensures ret == 0 ==>
              && Read(disk.files[path]).entries ==
                 Others(Read(OpenedText(old(disk.files), path, disk.refuses(old(disk.operations) + 1))).entries, section)
              && TextInTune(disk.files[path])
    ensures ret == 0 ==>
              var was := Others(Read(old(TextAt(disk.files, path))).entries, section);
              Read(disk.files[path]).entries == was <==> !disk.refuses(old(disk.operations) + 1) || was == []
    ensures path in old(disk.files) && !disk.refuses(old(disk.operations) + 1) ==>
              AlwaysRecoverable(disk.history, |old(disk.history)|, path, old(disk.files)[path],
                                Some(Remaining(old(disk.files)[path], section)))
    ensures ret != 0 && !stranded ==> Content(disk.files, path) == old(Content(disk.files, path))
    ensures stranded ==> Content(disk.files, BackupOf(path)) == old(Content(disk.files, path))
    // The states of the disk are those of the call.
    ensures |TemporaryOf(path)| < SECTION_MAX ==>
              var call := Request(section, None, writes, disk.refuses, old(disk.operations), 0);
              var course := CourseOf(CellsOf(old(disk.files), TemporaryOf(path), path), call);
              Went(old(disk.history), disk.history, TemporaryOf(path), path, course.states) && ret == course.ret
  {
    hide TextInTune, Remaining, Read, Went, CellsOf, RewriteCourse, BackupOf, TemporaryOf, OnlyTouches;
    ghost var h0, was, file, refused := disk.history, disk.files, Content(disk.files, path), disk.refuses(disk.operations + 1);
    ghost var source := SourceText(file, refused);
    var found := disk.Exists(path);
    ghost var h1 := disk.history;
    if section != "" {
      OpenedIsInTune(file, refused);
      RemoveMeans(source, section);
      RemainsInTune(source, section);
      NothingIsRead();
    }
    ghost var c := CellsOf(was, TemporaryOf(path), path);
    WentOne(h0, was, TemporaryOf(path), path);
    AtIs(was, TemporaryOf(path), path);
    if !found { return -1, false; }
    ghost var n := disk.operations;
    ret, stranded := RewriteSection(disk, path, section, None, writes);
    if |TemporaryOf(path)| < SECTION_MAX {
      WentFurther(h0, h1, disk.history, TemporaryOf(path), path, [c],
                  RewriteCourse(c, section, None, writes, disk.refuses, n).states);
    }
    if !refused { RecoverableEarlier(h0, h1, disk.history, was, path, Some(Remaining(was[path], section))); }
  }

  // An operation that changed nothing is a recoverable state as well.
  lemma RecoverableEarlier(h0: seq<Files>, h1: seq<Files>, h: seq<Files>, was: Files, path: string, becomes: Option<string>)
    requires path in was && h1 == h0 + [was] && |h1| <= |h| && h[..|h1|] == h1
    requires AlwaysRecoverable(h, |h1|, path, was[path], becomes)
    ensures AlwaysRecoverable(h, |h0|, path, was[path], becomes)
  {
    assert h[|h0|] == h[..|h1|][|h0|] == was;
  }
}
