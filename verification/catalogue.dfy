/**
  Edits of the subject catalogue (subject, chapter and task) and of the
  reading list. Each edit rebuilds the list with `map`/`filter` keyed on ids;
  nothing enforces unique ids or names, so an edit reaches every entry with
  a matching id. New ids come from the clock and are parameters here.
 */
module Catalogue {
  import opened Types
  import opened Lists

  const VibrantPalette: seq<string> := [
    "#ef4444", "#f97316", "#facc15", "#84cc16", "#10b981",
    "#06b6d4", "#3b82f6", "#8b5cf6", "#d946ef", "#f43f5e",
    "#14b8a6", "#6366f1", "#ec4899", "#0ea5e9", "#a855f7"
  ]

  const MonochromePalette: seq<string> := [
    "#ffffff", "#fafafa", "#f4f4f5", "#e4e4e7",
    "#d4d4d8", "#a1a1aa", "#71717a", "#52525b"
  ]

  function Palette(mode: ColorMode): (p: seq<string>)
    ensures |p| > 0
  {
    if mode == Vibrant then VibrantPalette else MonochromePalette
  }

  function UsedColors(subjects: seq<Subject>): set<string> {
    set i | 0 <= i < |subjects| :: subjects[i].color
  }

  /** The palette colours no subject uses yet, in palette order. */
  function Unused(palette: seq<string>, used: set<string>): (available: seq<string>)
    ensures forall c :: c in available <==> c in palette && c !in used
  {
    Filter(palette, (color: string) => color !in used)
  }

  /** The colour a new subject gets. `pick` stands for the random draw
      `Math.floor(Math.random() * n)`, reduced into range: an unused palette
      colour when there is one, otherwise any palette colour. */
  function ChooseColor(palette: seq<string>, used: set<string>, pick: nat): (c: string)
    requires |palette| > 0
    ensures c in palette
    ensures (exists i :: 0 <= i < |palette| && palette[i] !in used) ==> c !in used
  {
    var available := Unused(palette, used);
    if |available| > 0 then available[pick % |available|]
    else
      assert forall i :: 0 <= i < |palette| ==> palette[i] !in available;
      palette[pick % |palette|]
  }

  /** A draw that yields `c`: every colour `ChooseColor` may return for
      some draw is returned for this one. */
  function DrawFor(palette: seq<string>, used: set<string>, c: string): (pick: nat)
    requires c in palette
    requires c !in used || forall i :: 0 <= i < |palette| ==> palette[i] in used
    ensures ChooseColor(palette, used, pick) == c
  {
    var available := Unused(palette, used);
    if |available| > 0 then
      var ia := IndexOf(palette, available[0]);
      assert palette[ia] !in used;
      assert c in available;
      var k := IndexOf(available, c);
      SmallMod(k, |available|);
      k
    else
      var k := IndexOf(palette, c);
      SmallMod(k, |palette|);
      k
  }

  lemma SmallMod(k: nat, n: nat)
    requires k < n
    ensures k % n == k
  {
  }

  /** `addSubject`: appends one chapterless subject in a palette colour. */
  function AddSubject(subjects: seq<Subject>, name: string, mode: ColorMode, newId: int, pick: nat)
    : (r: seq<Subject>)
    ensures |r| == |subjects| + 1
    ensures r[..|subjects|] == subjects
    ensures r[|subjects|].id == newId && r[|subjects|].name == name
    ensures r[|subjects|].chapters == []
    ensures r[|subjects|].color in Palette(mode)
    ensures (exists i :: 0 <= i < |Palette(mode)| && Palette(mode)[i] !in UsedColors(subjects))
      ==> r[|subjects|].color !in UsedColors(subjects)
  {
    var color := ChooseColor(Palette(mode), UsedColors(subjects), pick);
    subjects + [Subject(newId, name, color, [])]
  }

  /** `deleteSubject`: exactly the subjects with another id remain, in order. */
  function DeleteSubject(subjects: seq<Subject>, id: int): (r: seq<Subject>)
    ensures forall s :: s in r <==> s in subjects && s.id != id
    ensures forall s: Subject :: s.id != id ==> multiset(r)[s] == multiset(subjects)[s]
    ensures (forall i :: 0 <= i < |subjects| ==> subjects[i].id != id) ==> r == subjects
  {
    var keep := (s: Subject) => s.id != id;
    forall s: Subject | s.id != id ensures multiset(Filter(subjects, keep))[s] == multiset(subjects)[s] {
      FilterCount(subjects, keep, s);
    }
    Filter(subjects, keep)
  }

  /** Subjects with id `sid` get `g` applied to their chapters; others stay. */
  function EditChapters(subjects: seq<Subject>, sid: int, g: seq<Chapter> -> seq<Chapter>)
    : (r: seq<Subject>)
    ensures |r| == |subjects|
    ensures forall i :: 0 <= i < |subjects| && subjects[i].id != sid ==> r[i] == subjects[i]
    ensures forall i :: 0 <= i < |subjects| && subjects[i].id == sid ==>
      r[i] == subjects[i].(chapters := g(subjects[i].chapters))
  {
    MapWhere(subjects, (s: Subject) => s.id == sid,
             (s: Subject) => s.(chapters := g(s.chapters)))
  }

  /** Chapters with id `cid` get `h` applied to their tasks; others stay. */
  function EditTasks(chapters: seq<Chapter>, cid: int, h: seq<Task> -> seq<Task>)
    : (r: seq<Chapter>)
    ensures |r| == |chapters|
    ensures forall j :: 0 <= j < |chapters| && chapters[j].id != cid ==> r[j] == chapters[j]
    ensures forall j :: 0 <= j < |chapters| && chapters[j].id == cid ==>
      r[j] == chapters[j].(tasks := h(chapters[j].tasks))
  {
    MapWhere(chapters, (c: Chapter) => c.id == cid, (c: Chapter) => c.(tasks := h(c.tasks)))
  }

  /** Only subjects with id `sid` may differ, and those only in their chapters. */
  ghost predicate OnlyChaptersOf(before: seq<Subject>, after: seq<Subject>, sid: int) {
    && |after| == |before|
    && (forall i :: 0 <= i < |before| && before[i].id != sid ==> after[i] == before[i])
    && (forall i :: 0 <= i < |before| ==>
          after[i].id == before[i].id && after[i].name == before[i].name
          && after[i].color == before[i].color)
  }

  /** Within the subjects `sid`, only chapters with id `cid` may differ, and
      those only in their tasks. */
  ghost predicate OnlyTasksOf(before: seq<Subject>, after: seq<Subject>, sid: int, cid: int)
    requires |after| == |before|
  {
    forall i :: 0 <= i < |before| && before[i].id == sid ==>
      && |after[i].chapters| == |before[i].chapters|
      && (forall j :: 0 <= j < |before[i].chapters| && before[i].chapters[j].id != cid ==>
            after[i].chapters[j] == before[i].chapters[j])
      && (forall j :: 0 <= j < |before[i].chapters| ==>
            after[i].chapters[j].id == before[i].chapters[j].id
            && after[i].chapters[j].name == before[i].chapters[j].name)
  }

  /** `addChapter`: each subject `sid` gains one empty chapter at the end. */
  function AddChapter(subjects: seq<Subject>, sid: int, newId: int): (r: seq<Subject>)
    ensures OnlyChaptersOf(subjects, r, sid)
    ensures forall i :: 0 <= i < |subjects| && subjects[i].id == sid ==>
      r[i].chapters == subjects[i].chapters + [Chapter(newId, "Novo Capítulo", [])]
  {
    EditChapters(subjects, sid, (cs: seq<Chapter>) => cs + [Chapter(newId, "Novo Capítulo", [])])
  }

  /** `updateChapterName`: renames chapters `cid` of subjects `sid`, nothing else. */
  function UpdateChapterName(subjects: seq<Subject>, sid: int, cid: int, newName: string)
    : (r: seq<Subject>)
    ensures OnlyChaptersOf(subjects, r, sid)
    ensures forall i :: 0 <= i < |subjects| && subjects[i].id == sid ==>
      && |r[i].chapters| == |subjects[i].chapters|
      && forall j :: 0 <= j < |subjects[i].chapters| ==>
           r[i].chapters[j] == (if subjects[i].chapters[j].id == cid
                                then subjects[i].chapters[j].(name := newName)
                                else subjects[i].chapters[j])
  {
    EditChapters(subjects, sid, (cs: seq<Chapter>) =>
      MapWhere(cs, (c: Chapter) => c.id == cid, (c: Chapter) => c.(name := newName)))
  }

  /** `chapters.filter(c => c.id !== cid)`: exactly the other chapters, each
      as often as before; with no chapter `cid` the list is unchanged. */
  function DropChapters(chapters: seq<Chapter>, cid: int): (r: seq<Chapter>)
    ensures forall c :: c in r <==> c in chapters && c.id != cid
    ensures forall c: Chapter :: c.id != cid ==> multiset(r)[c] == multiset(chapters)[c]
    ensures (forall j :: 0 <= j < |chapters| ==> chapters[j].id != cid) ==> r == chapters
  {
    var keep := (c: Chapter) => c.id != cid;
    forall c: Chapter | c.id != cid ensures multiset(Filter(chapters, keep))[c] == multiset(chapters)[c] {
      FilterCount(chapters, keep, c);
    }
    Filter(chapters, keep)
  }

  /** Dropping chapters works piece by piece, which fixes the result's order. */
  lemma DropChaptersAppend(a: seq<Chapter>, b: seq<Chapter>, c: Chapter, cid: int)
    ensures DropChapters(a + b, cid) == DropChapters(a, cid) + DropChapters(b, cid)
    ensures DropChapters([c], cid) == if c.id != cid then [c] else []
  {
    FilterAppend(a, b, (x: Chapter) => x.id != cid);
    assert [c][1..] == [];
  }

  /** `deleteChapter`: subjects `sid` lose exactly their chapters `cid`; the
      other chapters stay, as often as before and in order. */
  function DeleteChapter(subjects: seq<Subject>, sid: int, cid: int): (r: seq<Subject>)
    ensures OnlyChaptersOf(subjects, r, sid)
    ensures forall i :: 0 <= i < |subjects| && subjects[i].id == sid ==>
      r[i].chapters == DropChapters(subjects[i].chapters, cid)
    ensures forall i :: 0 <= i < |subjects| && subjects[i].id == sid ==>
      forall c :: c in r[i].chapters <==> c in subjects[i].chapters && c.id != cid
    ensures forall i :: 0 <= i < |subjects| && subjects[i].id == sid ==>
      forall c: Chapter :: c.id != cid ==> multiset(r[i].chapters)[c] == multiset(subjects[i].chapters)[c]
    ensures (forall i, j :: 0 <= i < |subjects| && subjects[i].id == sid && 0 <= j < |subjects[i].chapters|
               ==> subjects[i].chapters[j].id != cid) ==> r == subjects
  {
    EditChapters(subjects, sid, (cs: seq<Chapter>) => DropChapters(cs, cid))
  }

  /** `addTask`: chapters `cid` of subjects `sid` gain one open task at the end. */
  function AddTask(subjects: seq<Subject>, sid: int, cid: int, newId: int): (r: seq<Subject>)
    ensures OnlyChaptersOf(subjects, r, sid)
    ensures OnlyTasksOf(subjects, r, sid, cid)
    ensures forall i, j :: (0 <= i < |subjects| && subjects[i].id == sid
      && 0 <= j < |subjects[i].chapters| && subjects[i].chapters[j].id == cid) ==>
        r[i].chapters[j].tasks == subjects[i].chapters[j].tasks + [Task(newId, "Nova Tarefa", false)]
  {
    EditChapters(subjects, sid, (cs: seq<Chapter>) =>
      EditTasks(cs, cid, (ts: seq<Task>) => ts + [Task(newId, "Nova Tarefa", false)]))
  }

  /** The task list of `TaskAt(s, i, j)`, for the index-based contracts below. */
  function TasksAt(subjects: seq<Subject>, i: int, j: int): seq<Task>
    requires 0 <= i < |subjects| && 0 <= j < |subjects[i].chapters|
  {
    subjects[i].chapters[j].tasks
  }

  /** `updateTaskName`: renames tasks `tid` of chapters `cid` of subjects `sid`. */
  function UpdateTaskName(subjects: seq<Subject>, sid: int, cid: int, tid: int, newName: string)
    : (r: seq<Subject>)
    ensures OnlyChaptersOf(subjects, r, sid)
    ensures OnlyTasksOf(subjects, r, sid, cid)
    ensures forall i, j :: (0 <= i < |subjects| && subjects[i].id == sid
      && 0 <= j < |subjects[i].chapters| && subjects[i].chapters[j].id == cid) ==>
        && |TasksAt(r, i, j)| == |TasksAt(subjects, i, j)|
        && forall k :: 0 <= k < |TasksAt(subjects, i, j)| ==>
             TasksAt(r, i, j)[k] == (if TasksAt(subjects, i, j)[k].id == tid
                                     then TasksAt(subjects, i, j)[k].(name := newName)
                                     else TasksAt(subjects, i, j)[k])
  {
    EditChapters(subjects, sid, (cs: seq<Chapter>) =>
      EditTasks(cs, cid, (ts: seq<Task>) =>
        MapWhere(ts, (t: Task) => t.id == tid, (t: Task) => t.(name := newName))))
  }

  function FlipTasks(ts: seq<Task>, tid: int): (r: seq<Task>)
    ensures |r| == |ts|
    ensures forall k :: 0 <= k < |ts| ==>
      r[k] == (if ts[k].id == tid then ts[k].(completed := !ts[k].completed) else ts[k])
  {
    MapWhere(ts, (t: Task) => t.id == tid, (t: Task) => t.(completed := !t.completed))
  }

  /** `toggleTask`: flips the completion flag of tasks `tid` of chapters `cid`
      of subjects `sid`, nothing else. */
  function ToggleTask(subjects: seq<Subject>, sid: int, cid: int, tid: int): (r: seq<Subject>)
    ensures OnlyChaptersOf(subjects, r, sid)
    ensures OnlyTasksOf(subjects, r, sid, cid)
    ensures forall i, j :: (0 <= i < |subjects| && subjects[i].id == sid
      && 0 <= j < |subjects[i].chapters| && subjects[i].chapters[j].id == cid) ==>
        && |TasksAt(r, i, j)| == |TasksAt(subjects, i, j)|
        && forall k :: 0 <= k < |TasksAt(subjects, i, j)| ==>
             TasksAt(r, i, j)[k] == (if TasksAt(subjects, i, j)[k].id == tid
                                     then TasksAt(subjects, i, j)[k].(completed := !TasksAt(subjects, i, j)[k].completed)
                                     else TasksAt(subjects, i, j)[k])
  {
    EditChapters(subjects, sid, (cs: seq<Chapter>) =>
      EditTasks(cs, cid, (ts: seq<Task>) => FlipTasks(ts, tid)))
  }

  /** `tasks.filter(t => t.id !== tid)`: exactly the other tasks, each as
      often as before; with no task `tid` the list is unchanged. */
  function DropTasks(tasks: seq<Task>, tid: int): (r: seq<Task>)
    ensures forall t :: t in r <==> t in tasks && t.id != tid
    ensures forall t: Task :: t.id != tid ==> multiset(r)[t] == multiset(tasks)[t]
    ensures (forall k :: 0 <= k < |tasks| ==> tasks[k].id != tid) ==> r == tasks
  {
    var keep := (t: Task) => t.id != tid;
    forall t: Task | t.id != tid ensures multiset(Filter(tasks, keep))[t] == multiset(tasks)[t] {
      FilterCount(tasks, keep, t);
    }
    Filter(tasks, keep)
  }

  /** Dropping tasks works piece by piece, which fixes the result's order. */
  lemma DropTasksAppend(a: seq<Task>, b: seq<Task>, t: Task, tid: int)
    ensures DropTasks(a + b, tid) == DropTasks(a, tid) + DropTasks(b, tid)
    ensures DropTasks([t], tid) == if t.id != tid then [t] else []
  {
    FilterAppend(a, b, (x: Task) => x.id != tid);
    assert [t][1..] == [];
  }

  /** `deleteTask`: chapters `cid` of subjects `sid` lose exactly their tasks
      `tid`; the other tasks stay, as often as before and in order. */
  function DeleteTask(subjects: seq<Subject>, sid: int, cid: int, tid: int): (r: seq<Subject>)
    ensures OnlyChaptersOf(subjects, r, sid)
    ensures OnlyTasksOf(subjects, r, sid, cid)
    ensures forall i, j :: (0 <= i < |subjects| && subjects[i].id == sid
      && 0 <= j < |subjects[i].chapters| && subjects[i].chapters[j].id == cid) ==>
        TasksAt(r, i, j) == DropTasks(TasksAt(subjects, i, j), tid)
    ensures forall i, j :: (0 <= i < |subjects| && subjects[i].id == sid
      && 0 <= j < |subjects[i].chapters| && subjects[i].chapters[j].id == cid) ==>
        forall t :: t in TasksAt(r, i, j) <==> t in TasksAt(subjects, i, j) && t.id != tid
    ensures forall i, j :: (0 <= i < |subjects| && subjects[i].id == sid
      && 0 <= j < |subjects[i].chapters| && subjects[i].chapters[j].id == cid) ==>
        forall t: Task :: t.id != tid ==> multiset(TasksAt(r, i, j))[t] == multiset(TasksAt(subjects, i, j))[t]
    ensures NoSuchTask(subjects, sid, cid, tid) ==> r == subjects
  {
    var r := EditChapters(subjects, sid, (cs: seq<Chapter>) =>
      EditTasks(cs, cid, (ts: seq<Task>) => DropTasks(ts, tid)));
    assert NoSuchTask(subjects, sid, cid, tid) ==> r == subjects by {
      if NoSuchTask(subjects, sid, cid, tid) {
        forall i | 0 <= i < |subjects| && subjects[i].id == sid ensures r[i] == subjects[i] {
          forall j | 0 <= j < |subjects[i].chapters| ensures r[i].chapters[j] == subjects[i].chapters[j] {
            if subjects[i].chapters[j].id == cid {
              var ts := TasksAt(subjects, i, j);
              assert forall k :: 0 <= k < |ts| ==> ts[k].id != tid;
            }
          }
          assert r[i].chapters == subjects[i].chapters;
        }
      }
    }
    r
  }

  /** No chapter `cid` of a subject `sid` holds a task `tid`. */
  predicate NoSuchTask(subjects: seq<Subject>, sid: int, cid: int, tid: int) {
    forall i, j, k ::
      (0 <= i < |subjects| && subjects[i].id == sid
       && 0 <= j < |subjects[i].chapters| && subjects[i].chapters[j].id == cid
       && 0 <= k < |TasksAt(subjects, i, j)|)
      ==> TasksAt(subjects, i, j)[k].id != tid
  }

  /** Deletion works piece by piece: on a concatenation it deletes from each
      part, and a single subject stays exactly when its id differs. Together
      these fix the result's order. */
  lemma DeleteSubjectAppend(a: seq<Subject>, b: seq<Subject>, s: Subject, id: int)
    ensures DeleteSubject(a + b, id) == DeleteSubject(a, id) + DeleteSubject(b, id)
    ensures DeleteSubject([s], id) == if s.id != id then [s] else []
  {
    var keep := (x: Subject) => x.id != id;
    FilterAppend(a, b, keep);
    assert [s][1..] == [];
  }

  /** Deleting the subject just added, under a fresh id, gives back the catalogue. */
  lemma AddThenDeleteSubject(subjects: seq<Subject>, name: string, mode: ColorMode, newId: int, pick: nat)
    requires forall i :: 0 <= i < |subjects| ==> subjects[i].id != newId
    ensures DeleteSubject(AddSubject(subjects, name, mode, newId, pick), newId) == subjects
  {
    var added := AddSubject(subjects, name, mode, newId, pick);
    var keep := (s: Subject) => s.id != newId;
    assert added == subjects + [added[|subjects|]];
    FilterAppend(subjects, [added[|subjects|]], keep);
    assert Filter([added[|subjects|]], keep) == [];
  }

  /** Deleting the chapter just added, under an id fresh in its subjects,
      gives back the catalogue. */
  lemma AddThenDeleteChapter(subjects: seq<Subject>, sid: int, newId: int)
    requires forall i, j :: (0 <= i < |subjects| && subjects[i].id == sid
      && 0 <= j < |subjects[i].chapters|) ==> subjects[i].chapters[j].id != newId
    ensures DeleteChapter(AddChapter(subjects, sid, newId), sid, newId) == subjects
  {
    var added := AddChapter(subjects, sid, newId);
    var back := DeleteChapter(added, sid, newId);
    var made := Chapter(newId, "Novo Capítulo", []);
    forall i | 0 <= i < |subjects| ensures back[i] == subjects[i] {
      if subjects[i].id == sid {
        var cs := subjects[i].chapters;
        assert added[i].chapters == cs + [made];
        DropChaptersAppend(cs, [made], made, newId);
      }
    }
  }

  /** Deleting the task just added, under an id fresh in its chapters, gives
      back the catalogue. */
  lemma AddThenDeleteTask(subjects: seq<Subject>, sid: int, cid: int, newId: int)
    requires forall i, j, k :: (0 <= i < |subjects| && subjects[i].id == sid
      && 0 <= j < |subjects[i].chapters| && subjects[i].chapters[j].id == cid
      && 0 <= k < |TasksAt(subjects, i, j)|) ==> TasksAt(subjects, i, j)[k].id != newId
    ensures DeleteTask(AddTask(subjects, sid, cid, newId), sid, cid, newId) == subjects
  {
    var added := AddTask(subjects, sid, cid, newId);
    var back := DeleteTask(added, sid, cid, newId);
    forall i | 0 <= i < |subjects| ensures back[i] == subjects[i] {
      if subjects[i].id == sid {
        var cs := subjects[i].chapters;
        forall j | 0 <= j < |cs| ensures back[i].chapters[j] == cs[j] {
          if cs[j].id == cid {
            DropAppendedTask(TasksAt(subjects, i, j), Task(newId, "Nova Tarefa", false));
          }
        }
        assert back[i].chapters == cs;
      }
    }
  }

  /** Dropping an appended task whose id no other task has leaves the list
      it was appended to. */
  lemma DropAppendedTask(ts: seq<Task>, x: Task)
    requires forall k :: 0 <= k < |ts| ==> ts[k].id != x.id
    ensures DropTasks(ts + [x], x.id) == ts
  {
    DropTasksAppend(ts, [x], x, x.id);
  }

  /** Toggling the same task twice restores the catalogue. */
  lemma ToggleTaskTwice(subjects: seq<Subject>, sid: int, cid: int, tid: int)
    ensures ToggleTask(ToggleTask(subjects, sid, cid, tid), sid, cid, tid) == subjects
  {
    var once := ToggleTask(subjects, sid, cid, tid);
    var twice := ToggleTask(once, sid, cid, tid);
    forall i | 0 <= i < |subjects| ensures twice[i] == subjects[i] {
      if subjects[i].id == sid {
        var cs := subjects[i].chapters;
        forall j | 0 <= j < |cs| ensures twice[i].chapters[j] == cs[j] {
          if cs[j].id == cid {
            var ts := cs[j].tasks;
            assert TasksAt(once, i, j) == FlipTasks(ts, tid);
            assert TasksAt(twice, i, j) == FlipTasks(FlipTasks(ts, tid), tid);
            assert FlipTasks(FlipTasks(ts, tid), tid) == ts;
          }
        }
        assert twice[i].chapters == cs;
      }
    }
  }

  /** `handleAddBook`: the new book goes first. */
  function AddBook(books: seq<Book>, book: Book): (r: seq<Book>)
    ensures |r| == |books| + 1 && r[0] == book && r[1..] == books
  {
    [book] + books
  }

  /** `handleRemoveBook`: exactly the books with another id remain, each as
      often as before; with no book `id` the list is unchanged. */
  function RemoveBook(books: seq<Book>, id: string): (r: seq<Book>)
    ensures forall b :: b in r <==> b in books && b.id != id
    ensures forall b: Book :: b.id != id ==> multiset(r)[b] == multiset(books)[b]
    ensures (forall k :: 0 <= k < |books| ==> books[k].id != id) ==> r == books
  {
    var keep := (b: Book) => b.id != id;
    forall b: Book | b.id != id ensures multiset(Filter(books, keep))[b] == multiset(books)[b] {
      FilterCount(books, keep, b);
    }
    Filter(books, keep)
  }

  /** Removing books works piece by piece, which fixes the survivors' order. */
  lemma RemoveBookAppend(xs: seq<Book>, ys: seq<Book>, b: Book, id: string)
    ensures RemoveBook(xs + ys, id) == RemoveBook(xs, id) + RemoveBook(ys, id)
    ensures RemoveBook([b], id) == if b.id != id then [b] else []
  {
    FilterAppend(xs, ys, (x: Book) => x.id != id);
    assert [b][1..] == [];
  }

  /** Removing the book just added, under a fresh id, gives back the list. */
  lemma AddThenRemoveBook(books: seq<Book>, book: Book)
    requires forall k :: 0 <= k < |books| ==> books[k].id != book.id
    ensures RemoveBook(AddBook(books, book), book.id) == books
  {
    var keep := (b: Book) => b.id != book.id;
    FilterAppend([book], books, keep);
    assert Filter([book], keep) == [];
  }

  /** JavaScript truthiness of the optional `completed` flag. */
  function IsRead(b: Book): bool {
    b.completed == Some(true)
  }

  /** `handleToggleBookStatus`: `completed: !book.completed` for the matching books. */
  function ToggleBookStatus(books: seq<Book>, id: string): (r: seq<Book>)
    ensures |r| == |books|
    ensures forall k :: 0 <= k < |books| && books[k].id != id ==> r[k] == books[k]
    ensures forall k :: 0 <= k < |books| && books[k].id == id ==>
      r[k].completed.Some? && IsRead(r[k]) == !IsRead(books[k])
      && r[k] == books[k].(completed := r[k].completed)
  {
    MapWhere(books, (b: Book) => b.id == id, (b: Book) => b.(completed := Some(!IsRead(b))))
  }

  /** Toggling twice restores every book whose flag was present; a book
      without the flag comes back with it explicitly unread. */
  lemma ToggleBookTwice(books: seq<Book>, id: string)
    ensures var twice := ToggleBookStatus(ToggleBookStatus(books, id), id);
      && |twice| == |books|
      && forall k :: 0 <= k < |books| ==>
           twice[k] == (if books[k].id == id && books[k].completed.None?
                        then books[k].(completed := Some(false)) else books[k])
  {
    var once := ToggleBookStatus(books, id);
    var twice := ToggleBookStatus(once, id);
    forall k | 0 <= k < |books|
      ensures twice[k] == (if books[k].id == id && books[k].completed.None?
                           then books[k].(completed := Some(false)) else books[k])
    {
      if books[k].id == id {
        assert once[k] == books[k].(completed := Some(!IsRead(books[k])));
        assert once[k].id == id;
        assert twice[k] == once[k].(completed := Some(!IsRead(once[k])));
        assert twice[k].completed == Some(IsRead(books[k]));
        if books[k].completed.Some? {
          if books[k].completed.value {
            assert books[k].completed == Some(true);
          } else {
            assert books[k].completed == Some(false);
          }
        }
      } else {
        assert once[k] == books[k];
      }
    }
  }
}
