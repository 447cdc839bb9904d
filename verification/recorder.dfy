/** The daily attendance page: the in-memory per-student map built when a
    class and day are chosen, the status and note edits, and the save that
    deletes every record of the class on that day before inserting the map's
    entries for the current roster. */
module Recorder {
  import opened Calendar
  import opened Seqs
  import opened Records

  /** The `{status, note}` value kept per student. */
  datatype Mark = Mark(status: Status, note: string)

  datatype Entry = Entry(student: Id, mark: Mark)

  /** `Object.keys(attendance)`. */
  function Keys(d: seq<Entry>): (r: seq<Id>)
    ensures |r| == |d|
  {
    if d == [] then [] else [d[0].student] + Keys(d[1..])
  }

  predicate UniqueKeys(d: seq<Entry>)
  {
    d == [] || (d[0].student !in Keys(d[1..]) && UniqueKeys(d[1..]))
  }

  /** The page's `attendance` object: string-keyed, so each student id occurs
      at most once, and ordered by when each key was first set. */
  type Draft = d: seq<Entry> | UniqueKeys(d) witness []

  /** `attendance[sid]`. */
  function Find(d: seq<Entry>, sid: Id): (r: Option<Mark>)
    ensures r.Some? <==> sid in Keys(d)
  {
    if d == [] then None
    else if d[0].student == sid then Some(d[0].mark)
    else Find(d[1..], sid)
  }

  /** `{ ...d, [sid]: m }`: an existing key keeps its place, a new key goes last. */
  function Put(d: Draft, sid: Id, m: Mark): (r: Draft)
    ensures Find(r, sid) == Some(m)
    ensures forall k :: k != sid ==> Find(r, k) == Find(d, k)
    ensures Keys(r) == if sid in Keys(d) then Keys(d) else Keys(d) + [sid]
  {
    if d == [] then
      var r := [Entry(sid, m)];
      assert r[1..] == [];
      r
    else if d[0].student == sid then
      var r := [Entry(sid, m)] + d[1..];
      assert r[1..] == d[1..];
      assert UniqueKeys(r) by { assert sid !in Keys(r[1..]); }
      r
    else
      var tail: Draft := d[1..];
      var rest := Put(tail, sid, m);
      var r := [d[0]] + rest;
      assert r[1..] == rest;
      assert Keys(d) == [d[0].student] + Keys(tail);
      assert Keys(tail) + [sid] == Keys(d)[1..] + [sid];
      assert UniqueKeys(r) by { assert d[0].student !in Keys(rest); }
      r
  }

  /* --------------------------------------------------------------- loading */

  /** A stored record of class `c` on day `d`. */
  predicate OnSlot(a: Attendance, c: Id, d: Day)
  {
    a.classId == c && a.day == d
  }

  /** The `savedAttendanceForDate` object built from the class's records:
      for each student with a record on day `d`, the `{status, note}` of the
      record seen last (a later record overwrites an earlier one). */
  function SavedMarks(atts: seq<Attendance>, c: Id, d: Day): map<Id, Mark>
  {
    if atts == [] then map[]
    else
      var a := atts[|atts| - 1];
      var m := SavedMarks(atts[..|atts| - 1], c, d);
      if OnSlot(a, c, d) then m[a.studentId := Mark(a.status, a.note)] else m
  }

  /** Record `i` is the last record of student `sid` in class `c` on day `d`. */
  predicate LastOnSlot(atts: seq<Attendance>, c: Id, d: Day, sid: Id, i: int)
  {
    && 0 <= i < |atts| && OnSlot(atts[i], c, d) && atts[i].studentId == sid
    && forall j :: i < j < |atts| ==> !(OnSlot(atts[j], c, d) && atts[j].studentId == sid)
  }

  /** A student has a saved mark exactly when it has a record of the class on
      that day, and the mark is the one of its last such record. */
  lemma {:induction false} SavedMarksAreLast(atts: seq<Attendance>, c: Id, d: Day, sid: Id)
    ensures sid in SavedMarks(atts, c, d) <==>
            exists i :: 0 <= i < |atts| && OnSlot(atts[i], c, d) && atts[i].studentId == sid
    ensures sid in SavedMarks(atts, c, d) ==>
            exists i :: LastOnSlot(atts, c, d, sid, i)
                        && SavedMarks(atts, c, d)[sid] == Mark(atts[i].status, atts[i].note)
  {
    if atts != [] {
      var init := atts[..|atts| - 1];
      var a := atts[|atts| - 1];
      SavedMarksAreLast(init, c, d, sid);
      assert forall i :: 0 <= i < |init| ==> init[i] == atts[i];
      if OnSlot(a, c, d) && a.studentId == sid {
        assert LastOnSlot(atts, c, d, sid, |atts| - 1);
      } else if sid in SavedMarks(init, c, d) {
        var i :| LastOnSlot(init, c, d, sid, i)
                 && SavedMarks(init, c, d)[sid] == Mark(init[i].status, init[i].note);
        assert LastOnSlot(atts, c, d, sid, i);
      }
    }
  }

  /** The value a roster student starts with: the saved mark, or present with
      an empty note. */
  function MarkOr(saved: map<Id, Mark>, sid: Id): Mark
  {
    if sid in saved then saved[sid] else Mark(Hadir, "")
  }

  /** The ids of a roster, in order. */
  function RosterIds(roster: seq<Student>): (r: seq<Id>)
    ensures |r| == |roster|
  {
    if roster == [] then [] else [roster[0].id] + RosterIds(roster[1..])
  }

  predicate InRoster(roster: seq<Student>, sid: Id)
  {
    sid in RosterIds(roster)
  }

  lemma {:induction false} RosterIdsSnoc(roster: seq<Student>)
    requires roster != []
    ensures RosterIds(roster) == RosterIds(roster[..|roster| - 1]) + [roster[|roster| - 1].id]
  {
    if |roster| > 1 {
      var tail := roster[1..];
      RosterIdsSnoc(tail);
      assert tail[..|tail| - 1] == roster[..|roster| - 1][1..];
    }
  }

  /** `initialAttendance`: every roster student set, in roster order, to its
      saved mark or the default. */
  function InitialDraft(roster: seq<Student>, saved: map<Id, Mark>): (r: Draft)
    ensures forall k :: Find(r, k) == if InRoster(roster, k) then Some(MarkOr(saved, k)) else None
    ensures Keys(r) == Dedup(RosterIds(roster))
  {
    if roster == [] then []
    else
      var init := roster[..|roster| - 1];
      var st := roster[|roster| - 1];
      RosterIdsSnoc(roster);
      Put(InitialDraft(init, saved), st.id, MarkOr(saved, st.id))
  }

  /** The ids in order of first occurrence, each once. */
  function Dedup(ids: seq<Id>): (r: seq<Id>)
    ensures forall k :: k in r <==> k in ids
  {
    if ids == [] then []
    else
      var prev := Dedup(ids[..|ids| - 1]);
      var last := ids[|ids| - 1];
      assert ids == ids[..|ids| - 1] + [last];
      if last in prev then prev else prev + [last]
  }

  /** Without repeated ids, the draft's keys are the roster's ids in roster order. */
  lemma {:induction false} DedupDistinct(ids: seq<Id>)
    requires forall i, j :: 0 <= i < j < |ids| ==> ids[i] != ids[j]
    ensures Dedup(ids) == ids
  {
    if ids != [] {
      var init := ids[..|ids| - 1];
      DedupDistinct(init);
      assert ids == init + [ids[|ids| - 1]];
    }
  }

  /** What the page holds once a class and day are chosen: the roster and
      the draft. */
  datatype Session = Session(roster: seq<Student>, draft: Draft)

  /** The loading effect. Without a class or a day it clears the roster and
      leaves the previous draft in place; otherwise it reads the class's
      students and builds the draft from the records of that day. */
  function Load(s: Store, selected: Option<Id>, date: Option<Day>, prev: Draft): (r: Session)
    ensures selected.None? || date.None? ==> r == Session([], prev)
    ensures selected.Some? && date.Some? ==>
      && r.roster == ClassRoster(s, selected.value)
      && forall k :: Find(r.draft, k) ==
           if InRoster(r.roster, k)
           then Some(MarkOr(SavedMarks(s.attendance, selected.value, date.value), k))
           else None
  {
    if selected.None? || date.None? then Session([], prev)
    else
      var roster := ClassRoster(s, selected.value);
      Session(roster, InitialDraft(roster, SavedMarks(s.attendance, selected.value, date.value)))
  }

  /* --------------------------------------------------------------- editing */

  /** `handleStatusChange`: sets the status of one entry, keeping its note
      (an entry that did not exist gets an empty note). */
  function SetStatus(d: Draft, sid: Id, st: Status): (r: Draft)
    ensures Find(r, sid) == Some(Mark(st, if Find(d, sid).Some? then Find(d, sid).value.note else ""))
    ensures forall k :: k != sid ==> Find(r, k) == Find(d, k)
    ensures Find(d, sid).Some? ==> Keys(r) == Keys(d)
    ensures Find(d, sid).None? ==> Keys(r) == Keys(d) + [sid]
  {
    var note := if Find(d, sid).Some? then Find(d, sid).value.note else "";
    Put(d, sid, Mark(st, note))
  }

  /** `handleNoteChange`: sets the note of one entry, keeping its status. The
      note field is only shown for a student whose entry exists. */
  function SetNote(d: Draft, sid: Id, note: string): (r: Draft)
    requires Find(d, sid).Some?
    ensures Find(r, sid) == Some(Mark(Find(d, sid).value.status, note))
    ensures forall k :: k != sid ==> Find(r, k) == Find(d, k)
    ensures Keys(r) == Keys(d)
  {
    Put(d, sid, Find(d, sid).value.(note := note))
  }

  /* ---------------------------------------------------------------- saving */

  /** The records of class `c` on day `d` for student `sid`. */
  function Occurrences(atts: seq<Attendance>, c: Id, d: Day, sid: Id): nat
  {
    if atts == [] then 0
    else (if OnSlot(atts[0], c, d) && atts[0].studentId == sid then 1 else 0)
         + Occurrences(atts[1..], c, d, sid)
  }

  lemma {:induction false} OccurrencesConcat(a: seq<Attendance>, b: seq<Attendance>, c: Id, d: Day, sid: Id)
    ensures Occurrences(a + b, c, d, sid) == Occurrences(a, c, d, sid) + Occurrences(b, c, d, sid)
  {
    if a == [] {
      assert a + b == b;
    } else {
      assert (a + b)[1..] == a[1..] + b;
      OccurrencesConcat(a[1..], b, c, d, sid);
    }
  }

  lemma {:induction false} NoOccurrences(a: seq<Attendance>, c: Id, d: Day, sid: Id)
    requires forall i :: 0 <= i < |a| ==> !OnSlot(a[i], c, d)
    ensures Occurrences(a, c, d, sid) == 0
  {
    if a != [] {
      NoOccurrences(a[1..], c, d, sid);
    }
  }

  /** The insert batch: one fresh record of class `c` on day `d` for every
      entry, in draft order, whose student is in the roster; ids are
      consecutive from `base`. */
  function Inserted(draft: Draft, roster: seq<Student>, c: Id, d: Day, base: Id, now: Stamp): (r: seq<Attendance>)
    ensures forall i :: 0 <= i < |r| ==>
              && OnSlot(r[i], c, d) && r[i].createdAt == now
              && base <= r[i].id < base + |r|
              && InRoster(roster, r[i].studentId)
              && Find(draft, r[i].studentId) == Some(Mark(r[i].status, r[i].note))
    ensures forall i, j :: 0 <= i < j < |r| ==> r[i].id < r[j].id
    ensures forall sid :: Occurrences(r, c, d, sid) ==
              if InRoster(roster, sid) && Find(draft, sid).Some? then 1 else 0
  {
    if draft == [] then []
    else
      var e := draft[0];
      var tail: Draft := draft[1..];
      assert forall k :: k != e.student ==> Find(tail, k) == Find(draft, k);
      assert Find(tail, e.student).None?;
      if InRoster(roster, e.student) then
        var rest := Inserted(tail, roster, c, d, base + 1, now);
        var r := [Attendance(base, e.student, c, d, e.mark.status, e.mark.note, now)] + rest;
        assert r[1..] == rest;
        r
      else
        Inserted(tail, roster, c, d, base, now)
  }

  function OffSlot(c: Id, d: Day): Attendance -> bool
  {
    (a: Attendance) => !OnSlot(a, c, d)
  }

  /** `saveAttendance`. With an empty roster nothing is written. Otherwise
      every record of class `c` on day `d` is deleted, whoever it belongs to,
      and then the insert batch is appended. */
  function Save(s: Store, c: Id, d: Day, session: Session, now: Stamp): (r: Result<Store>)
    ensures r.Err? <==> session.roster == []
    ensures r.Err? ==> r.error == NoStudentsInClass
    ensures r.Ok? ==>
      var t := r.value;
      && t.classes == s.classes && t.students == s.students
      && Filter(t.attendance, OffSlot(c, d)) == Filter(s.attendance, OffSlot(c, d))
      && (forall sid :: Occurrences(t.attendance, c, d, sid) ==
            if InRoster(session.roster, sid) && Find(session.draft, sid).Some? then 1 else 0)
      && (forall i :: 0 <= i < |t.attendance| && OnSlot(t.attendance[i], c, d) ==>
            var a := t.attendance[i];
            && InRoster(session.roster, a.studentId)
            && Find(session.draft, a.studentId) == Some(Mark(a.status, a.note)))
  {
    if session.roster == [] then Err(NoStudentsInClass)
    else
      var kept := Filter(s.attendance, OffSlot(c, d));
      var added := Inserted(session.draft, session.roster, c, d, s.nextId, now);
      var t := s.(attendance := kept + added, nextId := s.nextId + |added|);
      KeptUnchanged(s.attendance, kept, added, c, d);
      SlotIsAdded(kept, added, c, d);
      forall sid ensures Occurrences(kept + added, c, d, sid) == Occurrences(added, c, d, sid) {
        SlotCount(kept, added, c, d, sid);
      }
      Ok(t)
  }

  /** Filtering out the slot after the save gives back what was kept. */
  lemma KeptUnchanged(atts: seq<Attendance>, kept: seq<Attendance>, added: seq<Attendance>, c: Id, d: Day)
    requires kept == Filter(atts, OffSlot(c, d))
    requires forall i :: 0 <= i < |added| ==> OnSlot(added[i], c, d)
    ensures Filter(kept + added, OffSlot(c, d)) == kept
  {
    FilterConcat(kept, added, OffSlot(c, d));
    FilterAll(kept, OffSlot(c, d));
    FilterNone(added, OffSlot(c, d));
  }

  /** After the save, the records on the slot are the added ones. */
  lemma SlotIsAdded(kept: seq<Attendance>, added: seq<Attendance>, c: Id, d: Day)
    requires forall i :: 0 <= i < |kept| ==> !OnSlot(kept[i], c, d)
    ensures forall i :: 0 <= i < |kept + added| && OnSlot((kept + added)[i], c, d) ==>
              (kept + added)[i] == added[i - |kept|]
  {
  }

  lemma SlotCount(kept: seq<Attendance>, added: seq<Attendance>, c: Id, d: Day, sid: Id)
    requires forall i :: 0 <= i < |kept| ==> !OnSlot(kept[i], c, d)
    ensures Occurrences(kept + added, c, d, sid) == Occurrences(added, c, d, sid)
  {
    OccurrencesConcat(kept, added, c, d, sid);
    NoOccurrences(kept, c, d, sid);
  }

  /** Every record of a save's insert batch carries a fresh id. */
  lemma SavePreservesWellFormed(s: Store, c: Id, d: Day, session: Session, now: Stamp)
    requires WellFormed(s)
    ensures Save(s, c, d, session, now).Ok? ==> WellFormed(Save(s, c, d, session, now).value)
  {
    if session.roster != [] {
      var kept := Filter(s.attendance, OffSlot(c, d));
      var added := Inserted(session.draft, session.roster, c, d, s.nextId, now);
      FilterKeepsDistinct(s.attendance, OffSlot(c, d), RecordId);
      FilterKeepsBelow(s.attendance, OffSlot(c, d), RecordId, s.nextId);
      ConcatDistinct(kept, added, RecordId, s.nextId);
    }
  }

  /* ------------------------------------------------- what a save leaves behind */

  /** The `{studentId, status, note}` content of a record, as a draft entry. */
  function EntryOf(a: Attendance): Entry
  {
    Entry(a.studentId, Mark(a.status, a.note))
  }

  function Entries(atts: seq<Attendance>): (r: seq<Entry>)
    ensures |r| == |atts|
    ensures forall i :: 0 <= i < |atts| ==> r[i] == EntryOf(atts[i])
  {
    seq(|atts|, i requires 0 <= i < |atts| => EntryOf(atts[i]))
  }

  function Enrolled(roster: seq<Student>): Entry -> bool
  {
    (e: Entry) => InRoster(roster, e.student)
  }

  function OnSlotOf(c: Id, d: Day): Attendance -> bool
  {
    (a: Attendance) => OnSlot(a, c, d)
  }

  /** One step of the insert batch. */
  lemma InsertedCons(draft: Draft, roster: seq<Student>, c: Id, d: Day, base: Id, now: Stamp)
    requires draft != []
    ensures var e := draft[0];
            Inserted(draft, roster, c, d, base, now) ==
              if InRoster(roster, e.student)
              then [Attendance(base, e.student, c, d, e.mark.status, e.mark.note, now)]
                   + Inserted(draft[1..], roster, c, d, base + 1, now)
              else Inserted(draft[1..], roster, c, d, base, now)
  {
  }

  lemma EntriesCons(a: Attendance, rest: seq<Attendance>)
    ensures Entries([a] + rest) == [EntryOf(a)] + Entries(rest)
  {
  }

  /** The insert batch holds exactly the draft entries of roster students, in
      draft order, whatever the first id and the stamp. */
  lemma {:induction false} InsertedIsDraft(draft: Draft, roster: seq<Student>, c: Id, d: Day, base: Id, now: Stamp)
    ensures Entries(Inserted(draft, roster, c, d, base, now)) == Filter(draft, Enrolled(roster))
  {
    if draft != [] {
      var e := draft[0];
      var tail: Draft := draft[1..];
      var p := Enrolled(roster);
      FilterCons(draft, p);
      InsertedCons(draft, roster, c, d, base, now);
      if InRoster(roster, e.student) {
        InsertedIsDraft(tail, roster, c, d, base + 1, now);
        var a := Attendance(base, e.student, c, d, e.mark.status, e.mark.note, now);
        EntriesCons(a, Inserted(tail, roster, c, d, base + 1, now));
        assert EntryOf(a) == e;
      } else {
        InsertedIsDraft(tail, roster, c, d, base, now);
      }
    }
  }

  /** After a save, the class's records on that day are the draft entries of
      the roster's students, in draft order. */
  lemma SlotAfterSave(s: Store, c: Id, d: Day, session: Session, now: Stamp)
    requires session.roster != []
    ensures Entries(Filter(Save(s, c, d, session, now).value.attendance, OnSlotOf(c, d)))
            == Filter(session.draft, Enrolled(session.roster))
  {
    var kept := Filter(s.attendance, OffSlot(c, d));
    var added := Inserted(session.draft, session.roster, c, d, s.nextId, now);
    var t := Save(s, c, d, session, now).value;
    assert t.attendance == kept + added;
    var q := OnSlotOf(c, d);
    assert Filter(kept + added, q) == added by {
      FilterConcat(kept, added, q);
      FilterNone(kept, q);
      FilterAll(added, q);
    }
    InsertedIsDraft(session.draft, session.roster, c, d, s.nextId, now);
  }

  /** Saving the same page twice leaves the same records as saving it once,
      apart from the fresh ids and stamps: the save is idempotent. */
  lemma SaveTwice(s: Store, c: Id, d: Day, session: Session, now1: Stamp, now2: Stamp)
    requires session.roster != []
    ensures var t1 := Save(s, c, d, session, now1).value;
            var t2 := Save(t1, c, d, session, now2).value;
            && t2.classes == t1.classes && t2.students == t1.students
            && Filter(t2.attendance, OffSlot(c, d)) == Filter(t1.attendance, OffSlot(c, d))
            && Entries(Filter(t2.attendance, OnSlotOf(c, d))) == Entries(Filter(t1.attendance, OnSlotOf(c, d)))
  {
    var t1 := Save(s, c, d, session, now1).value;
    SlotAfterSave(s, c, d, session, now1);
    SlotAfterSave(t1, c, d, session, now2);
  }

  /** A student has a record of the class on that day exactly when it is
      counted. */
  lemma {:induction false} OccurrencesPositive(atts: seq<Attendance>, c: Id, d: Day, sid: Id)
    ensures Occurrences(atts, c, d, sid) > 0 <==>
            exists i :: 0 <= i < |atts| && OnSlot(atts[i], c, d) && atts[i].studentId == sid
  {
    if atts != [] {
      OccurrencesPositive(atts[1..], c, d, sid);
      if exists i :: 0 <= i < |atts[1..]| && OnSlot(atts[1..][i], c, d) && atts[1..][i].studentId == sid {
        var i :| 0 <= i < |atts[1..]| && OnSlot(atts[1..][i], c, d) && atts[1..][i].studentId == sid;
        assert atts[i + 1] == atts[1..][i];
      }
      if exists i :: 0 <= i < |atts| && OnSlot(atts[i], c, d) && atts[i].studentId == sid {
        var i :| 0 <= i < |atts| && OnSlot(atts[i], c, d) && atts[i].studentId == sid;
        if i > 0 {
          assert atts[1..][i - 1] == atts[i];
        }
      }
    }
  }

  /** Reopening the page after a save shows what was saved: each roster
      student gets its draft mark back (a student the draft had no entry for
      comes back present with an empty note). */
  lemma SaveThenLoad(s: Store, c: Id, d: Day, session: Session, now: Stamp, prev: Draft)
    requires session.roster == ClassRoster(s, c) && session.roster != []
    ensures var t := Save(s, c, d, session, now).value;
            var back := Load(t, Some(c), Some(d), prev);
            && back.roster == session.roster
            && forall k :: Find(back.draft, k) ==
                 if !InRoster(session.roster, k) then None
                 else if Find(session.draft, k).Some? then Find(session.draft, k)
                 else Some(Mark(Hadir, ""))
  {
    var t := Save(s, c, d, session, now).value;
    var back := Load(t, Some(c), Some(d), prev);
    forall k | InRoster(session.roster, k)
      ensures Find(back.draft, k) ==
              if Find(session.draft, k).Some? then Find(session.draft, k) else Some(Mark(Hadir, ""))
    {
      ReloadedMark(s, c, d, session, now, k);
    }
  }

  /** The saved mark of one roster student after a save. */
  lemma ReloadedMark(s: Store, c: Id, d: Day, session: Session, now: Stamp, k: Id)
    requires session.roster != [] && InRoster(session.roster, k)
    ensures var t := Save(s, c, d, session, now).value;
            MarkOr(SavedMarks(t.attendance, c, d), k) ==
              if Find(session.draft, k).Some? then Find(session.draft, k).value else Mark(Hadir, "")
  {
    var t := Save(s, c, d, session, now).value;
    var saved := SavedMarks(t.attendance, c, d);
    SavedMarksAreLast(t.attendance, c, d, k);
    OccurrencesPositive(t.attendance, c, d, k);
    if k in saved {
      var i :| LastOnSlot(t.attendance, c, d, k, i) && saved[k] == Mark(t.attendance[i].status, t.attendance[i].note);
      assert OnSlot(t.attendance[i], c, d);
    }
  }
}
