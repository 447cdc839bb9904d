/** The handlers of the data-management page: adding classes and students,
    renaming, deleting with the student cascade, bulk import and search.
    Each handler is a pure transition of the store; a rejected input writes
    nothing and is reported as an `Err`. */
module Roster {
  import opened Text
  import opened Seqs
  import opened Records

  /* ---------------------------------------------------------------- create */

  /** `handleAddClass`: a class named by the trimmed input, unless that is empty. */
  function AddClass(s: Store, name: string, now: Stamp): (r: Result<Store>)
    ensures r.Err? <==> AllSpace(name)
    ensures r.Err? ==> r.error == EmptyName
    ensures r.Ok? ==>
      var t := r.value;
      && |t.classes| == |s.classes| + 1
      && t.classes[..|s.classes|] == s.classes
      && (var c := t.classes[|s.classes|];
          && c.name != [] && Trim(c.name) == c.name && c.name == Trim(name)
          && c.createdAt == now)
      && t.students == s.students && t.attendance == s.attendance
  {
    var n := Trim(name);
    if n == [] then Err(EmptyName)
    else
      TrimIdempotent(name);
      Ok(s.(classes := s.classes + [Class(s.nextId, n, now)], nextId := s.nextId + 1))
  }

  /** `handleAddStudent`: a student of the selected class, unless the trimmed
      name is empty or no class is selected. */
  function AddStudent(s: Store, name: string, selected: Option<Id>, now: Stamp): (r: Result<Store>)
    ensures r.Err? <==> AllSpace(name) || selected.None?
    ensures r.Err? ==> r.error == (if AllSpace(name) then EmptyName else NoClassSelected)
    ensures r.Ok? ==>
      var t := r.value;
      && |t.students| == |s.students| + 1
      && t.students[..|s.students|] == s.students
      && (var st := t.students[|s.students|];
          && st.name != [] && Trim(st.name) == st.name && st.name == Trim(name)
          && st.classId == selected.value && st.createdAt == now)
      && t.classes == s.classes && t.attendance == s.attendance
  {
    var n := Trim(name);
    if n == [] then Err(EmptyName)
    else if selected.None? then Err(NoClassSelected)
    else
      TrimIdempotent(name);
      Ok(s.(students := s.students + [Student(s.nextId, n, selected.value, now)],
            nextId := s.nextId + 1))
  }

  lemma AddClassPreservesWellFormed(s: Store, name: string, now: Stamp)
    requires WellFormed(s)
    ensures AddClass(s, name, now).Ok? ==> WellFormed(AddClass(s, name, now).value)
  {
    if AddClass(s, name, now).Ok? {
      ConcatDistinct(s.classes, [Class(s.nextId, Trim(name), now)], ClassId, s.nextId);
    }
  }

  lemma AddStudentPreservesWellFormed(s: Store, name: string, selected: Option<Id>, now: Stamp)
    requires WellFormed(s)
    ensures AddStudent(s, name, selected, now).Ok? ==>
            WellFormed(AddStudent(s, name, selected, now).value)
  {
    if AddStudent(s, name, selected, now).Ok? {
      ConcatDistinct(s.students, [Student(s.nextId, Trim(name), selected.value, now)],
                     StudentId, s.nextId);
    }
  }

  /* ---------------------------------------------------------------- rename */

  datatype Kind = ClassKind | StudentKind

  /** The entity the edit dialog is open on. */
  datatype Item = Item(kind: Kind, id: Id)

  predicate HasClass(cs: seq<Class>, id: Id)
  {
    exists i :: 0 <= i < |cs| && cs[i].id == id
  }

  predicate HasStudent(sts: seq<Student>, id: Id)
  {
    exists i :: 0 <= i < |sts| && sts[i].id == id
  }

  function RenameClasses(cs: seq<Class>, id: Id, n: string): seq<Class>
  {
    seq(|cs|, i requires 0 <= i < |cs| => if cs[i].id == id then cs[i].(name := n) else cs[i])
  }

  function RenameStudents(sts: seq<Student>, id: Id, n: string): seq<Student>
  {
    seq(|sts|, i requires 0 <= i < |sts| => if sts[i].id == id then sts[i].(name := n) else sts[i])
  }

  /** `handleUpdateItem`: sets the trimmed new name on the edited class or
      student. Nothing is written when no item is being edited or the name is
      blank; `updateDoc` fails on an id its collection does not hold. */
  function Rename(s: Store, editing: Option<Item>, value: string): (r: Result<Store>)
    ensures editing.None? ==> r == Err(NothingBeingEdited)
    ensures editing.Some? && AllSpace(value) ==> r == Err(EmptyName)
    ensures r.Ok? <==>
      && editing.Some? && !AllSpace(value)
      && (if editing.value.kind == ClassKind then HasClass(s.classes, editing.value.id)
          else HasStudent(s.students, editing.value.id))
    ensures r.Ok? ==>
      var t := r.value;
      var id := editing.value.id;
      && t.nextId == s.nextId && t.attendance == s.attendance
      && (editing.value.kind == ClassKind ==>
            && t.students == s.students && |t.classes| == |s.classes|
            && forall i :: 0 <= i < |s.classes| ==>
                 if s.classes[i].id == id
                 then t.classes[i] == s.classes[i].(name := Trim(value))
                 else t.classes[i] == s.classes[i])
      && (editing.value.kind == StudentKind ==>
            && t.classes == s.classes && |t.students| == |s.students|
            && forall i :: 0 <= i < |s.students| ==>
                 if s.students[i].id == id
                 then t.students[i] == s.students[i].(name := Trim(value))
                 else t.students[i] == s.students[i])
  {
    if editing.None? then Err(NothingBeingEdited)
    else
      var n := Trim(value);
      var id := editing.value.id;
      if n == [] then Err(EmptyName)
      else if editing.value.kind == ClassKind then
        if HasClass(s.classes, id) then Ok(s.(classes := RenameClasses(s.classes, id, n)))
        else Err(NoSuchDocument)
      else
        if HasStudent(s.students, id) then Ok(s.(students := RenameStudents(s.students, id, n)))
        else Err(NoSuchDocument)
  }

  /** Renaming keeps the store well formed, and the new name is non-empty and
      already trimmed. */
  lemma RenamePreservesWellFormed(s: Store, editing: Option<Item>, value: string)
    requires WellFormed(s)
    ensures Rename(s, editing, value).Ok? ==>
            && WellFormed(Rename(s, editing, value).value)
            && Trim(value) != [] && Trim(Trim(value)) == Trim(value)
  {
    TrimIdempotent(value);
    var r := Rename(s, editing, value);
    if r.Ok? {
      var t := r.value;
      if editing.value.kind == ClassKind {
        assert forall i :: 0 <= i < |t.classes| ==> t.classes[i].id == s.classes[i].id;
      } else {
        assert forall i :: 0 <= i < |t.students| ==> t.students[i].id == s.students[i].id;
      }
    }
  }

  /* ---------------------------------------------------------------- delete */

  function OtherClass(id: Id): Class -> bool
  {
    (c: Class) => c.id != id
  }

  function OtherStudent(id: Id): Student -> bool
  {
    (st: Student) => st.id != id
  }

  function NotOfClass(id: Id): Student -> bool
  {
    (st: Student) => st.classId != id
  }

  function OfClass(id: Id): Student -> bool
  {
    (st: Student) => st.classId == id
  }

  /** The classes other than `id`, in order. */
  function DropClass(cs: seq<Class>, id: Id): (r: seq<Class>)
    ensures multiset(r) <= multiset(cs)
    ensures forall i :: 0 <= i < |cs| ==> (cs[i] in r <==> cs[i].id != id)
  {
    var r := Filter(cs, OtherClass(id));
    FilterMultiset(cs, OtherClass(id));
    assert forall i :: 0 <= i < |cs| && cs[i].id != id ==> cs[i] in multiset(r);
    assert forall k :: 0 <= k < |r| ==> r[k].id != id;
    r
  }

  /** The students other than `id`, in order. */
  function DropStudent(sts: seq<Student>, id: Id): (r: seq<Student>)
    ensures multiset(r) <= multiset(sts)
    ensures forall i :: 0 <= i < |sts| ==> (sts[i] in r <==> sts[i].id != id)
  {
    var r := Filter(sts, OtherStudent(id));
    FilterMultiset(sts, OtherStudent(id));
    assert forall i :: 0 <= i < |sts| && sts[i].id != id ==> sts[i] in multiset(r);
    assert forall k :: 0 <= k < |r| ==> r[k].id != id;
    r
  }

  /** The students of classes other than `id`, in order: removing them takes
      away exactly the students of class `id`. */
  function DropClassStudents(sts: seq<Student>, id: Id): (r: seq<Student>)
    ensures multiset(r) + multiset(Filter(sts, OfClass(id))) == multiset(sts)
    ensures forall k :: 0 <= k < |r| ==> r[k].classId != id
  {
    FilterPartition(sts, NotOfClass(id), OfClass(id));
    Filter(sts, NotOfClass(id))
  }

  /** `handleConfirmDelete`: deleting a class deletes its document and every
      student whose `classId` is its id; deleting a student deletes only that
      student. Attendance records are never touched. */
  function Delete(s: Store, item: Item): (r: Store)
    ensures r.attendance == s.attendance && r.nextId == s.nextId
    ensures item.kind == ClassKind ==>
      && multiset(r.classes) <= multiset(s.classes)
      && (forall i :: 0 <= i < |s.classes| ==> (s.classes[i] in r.classes <==> s.classes[i].id != item.id))
      && multiset(r.students) + multiset(Filter(s.students, OfClass(item.id))) == multiset(s.students)
      && (forall i :: 0 <= i < |r.students| ==> r.students[i].classId != item.id)
    ensures item.kind == StudentKind ==>
      && r.classes == s.classes
      && multiset(r.students) <= multiset(s.students)
      && (forall i :: 0 <= i < |s.students| ==> (s.students[i] in r.students <==> s.students[i].id != item.id))
  {
    if item.kind == ClassKind then
      s.(classes := DropClass(s.classes, item.id), students := DropClassStudents(s.students, item.id))
    else
      s.(students := DropStudent(s.students, item.id))
  }

  lemma DeletePreservesWellFormed(s: Store, item: Item)
    requires WellFormed(s)
    ensures WellFormed(Delete(s, item))
  {
    if item.kind == ClassKind {
      FilterKeepsDistinct(s.classes, OtherClass(item.id), ClassId);
      FilterKeepsBelow(s.classes, OtherClass(item.id), ClassId, s.nextId);
      FilterKeepsDistinct(s.students, NotOfClass(item.id), StudentId);
      FilterKeepsBelow(s.students, NotOfClass(item.id), StudentId, s.nextId);
    } else {
      FilterKeepsDistinct(s.students, OtherStudent(item.id), StudentId);
      FilterKeepsBelow(s.students, OtherStudent(item.id), StudentId, s.nextId);
    }
  }

  /* ----------------------------------------------------------- bulk import */

  /** What one line contributes: its trim, unless that is empty. */
  function LineNames(line: string): (r: seq<string>)
    ensures |r| <= 1
    ensures r == [] <==> AllSpace(line)
    ensures forall i :: 0 <= i < |r| ==> r[i] == Trim(line) && r[i] != [] && IsTrimmed(r[i])
  {
    if Trim(line) == [] then [] else [Trim(line)]
  }

  /** The trimmed non-blank lines, in order. */
  function NamesOf(lines: seq<string>): (r: seq<string>)
    ensures |r| <= |lines|
    ensures forall i :: 0 <= i < |r| ==> r[i] != [] && IsTrimmed(r[i])
  {
    if lines == [] then [] else LineNames(lines[0]) + NamesOf(lines[1..])
  }

  /** `split('\n').map(trim).filter(name => name !== '')`. */
  function ParseNames(text: string): (r: seq<string>)
    ensures forall i :: 0 <= i < |r| ==> r[i] != [] && IsTrimmed(r[i])
  {
    NamesOf(SplitLines(text))
  }

  lemma {:induction false} NamesOfConcat(a: seq<string>, b: seq<string>)
    ensures NamesOf(a + b) == NamesOf(a) + NamesOf(b)
  {
    if a == [] {
      assert a + b == b;
    } else {
      assert (a + b)[0] == a[0] && (a + b)[1..] == a[1..] + b;
      NamesOfConcat(a[1..], b);
    }
  }

  /** Names are kept in input order: the names of text joined at a line feed
      are the names of the first part followed by those of the second. */
  lemma ParseNamesAtLineFeed(a: string, b: string)
    ensures ParseNames(a + "\n" + b) == ParseNames(a) + ParseNames(b)
  {
    SplitAtLineFeed(a, b);
    NamesOfConcat(SplitLines(a), SplitLines(b));
  }

  /** A single line yields its trim, or nothing when it is blank. */
  lemma ParseNamesOfLine(line: string)
    requires '\n' !in line
    ensures ParseNames(line) == (if AllSpace(line) then [] else [Trim(line)])
  {
    SplitJoin([line]);
  }

  lemma {:induction false} NamesOfEmptyIffBlank(lines: seq<string>)
    requires |lines| >= 1
    ensures NamesOf(lines) == [] <==> AllSpace(JoinLines(lines))
  {
    if |lines| == 1 {
      assert NamesOf(lines[1..]) == [];
    } else {
      NamesOfEmptyIffBlank(lines[1..]);
      var tail := JoinLines(lines[1..]);
      var j := lines[0] + "\n" + tail;
      assert j == JoinLines(lines);
      assert AllSpace(j) <==> AllSpace(lines[0]) && AllSpace(tail) by {
        assert forall k :: 0 <= k < |lines[0]| ==> j[k] == lines[0][k];
        assert j[|lines[0]|] == '\n';
        assert forall k :: 0 <= k < |tail| ==> j[|lines[0]| + 1 + k] == tail[k];
        if AllSpace(lines[0]) && AllSpace(tail) {
          forall k | 0 <= k < |j| ensures IsSpace(j[k]) {
            if k < |lines[0]| {
            } else if k == |lines[0]| {
            } else {
              assert j[k] == tail[k - |lines[0]| - 1];
            }
          }
        }
      }
    }
  }

  /** The text is blank exactly when it yields no names; so once the blank
      check has passed, the "no valid names" rejection cannot occur. */
  lemma BlankIffNoNames(text: string)
    ensures AllSpace(text) <==> ParseNames(text) == []
  {
    JoinSplit(text);
    NamesOfEmptyIffBlank(SplitLines(text));
  }

  /** A first line contributes its trim, unless blank, ahead of the rest. */
  lemma {:induction false} ParseNamesFirstLine(line: string, rest: string)
    requires '\n' !in line
    ensures ParseNames(line + "\n" + rest)
            == (if AllSpace(line) then [] else [Trim(line)]) + ParseNames(rest)
  {
    ParseNamesAtLineFeed(line, rest);
    ParseNamesOfLine(line);
  }

  /** Five lines, two of them blank, yield the other three lines' names in order. */
  lemma {:induction false} FiveLines(a: string, blank1: string, b: string, blank2: string, c: string)
    requires '\n' !in a && '\n' !in blank1 && '\n' !in b && '\n' !in blank2 && '\n' !in c
    requires AllSpace(blank1) && AllSpace(blank2)
    requires !AllSpace(a) && !AllSpace(b) && !AllSpace(c)
    ensures ParseNames(a + "\n" + (blank1 + "\n" + (b + "\n" + (blank2 + "\n" + c))))
            == [Trim(a), Trim(b), Trim(c)]
  {
    var t1 := blank1 + "\n" + (b + "\n" + (blank2 + "\n" + c));
    assert ParseNames(t1) == [Trim(b), Trim(c)] by {
      ThreeLines(blank1, b, blank2, c);
    }
    ParseNamesFirstLine(a, t1);
  }

  lemma {:induction false} ThreeLines(blank1: string, b: string, blank2: string, c: string)
    requires '\n' !in blank1 && '\n' !in b && '\n' !in blank2 && '\n' !in c
    requires AllSpace(blank1) && AllSpace(blank2)
    requires !AllSpace(b) && !AllSpace(c)
    ensures ParseNames(blank1 + "\n" + (b + "\n" + (blank2 + "\n" + c))) == [Trim(b), Trim(c)]
  {
    var t3 := blank2 + "\n" + c;
    var t2 := b + "\n" + t3;
    assert ParseNames(t3) == [Trim(c)] by {
      ParseNamesOfLine(c);
      ParseNamesFirstLine(blank2, c);
    }
    assert ParseNames(t2) == [Trim(b), Trim(c)] by {
      ParseNamesFirstLine(b, t3);
    }
    ParseNamesFirstLine(blank1, t2);
  }

  /** Three trimmed names around an empty line and a blank one come back as
      they are. */
  lemma NamesAroundBlanks(a: string, b: string, blank: string, c: string)
    requires a != [] && b != [] && c != [] && IsTrimmed(a) && IsTrimmed(b) && IsTrimmed(c)
    requires '\n' !in a && '\n' !in b && '\n' !in blank && '\n' !in c
    requires AllSpace(blank)
    ensures ParseNames(a + "\n" + ([] + "\n" + (b + "\n" + (blank + "\n" + c)))) == [a, b, c]
  {
    TrimmedIsFixed(a);
    TrimmedIsFixed(b);
    TrimmedIsFixed(c);
    FiveLines(a, [], b, blank, c);
  }

  /** An example: blank and whitespace-only lines are dropped and the three
      names stay in order. */
  lemma ParseNamesExample(text: string)
    requires text == "Alice\n\nBob\n  \nCarol"
    ensures ParseNames(text) == ["Alice", "Bob", "Carol"]
  {
    var alice, bob, carol, blank := "Alice", "Bob", "Carol", "  ";
    assert text == alice + "\n" + ([] + "\n" + (bob + "\n" + (blank + "\n" + carol)));
    NamesAroundBlanks(alice, bob, blank, carol);
  }

  datatype Import = Import(store: Store, count: nat)

  /** One new student per name, with consecutive fresh ids. */
  function NewStudents(names: seq<string>, c: Id, base: Id, now: Stamp): (r: seq<Student>)
    ensures |r| == |names|
    ensures forall i :: 0 <= i < |r| ==>
              r[i].name == names[i] && r[i].classId == c && r[i].id == base + i
              && r[i].createdAt == now
  {
    seq(|names|, i requires 0 <= i < |names| => Student(base + i, names[i], c, now))
  }

  /** `handleBulkUploadStudents`: one batch adding a student of the selected
      class for every trimmed non-blank line, reporting how many were added. */
  function BulkImport(s: Store, text: string, selected: Option<Id>, now: Stamp): (r: Result<Import>)
    ensures r.Err? <==> AllSpace(text) || selected.None?
    ensures r.Err? ==> r.error == BlankListOrNoClass
    ensures r.Ok? ==>
      var t := r.value.store;
      var names := ParseNames(text);
      && r.value.count == |names| == |t.students| - |s.students| > 0
      && t.students[..|s.students|] == s.students
      && (forall i :: 0 <= i < |names| ==>
            var st := t.students[|s.students| + i];
            && st.name == names[i] && st.name != [] && Trim(st.name) == st.name
            && st.classId == selected.value && st.createdAt == now)
      && t.classes == s.classes && t.attendance == s.attendance
  {
    if Trim(text) == [] || selected.None? then Err(BlankListOrNoClass)
    else
      var names := ParseNames(text);
      BlankIffNoNames(text);
      assert forall i :: 0 <= i < |names| ==> Trim(names[i]) == names[i] by {
        forall i | 0 <= i < |names| ensures Trim(names[i]) == names[i] {
          TrimmedIsFixed(names[i]);
        }
      }
      if names == [] then Err(NoValidNames)
      else
        var added := NewStudents(names, selected.value, s.nextId, now);
        Ok(Import(s.(students := s.students + added, nextId := s.nextId + |names|), |names|))
  }

  lemma BulkImportPreservesWellFormed(s: Store, text: string, selected: Option<Id>, now: Stamp)
    requires WellFormed(s)
    ensures BulkImport(s, text, selected, now).Ok? ==>
            WellFormed(BulkImport(s, text, selected, now).value.store)
  {
    if BulkImport(s, text, selected, now).Ok? {
      var names := ParseNames(text);
      var added := NewStudents(names, selected.value, s.nextId, now);
      ConcatDistinct(s.students, added, StudentId, s.nextId);
    }
  }

  /* ---------------------------------------------------------------- search */

  /** Case-insensitive substring test of the filters. */
  predicate Matches(name: string, term: string)
  {
    Contains(Lower(name), Lower(term))
  }

  /** `filteredClasses` / `filteredStudents`: the items, in their original
      order, whose lowercased name includes the lowercased term. */
  function Search<T>(items: seq<T>, name: T -> string, term: string): (r: seq<T>)
    ensures multiset(r) <= multiset(items)
    ensures forall i :: 0 <= i < |r| ==> Matches(name(r[i]), term)
    ensures forall i :: 0 <= i < |items| ==> (items[i] in r <==> Matches(name(items[i]), term))
    ensures term == [] ==> r == items
  {
    var r := Filter(items, (x: T) => Matches(name(x), term));
    FilterMultiset(items, (x: T) => Matches(name(x), term));
    assert forall i :: 0 <= i < |items| && Matches(name(items[i]), term) ==> items[i] in multiset(r);
    if term == [] then
      assert forall i :: 0 <= i < |items| ==> Matches(name(items[i]), term) by {
        forall i | 0 <= i < |items| ensures Matches(name(items[i]), term) {
          ContainsEmpty(Lower(name(items[i])));
        }
      }
      FilterAll(items, (x: T) => Matches(name(x), term));
      r
    else r
  }

  /** Searching a concatenation searches each part in turn, so the result
      keeps the items' original order. */
  lemma SearchKeepsOrder<T>(a: seq<T>, b: seq<T>, name: T -> string, term: string)
    ensures Search(a + b, name, term) == Search(a, name, term) + Search(b, name, term)
  {
    FilterConcat(a, b, (x: T) => Matches(name(x), term));
  }

  function ClassName(c: Class): string { c.name }
  function StudentName(st: Student): string { st.name }

  function SearchClasses(cs: seq<Class>, term: string): seq<Class>
  {
    Search(cs, ClassName, term)
  }

  function SearchStudents(sts: seq<Student>, term: string): seq<Student>
  {
    Search(sts, StudentName, term)
  }
}
