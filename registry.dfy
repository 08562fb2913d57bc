/** The live registry (`studentData`) and the four operations that change
    it: add, update and delete from the form, and import from CSV lines. */
module Registry {
  import opened Text
  import opened Records
  import opened Validation
  import opened Csv

  datatype AddOutcome = AddRejected(reason: Error) | DuplicateId | Added
  datatype UpdateOutcome = NoStudentSelected | UpdateRejected(reason: Error) | Updated
  datatype DeleteOutcome = NothingSelected | DeleteCancelled | Deleted

  /** The record built from an accepted form: trimmed text fields, the parsed
      GPA and the creation time stamp. */
  function NewStudent(f: Form, gpa: real, now: string): Student
  {
    Student(Trim(f.id), Trim(f.name), Trim(f.programme), Trim(f.level), gpa,
            Trim(f.email), Trim(f.phone), now, f.status)
  }

  /** The setters of updateStudent: every field but `dateAdded`. */
  function Edited(s: Student, f: Form, gpa: real): Student
  {
    s.(id := Trim(f.id), fullName := Trim(f.name), programme := Trim(f.programme),
       level := Trim(f.level), gpa := gpa, email := Trim(f.email), phone := Trim(f.phone),
       status := f.status)
  }

  /** loadStudentToForm: the form showing a record, its GPA rendered by
      `showDouble` (String.valueOf(double)). */
  function LoadForm(s: Student, showDouble: real -> string): Form
  {
    Form(s.id, s.fullName, s.programme, s.level, showDouble(s.gpa), s.email, s.phone, s.status)
  }

  /** Saving a loaded record without editing it changes nothing, provided its
      text fields are stored trimmed and its GPA text reads back as itself. */
  lemma SaveUnedited(s: Student, showDouble: real -> string, parseDouble: string -> Option<real>)
    requires Trim(s.id) == s.id && Trim(s.fullName) == s.fullName && Trim(s.programme) == s.programme
    requires Trim(s.level) == s.level && Trim(s.email) == s.email && Trim(s.phone) == s.phone
    requires parseDouble(Trim(showDouble(s.gpa))) == Some(s.gpa)
    ensures var f := LoadForm(s, showDouble);
            Edited(s, f, parseDouble(Trim(f.gpa)).value) == s && Trim(f.id) == s.id
  {
  }

  // ---------------------------------------------------------------------
  // Import, as a fold over the lines

  datatype ImportState = ImportState(students: seq<Student>, imported: nat, skipped: nat)

  /** One turn of the import loop: a blank line is passed over uncounted; a
      line that does not decode, or whose id is already in the live registry
      ignoring case, is skipped; any other is appended. */
  function ImportLine(st: ImportState, line: string, parseDouble: string -> Option<real>): ImportState
  {
    if IsBlank(line) then st
    else
      match ParseLine(line, parseDouble)
      case None => st.(skipped := st.skipped + 1)
      case Some(s) =>
        if IdTaken(st.students, s.id) then st.(skipped := st.skipped + 1)
        else ImportState(st.students + [s], st.imported + 1, st.skipped)
  }

  /** The state after reading `lines` in order, starting from registry `rs`. */
  function ImportAll(rs: seq<Student>, lines: seq<string>, parseDouble: string -> Option<real>): ImportState
  {
    if lines == [] then ImportState(rs, 0, 0)
    else ImportLine(ImportAll(rs, lines[..|lines| - 1], parseDouble), lines[|lines| - 1], parseDouble)
  }

  /** Reading one more line is one more turn of the loop. */
  lemma ImportAllStep(rs: seq<Student>, lines: seq<string>, i: nat, parseDouble: string -> Option<real>)
    requires i < |lines|
    ensures ImportAll(rs, lines[..i + 1], parseDouble)
            == ImportLine(ImportAll(rs, lines[..i], parseDouble), lines[i], parseDouble)
  {
    assert lines[..i + 1][..i] == lines[..i];
  }

  function NonBlankCount(lines: seq<string>): nat
  {
    if lines == [] then 0
    else NonBlankCount(lines[..|lines| - 1]) + (if IsBlank(lines[|lines| - 1]) then 0 else 1)
  }

  /** Appending a record whose id no existing id equals ignoring case keeps
      ids unique; appending one with a trimmed id keeps ids trimmed. */
  lemma AppendKeepsValid(rs: seq<Student>, s: Student)
    requires !IdTaken(rs, s.id)
    ensures UniqueIds(rs) ==> UniqueIds(rs + [s])
    ensures TrimmedIds(rs) && Trim(s.id) == s.id ==> TrimmedIds(rs + [s])
  {
    var t := rs + [s];
    assert forall k :: 0 <= k < |rs| ==> t[k] == rs[k];
    assert forall k :: 0 <= k < |rs| ==> !EqualsIgnoreCase(t[k].id, t[|rs|].id);
  }

  /** Every non-blank line is either imported or skipped; the registry grows
      by the imported records, after the ones it had; ids stay unique
      ignoring case and stay trimmed. */
  lemma {:induction false} ImportAllFacts(rs: seq<Student>, lines: seq<string>, parseDouble: string -> Option<real>)
    ensures var st := ImportAll(rs, lines, parseDouble);
            && st.imported + st.skipped == NonBlankCount(lines)
            && |st.students| == |rs| + st.imported
            && st.students[..|rs|] == rs
            && (UniqueIds(rs) ==> UniqueIds(st.students))
            && (TrimmedIds(rs) ==> TrimmedIds(st.students))
  {
    if lines != [] {
      var init := lines[..|lines| - 1];
      var line := lines[|lines| - 1];
      ImportAllFacts(rs, init, parseDouble);
      var st := ImportAll(rs, init, parseDouble);
      if !IsBlank(line) {
        match ParseLine(line, parseDouble)
        case None =>
        case Some(s) =>
          if !IdTaken(st.students, s.id) {
            ParseLineFields(line, parseDouble);
            AppendKeepsValid(st.students, s);
            assert (st.students + [s])[..|rs|] == st.students[..|rs|];
          }
      }
    }
  }

  /** Importing an exported registry into one whose ids it does not repeat
      appends every exported record in order and skips only the header. */
  lemma {:induction false} ExportImport(base: seq<Student>, rs: seq<Student>,
                                        showDouble: real -> string, parseDouble: string -> Option<real>)
    requires UniqueIds(base + rs)
    requires forall k :: 0 <= k < |rs| ==> Exportable(rs[k], showDouble, parseDouble)
    requires parseDouble("GPA").None?
    ensures ImportAll(base, ExportLines(rs, showDouble), parseDouble) == ImportState(base + rs, |rs|, 1)
  {
    if rs == [] {
      ImportOnlyHeader(base, showDouble, parseDouble);
    } else {
      var init := rs[..|rs| - 1];
      var s := rs[|rs| - 1];
      assert rs == init + [s];
      assert base + rs == (base + init) + [s];
      UniqueLast(base + init, s);
      ExportImport(base, init, showDouble, parseDouble);
      ExportImportStep(base, init, s, showDouble, parseDouble);
    }
  }

  lemma ImportOnlyHeader(base: seq<Student>, showDouble: real -> string, parseDouble: string -> Option<real>)
    requires parseDouble("GPA").None?
    ensures ImportAll(base, ExportLines([], showDouble), parseDouble) == ImportState(base, 0, 1)
  {
    var lines := ExportLines([], showDouble);
    assert lines == [Header];
    assert lines[..0] == [];
    ImportHeaderLine(ImportState(base, 0, 0), parseDouble);
  }

  lemma ExportImportStep(base: seq<Student>, init: seq<Student>, s: Student,
                         showDouble: real -> string, parseDouble: string -> Option<real>)
    requires ImportAll(base, ExportLines(init, showDouble), parseDouble) == ImportState(base + init, |init|, 1)
    requires Exportable(s, showDouble, parseDouble)
    requires !IdTaken(base + init, s.id)
    ensures ImportAll(base, ExportLines(init + [s], showDouble), parseDouble)
            == ImportState(base + init + [s], |init| + 1, 1)
  {
    var lines := ExportLines(init + [s], showDouble);
    assert lines[..|lines| - 1] == ExportLines(init, showDouble);
    assert lines[|lines| - 1] == ToFileString(s, showDouble);
    ImportExportedLine(ImportState(base + init, |init|, 1), s, showDouble, parseDouble);
  }

  /** The header line is skipped, not imported. */
  lemma ImportHeaderLine(st: ImportState, parseDouble: string -> Option<real>)
    requires parseDouble("GPA").None?
    ensures ImportLine(st, Header, parseDouble) == st.(skipped := st.skipped + 1)
  {
    HeaderRejected(parseDouble);
    ExportedHeaderNotBlank();
  }

  /** An exported line of a record with a new id is imported as that record. */
  lemma ImportExportedLine(st: ImportState, s: Student, showDouble: real -> string, parseDouble: string -> Option<real>)
    requires Exportable(s, showDouble, parseDouble)
    requires !IdTaken(st.students, s.id)
    ensures ImportLine(st, ToFileString(s, showDouble), parseDouble)
            == ImportState(st.students + [s], st.imported + 1, st.skipped)
  {
    RoundTrip(s, showDouble, parseDouble);
    ExportedLineNotBlank(s, showDouble);
  }

  /** In a registry with unique ids, the last record's id is new to the
      records before it, and those have unique ids too. */
  lemma UniqueLast(rs: seq<Student>, s: Student)
    requires UniqueIds(rs + [s])
    ensures UniqueIds(rs) && !IdTaken(rs, s.id)
  {
    var t := rs + [s];
    assert forall k :: 0 <= k < |rs| ==> t[k] == rs[k];
    assert t[|rs|] == s;
  }

  lemma ExportedHeaderNotBlank()
    ensures !IsBlank(Header)
  {
    assert Header == HeaderNames[0] + "," + Join(HeaderNames[1..]);
    assert Header[2] == ',';
    BlankIffAllSpaces(Header);
  }

  // ---------------------------------------------------------------------
  // The registry object

  class Registry {
    /** The records in list order. */
    var students: seq<Student>

    /** What every operation keeps: ids unique ignoring case, and trimmed. */
    predicate Valid()
      reads this
    {
      UniqueIds(students) && TrimmedIds(students)
    }

    /** The application starts with the ten sample records. */
    constructor()
      ensures students == SeedData() && Valid()
    {
      students := SeedData();
      SeedDataWellFormed();
    }

    /** addStudent: a rejected form or an id already present (ignoring case)
        leaves the registry unchanged; otherwise the new record, with trimmed
        fields, is appended after all the others. */
    method Add(f: Form, now: string, parseDouble: string -> Option<real>) returns (outcome: AddOutcome)
      modifies this
      ensures Validate(f, parseDouble).Rejected? ==>
                outcome == AddRejected(Validate(f, parseDouble).reason) && students == old(students)
      ensures Validate(f, parseDouble).Accepted? && IdTaken(old(students), Trim(f.id)) ==>
                outcome == DuplicateId && students == old(students)
      ensures Validate(f, parseDouble).Accepted? && !IdTaken(old(students), Trim(f.id)) ==>
                && parseDouble(Trim(f.gpa)).Some?
                && outcome == Added
                && students == old(students) + [NewStudent(f, parseDouble(Trim(f.gpa)).value, now)]
      ensures old(Valid()) ==> Valid()
    {
      var verdict := Validate(f, parseDouble);
      if verdict.Rejected? {
        return AddRejected(verdict.reason);
      }
      var duplicate := IdTaken(students, Trim(f.id));
      if duplicate {
        return DuplicateId;
      }
      AcceptedFormFacts(f, parseDouble);
      var s := NewStudent(f, parseDouble(Trim(f.gpa)).value, now);
      TrimIdempotent(f.id);
      AppendKeepsValid(students, s);
      students := students + [s];
      outcome := Added;
    }

    /** updateStudent on the record at `selected`: without a selection or
        with a rejected form nothing changes; otherwise that record gets the
        form's trimmed fields and keeps its creation stamp, and every other
        record and the length stay as they were. Ids stay unique when the form
        shows the record's own id, as the disabled id field ensures. */
    method Update(selected: Option<nat>, f: Form, parseDouble: string -> Option<real>) returns (outcome: UpdateOutcome)
      requires selected.Some? ==> selected.value < |students|
      modifies this
      ensures selected.None? ==> outcome == NoStudentSelected && students == old(students)
      ensures selected.Some? && Validate(f, parseDouble).Rejected? ==>
                outcome == UpdateRejected(Validate(f, parseDouble).reason) && students == old(students)
      ensures selected.Some? && Validate(f, parseDouble).Accepted? ==>
                && parseDouble(Trim(f.gpa)).Some?
                && outcome == Updated
                && students == old(students)[selected.value :=
                     Edited(old(students)[selected.value], f, parseDouble(Trim(f.gpa)).value)]
      ensures |students| == |old(students)|
      ensures old(Valid()) && selected.Some? && Trim(f.id) == old(students)[selected.value].id ==> Valid()
    {
      if selected.None? {
        return NoStudentSelected;
      }
      var verdict := Validate(f, parseDouble);
      if verdict.Rejected? {
        return UpdateRejected(verdict.reason);
      }
      AcceptedFormFacts(f, parseDouble);
      var i := selected.value;
      students := students[i := Edited(students[i], f, parseDouble(Trim(f.gpa)).value)];
      outcome := Updated;
    }

    /** deleteStudent: with a selection and the user's confirmation exactly
        that record is removed and the others keep their order; otherwise
        nothing changes. */
    method Delete(selected: Option<nat>, confirmed: bool) returns (outcome: DeleteOutcome)
      requires selected.Some? ==> selected.value < |students|
      modifies this
      ensures selected.None? ==> outcome == NothingSelected && students == old(students)
      ensures selected.Some? && !confirmed ==> outcome == DeleteCancelled && students == old(students)
      ensures selected.Some? && confirmed ==>
                outcome == Deleted
                && students == old(students)[..selected.value] + old(students)[selected.value + 1..]
      ensures old(Valid()) ==> Valid()
    {
      if selected.None? {
        return NothingSelected;
      }
      if !confirmed {
        return DeleteCancelled;
      }
      var i := selected.value;
      ghost var before := students;
      students := students[..i] + students[i + 1..];
      RemoveKeepsValid(before, i);
      outcome := Deleted;
    }

    /** importData over the lines of the chosen file: the registry and the
        two counters end as the fold `ImportAll` says. */
    method Import(lines: seq<string>, parseDouble: string -> Option<real>) returns (imported: nat, skipped: nat)
      modifies this
      ensures ImportAll(old(students), lines, parseDouble) == ImportState(students, imported, skipped)
      ensures imported + skipped == NonBlankCount(lines)
      ensures |students| == |old(students)| + imported && students[..|old(students)|] == old(students)
      ensures old(Valid()) ==> Valid()
    {
      imported, skipped := 0, 0;
      var i := 0;
      while i < |lines|
        invariant 0 <= i <= |lines|
        invariant ImportAll(old(students), lines[..i], parseDouble) == ImportState(students, imported, skipped)
      {
        var line := lines[i];
        ghost var before := ImportState(students, imported, skipped);
        ImportAllStep(old(students), lines, i, parseDouble);
        if !IsBlank(line) {
          var parsed := ParseLine(line, parseDouble);
          if parsed.None? {
            skipped := skipped + 1;
          } else {
            var duplicate := IdTaken(students, parsed.value.id);
            if !duplicate {
              students := students + [parsed.value];
              imported := imported + 1;
            } else {
              skipped := skipped + 1;
            }
          }
        }
        assert ImportLine(before, line, parseDouble) == ImportState(students, imported, skipped);
        i := i + 1;
      }
      assert lines[..|lines|] == lines;
      ImportAllFacts(old(students), lines, parseDouble);
    }
  }

  /** Removing one record keeps ids unique and trimmed. */
  lemma RemoveKeepsValid(rs: seq<Student>, i: nat)
    requires i < |rs|
    ensures UniqueIds(rs) ==> UniqueIds(rs[..i] + rs[i + 1..])
    ensures TrimmedIds(rs) ==> TrimmedIds(rs[..i] + rs[i + 1..])
  {
    var t := rs[..i] + rs[i + 1..];
    assert forall k :: 0 <= k < |t| ==> t[k] == rs[if k < i then k else k + 1];
  }
}
