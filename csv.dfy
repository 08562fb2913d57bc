/** The CSV codec of import and export: one record per line, nine fields
    joined by commas with no quoting or escaping. */
module Csv {
  import opened Text
  import opened Records

  /** The column names of the export file, in record field order. */
  const HeaderNames: seq<string> :=
    ["ID", "Name", "Programme", "Level", "GPA", "Email", "Phone", "Date Added", "Status"]

  /** The header line written before the records on export,
      "ID,Name,Programme,Level,GPA,Email,Phone,Date Added,Status". */
  const Header: string := Join(HeaderNames)

  /** The status text of a line, normalised: anything other than exactly
      "Active" or "Inactive" becomes "Active". */
  function StatusOf(text: string): Status
  {
    var status := if text != "Active" && text != "Inactive" then "Active" else text;
    if status == "Inactive" then Inactive else Active
  }

  /** parseCSVLine: None for a line with fewer than eight fields or whose
      GPA field does not parse; every field is trimmed. Since eight fields
      are required, the date is always the eighth field. */
  function ParseLine(line: string, parseDouble: string -> Option<real>): Option<Student>
  {
    var data := JavaSplit(line);
    if |data| >= 8 then
      match parseDouble(Trim(data[4]))
      case None => None
      case Some(gpa) =>
        var status := if |data| > 8 then Trim(data[8]) else "Active";
        Some(Student(Trim(data[0]), Trim(data[1]), Trim(data[2]), Trim(data[3]), gpa,
                     Trim(data[5]), Trim(data[6]), Trim(data[7]), StatusOf(status)))
    else None
  }

  /** A line is decoded exactly when it has at least eight fields and its
      fifth field parses as a number. */
  lemma ParseLineAccepts(line: string, parseDouble: string -> Option<real>)
    ensures var data := JavaSplit(line);
            ParseLine(line, parseDouble).Some? <==> |data| >= 8 && parseDouble(Trim(data[4])).Some?
  {
  }

  /** A decoded record holds the trimmed fields in order, its GPA is the
      parsed fifth field, and it is inactive exactly when a ninth field
      reads "Inactive" once trimmed. */
  lemma ParseLineFields(line: string, parseDouble: string -> Option<real>)
    requires ParseLine(line, parseDouble).Some?
    ensures var s, data := ParseLine(line, parseDouble).value, JavaSplit(line);
            && s.id == Trim(data[0]) && s.fullName == Trim(data[1]) && s.programme == Trim(data[2])
            && s.level == Trim(data[3]) && Some(s.gpa) == parseDouble(Trim(data[4]))
            && s.email == Trim(data[5]) && s.phone == Trim(data[6]) && s.dateAdded == Trim(data[7])
            && (s.status == Inactive <==> |data| > 8 && Trim(data[8]) == "Inactive")
            && Trim(s.id) == s.id
  {
    TrimIdempotent(JavaSplit(line)[0]);
  }

  /** Status normalisation keeps the two known values and maps every other
      text to Active. */
  lemma StatusOfFacts(text: string)
    ensures StatusOf("Active") == Active && StatusOf("Inactive") == Inactive
    ensures text != "Inactive" ==> StatusOf(text) == Active
  {
  }

  /** Student.toFileString, with `showDouble` standing for String.valueOf(double). */
  function ToFileString(s: Student, showDouble: real -> string): string
  {
    Join(Fields(s, showDouble))
  }

  function Fields(s: Student, showDouble: real -> string): seq<string>
  {
    [s.id, s.fullName, s.programme, s.level, showDouble(s.gpa),
     s.email, s.phone, s.dateAdded, StatusName(s.status)]
  }

  /** The export file's lines: the header, then one line per record in order. */
  function ExportLines(rs: seq<Student>, showDouble: real -> string): (lines: seq<string>)
    ensures |lines| == |rs| + 1 && lines[0] == Header
    ensures forall k :: 0 <= k < |rs| ==> lines[k + 1] == ToFileString(rs[k], showDouble)
  {
    [Header] + seq(|rs|, i requires 0 <= i < |rs| => ToFileString(rs[i], showDouble))
  }

  predicate Clean(f: string)
  {
    ',' !in f && Trim(f) == f
  }

  /** A record the codec can carry: no field holds a comma or surrounding
      white space, and its GPA text parses back to the same number. */
  predicate Exportable(s: Student, showDouble: real -> string, parseDouble: string -> Option<real>)
  {
    && Clean(s.id) && Clean(s.fullName) && Clean(s.programme) && Clean(s.level)
    && Clean(showDouble(s.gpa)) && Clean(s.email) && Clean(s.phone) && Clean(s.dateAdded)
    && parseDouble(showDouble(s.gpa)) == Some(s.gpa)
  }

  /** Decoding an exported line gives back the record. */
  lemma RoundTrip(s: Student, showDouble: real -> string, parseDouble: string -> Option<real>)
    requires Exportable(s, showDouble, parseDouble)
    ensures ParseLine(ToFileString(s, showDouble), parseDouble) == Some(s)
  {
    var fs := Fields(s, showDouble);
    var status := StatusName(s.status);
    assert status != [] && ',' !in status;
    assert forall k :: 0 <= k < |fs| ==> ',' !in fs[k];
    JavaSplitJoin(fs);
    var data := JavaSplit(ToFileString(s, showDouble));
    assert data == fs;
    TrimOfTrimmed(status);
    assert Trim(data[4]) == showDouble(s.gpa);
    assert StatusOf(Trim(data[8])) == s.status;
  }

  /** An exported line is never blank: it holds eight commas. */
  lemma ExportedLineNotBlank(s: Student, showDouble: real -> string)
    ensures !IsBlank(ToFileString(s, showDouble))
  {
    var fs := Fields(s, showDouble);
    var line := ToFileString(s, showDouble);
    assert line == fs[0] + "," + Join(fs[1..]);
    assert line[|fs[0]|] == ',';
    BlankIffAllSpaces(line);
  }

  /** The header is not a record, as long as "GPA" is not a number. */
  lemma HeaderRejected(parseDouble: string -> Option<real>)
    requires parseDouble("GPA").None?
    ensures ParseLine(Header, parseDouble).None?
  {
    var fs := HeaderNames;
    assert forall k :: 0 <= k < |fs| ==> ',' !in fs[k];
    JavaSplitJoin(fs);
    assert JavaSplit(Header)[4] == "GPA";
    TrimOfTrimmed("GPA");
  }
}
