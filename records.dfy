/** The entities of the registry: a student record and a report row. */
module Records {
  import opened Text

  /** The two values the status combo box offers. */
  datatype Status = Active | Inactive

  function StatusName(s: Status): string
  {
    match s
    case Active => "Active"
    case Inactive => "Inactive"
  }

  /** One student. `gpa` is the parsed double, taken as an exact real;
      `dateAdded` is the "yyyy-MM-dd HH:mm:ss" text stamped on creation. */
  datatype Student = Student(
    id: string,
    fullName: string,
    programme: string,
    level: string,
    gpa: real,
    email: string,
    phone: string,
    dateAdded: string,
    status: Status)

  /** The Value column: `String.valueOf(long)` of a count, or `%.2f` of a GPA. */
  datatype Value = Cnt(count: nat) | Gpa(gpa: real)

  /** The Percentage column: `%.1f%%` of a share, the literal "100%", or "". */
  datatype Percentage = Pct(percent: real) | Hundred | NoPct

  datatype ReportRow = ReportRow(category: string, value: Value, percentage: Percentage)

  /** The ten records the application starts with. */
  function SeedData(): seq<Student>
  {
    [ Student("S001", "John Doe", "Computer Science", "300", 3.8,
              "john.doe@email.com", "123-456-7890", "2024-01-15 10:30:00", Active),
      Student("S002", "Jane Smith", "Engineering", "200", 3.5,
              "jane.smith@email.com", "234-567-8901", "2024-01-20 14:20:00", Active),
      Student("S003", "Bob Johnson", "Business", "400", 3.2,
              "bob.johnson@email.com", "345-678-9012", "2024-02-01 09:15:00", Active),
      Student("S004", "Alice Brown", "Medicine", "500", 3.9,
              "alice.brown@email.com", "456-789-0123", "2024-02-10 11:45:00", Active),
      Student("S005", "Charlie Wilson", "Arts", "100", 2.8,
              "charlie.wilson@email.com", "567-890-1234", "2024-02-15 16:30:00", Inactive),
      Student("S006", "Diana Prince", "Computer Science", "200", 3.7,
              "diana.prince@email.com", "678-901-2345", "2024-02-20 13:15:00", Active),
      Student("S007", "Bruce Wayne", "Business", "300", 3.1,
              "bruce.wayne@email.com", "789-012-3456", "2024-03-01 10:00:00", Active),
      Student("S008", "Clark Kent", "Engineering", "400", 3.4,
              "clark.kent@email.com", "890-123-4567", "2024-03-05 15:30:00", Inactive),
      Student("S009", "Peter Parker", "Computer Science", "100", 3.6,
              "peter.parker@email.com", "901-234-5678", "2024-03-10 09:45:00", Active),
      Student("S010", "Tony Stark", "Engineering", "500", 3.2,
              "tony.stark@email.com", "012-345-6789", "2024-03-15 14:00:00", Active) ]
  }

  /** No two records share an id, ignoring case. */
  predicate UniqueIds(rs: seq<Student>)
  {
    forall i, j :: 0 <= i < j < |rs| ==> !EqualsIgnoreCase(rs[i].id, rs[j].id)
  }

  /** `studentData.stream().anyMatch(s -> s.getStudentId().equalsIgnoreCase(id))`. */
  predicate IdTaken(rs: seq<Student>, id: string)
  {
    exists k :: 0 <= k < |rs| && EqualsIgnoreCase(rs[k].id, id)
  }

  /** Every id is stored trimmed, as both creation paths store it. */
  predicate TrimmedIds(rs: seq<Student>)
  {
    forall k :: 0 <= k < |rs| ==> Trim(rs[k].id) == rs[k].id
  }

  lemma SeedDataWellFormed()
    ensures UniqueIds(SeedData()) && TrimmedIds(SeedData())
  {
    var rs := SeedData();
    forall i, j | 0 <= i < j < |rs| ensures !EqualsIgnoreCase(rs[i].id, rs[j].id) {
      var a, b := rs[i].id, rs[j].id;
      assert |a| == 4 && |b| == 4;
      assert a[2] != b[2] || a[3] != b[3];
      assert Lower(a)[2] == a[2] && Lower(a)[3] == a[3];
      assert Lower(b)[2] == b[2] && Lower(b)[3] == b[3];
    }
    forall k | 0 <= k < |rs| ensures Trim(rs[k].id) == rs[k].id {
      TrimOfTrimmed(rs[k].id);
    }
  }
}
