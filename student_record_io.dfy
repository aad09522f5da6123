/** Reading student records, one student per line as
    firstName,lastName,id,email,password,maxCredits[,course...]
    (my_package/io/StudentRecordIO.java). The file is given as its sequence of lines,
    and the course lookup the reader makes through the manager singleton is given
    the manager's course list. */
module StudentRecordIO {
  import opened Base
  import opened JavaText
  import opened Courses
  import opened Users

  /** The User part of a line: its first five tokens. */
  function LineUser(ts: seq<string>): UserFields
    requires |ts| >= 5
  {
    UserFields(ts[0], ts[1], ts[2], ts[3], ts[4])
  }

  /** What processStudent makes of one line: five tokens for the User part, a sixth
      read with nextInt as the credit limit, and the Student constructor must accept
      them. Every further token names a course that must be found and then added with
      addCourse; since addCourse refuses every course, a line with any further token
      is rejected whatever the course list holds. */
  function ParseStudent(line: string, rules: UserRules): (r: Option<StudentRecord>)
    ensures r.Some? ==> r.value.Valid()
    ensures r.Some? <==>
      var ts := Tokens(line);
      |ts| == 6 && ParseInt(ts[5]).Some? && rules.accepts(LineUser(ts)) &&
      0 <= ParseInt(ts[5]).value <= MAX_CREDITS
    ensures r.Some? ==>
      var ts := Tokens(line);
      r.value.user == LineUser(ts) && ParseInt(ts[5]) == Some(r.value.maxCredits)
  {
    var ts := Tokens(line);
    if |ts| < 6 then None
    else
      match ParseInt(ts[5])
      case None => None
      case Some(maxCredits) =>
        var u := LineUser(ts);
        if !rules.accepts(u) || maxCredits < 0 || maxCredits > MAX_CREDITS then None
        else if |ts| > 6 then None
        else Some(StudentRecord(u, maxCredits))
  }

  /** processStudent: builds the Student, then for each further token looks the
      course up by name in the catalog and adds it to the student; a missing token, a
      token that is not an int, a refused constructor, a course not found or a course
      addCourse refuses rejects the line (None). */
  method ProcessStudent(line: string, catalog: seq<Course>, rules: UserRules) returns (r: Option<Student>)
    ensures r.Some? <==> ParseStudent(line, rules).Some?
    ensures r.Some? ==> fresh(r.value) && r.value.Valid() && r.value.courses == []
    ensures r.Some? ==> r.value.Record() == ParseStudent(line, rules).value
  {
    var ts := Tokens(line);
    if |ts| < 6 {
      return None;
    }
    var maxCredits := ParseInt(ts[5]);
    if maxCredits.None? {
      return None;
    }
    var created := Student.Create(LineUser(ts), maxCredits.value, rules);
    if created.None? {
      return None;
    }
    var s := created.value;
    ghost var record := s.Record();
    var ok := true;
    var i := 6;
    while i < |ts| && ok
      invariant 6 <= i <= |ts|
      invariant ok ==> i == 6
      invariant !ok ==> |ts| > 6
      invariant s.Record() == record && s.courses == []
      decreases |ts| - i
    {
      match FindCourse(Records(catalog), ts[i]) {
        case None =>
          ok := false;
        case Some(k) =>
          var added := s.AddCourse(catalog[k]);
          if !added {
            ok := false;
          }
      }
      i := i + 1;
    }
    if !ok {
      return None;
    }
    return Some(s);
  }

  /** The students readStudentRecords returns for a file: those of the lines that
      parse, in line order; every other line is skipped. */
  function ParseStudents(lines: seq<string>, rules: UserRules): (rs: seq<StudentRecord>)
    ensures |rs| <= |lines|
    ensures forall i :: 0 <= i < |rs| ==> rs[i].Valid()
  {
    if lines == [] then []
    else
      var last := ParseStudent(lines[|lines| - 1], rules);
      ParseStudents(lines[..|lines| - 1], rules) + (if last.Some? then [last.value] else [])
  }

  lemma ParseStudentsStep(lines: seq<string>, i: nat, rules: UserRules)
    requires i < |lines|
    ensures ParseStudents(lines[..i + 1], rules) == ParseStudents(lines[..i], rules) +
      (if ParseStudent(lines[i], rules).Some? then [ParseStudent(lines[i], rules).value] else [])
  {
    assert lines[..i + 1][..i] == lines[..i];
  }

  /** readStudentRecords, from the first line on: every line that processStudent turns
      into a Student is kept, in order; a line it rejects is dropped and reading goes on. */
  method ReadStudentRecords(lines: seq<string>, catalog: seq<Course>, rules: UserRules) returns (students: seq<Student>)
    ensures StudentRecords(students) == ParseStudents(lines, rules)
    ensures forall s :: s in students ==> fresh(s) && s.courses == []
  {
    students := [];
    var i := 0;
    while i < |lines|
      invariant 0 <= i <= |lines|
      invariant StudentRecords(students) == ParseStudents(lines[..i], rules)
      invariant forall s :: s in students ==> fresh(s) && s.courses == []
    {
      ghost var recs := StudentRecords(students);
      var s := ProcessStudent(lines[i], catalog, rules);
      assert StudentRecords(students) == recs;
      ParseStudentsStep(lines, i, rules);
      if s.Some? {
        StudentRecordsAppend(students, s.value);
        students := students + [s.value];
      }
      i := i + 1;
    }
    assert lines[..|lines|] == lines;
  }

  /** The line holding exactly a student's six fields. */
  function StudentLine(u: UserFields, maxCredits: int32): (line: string)
  {
    JoinFields([u.firstName, u.lastName, u.id, u.email, u.password, IntToString(maxCredits as int)])
  }

  /** A line of six fields, none empty or holding a ',', whose User part is accepted
      and whose credit limit is within [0, MAX_CREDITS], yields exactly that student. */
  lemma {:induction false} SixFieldLineAccepted(u: UserFields, maxCredits: int32, rules: UserRules)
    requires PlainField(u.firstName) && PlainField(u.lastName) && PlainField(u.id)
    requires PlainField(u.email) && PlainField(u.password)
    requires rules.accepts(u) && 0 <= maxCredits <= MAX_CREDITS
    ensures ParseStudent(StudentLine(u, maxCredits), rules) == Some(StudentRecord(u, maxCredits))
  {
    var fields := [u.firstName, u.lastName, u.id, u.email, u.password, IntToString(maxCredits as int)];
    TokensOfJoinFields(fields);
    ParseIntOfIntToString(maxCredits);
  }

  /** A line with any token after the sixth is rejected, whatever the tokens name. */
  lemma TrailingCoursesRejected(line: string, rules: UserRules)
    requires |Tokens(line)| > 6
    ensures ParseStudent(line, rules).None?
  {
  }

  /** A credit limit outside [0, MAX_CREDITS] rejects the line. */
  lemma CreditLimitOutOfRangeRejected(line: string, rules: UserRules)
    requires var ts := Tokens(line);
      |ts| >= 6 && ParseInt(ts[5]).Some? && (ParseInt(ts[5]).value < 0 || ParseInt(ts[5]).value > MAX_CREDITS)
    ensures ParseStudent(line, rules).None?
  {
  }

  /** Reading a file is reading each of its parts: a rejected line costs nothing to
      the lines around it. */
  lemma {:induction false} ParseStudentsAppend(a: seq<string>, b: seq<string>, rules: UserRules)
    ensures ParseStudents(a + b, rules) == ParseStudents(a, rules) + ParseStudents(b, rules)
    decreases |b|
  {
    if b == [] {
      assert a + b == a;
    } else {
      var init := b[..|b| - 1];
      assert (a + b)[..|a + b| - 1] == a + init;
      assert (a + b)[|a + b| - 1] == b[|b| - 1];
      ParseStudentsAppend(a, init, rules);
    }
  }
}
