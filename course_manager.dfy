/** The registry: all courses, all students, the logged-in user and the names of
    the record files (my_package/manager/CourseManager.java). */
module Manager {
  import opened Base
  import opened JavaText
  import opened Courses
  import opened Users
  import opened CourseRecordIO
  import opened StudentRecordIO

  /** Some element of xs is the same as x. */
  predicate HasSame<T>(xs: seq<T>, x: T, same: (T, T) -> bool)
  {
    exists i :: 0 <= i < |xs| && same(xs[i], x)
  }

  /** No two elements of xs are the same, the earlier one compared with the later. */
  predicate NoDuplicates<T>(xs: seq<T>, same: (T, T) -> bool)
  {
    forall i, j :: 0 <= i < j < |xs| ==> !same(xs[i], xs[j])
  }

  /** The list after addCourse / addStudent: unchanged when an element is already
      the same as x, otherwise x appended at the end. */
  function AddIfAbsent<T>(xs: seq<T>, x: T, same: (T, T) -> bool): (r: seq<T>)
    ensures HasSame(xs, x, same) ==> r == xs
    ensures !HasSame(xs, x, same) ==> r == xs + [x]
  {
    if HasSame(xs, x, same) then xs else xs + [x]
  }

  /** The list after adding each of ys in order, as the load methods do. */
  function AddAll<T>(xs: seq<T>, ys: seq<T>, same: (T, T) -> bool): seq<T>
  {
    if ys == [] then xs else AddIfAbsent(AddAll(xs, ys[..|ys| - 1], same), ys[|ys| - 1], same)
  }

  /** One element more of ys added: the step of a load loop. */
  lemma AddAllStep<T>(xs: seq<T>, ys: seq<T>, j: nat, current: seq<T>, next: seq<T>, same: (T, T) -> bool)
    requires j < |ys|
    requires current == AddAll(xs, ys[..j], same)
    requires next == AddIfAbsent(current, ys[j], same)
    ensures next == AddAll(xs, ys[..j + 1], same)
  {
    assert ys[..j + 1][..j] == ys[..j];
  }

  /** Adding an element never creates a duplicate. */
  lemma AddIfAbsentKeepsNoDuplicates<T>(xs: seq<T>, x: T, same: (T, T) -> bool)
    requires NoDuplicates(xs, same)
    ensures NoDuplicates(AddIfAbsent(xs, x, same), same)
  {
    if !HasSame(xs, x, same) {
      var r := xs + [x];
      forall i, j | 0 <= i < j < |r|
        ensures !same(r[i], r[j])
      {
        if j == |xs| {
          assert r[i] == xs[i] && r[j] == x;
        }
      }
    }
  }

  /** Loading a list of elements never creates a duplicate. */
  lemma {:induction false} AddAllKeepsNoDuplicates<T>(xs: seq<T>, ys: seq<T>, same: (T, T) -> bool)
    requires NoDuplicates(xs, same)
    ensures NoDuplicates(AddAll(xs, ys, same), same)
    decreases |ys|
  {
    if ys != [] {
      AddAllKeepsNoDuplicates(xs, ys[..|ys| - 1], same);
      AddIfAbsentKeepsNoDuplicates(AddAll(xs, ys[..|ys| - 1], same), ys[|ys| - 1], same);
    }
  }

  /** Loading only appends: the list before is a prefix of the list after, and every
      element of the result comes from one of the two lists. */
  lemma {:induction false} AddAllExtends<T>(xs: seq<T>, ys: seq<T>, same: (T, T) -> bool)
    ensures var r := AddAll(xs, ys, same);
      xs <= r && |r| <= |xs| + |ys| && forall z :: z in r ==> z in xs || z in ys
    decreases |ys|
  {
    if ys != [] {
      var init := ys[..|ys| - 1];
      AddAllExtends(xs, init, same);
      assert forall z :: z in init ==> z in ys;
    }
  }

  /** Once every element of ys has a same element in zs, adding ys changes nothing. */
  lemma {:induction false} AddAllOfCovered<T>(zs: seq<T>, ys: seq<T>, same: (T, T) -> bool)
    requires forall y :: y in ys ==> HasSame(zs, y, same)
    ensures AddAll(zs, ys, same) == zs
    decreases |ys|
  {
    if ys != [] {
      var init := ys[..|ys| - 1];
      assert forall y :: y in init ==> y in ys;
      AddAllOfCovered(zs, init, same);
      assert ys[|ys| - 1] in ys;
    }
  }

  /** When each element is the same as itself, every element loaded has a same
      element in the result. */
  lemma {:induction false} AddAllCovers<T>(xs: seq<T>, ys: seq<T>, same: (T, T) -> bool)
    requires forall y :: y in ys ==> same(y, y)
    ensures forall y :: y in ys ==> HasSame(AddAll(xs, ys, same), y, same)
    decreases |ys|
  {
    if ys != [] {
      var init, last := ys[..|ys| - 1], ys[|ys| - 1];
      assert forall y :: y in init ==> y in ys;
      AddAllCovers(xs, init, same);
      var before := AddAll(xs, init, same);
      var after := AddAll(xs, ys, same);
      AddAllExtends(xs, ys, same);
      assert before <= after;
      forall y | y in ys
        ensures HasSame(after, y, same)
      {
        if y in init {
          var i :| 0 <= i < |before| && same(before[i], y);
          assert after[i] == before[i];
        } else {
          assert y == last;
          if !HasSame(before, last, same) {
            assert after[|before|] == last;
          }
        }
      }
    }
  }

  /** Loading the same list twice is loading it once. */
  lemma AddAllIdempotent<T>(xs: seq<T>, ys: seq<T>, same: (T, T) -> bool)
    requires forall y :: y in ys ==> same(y, y)
    ensures AddAll(AddAll(xs, ys, same), ys, same) == AddAll(xs, ys, same)
  {
    AddAllCovers(xs, ys, same);
    AddAllOfCovered(AddAll(xs, ys, same), ys, same);
  }

  /** Loading a list into itself changes nothing, when each element is the same as
      itself. */
  lemma AddAllOfItself<T>(xs: seq<T>, same: (T, T) -> bool)
    requires forall i :: 0 <= i < |xs| ==> same(xs[i], xs[i])
    ensures AddAll(xs, xs, same) == xs
  {
    forall y | y in xs
      ensures HasSame(xs, y, same)
    {
      var i :| 0 <= i < |xs| && xs[i] == y;
      assert same(xs[i], y);
    }
    AddAllOfCovered(xs, xs, same);
  }

  /** Loading valid courses back from the lines they were saved as changes nothing. */
  lemma ReloadSavedCourses(cs: seq<Course>)
    requires forall i :: 0 <= i < |cs| ==> cs[i].Valid() && ',' !in cs[i].name && SingleLine(cs[i].name)
    ensures AddAll(Records(cs), ParseCourses(WriteCourseRecords(cs)), SameName) == Records(cs)
  {
    WriteThenReadCourses(cs);
    AddAllOfItself(Records(cs), SameName);
  }

  lemma PrefixKeepsMember<T>(x: T, a: seq<T>, b: seq<T>)
    requires x in a && a <= b
    ensures x in b
  {
    var i :| 0 <= i < |a| && a[i] == x;
    assert b[i] == x;
  }

  /** A list that only ever grows at the end keeps its first prefix. */
  lemma PrefixGrows<T>(first: seq<T>, before: seq<T>, after: seq<T>, x: T)
    requires first <= before
    requires after == before || after == before + [x]
    ensures first <= after
  {
  }

  lemma NamedAt(rs: seq<CourseRecord>, x: CourseRecord, i: nat)
    requires i < |rs| && rs[i].name == x.name
    ensures HasSame(rs, x, SameName)
  {
    assert SameName(rs[i], x);
  }

  lemma NoneNamed(rs: seq<CourseRecord>, x: CourseRecord)
    requires forall j :: 0 <= j < |rs| ==> rs[j].name != x.name
    ensures !HasSame(rs, x, SameName)
  {
  }

  lemma EqualUserAt(rs: seq<StudentRecord>, x: StudentRecord, rules: UserRules, i: nat)
    requires i < |rs| && rules.equal(rs[i].user, x.user)
    ensures HasSame(rs, x, SameUser(rules))
  {
    assert SameUser(rules)(rs[i], x);
  }

  lemma NoEqualUser(rs: seq<StudentRecord>, x: StudentRecord, rules: UserRules)
    requires forall j :: 0 <= j < |rs| ==> !rules.equal(rs[j].user, x.user)
    ensures !HasSame(rs, x, SameUser(rules))
  {
  }

  /** Position of the first student with the given id, the one login stops at. */
  function FindStudent(ss: seq<Student>, id: string): (r: Option<nat>)
    ensures r.Some? ==> r.value < |ss| && ss[r.value].user.id == id
    ensures r.Some? ==> forall j :: 0 <= j < r.value ==> ss[j].user.id != id
    ensures r.None? ==> forall j :: 0 <= j < |ss| ==> ss[j].user.id != id
  {
    if ss == [] then None
    else if ss[0].user.id == id then Some(0)
    else match FindStudent(ss[1..], id)
      case None => None
      case Some(k) => Some(k + 1)
  }

  lemma FindStudentAt(ss: seq<Student>, id: string, i: nat)
    requires i < |ss| && ss[i].user.id == id
    requires forall j :: 0 <= j < i ==> ss[j].user.id != id
    ensures FindStudent(ss, id) == Some(i)
  {
  }

  class CourseManager {
    /** The password hash login compares with (SHA-256 in the source). */
    const hash: string -> string
    /** What User.java decides (its constructor checks and equals). */
    const rules: UserRules
    var courses: seq<Course>
    var students: seq<Student>
    var currentUser: Student?
    var courseFileName: Option<string>
    var studentFileName: Option<string>

    /** What every operation keeps: whoever is logged in is a registered student.
        That no two courses share a name and no two students are equal users is kept
        too; it is stated on the lists' values, by AddIfAbsentKeepsNoDuplicates and
        AddAllKeepsNoDuplicates. */
    ghost predicate Valid()
      reads this
    {
      currentUser == null || currentUser in students
    }

    /** The private constructor: both lists empty, nobody logged in, no file names. */
    constructor(hash: string -> string, rules: UserRules)
      ensures this.hash == hash && this.rules == rules
      ensures courses == [] && students == [] && currentUser == null
      ensures courseFileName.None? && studentFileName.None?
      ensures Valid()
    {
      this.hash := hash;
      this.rules := rules;
      courses := [];
      students := [];
      currentUser := null;
      courseFileName := None;
      studentFileName := None;
    }

    /** login: refused while someone is logged in. Otherwise only the first student
        with the id is considered: the login succeeds when its stored password equals
        the hash of the one given, and fails otherwise, as it does when no student
        has the id. Only the session can change. */
    method Login(id: string, password: string) returns (ok: bool)
      modifies this
      ensures ok <==> (old(currentUser) == null && FindStudent(students, id).Some? &&
        students[FindStudent(students, id).value].user.password == hash(password))
      ensures currentUser == if ok then students[FindStudent(students, id).value] else old(currentUser)
      ensures courses == old(courses) && students == old(students)
      ensures courseFileName == old(courseFileName) && studentFileName == old(studentFileName)
      requires Valid()
      ensures Valid()
    {
      if currentUser != null {
        return false;
      }
      var i := 0;
      while i < |students|
        invariant 0 <= i <= |students|
        invariant forall j :: 0 <= j < i ==> students[j].user.id != id
      {
        if students[i].GetId() == id {
          FindStudentAt(students, id, i);
          var hashed := hash(password);
          if students[i].GetPassword() == hashed {
            currentUser := students[i];
            return true;
          }
          return false;
        }
        i := i + 1;
      }
      return false;
    }

    /** logout: nobody is logged in afterwards, whoever was before. */
    method Logout()
      modifies this
      ensures currentUser == null
      ensures courses == old(courses) && students == old(students)
      ensures courseFileName == old(courseFileName) && studentFileName == old(studentFileName)
      requires Valid()
      ensures Valid()
    {
      currentUser := null;
    }

    /** getCurrentUser: the logged-in user, always a registered student, or null. */
    function GetCurrentUser(): (u: Student?)
      reads this
      requires Valid()
      ensures u != null ==> u in students
    {
      currentUser
    }

    /** listUserCourses: throws when nobody is logged in; otherwise the user's
        getCourses, which the Student stub answers with null. */
    function ListUserCourses(): (r: Result<Option<seq<Course>>>)
      reads this
      ensures r.Err? <==> currentUser == null
      ensures r.Err? ==> r.error == NotLoggedIn
      ensures r.Ok? ==> r.value.None?
    {
      if currentUser == null then Err(NotLoggedIn) else Ok(currentUser.GetCourses())
    }

    /** listAllCourses: a new array holding the courses in list order. */
    method ListAllCourses() returns (a: array<Course>)
      ensures fresh(a) && a[..] == courses
    {
      a := new Course[|courses|](i requires 0 <= i < |courses| reads this => courses[i]);
    }

    /** addUserToCourse: throws when nobody is logged in. The user gets the course only
        when its canAddCourse and the course's canEnroll both hold; the Student stub
        refuses every course, so the answer is false and nothing changes. */
    method AddUserToCourse(course: Course, canEnroll: Student -> bool) returns (r: Result<bool>)
      ensures r == if currentUser == null then Err(NotLoggedIn) else Ok(false)
    {
      if currentUser == null {
        return Err(NotLoggedIn);
      }
      var user: Student := currentUser;
      var added := user.CanAddCourse(course);
      if added {
        added := canEnroll(user);
      }
      return Ok(added);
    }

    /** removeUserFromCourse: throws when nobody is logged in; otherwise the user's
        removeCourse, which the Student stub answers with false. */
    method RemoveUserFromCourse(course: Course) returns (r: Result<bool>)
      ensures r == if currentUser == null then Err(NotLoggedIn) else Ok(false)
    {
      if currentUser == null {
        return Err(NotLoggedIn);
      }
      var removed := currentUser.RemoveCourse(course);
      return Ok(removed);
    }

    /** clearData: empty lists, nobody logged in, no file names. */
    method ClearData()
      modifies this
      ensures courses == [] && students == [] && currentUser == null
      ensures courseFileName.None? && studentFileName.None?
      ensures Valid()
    {
      courses := [];
      students := [];
      currentUser := null;
      courseFileName := None;
      studentFileName := None;
    }

    /** addCourse: nothing happens when a course with the same name is registered;
        otherwise the course is appended. */
    method AddCourse(course: Course)
      modifies this
      ensures Records(courses) == AddIfAbsent(old(Records(courses)), course.Record(), SameName)
      ensures courses == old(courses) || courses == old(courses) + [course]
      ensures students == old(students) && currentUser == old(currentUser)
      ensures courseFileName == old(courseFileName) && studentFileName == old(studentFileName)
      requires Valid()
      ensures Valid()
    {
      ghost var before := Records(courses);
      var i := 0;
      while i < |courses|
        invariant 0 <= i <= |courses|
        invariant forall j :: 0 <= j < i ==> before[j].name != course.name
      {
        if courses[i].Equals(course) {
          NamedAt(before, course.Record(), i);
          return;
        }
        i := i + 1;
      }
      NoneNamed(before, course.Record());
      courses := courses + [course];
      assert Records(old(courses)) == before;
      RecordsAppend(old(courses), course);
    }

    /** addStudent: nothing happens when an equal student is registered; otherwise
        the student is appended. */
    method AddStudent(student: Student)
      modifies this
      ensures StudentRecords(students) == AddIfAbsent(old(StudentRecords(students)), student.Record(), SameUser(rules))
      ensures students == old(students) || students == old(students) + [student]
      ensures courses == old(courses) && currentUser == old(currentUser)
      ensures courseFileName == old(courseFileName) && studentFileName == old(studentFileName)
      requires Valid()
      ensures Valid()
    {
      ghost var before := StudentRecords(students);
      var i := 0;
      while i < |students|
        invariant 0 <= i <= |students|
        invariant forall j :: 0 <= j < i ==> !rules.equal(before[j].user, student.user)
      {
        if rules.equal(students[i].user, student.user) {
          EqualUserAt(before, student.Record(), rules, i);
          return;
        }
        i := i + 1;
      }
      NoEqualUser(before, student.Record(), rules);
      students := students + [student];
      assert StudentRecords(old(students)) == before;
      StudentRecordsAppend(old(students), student);
    }

    /** getCourseByName: the first registered course with the name; null when there
        is none or the name is null. */
    method GetCourseByName(name: Option<string>) returns (r: Course?)
      ensures r == null <==> name.None? || FindCourse(Records(courses), name.value).None?
      ensures r != null ==> r == courses[FindCourse(Records(courses), name.value).value]
    {
      var i := 0;
      while i < |courses|
        invariant 0 <= i <= |courses|
        invariant name.Some? ==> forall j :: 0 <= j < i ==> courses[j].name != name.value
      {
        if name.Some? && courses[i].name == name.value {
          FindCourseAt(Records(courses), name.value, i);
          return courses[i];
        }
        i := i + 1;
      }
      return null;
    }

    /** loadCourses: remembers the file name, then, when the file exists, adds each
        course read from it with addCourse, in order; a missing file throws. */
    method LoadCourses(fileName: string, file: Option<seq<string>>) returns (r: Result<()>)
      modifies this
      ensures courseFileName == Some(fileName)
      ensures r.Err? <==> file.None?
      ensures r.Err? ==> r.error == FileNotFound && courses == old(courses)
      ensures r.Ok? ==> Records(courses) == AddAll(old(Records(courses)), ParseCourses(file.value), SameName)
      ensures old(courses) <= courses
      ensures students == old(students) && currentUser == old(currentUser)
      ensures studentFileName == old(studentFileName)
      requires Valid()
      ensures Valid()
    {
      ghost var start := Records(courses);
      courseFileName := Some(fileName);
      if file.None? {
        return Err(FileNotFound);
      }
      var read := ReadCourseRecords(file.value);
      ghost var loaded := Records(read);
      var j := 0;
      while j < |read|
        invariant 0 <= j <= |read|
        invariant Records(read) == loaded
        invariant Records(courses) == AddAll(start, loaded[..j], SameName)
        invariant old(courses) <= courses
        invariant students == old(students) && currentUser == old(currentUser)
        invariant courseFileName == Some(fileName) && studentFileName == old(studentFileName)
      {
        ghost var current, before := Records(courses), courses;
        AddCourse(read[j]);
        assert Records(read) == loaded;
        AddAllStep(start, loaded, j, current, Records(courses), SameName);
        PrefixGrows(old(courses), before, courses, read[j]);
        j := j + 1;
      }
      TakeAll(loaded);
      return Ok(());
    }

    /** loadStudents: remembers the file name, then, when the file exists, adds each
        student read from it with addStudent, in order; the course names on a line are
        looked up among the registered courses. A missing file throws. */
    method LoadStudents(fileName: string, file: Option<seq<string>>) returns (r: Result<()>)
      modifies this
      ensures studentFileName == Some(fileName)
      ensures r.Err? <==> file.None?
      ensures r.Err? ==> r.error == FileNotFound && students == old(students)
      ensures r.Ok? ==> (StudentRecords(students) ==
        AddAll(old(StudentRecords(students)), ParseStudents(file.value, rules), SameUser(rules)))
      ensures old(students) <= students
      ensures courses == old(courses) && currentUser == old(currentUser)
      ensures courseFileName == old(courseFileName)
      requires Valid()
      ensures Valid()
    {
      ghost var start := StudentRecords(students);
      studentFileName := Some(fileName);
      if file.None? {
        return Err(FileNotFound);
      }
      var read := ReadStudentRecords(file.value, courses, rules);
      ghost var loaded := StudentRecords(read);
      var j := 0;
      while j < |read|
        invariant 0 <= j <= |read|
        invariant StudentRecords(read) == loaded
        invariant StudentRecords(students) == AddAll(start, loaded[..j], SameUser(rules))
        invariant old(students) <= students
        invariant courses == old(courses) && currentUser == old(currentUser)
        invariant studentFileName == Some(fileName) && courseFileName == old(courseFileName)
      {
        ghost var current, before := StudentRecords(students), students;
        AddStudent(read[j]);
        assert StudentRecords(read) == loaded;
        AddAllStep(start, loaded, j, current, StudentRecords(students), SameUser(rules));
        PrefixGrows(old(students), before, students, read[j]);
        j := j + 1;
      }
      TakeAll(loaded);
      if currentUser != null {
        PrefixKeepsMember(currentUser, old(students), students);
      }
      return Ok(());
    }

    /** saveCourses: the file name the course lines go to, and the lines
        writeCourseRecords writes for the registered courses, one toString line per
        course in list order. Before any file name is set the writer is handed null
        and throws. */
    function SaveCourses(): (r: Result<(string, seq<string>)>)
      reads this, courses
      ensures r.Err? <==> courseFileName.None?
      ensures r.Err? ==> r.error == NoFileName
      ensures r.Ok? ==> r.value.0 == courseFileName.value && |r.value.1| == |courses|
      ensures r.Ok? ==> forall i :: 0 <= i < |courses| ==> r.value.1[i] == courses[i].ToString()
    {
      if courseFileName.None? then Err(NoFileName)
      else
        var lines := WriteCourseRecords(courses);
        assert forall i :: 0 <= i < |courses| ==> lines[i] == courses[i].ToString() by {
          forall i | 0 <= i < |courses|
            ensures lines[i] == courses[i].ToString()
          {
            WriteCourseRecordsLine(courses, i);
          }
        }
        Ok((courseFileName.value, lines))
    }
  }
}
