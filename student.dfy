/** A student: the identity it inherits from User plus a credit limit and a course
    list (my_package/users/Student.java). The course operations are still stubs there,
    and are modelled as such. */
module Users {
  import opened Base
  import opened Courses

  /** Largest credit limit any student may have. */
  const MAX_CREDITS: int32 := 18

  /** The five values a User is constructed from: first name, last name, id, email,
      password (as getPassword returns it). */
  datatype UserFields = UserFields(firstName: string, lastName: string, id: string, email: string, password: string)

  /** What User.java (not part of this model) decides: which field values its
      constructor accepts, and when two users are equals(). */
  datatype UserRules = UserRules(accepts: UserFields -> bool, equal: (UserFields, UserFields) -> bool)

  /** The values a Student holds apart from its course list. */
  datatype StudentRecord = StudentRecord(user: UserFields, maxCredits: int32) {
    predicate Valid() { 0 <= maxCredits <= MAX_CREDITS }
  }

  /** Student identity: Student inherits User.equals, so two students are the same
      student when their User parts are equal by the User rules. */
  function SameUser(rules: UserRules): (StudentRecord, StudentRecord) -> bool
  {
    (a: StudentRecord, b: StudentRecord) => rules.equal(a.user, b.user)
  }

  class Student {
    const user: UserFields
    var courses: seq<Course>
    var maxCredits: int32

    function Record(): StudentRecord
      reads this
    {
      StudentRecord(user, maxCredits)
    }

    ghost predicate Valid()
      reads this
    {
      Record().Valid()
    }

    /** User.getId */
    function GetId(): string { user.id }

    /** User.getPassword */
    function GetPassword(): string { user.password }

    /** The allocation step of Create and nothing else: the object once the User part
        is built and the empty course list allocated, before setMaxCredits runs (0
        until then). Java never hands such an object out. */
    constructor Blank(user: UserFields)
      ensures this.user == user && courses == [] && maxCredits == 0
    {
      this.user := user;
      courses := [];
      maxCredits := 0;
    }

    /** The six-argument constructor: the User constructor runs first (and may throw),
        then the empty course list is allocated, then setMaxCredits (which may throw). */
    static method Create(user: UserFields, maxCredits: int32, rules: UserRules) returns (r: Option<Student>)
      ensures r.Some? <==> rules.accepts(user) && 0 <= maxCredits <= MAX_CREDITS
      ensures r.Some? ==> fresh(r.value) && r.value.Valid() && r.value.courses == []
      ensures r.Some? ==> r.value.Record() == StudentRecord(user, maxCredits)
    {
      if !rules.accepts(user) {
        return None;
      }
      var s := new Student.Blank(user);
      var ok := s.SetMaxCredits(maxCredits);
      if !ok {
        return None;
      }
      return Some(s);
    }

    /** The five-argument constructor: the six-argument one with MAX_CREDITS. */
    static method CreateDefault(user: UserFields, rules: UserRules) returns (r: Option<Student>)
      ensures r.Some? <==> rules.accepts(user)
      ensures r.Some? ==> fresh(r.value) && r.value.Valid() && r.value.courses == []
      ensures r.Some? ==> r.value.Record() == StudentRecord(user, MAX_CREDITS)
    {
      r := Create(user, MAX_CREDITS, rules);
    }

    function GetMaxCredits(): (r: int32)
      reads this
      requires Valid()
      ensures 0 <= r <= MAX_CREDITS
    {
      maxCredits
    }

    /** setMaxCredits: a value below 0 or above MAX_CREDITS throws and changes nothing;
        otherwise the limit becomes n. The course list is never consulted. */
    method SetMaxCredits(n: int32) returns (ok: bool)
      modifies this
      ensures ok <==> 0 <= n <= MAX_CREDITS
      ensures maxCredits == if ok then n else old(maxCredits)
      ensures courses == old(courses)
      ensures old(Valid()) ==> Valid()
    {
      if n < 0 || n > MAX_CREDITS {
        return false;
      }
      maxCredits := n;
      return true;
    }

    /** canAddCourse: a stub that refuses every course. */
    function CanAddCourse(c: Course): (r: bool)
      ensures !r
    {
      false
    }

    /** addCourse: a stub that refuses every course and changes nothing. */
    method AddCourse(c: Course) returns (ok: bool)
      ensures !ok
    {
      return false;
    }

    /** removeCourse: a stub that removes nothing and reports false. */
    method RemoveCourse(c: Course) returns (ok: bool)
      ensures !ok
    {
      return false;
    }

    /** getCourses: a stub that returns null. */
    function GetCourses(): (r: Option<seq<Course>>)
      ensures r.None?
    {
      None
    }
  }

  /** The values of a sequence of students, in order. */
  function StudentRecords(ss: seq<Student>): (rs: seq<StudentRecord>)
    reads ss
    ensures |rs| == |ss|
    ensures forall i :: 0 <= i < |ss| ==> rs[i] == ss[i].Record()
  {
    seq(|ss|, i requires 0 <= i < |ss| reads ss => ss[i].Record())
  }

  lemma StudentRecordsAppend(ss: seq<Student>, s: Student)
    ensures StudentRecords(ss + [s]) == StudentRecords(ss) + [s.Record()]
  {
    assert (ss + [s])[..|ss|] == ss;
  }
}
