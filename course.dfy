/** A course: its name, credit hours and capacity, each guarded by its setter
    (my_package/courses/Course.java). */
module Courses {
  import opened Base
  import opened JavaText

  /** Fewest credit hours a course may carry. */
  const MIN_HOURS: int32 := 1
  /** Most credit hours a course may carry. */
  const MAX_HOURS: int32 := 4

  /** The three values a Course holds at one moment. */
  datatype CourseRecord = CourseRecord(name: string, credits: int32, capacity: int32) {
    /** What the constructor and the setters let through. */
    predicate Valid() {
      name != [] && MIN_HOURS <= credits <= MAX_HOURS && capacity > 0
    }
  }

  /** Course identity: two courses are the same course exactly when their names are equal. */
  function SameName(a: CourseRecord, b: CourseRecord): bool {
    a.name == b.name
  }

  class Course {
    var name: string
    var credits: int32
    var capacity: int32

    function Record(): CourseRecord
      reads this
    {
      CourseRecord(name, credits, capacity)
    }

    ghost predicate Valid()
      reads this
    {
      Record().Valid()
    }

    /** The allocation step of Create and nothing else: the object before the
        constructor's setters run, with the empty name standing for Java's null and
        0 for the two int fields. Java never hands such an object out. */
    constructor Blank()
      ensures Record() == CourseRecord([], 0, 0)
    {
      name, credits, capacity := [], 0, 0;
    }

    /** new Course(name, credits, capacity): sets the name, then the credits, then the
        capacity through the setters; the first setter that throws makes the
        constructor throw (None), and no object is handed out. A null name is None. */
    static method Create(name: Option<string>, credits: int32, capacity: int32) returns (r: Option<Course>)
      ensures r.Some? <==> name.Some? && name.value != [] && MIN_HOURS <= credits <= MAX_HOURS && capacity > 0
      ensures r.Some? ==> fresh(r.value) && r.value.Valid()
      ensures r.Some? ==> r.value.Record() == CourseRecord(name.value, credits, capacity)
    {
      var c := new Course.Blank();
      var ok := c.SetName(name);
      if !ok { return None; }
      ok := c.SetCredits(credits);
      if !ok { return None; }
      ok := c.SetCapacity(capacity);
      if !ok { return None; }
      return Some(c);
    }

    /** setName: a null or empty name throws (ok is false) and changes nothing;
        otherwise only the name changes. */
    method SetName(newName: Option<string>) returns (ok: bool)
      modifies this
      ensures ok <==> newName.Some? && newName.value != []
      ensures Record() == if ok then old(Record()).(name := newName.value) else old(Record())
      ensures old(Valid()) ==> Valid()
    {
      if newName.None? || newName.value == [] {
        return false;
      }
      name := newName.value;
      return true;
    }

    /** setCredits: a value outside [MIN_HOURS, MAX_HOURS] throws and changes nothing;
        both bounds are accepted. */
    method SetCredits(newCredits: int32) returns (ok: bool)
      modifies this
      ensures ok <==> MIN_HOURS <= newCredits <= MAX_HOURS
      ensures Record() == if ok then old(Record()).(credits := newCredits) else old(Record())
      ensures old(Valid()) ==> Valid()
    {
      if newCredits < MIN_HOURS || newCredits > MAX_HOURS {
        return false;
      }
      credits := newCredits;
      return true;
    }

    /** setCapacity: zero or a negative value throws and changes nothing; no other
        bound is checked. */
    method SetCapacity(newCapacity: int32) returns (ok: bool)
      modifies this
      ensures ok <==> newCapacity > 0
      ensures Record() == if ok then old(Record()).(capacity := newCapacity) else old(Record())
      ensures old(Valid()) ==> Valid()
    {
      if newCapacity <= 0 {
        return false;
      }
      capacity := newCapacity;
      return true;
    }

    function GetName(): (r: string)
      reads this
      requires Valid()
      ensures r != []
    {
      name
    }

    function GetCredits(): (r: int32)
      reads this
      requires Valid()
      ensures MIN_HOURS <= r <= MAX_HOURS
    {
      credits
    }

    function GetCapacity(): (r: int32)
      reads this
      requires Valid()
      ensures r >= 1
    {
      capacity
    }

    /** equals: the same object, or another Course with an equal name; credits and
        capacity play no part. Objects of other classes are outside this model. */
    function Equals(other: Course?): (r: bool)
      reads this, other
      ensures r <==> other != null && name == other.name
    {
      if this == other then true
      else if other == null then false
      else SameName(Record(), other.Record())
    }

    /** hashCode: 31 * 1 + the name's String.hashCode, in int arithmetic. The string
        hash is a parameter (String.hashCode is not part of this model). */
    function HashCode(stringHash: string -> int32): (r: int32)
      reads this
      ensures (r as int - 31 - stringHash(name) as int) % 0x1_0000_0000 == 0
    {
      Wrap32(31 * 1 + stringHash(name) as int)
    }

    /** toString: the name, the credits and the capacity separated by ','. */
    function ToString(): (line: string)
      reads this
      ensures line == JoinFields([name, IntToString(credits as int), IntToString(capacity as int)])
    {
      var fields := [name, IntToString(credits as int), IntToString(capacity as int)];
      assert fields[..2][..1] == fields[..1];
      assert JoinFields(fields[..2]) == JoinFields(fields[..1]) + "," + fields[1];
      assert JoinFields(fields) == JoinFields(fields[..2]) + "," + fields[2];
      name + "," + IntToString(credits as int) + "," + IntToString(capacity as int)
    }
  }

  /** Equal courses have equal hash codes, whatever their credits and capacity. */
  lemma EqualCoursesHashAlike(a: Course, b: Course, stringHash: string -> int32)
    requires a.Equals(b)
    ensures a.HashCode(stringHash) == b.HashCode(stringHash)
  {
  }

  /** Course.equals is an equivalence relation on courses. */
  lemma EqualsIsEquivalence(a: Course, b: Course, c: Course)
    ensures a.Equals(a)
    ensures a.Equals(b) == b.Equals(a)
    ensures a.Equals(b) && b.Equals(c) ==> a.Equals(c)
  {
  }

  /** toString writes exactly three fields, the name and the two numbers in decimal,
      as long as the name holds no ','. */
  lemma {:induction false} ToStringFields(c: Course)
    requires c.Valid() && ',' !in c.name
    ensures Tokens(c.ToString()) == [c.name, IntToString(c.credits as int), IntToString(c.capacity as int)]
  {
    TokensOfJoinFields([c.name, IntToString(c.credits as int), IntToString(c.capacity as int)]);
  }

  /** The values of a sequence of courses, in order. */
  function Records(cs: seq<Course>): (rs: seq<CourseRecord>)
    reads cs
    ensures |rs| == |cs|
    ensures forall i :: 0 <= i < |cs| ==> rs[i] == cs[i].Record()
  {
    seq(|cs|, i requires 0 <= i < |cs| reads cs => cs[i].Record())
  }

  lemma RecordsAppend(cs: seq<Course>, c: Course)
    ensures Records(cs + [c]) == Records(cs) + [c.Record()]
  {
    assert (cs + [c])[..|cs|] == cs;
  }

  /** Position of the first course named `name`, the one a front-to-back scan stops
      at; None when no course has that name. */
  function FindCourse(rs: seq<CourseRecord>, name: string): (r: Option<nat>)
    ensures r.Some? ==> r.value < |rs| && rs[r.value].name == name
    ensures r.Some? ==> forall j :: 0 <= j < r.value ==> rs[j].name != name
    ensures r.None? ==> forall j :: 0 <= j < |rs| ==> rs[j].name != name
  {
    if rs == [] then None
    else if rs[0].name == name then Some(0)
    else match FindCourse(rs[1..], name)
      case None => None
      case Some(k) => Some(k + 1)
  }

  /** The first course of a sequence that carries a name is found by FindCourse. */
  lemma FindCourseAt(rs: seq<CourseRecord>, name: string, i: nat)
    requires i < |rs| && rs[i].name == name
    requires forall j :: 0 <= j < i ==> rs[j].name != name
    ensures FindCourse(rs, name) == Some(i)
  {
  }
}
