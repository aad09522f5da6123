/** Reading and writing course records, one course per line as
    name,credits,capacity (my_package/io/CourseRecordIO.java). The file is given as
    its sequence of lines; writing yields the lines the file receives. */
module CourseRecordIO {
  import opened Base
  import opened JavaText
  import opened Courses

  /** What processCourse makes of one line: the name is the first token, credits and
      capacity the next two read with nextInt, and the Course constructor must accept
      the three values. A missing token, a token that is not an int, or a value the
      constructor refuses rejects the line (None). Tokens after the third are not read. */
  function ParseCourse(line: string): (r: Option<CourseRecord>)
    ensures r.Some? ==> r.value.Valid()
    ensures r.Some? <==>
      var ts := Tokens(line);
      |ts| >= 3 && ParseInt(ts[1]).Some? && ParseInt(ts[2]).Some? &&
      CourseRecord(ts[0], ParseInt(ts[1]).value, ParseInt(ts[2]).value).Valid()
    ensures r.Some? ==>
      var ts := Tokens(line);
      r.value.name == ts[0] && ParseInt(ts[1]) == Some(r.value.credits) && ParseInt(ts[2]) == Some(r.value.capacity)
  {
    var ts := Tokens(line);
    if |ts| < 3 then None
    else
      match (ParseInt(ts[1]), ParseInt(ts[2]))
      case (Some(credits), Some(capacity)) =>
        var c := CourseRecord(ts[0], credits, capacity);
        if c.Valid() then Some(c) else None
      case _ => None
  }

  /** processCourse: scans the line and builds the Course, or throws (None). */
  method ProcessCourse(line: string) returns (r: Option<Course>)
    ensures r.Some? <==> ParseCourse(line).Some?
    ensures r.Some? ==> fresh(r.value) && r.value.Valid() && r.value.Record() == ParseCourse(line).value
  {
    var ts := Tokens(line);
    if |ts| < 3 {
      return None;
    }
    var credits := ParseInt(ts[1]);
    if credits.None? {
      return None;
    }
    var capacity := ParseInt(ts[2]);
    if capacity.None? {
      return None;
    }
    r := Course.Create(Some(ts[0]), credits.value, capacity.value);
  }

  /** The courses readCourseRecords returns for a file: those of the lines that
      parse, in line order; every other line is skipped. */
  function ParseCourses(lines: seq<string>): (rs: seq<CourseRecord>)
    ensures |rs| <= |lines|
    ensures forall i :: 0 <= i < |rs| ==> rs[i].Valid()
  {
    if lines == [] then []
    else
      var last := ParseCourse(lines[|lines| - 1]);
      ParseCourses(lines[..|lines| - 1]) + (if last.Some? then [last.value] else [])
  }

  /** readCourseRecords, from the first line on: every line that processCourse turns
      into a Course is kept, in order; a line it rejects is dropped and reading goes on. */
  method ReadCourseRecords(lines: seq<string>) returns (courses: seq<Course>)
    ensures Records(courses) == ParseCourses(lines)
    ensures forall c :: c in courses ==> fresh(c)
  {
    courses := [];
    var i := 0;
    while i < |lines|
      invariant 0 <= i <= |lines|
      invariant Records(courses) == ParseCourses(lines[..i])
      invariant forall c :: c in courses ==> fresh(c)
    {
      ghost var recs := Records(courses);
      var c := ProcessCourse(lines[i]);
      assert Records(courses) == recs;
      ParseCoursesStep(lines, i);
      if c.Some? {
        RecordsAppend(courses, c.value);
        courses := courses + [c.value];
      }
      i := i + 1;
    }
    assert lines[..|lines|] == lines;
  }

  lemma ParseCoursesStep(lines: seq<string>, i: nat)
    requires i < |lines|
    ensures ParseCourses(lines[..i + 1]) == ParseCourses(lines[..i]) +
      (if ParseCourse(lines[i]).Some? then [ParseCourse(lines[i]).value] else [])
  {
    assert lines[..i + 1] == lines[..i] + [lines[i]];
    ParseCoursesSnoc(lines[..i], lines[i]);
  }

  lemma ParseCoursesSnoc(lines: seq<string>, line: string)
    ensures ParseCourses(lines + [line]) == ParseCourses(lines) +
      (if ParseCourse(line).Some? then [ParseCourse(line).value] else [])
  {
    assert (lines + [line])[..|lines|] == lines;
  }

  /** writeCourseRecords: one line per course, in list order. */
  function WriteCourseRecords(cs: seq<Course>): (lines: seq<string>)
    reads cs
    ensures |lines| == |cs|
  {
    if cs == [] then [] else WriteCourseRecords(cs[..|cs| - 1]) + [cs[|cs| - 1].ToString()]
  }

  /** The line writeCourseRecords writes for the i-th course is that course's toString. */
  lemma {:induction false} WriteCourseRecordsLine(cs: seq<Course>, i: nat)
    requires i < |cs|
    ensures WriteCourseRecords(cs)[i] == cs[i].ToString()
    decreases |cs|
  {
    if i < |cs| - 1 {
      var init := cs[..|cs| - 1];
      WriteCourseRecordsLine(init, i);
    }
  }

  /** A valid course whose name holds no ',' comes back from its own toString line
      with the same name, credits and capacity. */
  lemma CourseLineRoundTrip(c: Course)
    requires c.Valid() && ',' !in c.name
    ensures ParseCourse(c.ToString()) == Some(c.Record())
  {
    ToStringFields(c);
    ParseIntOfIntToString(c.credits);
    ParseIntOfIntToString(c.capacity);
  }

  /** Fields after the third never matter: a valid course line followed by anything
      that starts with ',' parses as the course line alone. */
  lemma ExtraFieldsIgnored(c: Course, extra: string)
    requires c.Valid() && ',' !in c.name
    requires extra == [] || extra[0] == ','
    ensures ParseCourse(c.ToString() + extra) == Some(c.Record())
  {
    var line := c.ToString();
    var capacityText := IntToString(c.capacity as int);
    assert line == (c.name + "," + IntToString(c.credits as int) + ",") + capacityText;
    assert line[|line| - 1] == capacityText[|capacityText| - 1];
    assert capacityText[|capacityText| - 1] in capacityText;
    TokensAppend(line, extra);
    CourseLineRoundTrip(c);
  }

  /** Reading a file is reading each of its parts: a rejected line costs nothing to
      the lines around it. */
  lemma {:induction false} ParseCoursesAppend(a: seq<string>, b: seq<string>)
    ensures ParseCourses(a + b) == ParseCourses(a) + ParseCourses(b)
    decreases |b|
  {
    if b == [] {
      assert a + b == a;
    } else {
      var init := b[..|b| - 1];
      assert (a + b)[..|a + b| - 1] == a + init;
      assert (a + b)[|a + b| - 1] == b[|b| - 1];
      ParseCoursesAppend(a, init);
    }
  }

  /** A name println can write and nextLine read back as one line: it holds none of
      the characters nextLine ends a line at. */
  predicate SingleLine(name: string)
  {
    forall i :: 0 <= i < |name| ==> name[i] !in {'\n', '\r', '\U{2028}', '\U{2029}', '\U{0085}'}
  }

  /** One more course written and read back: the step of WriteThenReadCourses. */
  lemma WriteThenReadStep(init: seq<Course>, last: Course)
    requires last.Valid() && ',' !in last.name
    requires ParseCourses(WriteCourseRecords(init)) == Records(init)
    ensures ParseCourses(WriteCourseRecords(init + [last])) == Records(init + [last])
  {
    var initLines := WriteCourseRecords(init);
    assert (init + [last])[..|init|] == init;
    assert WriteCourseRecords(init + [last]) == initLines + [last.ToString()];
    CourseLineRoundTrip(last);
    ParseCoursesSnoc(initLines, last.ToString());
    RecordsAppend(init, last);
  }

  /** Writing valid courses whose names hold no ',' and no line break and reading the
      lines back gives the same courses, in the same order. */
  lemma {:induction false} WriteThenReadCourses(cs: seq<Course>)
    requires forall i :: 0 <= i < |cs| ==> cs[i].Valid() && ',' !in cs[i].name && SingleLine(cs[i].name)
    ensures ParseCourses(WriteCourseRecords(cs)) == Records(cs)
  {
    if cs != [] {
      var init, last := cs[..|cs| - 1], cs[|cs| - 1];
      WriteThenReadCourses(init);
      WriteThenReadStep(init, last);
      InitThenLast(cs);
    }
  }
}
