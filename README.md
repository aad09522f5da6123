# Course registration core, modelled in Dafny

This project models the core of a small Java course-registration system:

- **Courses.** A `Course` has a name, credit hours and a capacity. Each value is guarded by its setter. Equality and hash are by name, and `toString` writes `name,credits,capacity`.
- **Students.** A `Student` has a credit limit in [0, 18]. Its course operations are still stubs.
- **The registry.** The `CourseManager` keeps:
  - the list of courses and the list of students;
  - the logged-in user;
  - the names of the two record files.
- **Record codecs.** Two codecs turn the lines of a record file into courses and students. They skip every line they cannot read.

The project is laid out as follows:

- `base.dfy`: Java `int` as `int32`, `Option` for null or a thrown exception, and `Result` for operations that throw one of a few named errors.
- `java_text.dfy`: the pieces of the Java library the codecs rely on.
  - The tokens a `Scanner` with delimiter `","` returns. It skips one delimiter before each token, and consecutive commas give an empty token.
  - `nextInt` on one token.
  - `Integer.toString`.
  - `int` wrap-around.
  - Also the proofs that joining plain fields with `,` and scanning them back gives the fields.
- `course.dfy`: the `Course` class. Its fields are mutable and its setters return `ok` instead of throwing. It also holds its value `CourseRecord` and the first-match lookup by name.
- `student.dfy`: the `Student` class. It also holds `UserRules`, which stands for the User class. That class decides which field values are accepted and when two users are equal.
- `course_record_io.dfy`, `student_record_io.dfy`: the line parsers. Each is a pure function on one line, plus the method that builds the object, and the read loop over a file's lines. `course_record_io.dfy` also holds the course writer and the write-then-read round trip; `student_record_io.dfy` holds the student line's acceptance and rejection lemmas (the student writer is left out, below).
- `course_manager.dfy`: the `CourseManager` class.
  - Its lists are `seq` fields that the methods reassign, and its loops are the source's linear scans.
  - The list behaviour of `addCourse`/`addStudent` and of the load folds is specified by the generic `AddIfAbsent`/`AddAll`. The lemmas prove that these keep names unique, only extend the list, and are idempotent.

The file contents are given to the read methods as sequences of lines, and a missing file as `None`. The course writer yields the lines it would print. The password hash that `login` compares with is a function fixed when the manager is built.

## Model

| member | source | states |
|---|---|---|
| Courses.Course.Blank | CourseManager/src/my_package/courses/Course.java:27-28 | the allocation step of the constructor, used only by Create: the object before the setters run, with the empty name standing for Java's null and 0 credits and capacity |
| Courses.Course.Create | CourseManager/src/my_package/courses/Course.java:27-32 | a course is made iff the name is non-null and non-empty, 1 <= credits <= 4 and capacity > 0; it is then fresh, satisfies the class invariant and holds exactly the three values |
| Courses.Course.SetName | CourseManager/src/my_package/courses/Course.java:72-77 | null or empty name: fails and nothing changes; otherwise only the name changes; the class invariant is kept |
| Courses.Course.SetCredits | CourseManager/src/my_package/courses/Course.java:81-86 | fails with no change iff credits lie outside [MIN_HOURS, MAX_HOURS] (both bounds accepted); otherwise only the credits change; invariant kept |
| Courses.Course.SetCapacity | CourseManager/src/my_package/courses/Course.java:90-95 | fails with no change iff capacity <= 0; otherwise only the capacity changes; invariant kept |
| Courses.Course.GetName | CourseManager/src/my_package/courses/Course.java:101-103 | on a valid course the name is non-empty |
| Courses.Course.GetCredits | CourseManager/src/my_package/courses/Course.java:107-109 | on a valid course the credits lie in [MIN_HOURS, MAX_HOURS] |
| Courses.Course.GetCapacity | CourseManager/src/my_package/courses/Course.java:113-115 | on a valid course the capacity is at least 1 |
| Courses.Course.Equals | CourseManager/src/my_package/courses/Course.java:54-68 | true iff the other course is non-null and has an equal name; credits and capacity play no part |
| Courses.EqualsIsEquivalence | CourseManager/src/my_package/courses/Course.java:54-68 | equals is reflexive, symmetric and transitive |
| Courses.EqualCoursesHashAlike | CourseManager/src/my_package/courses/Course.java:44-49 | equal courses have equal hash codes, whatever the string hash is |
| Courses.Course.ToString | CourseManager/src/my_package/courses/Course.java:37-39 | the line is the name, the credits and the capacity in decimal, joined by ',' (the same JoinFields the student line uses) |
| Courses.Course.HashCode | CourseManager/src/my_package/courses/Course.java:44-49 | the hash is 31 + the name's string hash in int arithmetic: equal to it modulo 2^32; nothing but the name enters it |
| Courses.ToStringFields | CourseManager/src/my_package/courses/Course.java:37-39 | the toString line of a valid course whose name has no ',' scans as exactly the name, the credits and the capacity in decimal |
| Courses.FindCourse | CourseManager/src/my_package/manager/CourseManager.java:215-222 | the position found holds the name and no earlier course holds it; None iff no course holds it |
| Courses.FindCourseAt | CourseManager/src/my_package/manager/CourseManager.java:216-218 | the first position holding the name is the one FindCourse finds |
| Users.Student.Blank | CourseManager/src/my_package/users/Student.java:31-33 | the allocation step of the constructor, used only by Create: the User part set, the empty course list allocated, and a limit of 0 until setMaxCredits runs |
| Users.Student.GetId | CourseManager/src/my_package/manager/CourseManager.java:74 | defines getId, inherited from User: the id the student was built with |
| Users.Student.GetPassword | CourseManager/src/my_package/manager/CourseManager.java:79 | defines getPassword, inherited from User: the stored password login compares with the hash |
| Users.Student.Create | CourseManager/src/my_package/users/Student.java:31-35 | a student is made iff the User part is accepted and 0 <= maxCredits <= 18; it is fresh, valid, has an empty course list and holds those values |
| Users.Student.CreateDefault | CourseManager/src/my_package/users/Student.java:44-46 | a student is made iff the User part is accepted; its credit limit is MAX_CREDITS = 18 and its course list is empty |
| Users.Student.GetMaxCredits | CourseManager/src/my_package/users/Student.java:51-53 | the limit of a valid student lies in [0, 18] |
| Users.Student.SetMaxCredits | CourseManager/src/my_package/users/Student.java:58-63 | fails with no change iff n < 0 or n > 18; otherwise the limit becomes n; the course list is untouched; invariant kept |
| Users.Student.CanAddCourse | CourseManager/src/my_package/users/Student.java:69-72 | the stub refuses every course |
| Users.Student.AddCourse | CourseManager/src/my_package/users/Student.java:78-81 | the stub answers false and changes nothing (no modifies clause) |
| Users.Student.RemoveCourse | CourseManager/src/my_package/users/Student.java:87-90 | the stub answers false and changes nothing |
| Users.Student.GetCourses | CourseManager/src/my_package/users/Student.java:96-99 | the stub answers null |
| CourseRecordIO.ParseCourse | CourseManager/src/my_package/io/CourseRecordIO.java:54-67 | a line yields a course iff it has at least three tokens, the second and third read as ints, and the Course constructor accepts the three values; the course holds those values and is valid |
| CourseRecordIO.ProcessCourse | CourseManager/src/my_package/io/CourseRecordIO.java:54-67 | builds a fresh Course exactly when ParseCourse accepts the line, holding ParseCourse's values |
| CourseRecordIO.ExtraFieldsIgnored | CourseManager/src/my_package/io/CourseRecordIO.java:58-62 | anything after the third field is never read: a valid course line followed by further fields parses as that course |
| CourseRecordIO.ParseCourses | CourseManager/src/my_package/io/CourseRecordIO.java:36-42 | the courses read are never more than the lines, and all are valid |
| CourseRecordIO.ReadCourseRecords | CourseManager/src/my_package/io/CourseRecordIO.java:32-46 | the fresh courses read hold exactly the values of the lines that parse, in line order |
| CourseRecordIO.ParseCoursesAppend | CourseManager/src/my_package/io/CourseRecordIO.java:36-42 | a rejected line does not disturb its neighbours: reading a + b is reading a then reading b |
| CourseRecordIO.WriteCourseRecords | CourseManager/src/my_package/io/CourseRecordIO.java:75-83 | one line per course |
| CourseRecordIO.WriteCourseRecordsLine | CourseManager/src/my_package/io/CourseRecordIO.java:78-80 | the i-th line written is the i-th course's toString |
| CourseRecordIO.CourseLineRoundTrip | CourseManager/src/my_package/io/CourseRecordIO.java:54-62 | a valid course whose name has no ',' is read back from its own toString line with the same name, credits and capacity |
| CourseRecordIO.WriteThenReadCourses | CourseManager/src/my_package/io/CourseRecordIO.java:75-83 | writing valid courses whose names have no ',' and no line break and reading the lines back gives the same course values in the same order |
| StudentRecordIO.ParseStudent | CourseManager/src/my_package/io/StudentRecordIO.java:50-76 | a line yields a student iff it has exactly six tokens, the sixth reads as an int in [0, 18], and the User part is accepted; the student holds those values |
| StudentRecordIO.ProcessStudent | CourseManager/src/my_package/io/StudentRecordIO.java:50-76 | builds a fresh Student, with an empty course list, exactly when ParseStudent accepts the line, whatever the course list holds |
| StudentRecordIO.TrailingCoursesRejected | CourseManager/src/my_package/io/StudentRecordIO.java:61-68 | any token after the sixth rejects the line, since the course is either not found or refused by addCourse |
| StudentRecordIO.CreditLimitOutOfRangeRejected | CourseManager/src/my_package/io/StudentRecordIO.java:59-60 | a credit limit outside [0, 18] rejects the line |
| StudentRecordIO.SixFieldLineAccepted | CourseManager/src/my_package/io/StudentRecordIO.java:60-71 | six plain fields with an accepted User part and a limit in [0, 18] yield exactly that student |
| StudentRecordIO.ParseStudents | CourseManager/src/my_package/io/StudentRecordIO.java:32-38 | the students read are never more than the lines, and all are valid |
| StudentRecordIO.ReadStudentRecords | CourseManager/src/my_package/io/StudentRecordIO.java:28-42 | the fresh students read, each with no courses, hold exactly the values of the lines that parse, in line order |
| StudentRecordIO.ParseStudentsAppend | CourseManager/src/my_package/io/StudentRecordIO.java:32-38 | a rejected line does not disturb its neighbours: reading a + b is reading a then reading b |
| Manager.AddIfAbsent | CourseManager/src/my_package/manager/CourseManager.java:195-202 | the list is unchanged when an element is already the same as x, and gets x appended otherwise |
| Manager.AddIfAbsentKeepsNoDuplicates | CourseManager/src/my_package/manager/CourseManager.java:195-202 | adding never creates two same elements: pairwise-distinct names (or users) stay distinct |
| Manager.AddAllKeepsNoDuplicates | CourseManager/src/my_package/manager/CourseManager.java:183-185 | the load fold keeps a duplicate-free list duplicate-free |
| Manager.AddAllExtends | CourseManager/src/my_package/manager/CourseManager.java:183-185 | the load fold only appends: the old list is a prefix, at most one element per loaded record is added, and every element comes from the old list or the loaded ones |
| Manager.AddAllCovers | CourseManager/src/my_package/manager/CourseManager.java:183-185 | after the fold every loaded element (each the same as itself) has a same element in the list |
| Manager.AddAllOfCovered | CourseManager/src/my_package/manager/CourseManager.java:183-185 | folding in elements that each already have a same one changes nothing |
| Manager.AddAllIdempotent | CourseManager/src/my_package/manager/CourseManager.java:183-185 | loading the same records twice gives what loading them once gives, when each record is the same as itself |
| Manager.AddAllOfItself | CourseManager/src/my_package/manager/CourseManager.java:183-185 | loading a list into itself changes nothing |
| Manager.ReloadSavedCourses | CourseManager/src/my_package/manager/CourseManager.java:179-189 | loading the lines the registered valid courses (names free of ',' and line breaks) are saved as leaves the course values unchanged |
| Manager.FindStudent | CourseManager/src/my_package/manager/CourseManager.java:73-74 | the position found holds the id and no earlier student holds it; None iff no student holds it |
| Manager.FindStudentAt | CourseManager/src/my_package/manager/CourseManager.java:73-88 | the first position holding the id is the one FindStudent finds |
| Manager.CourseManager.constructor | CourseManager/src/my_package/manager/CourseManager.java:46-49 | both lists empty, nobody logged in, no file names |
| Manager.CourseManager.Login | CourseManager/src/my_package/manager/CourseManager.java:69-90 | succeeds iff nobody is logged in, some student has the id, and the first such student's password equals the hash of the one given; then that student is the current user, and otherwise nothing changes; lists and file names never change |
| Manager.CourseManager.Logout | CourseManager/src/my_package/manager/CourseManager.java:95-97 | nobody is logged in afterwards; nothing else changes |
| Manager.CourseManager.GetCurrentUser | CourseManager/src/my_package/manager/CourseManager.java:104-106 | the current user, when there is one, is a registered student |
| Manager.CourseManager.ListUserCourses | CourseManager/src/my_package/manager/CourseManager.java:112-117 | throws iff nobody is logged in; otherwise the stub's null |
| Manager.CourseManager.ListAllCourses | CourseManager/src/my_package/manager/CourseManager.java:123-126 | a fresh array holding the registered courses in list order |
| Manager.CourseManager.AddUserToCourse | CourseManager/src/my_package/manager/CourseManager.java:134-147 | throws iff nobody is logged in; otherwise false, as the stub canAddCourse refuses every course |
| Manager.CourseManager.RemoveUserFromCourse | CourseManager/src/my_package/manager/CourseManager.java:155-161 | throws iff nobody is logged in; otherwise the stub's false |
| Manager.CourseManager.ClearData | CourseManager/src/my_package/manager/CourseManager.java:167-173 | both lists empty, nobody logged in, both file names null |
| Manager.CourseManager.AddCourse | CourseManager/src/my_package/manager/CourseManager.java:195-202 | the course values become AddIfAbsent by name of the old ones; the list is unchanged or has the course appended; nothing else changes |
| Manager.CourseManager.AddStudent | CourseManager/src/my_package/manager/CourseManager.java:244-251 | the student values become AddIfAbsent by User equality of the old ones; the list is unchanged or has the student appended; nothing else changes |
| Manager.CourseManager.GetCourseByName | CourseManager/src/my_package/manager/CourseManager.java:215-222 | null iff the name is null or no registered course has it; otherwise the first registered course with the name |
| Manager.CourseManager.LoadCourses | CourseManager/src/my_package/manager/CourseManager.java:179-189 | the (non-null) file name is remembered first; a missing file throws and leaves the courses alone; otherwise the course values become the AddAll fold of the parsed lines; the old list stays a prefix |
| Manager.CourseManager.LoadStudents | CourseManager/src/my_package/manager/CourseManager.java:228-238 | the same for students: the file name is remembered; a missing file throws; otherwise the student values become the AddAll fold by User equality; the logged-in user stays registered |
| Manager.CourseManager.SaveCourses | CourseManager/src/my_package/manager/CourseManager.java:207-213 | throws iff no course file name was set since construction or the last clearData; otherwise the lines go to that file name, one per registered course, the i-th being the i-th course's toString |
| JavaText.Tokens | CourseManager/src/my_package/io/CourseRecordIO.java:57-60 | defines the tokens of Scanner.next with delimiter ',': one ',' is skipped before each token, a token runs to the next ',' or the end, nothing after a final skip is a token |
| JavaText.TokensHoldNoDelimiter | CourseManager/src/my_package/io/CourseRecordIO.java:57-60 | no token the scanner yields holds a ',' |
| JavaText.TokensLeadingDelimiter | CourseManager/src/my_package/io/CourseRecordIO.java:57-58 | ",a" scans as the one token "a": a leading ',' is skipped |
| JavaText.TokensEmptyBetween | CourseManager/src/my_package/io/StudentRecordIO.java:53-58 | "a,,b" scans as "a", "", "b": two consecutive commas give an empty token |
| JavaText.TokensTrailingDelimiter | CourseManager/src/my_package/io/StudentRecordIO.java:53-58 | "a," scans as the one token "a": a single trailing ',' gives no token |
| JavaText.ParseInt | CourseManager/src/my_package/io/StudentRecordIO.java:59 | defines nextInt on one token: an optional '-' and at least one ASCII digit, with the value in the int range, else no int; an accepted token is '-' or a digit followed by digits only |
| JavaText.ParseIntOfIntToString | CourseManager/src/my_package/io/CourseRecordIO.java:59-60 | nextInt reads back every int that Integer.toString writes |
| JavaText.TokensOfJoinFields | CourseManager/src/my_package/io/StudentRecordIO.java:53-58 | scanning plain fields joined with ',' gives the fields back |
| JavaText.Wrap32 | CourseManager/src/my_package/courses/Course.java:44-49 | int arithmetic: the result agrees with the exact value modulo 2^32 |

## Left out

- **File I/O.** The files themselves are left out: `Scanner` over a file, `PrintWriter`, the line separators, and closing.
  - The read methods take the file's lines, or `None` for a missing file, which becomes the `FileNotFound` error.
  - The course writer yields the lines it would print.
  - A line break inside a name is not modelled, because a line is a given element of the sequence. The file round trips `CourseRecordIO.WriteThenReadCourses` and `Manager.ReloadSavedCourses` therefore require names free of the characters nextLine ends a line at (`CourseRecordIO.SingleLine`).
- **SHA-256.** `MessageDigest` and its `NoSuchAlgorithmException` path are left out. The hash is a function fixed when the manager is constructed.
- **String.hashCode.** It is a parameter of `Courses.Course.HashCode`.
- **The User class.** User.java is not part of this model. `getId` and `getPassword` are assumed to return the id and password the User constructor received, unchanged (`Users.Student.GetId`, `Users.Student.GetPassword`); `Manager.CourseManager.Login` and the link from a student line's fifth field to the password login compares rest on that. The constructor's checks and `equals` are the `UserRules` parameter. `toString` is not modelled.
- **writeStudentRecords and saveStudents.** Both depend on `User.toString`, which is not part of this model.
- **saveCourses IOException.** A failing write is not modelled.
- **The singleton getInstance.** The manager is constructed explicitly. processStudent's lookup through the singleton is given the registered course list.
- **Course.canEnroll, enroll and drop.** These are called by the manager but do not exist in Course.java.
  - `canEnroll` is a parameter of `Manager.CourseManager.AddUserToCourse`.
  - The effects of `enroll` and `drop`, and the `addCourse` call in the branch that only a true `canAddCourse` reaches, are left out. The stub makes that branch unreachable, so nothing observable is lost.
- **Manager.CourseManager.Valid.** It states only that the logged-in user is a registered student. That names stay unique, and User-equal students are not both registered, is proved on list values by `Manager.AddIfAbsentKeepsNoDuplicates` and `Manager.AddAllKeepsNoDuplicates`. It is not carried in the class invariant.
- **Courses.Course.Equals.** It covers Course arguments only. The `getClass` check against objects of other classes is left out.
- **Manager.CourseManager.Login.** A null id or password is not modelled: the id and password are strings. The `login` source compares `getId().equals(id)`, which is false for a null id.
- **JavaText.ParseInt.** nextInt's locale-specific group separators, a leading '+' and non-ASCII digits are not modelled. A token is an optional '-' followed by ASCII digits, within the int range.
- Manager.CourseManager.LoadCourses, Manager.CourseManager.LoadStudents, Manager.CourseManager.AddCourse and Manager.CourseManager.AddStudent: null arguments are not modelled. The file name is a `string` and the course or student an object, so a null file name (whose `File`, `FileInputStream` or `FileWriter` throws a NullPointerException that no catch clause handles) and the null element `addCourse(null)`/`addStudent(null)` would append are outside the model. `SaveCourses` models the one null the registry itself can hold: no file name set yet.
- **The record file format.** The code checks no extra fields and no capacity or enrollment counts, and this model follows the code.
