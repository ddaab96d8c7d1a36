/** The employee form of the web client: the text fields it holds, the
    field-by-field validation run before a submit, the input object it sends
    (trimmed, the email lower-cased, the subjects split on commas), and the
    edit-mode initialisation from an existing record. */
module Form {
  import opened Base
  import opened Text
  import opened EmployeeSchema
  import Resolvers

  /** Every form field holds the text of its input element. */
  datatype FormData = FormData(
    name: string,
    age: string,
    position: string,
    department: string,
    email: string,
    phone: string,
    salary: string,
    joinDate: string,
    subjects: string,
    attendance: string,
    bio: string)

  const EmptyForm := FormData("", "", "", "", "", "", "", "", "", "", "")

  /** The `name` attribute of an input element, which is also the key of its
      error message. */
  datatype Field = Name | Age | Position | Department | Email | Phone | Salary | JoinDate | Subjects | Attendance | Bio

  function Get(fd: FormData, f: Field): string {
    match f
    case Name => fd.name
    case Age => fd.age
    case Position => fd.position
    case Department => fd.department
    case Email => fd.email
    case Phone => fd.phone
    case Salary => fd.salary
    case JoinDate => fd.joinDate
    case Subjects => fd.subjects
    case Attendance => fd.attendance
    case Bio => fd.bio
  }

  /** `{ ...prev, [name]: value }`. */
  function SetField(fd: FormData, f: Field, v: string): (r: FormData)
    ensures Get(r, f) == v
    ensures forall g :: g != f ==> Get(r, g) == Get(fd, g)
  {
    match f
    case Name => fd.(name := v)
    case Age => fd.(age := v)
    case Position => fd.(position := v)
    case Department => fd.(department := v)
    case Email => fd.(email := v)
    case Phone => fd.(phone := v)
    case Salary => fd.(salary := v)
    case JoinDate => fd.(joinDate := v)
    case Subjects => fd.(subjects := v)
    case Attendance => fd.(attendance := v)
    case Bio => fd.(bio := v)
  }

  /** The number conversions of the client, which are floating-point library
      code and so are parameters: `coerce` is the `Number(...)` coercion that
      `isNaN` and the comparisons apply (`None` for NaN), `parseInt` and
      `parseFloat` the parsers used on submit, `showInt` and `showReal` the
      `toString` of a number. */
  datatype Numbers = Numbers(
    coerce: string -> Option<real>,
    parseInt: string -> int,
    parseFloat: string -> real,
    showInt: int -> string,
    showReal: real -> string)

  // ---------------------------------------------------------------- validation

  /** Non-empty, numeric, and within 18..100. */
  predicate AgeAccepted(s: string, coerce: string -> Option<real>) {
    s != [] && coerce(s).Some? && MinAge as real <= coerce(s).value <= MaxAge as real
  }

  /** Non-empty, numeric, and not negative. */
  predicate SalaryAccepted(s: string, coerce: string -> Option<real>) {
    s != [] && coerce(s).Some? && coerce(s).value >= MinSalary
  }

  /** `\S+@\S+\.\S+` matches the characters from `i - 1` to `j + 1`: a
      non-space before the `@` at `i`, non-spaces up to the `.` at `j`, and a
      non-space after it. */
  predicate EmailShapeAt(s: string, i: int, j: int) {
    && 1 <= i && i + 2 <= j && j + 2 <= |s|
    && !IsSpace(s[i - 1]) && s[i] == '@' && s[j] == '.' && !IsSpace(s[j + 1])
    && forall k :: i < k < j ==> !IsSpace(s[k])
  }

  /** The unanchored test `/\S+@\S+\.\S+/.test(s)`: the pattern occurs
      somewhere in `s`. */
  predicate HasEmailShape(s: string) {
    exists i, j :: 0 <= i < |s| && 0 <= j < |s| && EmailShapeAt(s, i, j)
  }

  /** What `validateForm` demands, field by field: the required texts not
      blank, age and salary numeric and in range, the email matching the
      pattern, a join date given. Subjects, attendance and bio are not
      checked. */
  predicate FormPasses(fd: FormData, coerce: string -> Option<real>) {
    && !AllSpace(fd.name)
    && AgeAccepted(fd.age, coerce)
    && !AllSpace(fd.position)
    && !AllSpace(fd.department)
    && HasEmailShape(fd.email)
    && !AllSpace(fd.phone)
    && SalaryAccepted(fd.salary, coerce)
    && fd.joinDate != []
  }

  const CheckedFields: set<Field> := {Name, Age, Position, Department, Email, Phone, Salary, JoinDate}

  /** The message `validateForm` records on a field that fails. */
  function Message(f: Field, fd: FormData): string {
    match f
    case Name => "Name is required"
    case Age => "Age must be between 18 and 100"
    case Position => "Position is required"
    case Department => "Department is required"
    case Email => if AllSpace(fd.email) then "Email is required" else "Email is invalid"
    case Phone => "Phone is required"
    case Salary => "Valid salary is required"
    case JoinDate => "Join date is required"
    case Subjects => ""
    case Attendance => ""
    case Bio => ""
  }

  /** Whatever matches the email pattern is not blank, so the "required"
      message and the "invalid" message never compete. */
  lemma EmailShapeNotBlank(s: string)
    ensures HasEmailShape(s) ==> !AllSpace(s)
  {
    if HasEmailShape(s) {
      var i, j :| 0 <= i < |s| && 0 <= j < |s| && EmailShapeAt(s, i, j);
      assert !IsSpace(s[i - 1]);
    }
  }

  /** The pattern is not anchored: text around a matching string does not
      stop it matching. */
  lemma EmailShapeAnywhere(before: string, s: string, after: string)
    requires HasEmailShape(s)
    ensures HasEmailShape(before + s + after)
  {
    var i, j :| 0 <= i < |s| && 0 <= j < |s| && EmailShapeAt(s, i, j);
    var t := before + s + after;
    var n := |before|;
    forall k | 0 <= k < |s| ensures t[n + k] == s[k] { }
    assert EmailShapeAt(t, n + i, n + j) by {
      forall k | n + i < k < n + j ensures !IsSpace(t[k]) {
        assert t[k] == s[k - n];
      }
    }
  }

  lemma EmailShapeExamples()
    ensures HasEmailShape("a@b.c")
    ensures HasEmailShape("see: a@b.c, thanks")
    ensures !HasEmailShape("a@b")
    ensures !HasEmailShape("@b.c")
  {
    assert EmailShapeAt("a@b.c", 1, 3);
    EmailShapeAnywhere("see: ", "a@b.c", ", thanks");
    assert "see: " + "a@b.c" + ", thanks" == "see: a@b.c, thanks";
  }

  // ---------------------------------------------------------------- subjects

  /** `.filter(s => s)`: the non-empty entries, in order. */
  function NonEmpty(xs: seq<string>): (r: seq<string>)
    ensures |r| <= |xs|
    ensures forall x :: x in r <==> x in xs && x != []
    decreases |xs|
  {
    if |xs| == 0 then []
    else (if xs[0] == [] then [] else [xs[0]]) + NonEmpty(xs[1..])
  }

  /** `s.split(',').map(s => s.trim()).filter(s => s)`. */
  function CleanPieces(s: string): seq<string> {
    NonEmpty(TrimEach(Split(s, ',')))
  }

  /** The subjects a list can hold and still survive the form unchanged: each
      entry non-empty, trimmed and without a comma. */
  predicate WellFormedSubjects(xs: seq<string>) {
    forall i :: 0 <= i < |xs| ==> xs[i] != [] && IsTrimmed(xs[i]) && ',' !in xs[i]
  }

  /** Every clean piece is non-empty, trimmed and free of commas. */
  lemma CleanPiecesWellFormed(s: string)
    ensures WellFormedSubjects(CleanPieces(s))
  {
    var p := Split(s, ',');
    var t := TrimEach(p);
    forall i | 0 <= i < |t|
      ensures ',' !in t[i]
    {
      TrimKeepsAbsent(p[i], ',');
    }
    var r := NonEmpty(t);
    forall i | 0 <= i < |r|
      ensures r[i] != [] && IsTrimmed(r[i]) && ',' !in r[i]
    {
      assert r[i] in r;
      var j :| 0 <= j < |t| && t[j] == r[i];
    }
  }

  /** The `subjects` of the submitted input: empty text gives no subjects. */
  function ParseSubjects(s: string): (r: seq<string>)
    ensures WellFormedSubjects(r)
  {
    if s == [] then []
    else
      CleanPiecesWellFormed(s);
      CleanPieces(s)
  }

  /** The edit form's `subjects.join(', ')`. */
  function JoinSubjects(xs: seq<string>): string {
    Join(xs, ", ")
  }

  lemma NonEmptyCons(x: string, xs: seq<string>)
    ensures NonEmpty([x] + xs) == (if x == [] then [] else [x]) + NonEmpty(xs)
  {
    assert ([x] + xs)[1..] == xs;
  }

  /** The filter keeps a non-empty last entry at the end and drops an empty
      one; with `NonEmptyCons` this pins down the kept entries, their order
      and their multiplicity. */
  lemma {:induction false} NonEmptySnoc(xs: seq<string>, x: string)
    ensures NonEmpty(xs + [x]) == NonEmpty(xs) + (if x == [] then [] else [x])
    decreases |xs|
  {
    if xs == [] {
      assert [] + [x] == [x];
      NonEmptyCons(x, []);
    } else {
      assert xs + [x] == [xs[0]] + (xs[1..] + [x]);
      NonEmptyCons(xs[0], xs[1..] + [x]);
      NonEmptySnoc(xs[1..], x);
      assert xs == [xs[0]] + xs[1..];
      NonEmptyCons(xs[0], xs[1..]);
    }
  }

  /** The submitted subjects are exactly the non-empty trimmed pieces of the
      text between commas. */
  lemma ParseSubjectsExactly(s: string)
    ensures forall x :: x in ParseSubjects(s) <==>
              x != [] && exists p :: p in Split(s, ',') && Trim(p) == x
  {
    ParseSubjectsGuardRedundant(s);
    var ps := Split(s, ',');
    var t := TrimEach(ps);
    forall x ensures x in t <==> exists p :: p in ps && Trim(p) == x {
      if x in t {
        var i :| 0 <= i < |t| && t[i] == x;
        assert ps[i] in ps;
      }
      if exists p :: p in ps && Trim(p) == x {
        var p :| p in ps && Trim(p) == x;
        var i :| 0 <= i < |ps| && ps[i] == p;
        assert t[i] == x;
      }
    }
  }

  /** Trimming two lists piece by piece gives the same result when the pieces
      trim alike. */
  lemma TrimEachPointwise(a: seq<string>, b: seq<string>)
    requires |a| == |b|
    requires forall i :: 0 <= i < |a| ==> Trim(a[i]) == Trim(b[i])
    ensures TrimEach(a) == TrimEach(b)
  {
    assert forall i :: 0 <= i < |a| ==> TrimEach(a)[i] == TrimEach(b)[i];
  }

  /** The empty-string guard changes nothing: empty text splits into one
      empty piece, which the filter drops. */
  lemma ParseSubjectsGuardRedundant(s: string)
    ensures ParseSubjects(s) == CleanPieces(s)
  {
    if s == [] {
      assert Split(s, ',') == [[]];
      assert TrimEach([[]]) == [[]];
      NonEmptyCons([], []);
    }
  }

  /** A space in front of the text only pads the first piece, and trimming
      removes it again. */
  lemma CleanPiecesSpaceInFront(t: string)
    ensures CleanPieces([' '] + t) == CleanPieces(t)
  {
    var p := Split(t, ',');
    var q := Split([' '] + t, ',');
    SplitNonSeparator(' ', t, ',');
    forall i | 0 <= i < |q|
      ensures Trim(q[i]) == Trim(p[i])
    {
      if i == 0 {
        TrimSpacePrefix(' ', p[0]);
      }
    }
    TrimEachPointwise(q, p);
  }

  /** A single well-formed entry is its own clean piece. */
  lemma CleanPiecesSingle(x: string)
    requires x != [] && IsTrimmed(x) && ',' !in x
    ensures CleanPieces(x) == [x]
  {
    SplitWithoutSeparator(x, ',');
    TrimOfTrimmed(x);
    assert TrimEach([x]) == [x];
    NonEmptyCons(x, []);
  }

  /** The comma, then the rest: the first piece is `x` on its own. */
  lemma CleanPiecesCons(x: string, rest: string)
    requires x != [] && IsTrimmed(x) && ',' !in x
    ensures CleanPieces(x + [','] + rest) == [x] + CleanPieces(rest)
  {
    SplitAtSeparator(x, ',', rest);
    var p := Split(rest, ',');
    assert TrimEach([x] + p) == [x] + TrimEach(p) by {
      TrimOfTrimmed(x);
      forall i | 0 <= i < |p| + 1 ensures TrimEach([x] + p)[i] == ([x] + TrimEach(p))[i] {
        if i > 0 {
          assert ([x] + p)[i] == p[i - 1];
        }
      }
    }
    NonEmptyCons(x, TrimEach(p));
  }

  /** An entry, `", "`, then the rest: the entry comes off on its own. */
  lemma CleanPiecesEntry(x: string, rest: string)
    requires x != [] && IsTrimmed(x) && ',' !in x
    ensures CleanPieces(x + ", " + rest) == [x] + CleanPieces(rest)
  {
    assert x + ", " + rest == x + [','] + ([' '] + rest);
    CleanPiecesCons(x, [' '] + rest);
    CleanPiecesSpaceInFront(rest);
  }

  /** The pieces of a well-formed list joined with `", "` are the list. */
  lemma {:induction false} CleanPiecesOfJoin(xs: seq<string>)
    requires WellFormedSubjects(xs)
    ensures CleanPieces(JoinSubjects(xs)) == xs
    decreases |xs|
  {
    if |xs| == 0 {
      assert CleanPieces(JoinSubjects(xs)) == xs by {
        ParseSubjectsGuardRedundant([]);
      }
    } else if |xs| == 1 {
      assert CleanPieces(JoinSubjects(xs)) == xs by {
        CleanPiecesSingle(xs[0]);
      }
    } else {
      var rest := JoinSubjects(xs[1..]);
      assert CleanPieces(JoinSubjects(xs)) == xs by {
        assert JoinSubjects(xs) == xs[0] + ", " + rest;
        CleanPiecesEntry(xs[0], rest);
        CleanPiecesOfJoin(xs[1..]);
        assert xs == [xs[0]] + xs[1..];
      }
    }
  }

  /** Joining a well-formed list with `", "` and parsing it back gives the
      same list. */
  lemma SubjectsRoundTrip(xs: seq<string>)
    requires WellFormedSubjects(xs)
    ensures ParseSubjects(JoinSubjects(xs)) == xs
  {
    ParseSubjectsGuardRedundant(JoinSubjects(xs));
    CleanPiecesOfJoin(xs);
  }

  /** Parsing is a normal form: the edit form's text of a parsed list parses to
      the same list. */
  lemma ParseSubjectsIdempotent(s: string)
    ensures ParseSubjects(JoinSubjects(ParseSubjects(s))) == ParseSubjects(s)
  {
    SubjectsRoundTrip(ParseSubjects(s));
  }

  /** Outside the well-formed lists the round trip fails: an entry holding a
      comma comes back as two entries. */
  lemma CommaEntrySplits(x: string, y: string)
    requires x != [] && IsTrimmed(x) && ',' !in x
    requires y != [] && IsTrimmed(y) && ',' !in y
    ensures ParseSubjects(JoinSubjects([x + [','] + y])) == [x, y]
  {
    var s := x + [','] + y;
    assert JoinSubjects([s]) == s;
    assert CleanPieces(s) == [x, y] by {
      CleanPiecesCons(x, y);
      CleanPiecesSingle(y);
    }
    ParseSubjectsGuardRedundant(s);
  }

  /** An empty entry is dropped by the round trip. */
  lemma EmptyEntryDropped(x: string)
    requires x != [] && IsTrimmed(x) && ',' !in x
    ensures ParseSubjects(JoinSubjects([[], x])) == [x]
  {
    var s := JoinSubjects([[], x]);
    assert CleanPieces(s) == [x] by {
      assert [[], x][1..] == [x];
      assert Join([x], ", ") == x;
      assert s == [] + ", " + Join([x], ", ");
      assert s == [] + [','] + ([' '] + x);
      var p := Split([' '] + x, ',');
      SplitAtSeparator([], ',', [' '] + x);
      assert TrimEach([[]] + p) == [[]] + TrimEach(p);
      NonEmptyCons([], TrimEach(p));
      CleanPiecesSpaceInFront(x);
      CleanPiecesSingle(x);
    }
    ParseSubjectsGuardRedundant(s);
  }

  // ---------------------------------------------------------------- the input sent

  /** The `input` object `handleSubmit` builds from the form. */
  function BuildInput(fd: FormData, nums: Numbers): EmployeeInput {
    EmployeeInput(
      Trim(fd.name),
      nums.parseInt(fd.age),
      Trim(fd.position),
      Trim(fd.department),
      Lower(Trim(fd.email)),
      Trim(fd.phone),
      nums.parseFloat(fd.salary),
      fd.joinDate,
      Some(ParseSubjects(fd.subjects)),
      Some(if fd.attendance == [] then 0.0 else nums.parseFloat(fd.attendance)),
      Some(Trim(fd.bio)))
  }

  /** The input is normalised the way the schema would normalise it: texts
      trimmed, the email trimmed and lower-cased, the subjects clean, and
      subjects, attendance and bio always sent. */
  lemma InputIsNormalized(fd: FormData, nums: Numbers)
    ensures var input := BuildInput(fd, nums);
      && IsTrimmed(input.name) && IsTrimmed(input.position) && IsTrimmed(input.department)
      && IsTrimmed(input.phone) && IsTrimmed(input.email) && IsLowerCase(input.email)
      && input.email == NormalizeEmail(fd.email)
      && input.subjects.Some? && WellFormedSubjects(input.subjects.value)
      && input.attendance.Some? && (fd.attendance == [] ==> input.attendance.value == DefaultAttendance)
      && input.bio.Some? && IsTrimmed(input.bio.value)
      && input.joinDate == fd.joinDate
  {
    LowerTrimCommute(fd.email);
  }

  /** The same input sent to `updateEmployee`: every field present. */
  function AsUpdate(input: EmployeeInput): (u: EmployeeUpdate)
    ensures u.isActive.None?
    ensures u.name == Some(input.name) && u.email == Some(input.email) && u.subjects == input.subjects
  {
    EmployeeUpdate(
      Some(input.name), Some(input.age), Some(input.position), Some(input.department),
      Some(input.email), Some(input.phone), Some(input.salary), Some(input.joinDate),
      input.subjects, input.attendance, input.bio, None)
  }

  /** A form that passes validation sends every required text present:
      non-empty and trimmed. */
  lemma FormInputMeetsSchema(fd: FormData, nums: Numbers)
    requires FormPasses(fd, nums.coerce)
    ensures var input := BuildInput(fd, nums);
      && Present(input.name) && Present(input.position) && Present(input.department)
      && Present(input.phone) && Present(input.email)
  {
    EmailShapeNotBlank(fd.email);
    PresentAfterTrim(fd.name);
    PresentAfterTrim(fd.position);
    PresentAfterTrim(fd.department);
    PresentAfterTrim(fd.phone);
    NormalizeEmailBlank(fd.email);
    InputIsNormalized(fd, nums);
  }

  /** The schema's own setters leave the texts and subjects exactly as the
      form sent them. */
  lemma SchemaKeepsFormInput(fd: FormData, nums: Numbers, id: EmployeeId, creator: UserId)
    ensures var input := BuildInput(fd, nums);
      var e := WithDefaults(input, id, creator);
      && e.name == input.name && e.position == input.position && e.department == input.department
      && e.phone == input.phone && e.email == input.email && e.subjects == input.subjects.value
  {
    var input := BuildInput(fd, nums);
    assert Normalized(input) by { InputIsNormalized(fd, nums); }
    SettersKeepNormalized(input, id, creator);
  }

  // ---------------------------------------------------------------- edit mode

  /** The edit-mode initialisation from a record as the server sends it:
      numbers through `toString`, the subjects joined with `", "`, a missing
      bio as empty text. */
  function InitFromEmployee(e: Employee, nums: Numbers): (fd: FormData)
    ensures fd.subjects == JoinSubjects(e.subjects)
    ensures fd.bio == e.bio.GetOr([])
  {
    FormData(
      e.name,
      nums.showInt(e.age),
      e.position,
      e.department,
      e.email,
      e.phone,
      nums.showReal(e.salary),
      Resolvers.JoinDateOnWire(e),
      JoinSubjects(e.subjects),
      nums.showReal(e.attendance),
      e.bio.GetOr([]))
  }

  /** Number conversions that give back what they printed. */
  predicate PrintsFaithfully(nums: Numbers, e: Employee) {
    && nums.parseInt(nums.showInt(e.age)) == e.age
    && nums.parseFloat(nums.showReal(e.salary)) == e.salary
    && nums.showReal(e.attendance) != []
    && nums.parseFloat(nums.showReal(e.attendance)) == e.attendance
  }

  /** The edit form gives back a record's subjects when they are well formed. */
  lemma EditFormEchoesSubjects(e: Employee, nums: Numbers)
    requires WellFormedSubjects(e.subjects)
    ensures BuildInput(InitFromEmployee(e, nums), nums).subjects == Some(e.subjects)
  {
    SubjectsRoundTrip(e.subjects);
  }

  /** The edit form gives back a record's texts when they are already what
      the setters would make them. */
  lemma EditFormEchoesTexts(e: Employee, nums: Numbers)
    requires SettersFixed(e) && e.bio.Some?
    ensures var input := BuildInput(InitFromEmployee(e, nums), nums);
      && input.name == e.name && input.position == e.position && input.department == e.department
      && input.email == e.email && input.phone == e.phone && input.bio == e.bio
  {
    TrimOfTrimmed(e.name);
    TrimOfTrimmed(e.position);
    TrimOfTrimmed(e.department);
    TrimOfTrimmed(e.phone);
    TrimOfTrimmed(e.bio.value);
    TrimOfTrimmed(e.email);
    LowerOfLowerCase(e.email);
  }

  /** The edit form gives back a record's numbers and join date when the
      number conversions print faithfully and the date is a calendar date. */
  lemma EditFormEchoesScalars(e: Employee, nums: Numbers)
    requires Resolvers.IsCalendarDate(e.joinDate) && PrintsFaithfully(nums, e)
    ensures var input := BuildInput(InitFromEmployee(e, nums), nums);
      && input.age == e.age && input.salary == e.salary && input.joinDate == e.joinDate
      && input.attendance == Some(e.attendance)
  {
    Resolvers.JoinDateRoundTrip(e);
  }

  /** Opening a stored record in the edit form and submitting it unchanged
      writes back the same record, provided its subjects are well formed,
      its bio is set, and its join date is a calendar date. */
  lemma UnchangedEditIsNoOp(e: Employee, nums: Numbers)
    requires SettersFixed(e) && WellFormedSubjects(e.subjects) && e.bio.Some?
    requires Resolvers.IsCalendarDate(e.joinDate) && PrintsFaithfully(nums, e)
    ensures ApplyUpdate(e, AsUpdate(BuildInput(InitFromEmployee(e, nums), nums))) == e
  {
    EditFormEchoesSubjects(e, nums);
    EditFormEchoesTexts(e, nums);
    EditFormEchoesScalars(e, nums);
    EchoUpdateIsNoOp(e, AsUpdate(BuildInput(InitFromEmployee(e, nums), nums)));
  }

  /** A record without a bio comes back from an unchanged edit with an empty
      bio set. */
  lemma UnchangedEditSetsEmptyBio(e: Employee, nums: Numbers)
    requires e.bio.None?
    ensures ApplyUpdate(e, AsUpdate(BuildInput(InitFromEmployee(e, nums), nums))).bio == Some([])
  {
    assert Trim([]) == [];
  }

  /** Whether `validateForm` records an error on field `f`. */
  predicate Fails(f: Field, fd: FormData, coerce: string -> Option<real>) {
    match f
    case Name => AllSpace(fd.name)
    case Age => !AgeAccepted(fd.age, coerce)
    case Position => AllSpace(fd.position)
    case Department => AllSpace(fd.department)
    case Email => !HasEmailShape(fd.email)
    case Phone => AllSpace(fd.phone)
    case Salary => !SalaryAccepted(fd.salary, coerce)
    case JoinDate => fd.joinDate == []
    case Subjects => false
    case Attendance => false
    case Bio => false
  }

  /** The fields `validateForm` checks, in its order. */
  const CheckOrder: seq<Field> := [Name, Age, Position, Department, Email, Phone, Salary, JoinDate]

  /** The errors `validateForm` has recorded once the fields in `done` are
      checked in turn: each failing one is given its message. */
  function ErrorsAfter(fd: FormData, coerce: string -> Option<real>, done: seq<Field>): map<Field, string>
    decreases |done|
  {
    if done == [] then map[]
    else
      var m := ErrorsAfter(fd, coerce, done[..|done| - 1]);
      var f := done[|done| - 1];
      if Fails(f, fd, coerce) then m[f := Message(f, fd)] else m
  }

  /** The recorded errors name exactly the failing fields checked so far,
      each with its message. */
  lemma {:induction false} ErrorsAfterExplained(fd: FormData, coerce: string -> Option<real>, done: seq<Field>)
    ensures forall f :: f in ErrorsAfter(fd, coerce, done) <==> f in done && Fails(f, fd, coerce)
    ensures forall f :: f in ErrorsAfter(fd, coerce, done) ==> ErrorsAfter(fd, coerce, done)[f] == Message(f, fd)
    decreases |done|
  {
    if done != [] {
      ErrorsAfterExplained(fd, coerce, done[..|done| - 1]);
      assert done == done[..|done| - 1] + [done[|done| - 1]];
    }
  }

  /** The errors of a full validation name exactly the failing fields among
      the checked ones, each with its message. */
  lemma ValidationErrors(fd: FormData, coerce: string -> Option<real>)
    ensures var m := ErrorsAfter(fd, coerce, CheckOrder);
      && (forall f :: f in m <==> f in CheckedFields && Fails(f, fd, coerce))
      && (forall f :: f in m ==> m[f] == Message(f, fd))
  {
    ErrorsAfterExplained(fd, coerce, CheckOrder);
    assert forall f :: f in CheckOrder <==> f in CheckedFields;
  }

  /** A form passes exactly when none of the checked fields fails. */
  lemma PassesIffNoCheckFails(fd: FormData, coerce: string -> Option<real>)
    ensures FormPasses(fd, coerce) <==> forall f :: f in CheckedFields ==> !Fails(f, fd, coerce)
  {
    if forall f :: f in CheckedFields ==> !Fails(f, fd, coerce) {
      assert !Fails(Name, fd, coerce) && !Fails(Age, fd, coerce) && !Fails(Position, fd, coerce);
      assert !Fails(Department, fd, coerce) && !Fails(Email, fd, coerce) && !Fails(Phone, fd, coerce);
      assert !Fails(Salary, fd, coerce) && !Fails(JoinDate, fd, coerce);
    }
  }

  /** Validation records no error exactly when the form passes. */
  lemma NoErrorsIffPasses(fd: FormData, coerce: string -> Option<real>)
    ensures ErrorsAfter(fd, coerce, CheckOrder) == map[] <==> FormPasses(fd, coerce)
  {
    ValidationErrors(fd, coerce);
    PassesIffNoCheckFails(fd, coerce);
    var m := ErrorsAfter(fd, coerce, CheckOrder);
    if m != map[] {
      var f :| f in m;
    }
  }

  // ---------------------------------------------------------------- the component

  /** The required-field test `!value.trim()`: the trimmed text is empty
      exactly when the text is all white space. */
  method IsBlank(s: string) returns (b: bool)
    ensures b <==> AllSpace(s)
  {
    TrimBlank(s);
    b := Trim(s) == [];
  }

  /** The test `validateForm` makes on field `f`: the trimmed text empty,
      the number missing or out of range, the email blank or not matching,
      the join date empty. */
  method Verdict(f: Field, fd: FormData, coerce: string -> Option<real>) returns (failing: bool)
    ensures failing == Fails(f, fd, coerce)
  {
    match f
    case Name => failing := IsBlank(fd.name);
    case Age =>
      failing := fd.age == [] || coerce(fd.age).None? || coerce(fd.age).value < MinAge as real
                 || coerce(fd.age).value > MaxAge as real;
    case Position => failing := IsBlank(fd.position);
    case Department => failing := IsBlank(fd.department);
    case Email =>
      var blank := IsBlank(fd.email);
      EmailShapeNotBlank(fd.email);
      failing := blank || !HasEmailShape(fd.email);
    case Phone => failing := IsBlank(fd.phone);
    case Salary => failing := fd.salary == [] || coerce(fd.salary).None? || coerce(fd.salary).value < MinSalary;
    case JoinDate => failing := fd.joinDate == [];
    case Subjects => failing := false;
    case Attendance => failing := false;
    case Bio => failing := false;
  }

  /** The `k`-th check of `validateForm`: a failing field gets its message,
      on top of what the earlier checks recorded. */
  method Check(m: map<Field, string>, f: Field, ghost k: nat, fd: FormData, coerce: string -> Option<real>)
    returns (m': map<Field, string>)
    requires k < |CheckOrder| && f == CheckOrder[k]
    requires m == ErrorsAfter(fd, coerce, CheckOrder[..k])
    ensures m' == ErrorsAfter(fd, coerce, CheckOrder[..k + 1])
  {
    var failing := Verdict(f, fd, coerce);
    assert CheckOrder[..k + 1][..k] == CheckOrder[..k];
    if failing {
      m' := m[f := Message(f, fd)];
    } else {
      m' := m;
    }
  }

  /** The checks of `validateForm`, in its order. */
  method CheckFields(fd: FormData, coerce: string -> Option<real>) returns (newErrors: map<Field, string>)
    ensures newErrors == ErrorsAfter(fd, coerce, CheckOrder)
  {
    newErrors := map[];
    assert CheckOrder[..0] == [];
    newErrors := Check(newErrors, Name, 0, fd, coerce);
    newErrors := Check(newErrors, Age, 1, fd, coerce);
    newErrors := Check(newErrors, Position, 2, fd, coerce);
    newErrors := Check(newErrors, Department, 3, fd, coerce);
    newErrors := Check(newErrors, Email, 4, fd, coerce);
    newErrors := Check(newErrors, Phone, 5, fd, coerce);
    newErrors := Check(newErrors, Salary, 6, fd, coerce);
    newErrors := Check(newErrors, JoinDate, 7, fd, coerce);
    assert CheckOrder[..8] == CheckOrder;
  }

  datatype Submission = CreateRequest(input: EmployeeInput) | UpdateRequest(id: EmployeeId, update: EmployeeUpdate)

  class EmployeeForm {
    var formData: FormData
    /** The recorded error messages, by field. */
    var errors: map<Field, string>
    var loading: bool
    /** The record being edited, if any. */
    const editing: Option<EmployeeId>

    /** The form after mounting: empty for a new record, filled from the
        record in edit mode. */
    constructor (employee: Option<Employee>, nums: Numbers)
      ensures employee.None? ==> formData == EmptyForm && editing == None
      ensures employee.Some? ==> formData == InitFromEmployee(employee.value, nums) && editing == Some(employee.value.id)
      ensures errors == map[] && !loading
    {
      formData := if employee.Some? then InitFromEmployee(employee.value, nums) else EmptyForm;
      editing := if employee.Some? then Some(employee.value.id) else None;
      errors := map[];
      loading := false;
    }

    /** `handleChange`: stores the new text, and blanks that field's error if
        one is showing; every other error stays. */
    method HandleChange(field: Field, value: string)
      modifies this
      ensures formData == SetField(old(formData), field, value)
      ensures errors.Keys == old(errors).Keys
      ensures field in errors ==> errors[field] == ""
      ensures forall g :: g in errors && g != field ==> errors[g] == old(errors)[g]
      ensures loading == old(loading)
    {
      formData := SetField(formData, field, value);
      if field in errors && errors[field] != "" {
        errors := errors[field := ""];
      }
    }

    /** `validateForm`: records one message per failing field, replacing the
        previous errors, and reports whether none was recorded. */
    method ValidateForm(coerce: string -> Option<real>) returns (ok: bool)
      modifies this
      ensures unchanged(this`formData, this`loading)
      ensures errors == ErrorsAfter(formData, coerce, CheckOrder)
      ensures ok <==> errors == map[]
      ensures ok <==> FormPasses(formData, coerce)
    {
      var newErrors := CheckFields(formData, coerce);
      NoErrorsIffPasses(formData, coerce);
      errors := newErrors;
      ok := |newErrors| == 0;
    }

    /** `handleSubmit`: nothing is sent when validation fails; otherwise the
        form is marked loading, the errors are cleared, and the built input
        goes to `createEmployee`, or to `updateEmployee` in edit mode. */
    method HandleSubmit(nums: Numbers) returns (sent: Option<Submission>)
      modifies this
      ensures unchanged(this`formData)
      ensures sent.Some? <==> FormPasses(formData, nums.coerce)
      ensures sent.None? ==> loading == old(loading) && errors != map[]
      ensures sent.None? ==> errors == ErrorsAfter(formData, nums.coerce, CheckOrder)
      ensures sent.Some? ==> errors == map[] && loading
      ensures sent.Some? && editing.None? ==> sent.value == CreateRequest(BuildInput(formData, nums))
      ensures sent.Some? && editing.Some? ==> sent.value == UpdateRequest(editing.value, AsUpdate(BuildInput(formData, nums)))
    {
      var ok := ValidateForm(nums.coerce);
      if !ok {
        return None;
      }
      loading := true;
      errors := map[];
      var input := BuildInput(formData, nums);
      if editing.Some? {
        sent := Some(UpdateRequest(editing.value, AsUpdate(input)));
      } else {
        sent := Some(CreateRequest(input));
      }
    }
  }
}
