/** The employee record as the document schema declares it: the stored
    fields, the setters (`trim`, `lowercase`) and defaults applied when a
    record is built or updated, and the validators the record must pass. */
module EmployeeSchema {
  import opened Base
  import opened Text

  type EmployeeId = nat
  type UserId = nat

  const MinAge: int := 18
  const MaxAge: int := 100
  const MinSalary: real := 0.0
  const MinAttendance: real := 0.0
  const MaxAttendance: real := 100.0
  const DefaultAttendance: real := 0.0

  /** A stored employee. `joinDate` holds the calendar date the record was
      created with; `createdBy` is the owning user. */
  datatype Employee = Employee(
    id: EmployeeId,
    name: string,
    age: int,
    position: string,
    department: string,
    email: string,
    phone: string,
    salary: real,
    joinDate: string,
    subjects: seq<string>,
    attendance: real,
    bio: Option<string>,
    isActive: bool,
    createdBy: UserId)

  /** What a client supplies to create an employee; `None` is a field left out. */
  datatype EmployeeInput = EmployeeInput(
    name: string,
    age: int,
    position: string,
    department: string,
    email: string,
    phone: string,
    salary: real,
    joinDate: string,
    subjects: Option<seq<string>>,
    attendance: Option<real>,
    bio: Option<string>)

  /** What a client supplies to update an employee: every field optional. */
  datatype EmployeeUpdate = EmployeeUpdate(
    name: Option<string>,
    age: Option<int>,
    position: Option<string>,
    department: Option<string>,
    email: Option<string>,
    phone: Option<string>,
    salary: Option<real>,
    joinDate: Option<string>,
    subjects: Option<seq<string>>,
    attendance: Option<real>,
    bio: Option<string>,
    isActive: Option<bool>)

  /** A required string field after its `trim` setter: non-empty and trimmed. */
  predicate Present(s: string) {
    s != [] && IsTrimmed(s)
  }

  /** The schema's validators, over a record whose setters have run. */
  predicate Valid(e: Employee) {
    && Present(e.name)
    && MinAge <= e.age <= MaxAge
    && Present(e.position)
    && Present(e.department)
    && Present(e.email) && IsLowerCase(e.email)
    && Present(e.phone)
    && e.salary >= MinSalary
    && e.joinDate != []
    && (forall i :: 0 <= i < |e.subjects| ==> IsTrimmed(e.subjects[i]))
    && MinAttendance <= e.attendance <= MaxAttendance
    && (e.bio.Some? ==> IsTrimmed(e.bio.value))
  }

  /** The `lowercase` then `trim` setters of the email field. */
  function NormalizeEmail(s: string): (r: string)
    ensures IsLowerCase(r) && IsTrimmed(r)
  {
    LowerTrimCommute(s);
    Trim(Lower(s))
  }

  /** The `trim` setter of each `subjects` entry. */
  function TrimEach(xs: seq<string>): (r: seq<string>)
    ensures |r| == |xs|
    ensures forall i :: 0 <= i < |r| ==> IsTrimmed(r[i])
  {
    seq(|xs|, i requires 0 <= i < |xs| => Trim(xs[i]))
  }

  function TrimOption(o: Option<string>): (r: Option<string>)
    ensures r.Some? <==> o.Some?
    ensures r.Some? ==> IsTrimmed(r.value)
  {
    match o
    case None => None
    case Some(s) => Some(Trim(s))
  }

  /** A new document built from the input: setters applied, `subjects`
      defaulting to the empty list, `attendance` to 0, `isActive` to true. */
  function WithDefaults(input: EmployeeInput, id: EmployeeId, creator: UserId): (e: Employee)
    ensures e.id == id && e.createdBy == creator && e.isActive
    ensures IsTrimmed(e.name) && IsTrimmed(e.position) && IsTrimmed(e.department) && IsTrimmed(e.phone)
    ensures IsTrimmed(e.email) && IsLowerCase(e.email)
    ensures forall i :: 0 <= i < |e.subjects| ==> IsTrimmed(e.subjects[i])
    ensures input.subjects.None? ==> e.subjects == []
    ensures input.attendance.None? ==> e.attendance == DefaultAttendance
    ensures e.bio.Some? <==> input.bio.Some?
    ensures e.name == Trim(input.name) && e.position == Trim(input.position)
    ensures e.department == Trim(input.department) && e.phone == Trim(input.phone)
    ensures e.email == NormalizeEmail(input.email)
    ensures input.subjects.Some? ==> e.subjects == TrimEach(input.subjects.value)
    ensures input.attendance.Some? ==> e.attendance == input.attendance.value
    ensures input.bio.Some? ==> e.bio == Some(Trim(input.bio.value))
  {
    Employee(
      id,
      Trim(input.name),
      input.age,
      Trim(input.position),
      Trim(input.department),
      NormalizeEmail(input.email),
      Trim(input.phone),
      input.salary,
      input.joinDate,
      TrimEach(input.subjects.GetOr([])),
      input.attendance.GetOr(DefaultAttendance),
      TrimOption(input.bio),
      true,
      creator)
  }

  /** The constraints on the raw input under which the built document passes
      validation: a required text is not blank, and the numbers are in range. */
  predicate Acceptable(input: EmployeeInput) {
    && !AllSpace(input.name)
    && MinAge <= input.age <= MaxAge
    && !AllSpace(input.position)
    && !AllSpace(input.department)
    && !AllSpace(input.email)
    && !AllSpace(input.phone)
    && input.salary >= MinSalary
    && input.joinDate != []
    && (input.attendance.Some? ==> MinAttendance <= input.attendance.value <= MaxAttendance)
  }

  /** A required text survives its `trim` setter exactly when it is not blank. */
  lemma PresentAfterTrim(s: string)
    ensures Present(Trim(s)) <==> !AllSpace(s)
  {
    TrimBlank(s);
  }

  lemma NormalizeEmailBlank(s: string)
    ensures NormalizeEmail(s) == [] <==> AllSpace(s)
  {
    LowerTrimCommute(s);
    TrimBlank(s);
  }

  /** Each required text of the built document is present exactly when the
      input's text is not blank. */
  lemma BuiltTextsPresent(input: EmployeeInput, id: EmployeeId, creator: UserId)
    ensures var e := WithDefaults(input, id, creator);
      && (Present(e.name) <==> !AllSpace(input.name))
      && (Present(e.position) <==> !AllSpace(input.position))
      && (Present(e.department) <==> !AllSpace(input.department))
      && (Present(e.email) <==> !AllSpace(input.email))
      && (Present(e.phone) <==> !AllSpace(input.phone))
  {
    PresentAfterTrim(input.name);
    PresentAfterTrim(input.position);
    PresentAfterTrim(input.department);
    PresentAfterTrim(input.phone);
    NormalizeEmailBlank(input.email);
  }

  /** The built document keeps the input's numbers and date as they were. */
  lemma BuiltScalars(input: EmployeeInput, id: EmployeeId, creator: UserId)
    ensures var e := WithDefaults(input, id, creator);
      && e.age == input.age && e.salary == input.salary && e.joinDate == input.joinDate
      && e.attendance == input.attendance.GetOr(DefaultAttendance)
  {
  }

  /** The schema accepts a new document exactly when its input is acceptable. */
  lemma SchemaAcceptsExactly(input: EmployeeInput, id: EmployeeId, creator: UserId)
    ensures Valid(WithDefaults(input, id, creator)) <==> Acceptable(input)
  {
    var e := WithDefaults(input, id, creator);
    BuiltTextsPresent(input, id, creator);
    BuiltScalars(input, id, creator);
    if Acceptable(input) {
      assert Valid(e);
    } else {
      assert !Valid(e);
    }
  }

  /** The email setters leave an already trimmed, lower-case address alone. */
  lemma NormalizeEmailFixes(s: string)
    requires IsTrimmed(s) && IsLowerCase(s)
    ensures NormalizeEmail(s) == s
  {
    LowerOfLowerCase(s);
    TrimOfTrimmed(s);
  }

  lemma TrimEachFixes(xs: seq<string>)
    requires forall i :: 0 <= i < |xs| ==> IsTrimmed(xs[i])
    ensures TrimEach(xs) == xs
  {
    forall i | 0 <= i < |xs| ensures TrimEach(xs)[i] == xs[i] {
      TrimOfTrimmed(xs[i]);
    }
  }

  /** An input whose texts are already what their setters would make them. */
  predicate Normalized(input: EmployeeInput) {
    && IsTrimmed(input.name) && IsTrimmed(input.position) && IsTrimmed(input.department)
    && IsTrimmed(input.phone) && IsTrimmed(input.email) && IsLowerCase(input.email)
    && (input.subjects.Some? ==> forall i :: 0 <= i < |input.subjects.value| ==> IsTrimmed(input.subjects.value[i]))
    && (input.bio.Some? ==> IsTrimmed(input.bio.value))
  }

  /** On a normalized input the setters change nothing: the new document
      holds the texts, the subjects and the bio exactly as supplied. */
  lemma SettersKeepNormalized(input: EmployeeInput, id: EmployeeId, creator: UserId)
    requires Normalized(input)
    ensures var e := WithDefaults(input, id, creator);
      && e.name == input.name && e.position == input.position && e.department == input.department
      && e.phone == input.phone && e.email == input.email
      && e.subjects == input.subjects.GetOr([]) && e.bio == input.bio
  {
    TrimOfTrimmed(input.name);
    TrimOfTrimmed(input.position);
    TrimOfTrimmed(input.department);
    TrimOfTrimmed(input.phone);
    NormalizeEmailFixes(input.email);
    if input.subjects.Some? { TrimEachFixes(input.subjects.value); }
    if input.bio.Some? { TrimOfTrimmed(input.bio.value); }
  }

  /** A text field after an update: the new value through its `trim` setter
      when the update carries one, the current value otherwise. */
  function UpdatedText(o: Option<string>, current: string): string {
    match o
    case None => current
    case Some(s) => Trim(s)
  }

  function UpdatedEmail(o: Option<string>, current: string): string {
    match o
    case None => current
    case Some(s) => NormalizeEmail(s)
  }

  function UpdatedSubjects(o: Option<seq<string>>, current: seq<string>): seq<string> {
    match o
    case None => current
    case Some(xs) => TrimEach(xs)
  }

  function UpdatedBio(o: Option<string>, current: Option<string>): Option<string> {
    match o
    case None => current
    case Some(_) => TrimOption(o)
  }

  /** The document an update leaves: the fields the update carries, through
      their setters; every other field as it was. */
  function ApplyUpdate(e: Employee, u: EmployeeUpdate): (r: Employee)
    ensures r.id == e.id && r.createdBy == e.createdBy
    ensures u.name.None? ==> r.name == e.name
    ensures u.age.None? ==> r.age == e.age
    ensures u.position.None? ==> r.position == e.position
    ensures u.department.None? ==> r.department == e.department
    ensures u.email.None? ==> r.email == e.email
    ensures u.phone.None? ==> r.phone == e.phone
    ensures u.salary.None? ==> r.salary == e.salary
    ensures u.joinDate.None? ==> r.joinDate == e.joinDate
    ensures u.subjects.None? ==> r.subjects == e.subjects
    ensures u.attendance.None? ==> r.attendance == e.attendance
    ensures u.bio.None? ==> r.bio == e.bio
    ensures u.isActive.None? ==> r.isActive == e.isActive
    ensures u.email.Some? ==> IsLowerCase(r.email) && IsTrimmed(r.email)
    ensures u.name.Some? ==> r.name == Trim(u.name.value)
    ensures u.age.Some? ==> r.age == u.age.value
    ensures u.position.Some? ==> r.position == Trim(u.position.value)
    ensures u.department.Some? ==> r.department == Trim(u.department.value)
    ensures u.email.Some? ==> r.email == NormalizeEmail(u.email.value)
    ensures u.phone.Some? ==> r.phone == Trim(u.phone.value)
    ensures u.salary.Some? ==> r.salary == u.salary.value
    ensures u.joinDate.Some? ==> r.joinDate == u.joinDate.value
    ensures u.subjects.Some? ==> r.subjects == TrimEach(u.subjects.value)
    ensures u.attendance.Some? ==> r.attendance == u.attendance.value
    ensures u.bio.Some? ==> r.bio == Some(Trim(u.bio.value))
    ensures u.isActive.Some? ==> r.isActive == u.isActive.value
  {
    e.(
      name := UpdatedText(u.name, e.name),
      age := u.age.GetOr(e.age),
      position := UpdatedText(u.position, e.position),
      department := UpdatedText(u.department, e.department),
      email := UpdatedEmail(u.email, e.email),
      phone := UpdatedText(u.phone, e.phone),
      salary := u.salary.GetOr(e.salary),
      joinDate := u.joinDate.GetOr(e.joinDate),
      subjects := UpdatedSubjects(u.subjects, e.subjects),
      attendance := u.attendance.GetOr(e.attendance),
      bio := UpdatedBio(u.bio, e.bio),
      isActive := u.isActive.GetOr(e.isActive))
  }

  /** The constraints an update's own fields must meet. */
  predicate PatchAcceptable(u: EmployeeUpdate) {
    && (u.name.Some? ==> !AllSpace(u.name.value))
    && (u.age.Some? ==> MinAge <= u.age.value <= MaxAge)
    && (u.position.Some? ==> !AllSpace(u.position.value))
    && (u.department.Some? ==> !AllSpace(u.department.value))
    && (u.email.Some? ==> !AllSpace(u.email.value))
    && (u.phone.Some? ==> !AllSpace(u.phone.value))
    && (u.salary.Some? ==> u.salary.value >= MinSalary)
    && (u.joinDate.Some? ==> u.joinDate.value != [])
    && (u.attendance.Some? ==> MinAttendance <= u.attendance.value <= MaxAttendance)
  }

  lemma UpdatedTextPresent(o: Option<string>, current: string)
    requires Present(current)
    ensures Present(UpdatedText(o, current)) <==> (o.Some? ==> !AllSpace(o.value))
  {
    if o.Some? { PresentAfterTrim(o.value); }
  }

  lemma UpdatedEmailPresent(o: Option<string>, current: string)
    requires Present(current) && IsLowerCase(current)
    ensures IsLowerCase(UpdatedEmail(o, current))
    ensures Present(UpdatedEmail(o, current)) <==> (o.Some? ==> !AllSpace(o.value))
  {
    if o.Some? { NormalizeEmailBlank(o.value); }
  }

  lemma UpdatedTextsPresent(e: Employee, u: EmployeeUpdate)
    requires Valid(e)
    ensures var r := ApplyUpdate(e, u);
      && (Present(r.name) <==> (u.name.Some? ==> !AllSpace(u.name.value)))
      && (Present(r.position) <==> (u.position.Some? ==> !AllSpace(u.position.value)))
      && (Present(r.department) <==> (u.department.Some? ==> !AllSpace(u.department.value)))
      && (Present(r.phone) <==> (u.phone.Some? ==> !AllSpace(u.phone.value)))
      && (Present(r.email) <==> (u.email.Some? ==> !AllSpace(u.email.value)))
      && IsLowerCase(r.email)
  {
    UpdatedTextPresent(u.name, e.name);
    UpdatedTextPresent(u.position, e.position);
    UpdatedTextPresent(u.department, e.department);
    UpdatedTextPresent(u.phone, e.phone);
    UpdatedEmailPresent(u.email, e.email);
  }

  lemma UpdatedListsTrimmed(e: Employee, u: EmployeeUpdate)
    requires Valid(e)
    ensures var r := ApplyUpdate(e, u);
      && (forall i :: 0 <= i < |r.subjects| ==> IsTrimmed(r.subjects[i]))
      && (r.bio.Some? ==> IsTrimmed(r.bio.value))
  {
  }

  lemma UpdateKeepsValid(e: Employee, u: EmployeeUpdate)
    requires Valid(e) && PatchAcceptable(u)
    ensures Valid(ApplyUpdate(e, u))
  {
    UpdatedTextsPresent(e, u);
    UpdatedListsTrimmed(e, u);
  }

  lemma UpdateRejects(e: Employee, u: EmployeeUpdate)
    requires Valid(e) && !PatchAcceptable(u)
    ensures !Valid(ApplyUpdate(e, u))
  {
    UpdatedTextsPresent(e, u);
  }

  /** On a valid document, re-running the validators after an update only
      judges the fields the update carries. */
  lemma UpdateValidity(e: Employee, u: EmployeeUpdate)
    requires Valid(e)
    ensures Valid(ApplyUpdate(e, u)) <==> PatchAcceptable(u)
  {
    if PatchAcceptable(u) {
      UpdateKeepsValid(e, u);
    } else {
      UpdateRejects(e, u);
    }
  }

  lemma NormalizeEmailIdempotent(s: string)
    ensures NormalizeEmail(NormalizeEmail(s)) == NormalizeEmail(s)
  {
    var t := NormalizeEmail(s);
    LowerOfLowerCase(t);
    TrimOfTrimmed(t);
  }

  lemma TrimEachIdempotent(xs: seq<string>)
    ensures TrimEach(TrimEach(xs)) == TrimEach(xs)
  {
    forall i | 0 <= i < |xs| ensures TrimEach(TrimEach(xs))[i] == TrimEach(xs)[i] {
      TrimIdempotent(xs[i]);
    }
  }

  /** Applying the same update twice leaves the same document as once. */
  lemma ApplyUpdateIdempotent(e: Employee, u: EmployeeUpdate)
    ensures ApplyUpdate(ApplyUpdate(e, u), u) == ApplyUpdate(e, u)
  {
  }

  /** A document every setter would leave as it is; every valid document is one. */
  predicate SettersFixed(e: Employee) {
    && IsTrimmed(e.name) && IsTrimmed(e.position) && IsTrimmed(e.department) && IsTrimmed(e.phone)
    && IsTrimmed(e.email) && IsLowerCase(e.email)
    && (forall i :: 0 <= i < |e.subjects| ==> IsTrimmed(e.subjects[i]))
    && (e.bio.Some? ==> IsTrimmed(e.bio.value))
  }

  /** An update that carries a valid document's own values, and leaves the
      active flag alone, changes nothing. */
  lemma EchoUpdateIsNoOp(e: Employee, u: EmployeeUpdate)
    requires SettersFixed(e)
    requires u.name == Some(e.name) && u.age == Some(e.age) && u.position == Some(e.position)
    requires u.department == Some(e.department) && u.email == Some(e.email) && u.phone == Some(e.phone)
    requires u.salary == Some(e.salary) && u.joinDate == Some(e.joinDate)
    requires u.subjects == Some(e.subjects) && u.attendance == Some(e.attendance)
    requires u.bio == e.bio && u.isActive.None?
    ensures ApplyUpdate(e, u) == e
  {
    TrimOfTrimmed(e.name);
    TrimOfTrimmed(e.position);
    TrimOfTrimmed(e.department);
    TrimOfTrimmed(e.phone);
    NormalizeEmailFixes(e.email);
    TrimEachFixes(e.subjects);
    if e.bio.Some? { TrimOfTrimmed(e.bio.value); }
  }
}
