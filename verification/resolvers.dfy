/** The GraphQL resolvers over the employee store: the paginated listing, the
    single-record lookup, create / update / soft delete / bulk soft delete,
    login, and the field resolvers that shape records for the wire. */
module Resolvers {
  import opened Base
  import opened Text
  import opened EmployeeSchema
  import opened Auth
  import opened QueryBuilder

  /** The `employees` result: one page of records and the pagination envelope. */
  datatype Connection = Connection(employees: seq<Employee>, pageInfo: PageInfo)

  /** What `login` returns. */
  datatype AuthPayload = AuthPayload(token: string, user: User)

  /** The owner-or-admin rule of update and delete. */
  predicate MayModify(u: User, e: Employee) {
    u.role == AdminRole || e.createdBy == u.id
  }

  /** Whoever passes `requireAdmin` may modify every record; anyone else
      exactly the records they created. */
  lemma ModifyRights(u: User, e: Employee)
    ensures RequireAdmin(Some(u)).Success? ==> MayModify(u, e)
    ensures RequireAdmin(Some(u)).Failure? ==> (MayModify(u, e) <==> e.createdBy == u.id)
  {
  }

  predicate EmailInUse(records: map<EmployeeId, Employee>, email: string) {
    exists id :: id in records && records[id].email == email
  }

  predicate EmailHeldByAnother(records: map<EmployeeId, Employee>, id: EmployeeId, email: string) {
    exists other :: other in records && other != id && records[other].email == email
  }

  ghost predicate EmailsUnique(records: map<EmployeeId, Employee>) {
    forall a, b :: a in records && b in records && records[a].email == records[b].email ==> a == b
  }

  /** The ids of the records that are active. */
  function ActiveIds(records: map<EmployeeId, Employee>): (s: set<EmployeeId>)
    ensures forall id :: id in s <==> id in records && records[id].isActive
  {
    set id | id in records && records[id].isActive
  }

  /** The store after `findByIdAndUpdate(id, { isActive: false })`. */
  function SoftDeleted(records: map<EmployeeId, Employee>, id: EmployeeId): (r: map<EmployeeId, Employee>)
    requires id in records
    ensures r.Keys == records.Keys
    ensures !r[id].isActive && r[id] == records[id].(isActive := false)
    ensures forall other :: other in records && other != id ==> r[other] == records[other]
  {
    records[id := records[id].(isActive := false)]
  }

  /** The store after `updateMany({ _id: { $in: ids } }, { isActive: false })`. */
  function Deactivated(records: map<EmployeeId, Employee>, ids: set<EmployeeId>): (r: map<EmployeeId, Employee>)
    ensures r.Keys == records.Keys
  {
    map id | id in records :: if id in ids then records[id].(isActive := false) else records[id]
  }

  /** The listed ids of a bulk request, as a set. */
  function Listed(ids: seq<EmployeeId>): (s: set<EmployeeId>)
    ensures forall id :: id in s <==> id in ids
  {
    set id | id in ids
  }

  /** Every stored record sits under its own id, below `nextId`, passes the
      schema's validators, and no two records share an email (the unique
      index). */
  ghost predicate Stored(records: map<EmployeeId, Employee>, nextId: EmployeeId) {
    && (forall id :: id in records ==> id < nextId && records[id].id == id && EmployeeSchema.Valid(records[id]))
    && EmailsUnique(records)
  }

  class EmployeeService {
    /** The employee collection, by id. Records are never removed. */
    var records: map<EmployeeId, Employee>
    /** The id the next created record receives. */
    var nextId: EmployeeId

    ghost predicate Valid()
      reads this
    {
      Stored(records, nextId)
    }

    constructor ()
      ensures Valid() && records == map[] && nextId == 0
    {
      records := map[];
      nextId := 0;
    }

    /** `Query.employees`. The store's ordering is not modelled: `arrange`
        stands for it and must list each matching record exactly once. */
    method Employees(filter: Filter, sort: Option<Sort>, page: int, limit: int,
                     textMatches: (string, Employee) -> bool,
                     arrange: (SortQuery, set<Employee>) -> seq<Employee>)
      returns (conn: Connection)
      requires Valid()
      requires page >= 1 && limit >= 1
      requires forall sq, s :: Enumerates(arrange(sq, s), s)
      ensures conn.pageInfo == Paginate(|Selected(records, filter, textMatches)|, page, limit)
      ensures conn.pageInfo.totalCount == |Selected(records, filter, textMatches)|
      ensures conn.pageInfo.totalCount == |SelectedIds(records, filter, textMatches)|
      ensures conn.pageInfo.currentPage == page
      ensures conn.pageInfo.hasPreviousPage <==> page > 1
      ensures conn.pageInfo.hasNextPage <==> Skip(page, limit) + limit < conn.pageInfo.totalCount
      ensures conn.employees ==
                Window(arrange(SortQueryFor(sort), Selected(records, filter, textMatches)), Skip(page, limit), limit)
      ensures |conn.employees| <= limit
      ensures forall e :: e in conn.employees ==> e in records.Values && Selects(filter, e, textMatches)
      ensures page > conn.pageInfo.totalPages ==> conn.employees == []
      ensures page <= conn.pageInfo.totalPages ==> |conn.employees| > 0
    {
      var query := BuildQuery(filter);
      var sortQuery := SortQueryFor(sort);
      var skip := Skip(page, limit);
      var matching := set e | e in records.Values && Matches(query, e, textMatches);
      assert matching == Selected(records, filter, textMatches);
      var totalCount := |matching|;
      SelectedCountsDocuments(records, nextId, filter, textMatches);
      var totalPages := TotalPages(totalCount, limit);
      var ordered := arrange(sortQuery, matching);
      EnumerationLength(ordered, matching);
      var employees := Window(ordered, skip, limit);
      conn := Connection(employees, PageInfo(totalCount, page < totalPages, page > 1, page, totalPages));
      HasNextPageIffMoreRemain(totalCount, page, limit);
      if page > totalPages {
        PagePastEndIsEmpty(ordered, page, limit);
      } else {
        PageWithinRangeIsNotEmpty(ordered, page, limit);
      }
      WindowWithin(ordered, skip, limit);
    }

    /** `Query.employee`: the record with that id, active or not. */
    method FindEmployee(id: EmployeeId) returns (r: Result<Employee>)
      ensures id in records ==> r == Success(records[id])
      ensures id !in records ==> r == Failure(NotFound)
    {
      if id !in records {
        return Failure(NotFound);
      }
      r := Success(records[id]);
    }

    /** `Mutation.createEmployee`. */
    method CreateEmployee(user: Option<User>, input: EmployeeInput) returns (r: Result<Employee>)
      requires Valid()
      modifies this
      ensures Valid()
      ensures user.None? ==> r == Failure(AuthenticationRequired)
      ensures user.Some? && EmailInUse(old(records), NormalizeEmail(input.email)) ==> r == Failure(DuplicateEmail)
      ensures user.Some? && !EmailInUse(old(records), NormalizeEmail(input.email)) && !Acceptable(input) ==>
                r == Failure(ValidationFailed)
      ensures r.Failure? ==> records == old(records) && nextId == old(nextId)
      ensures r.Success? <==> user.Some? && !EmailInUse(old(records), NormalizeEmail(input.email)) && Acceptable(input)
      ensures r.Success? ==> r.value == WithDefaults(input, old(nextId), user.value.id)
      ensures r.Success? ==> old(nextId) !in old(records) && records == old(records)[old(nextId) := r.value]
      ensures r.Success? ==> nextId == old(nextId) + 1
    {
      var auth := RequireAuth(user);
      if auth.Failure? {
        return Failure(auth.error);
      }
      if EmailInUse(records, NormalizeEmail(input.email)) {
        return Failure(DuplicateEmail);
      }
      var e := WithDefaults(input, nextId, auth.value.id);
      SchemaAcceptsExactly(input, nextId, auth.value.id);
      if !EmployeeSchema.Valid(e) {
        return Failure(ValidationFailed);
      }
      Save(e);
      r := Success(e);
    }

    /** `save()` of a new document: stored under the next id, which then advances. */
    method Save(e: Employee)
      requires Valid() && e.id == nextId && EmployeeSchema.Valid(e) && !EmailInUse(records, e.email)
      modifies this
      ensures Valid()
      ensures old(nextId) !in old(records) && records == old(records)[old(nextId) := e]
      ensures nextId == old(nextId) + 1
    {
      InsertKeepsStored(records, nextId, e);
      records := records[nextId := e];
      nextId := nextId + 1;
    }

    /** Writing an updated document back under its id. */
    method Replace(id: EmployeeId, e: Employee)
      requires Valid() && id in records && e.id == id && EmployeeSchema.Valid(e)
      requires !EmailHeldByAnother(records, id, e.email)
      modifies this
      ensures Valid() && nextId == old(nextId)
      ensures records == old(records)[id := e]
    {
      ReplaceKeepsStored(records, nextId, id, e);
      records := records[id := e];
    }

    /** `Mutation.updateEmployee`. */
    method UpdateEmployee(user: Option<User>, id: EmployeeId, patch: EmployeeUpdate) returns (r: Result<Employee>)
      requires Valid()
      modifies this
      ensures Valid() && nextId == old(nextId)
      ensures user.None? ==> r == Failure(AuthenticationRequired)
      ensures user.Some? && id !in old(records) ==> r == Failure(NotFound)
      ensures user.Some? && id in old(records) && !MayModify(user.value, old(records)[id]) ==>
                r == Failure(Unauthorized)
      ensures (user.Some? && id in old(records) && MayModify(user.value, old(records)[id]) &&
               !PatchAcceptable(patch)) ==> r == Failure(ValidationFailed)
      ensures (user.Some? && id in old(records) && MayModify(user.value, old(records)[id]) &&
               PatchAcceptable(patch) &&
               EmailHeldByAnother(old(records), id, ApplyUpdate(old(records)[id], patch).email)) ==>
                r == Failure(DuplicateEmail)
      ensures (user.Some? && id in old(records) && MayModify(user.value, old(records)[id]) &&
               PatchAcceptable(patch) &&
               !EmailHeldByAnother(old(records), id, ApplyUpdate(old(records)[id], patch).email)) ==>
                r.Success?
      ensures r.Failure? ==> records == old(records)
      ensures r.Success? ==> user.Some? && id in old(records) && MayModify(user.value, old(records)[id])
      ensures r.Success? ==> r.value == ApplyUpdate(old(records)[id], patch) && records == old(records)[id := r.value]
    {
      var auth := RequireAuth(user);
      if auth.Failure? {
        return Failure(auth.error);
      }
      if id !in records {
        return Failure(NotFound);
      }
      var current := records[id];
      if !MayModify(auth.value, current) {
        return Failure(Unauthorized);
      }
      var updated := ApplyUpdate(current, patch);
      UpdateValidity(current, patch);
      if !EmployeeSchema.Valid(updated) {
        return Failure(ValidationFailed);
      }
      if EmailHeldByAnother(records, id, updated.email) {
        return Failure(DuplicateEmail);
      }
      Replace(id, updated);
      r := Success(updated);
    }

    /** `Mutation.deleteEmployee`: a soft delete. */
    method DeleteEmployee(user: Option<User>, id: EmployeeId) returns (r: Result<bool>)
      requires Valid()
      modifies this
      ensures Valid() && nextId == old(nextId)
      ensures user.None? ==> r == Failure(AuthenticationRequired)
      ensures user.Some? && id !in old(records) ==> r == Failure(NotFound)
      ensures user.Some? && id in old(records) && !MayModify(user.value, old(records)[id]) ==>
                r == Failure(Unauthorized)
      ensures r.Failure? ==> records == old(records)
      ensures r.Success? <==> user.Some? && id in old(records) && MayModify(user.value, old(records)[id])
      ensures r.Success? ==> r.value && records == SoftDeleted(old(records), id)
    {
      var auth := RequireAuth(user);
      if auth.Failure? {
        return Failure(auth.error);
      }
      if id !in records {
        return Failure(NotFound);
      }
      if !MayModify(auth.value, records[id]) {
        return Failure(Unauthorized);
      }
      SoftDeleteKeepsStored(records, nextId, id);
      records := SoftDeleted(records, id);
      r := Success(true);
    }

    /** `Mutation.deleteMultipleEmployees`: admin only; returns `modifiedCount`.
        The schema's `timestamps` option adds `updatedAt` to every update, so
        each stored record the ids name is modified, whether it was active or
        not, and the count is the number of listed ids that name a record. */
    method DeleteMultipleEmployees(user: Option<User>, ids: seq<EmployeeId>) returns (r: Result<nat>)
      requires Valid()
      modifies this
      ensures Valid() && nextId == old(nextId)
      ensures user.None? ==> r == Failure(AuthenticationRequired)
      ensures user.Some? && user.value.role != AdminRole ==> r == Failure(AdminRequired)
      ensures r.Failure? ==> records == old(records)
      ensures r.Success? <==> user.Some? && user.value.role == AdminRole
      ensures r.Success? ==> records == Deactivated(old(records), Listed(ids))
      ensures r.Success? ==> r.value == |Listed(ids) * old(records).Keys|
    {
      var auth := RequireAdmin(user);
      if auth.Failure? {
        return Failure(auth.error);
      }
      var modified := Listed(ids) * records.Keys;
      DeactivateKeepsStored(records, nextId, Listed(ids));
      records := Deactivated(records, Listed(ids));
      r := Success(|modified|);
    }
  }

  /** The ids of the stored documents the filter selects. */
  function SelectedIds(records: map<EmployeeId, Employee>, f: Filter,
                       textMatches: (string, Employee) -> bool): (s: set<EmployeeId>)
    ensures forall id :: id in s <==> id in records && Selects(f, records[id], textMatches)
  {
    set id | id in records && Selects(f, records[id], textMatches)
  }

  /** In a well-formed store each record carries its own id, so the selected
      records are as many as the selected documents: `countDocuments` counts
      each of them once. */
  lemma SelectedCountsDocuments(records: map<EmployeeId, Employee>, nextId: EmployeeId, f: Filter,
                                textMatches: (string, Employee) -> bool)
    requires Stored(records, nextId)
    ensures |Selected(records, f, textMatches)| == |SelectedIds(records, f, textMatches)|
  {
    CountById(records, SelectedIds(records, f, textMatches), Selected(records, f, textMatches));
  }

  /** A set of ids and the set of their records have the same size when
      every record sits under its own id. */
  lemma {:induction false} CountById(records: map<EmployeeId, Employee>, ids: set<EmployeeId>, es: set<Employee>)
    requires forall id :: id in records ==> records[id].id == id
    requires forall id :: id in ids ==> id in records && records[id] in es
    requires forall e :: e in es ==> e.id in ids && e.id in records && records[e.id] == e
    ensures |ids| == |es|
    decreases |ids|
  {
    if ids != {} {
      var id :| id in ids;
      var e := records[id];
      CountById(records, ids - {id}, es - {e});
    }
  }

  /** Inserting a record whose email no stored record holds keeps emails unique. */
  lemma InsertKeepsStored(records: map<EmployeeId, Employee>, nextId: EmployeeId, e: Employee)
    requires Stored(records, nextId) && e.id == nextId && EmployeeSchema.Valid(e)
    requires !EmailInUse(records, e.email)
    ensures nextId !in records && Stored(records[nextId := e], nextId + 1)
  {
  }

  /** Replacing a record by one whose email no other record holds keeps emails unique. */
  lemma ReplaceKeepsStored(records: map<EmployeeId, Employee>, nextId: EmployeeId, id: EmployeeId, e: Employee)
    requires Stored(records, nextId) && id in records && e.id == id && EmployeeSchema.Valid(e)
    requires !EmailHeldByAnother(records, id, e.email)
    ensures Stored(records[id := e], nextId)
  {
  }

  /** Clearing the active flag keeps a record valid and its email where it was. */
  lemma SoftDeleteKeepsStored(records: map<EmployeeId, Employee>, nextId: EmployeeId, id: EmployeeId)
    requires Stored(records, nextId) && id in records
    ensures Stored(SoftDeleted(records, id), nextId)
  {
    SoftDeleteIsBulkOfOne(records, id);
    DeactivateKeepsStored(records, nextId, {id});
  }

  lemma DeactivateKeepsStored(records: map<EmployeeId, Employee>, nextId: EmployeeId, ids: set<EmployeeId>)
    requires Stored(records, nextId)
    ensures Stored(Deactivated(records, ids), nextId)
  {
    var r := Deactivated(records, ids);
    forall id | id in r ensures r[id].email == records[id].email && EmployeeSchema.Valid(r[id]) {
      assert EmployeeSchema.Valid(records[id]);
    }
  }

  // ---------------------------------------------------------------- soft delete

  /** Soft-deleting again leaves the store as the first soft delete left it. */
  lemma SoftDeleteIdempotent(records: map<EmployeeId, Employee>, id: EmployeeId)
    requires id in records
    ensures SoftDeleted(SoftDeleted(records, id), id) == SoftDeleted(records, id)
  {
  }

  /** A soft delete keeps the record and its owner, so a second delete passes
      the same checks as the first. */
  lemma SoftDeleteKeepsOwnership(records: map<EmployeeId, Employee>, id: EmployeeId, u: User)
    requires id in records
    ensures id in SoftDeleted(records, id)
    ensures MayModify(u, SoftDeleted(records, id)[id]) <==> MayModify(u, records[id])
  {
  }

  /** The single soft delete is the bulk one on a one-element list. */
  lemma SoftDeleteIsBulkOfOne(records: map<EmployeeId, Employee>, id: EmployeeId)
    requires id in records
    ensures SoftDeleted(records, id) == Deactivated(records, {id})
  {
    var a := SoftDeleted(records, id);
    var b := Deactivated(records, {id});
    assert forall k :: k in a ==> a[k] == b[k];
  }

  /** The bulk soft delete deactivates exactly the listed ids that exist and
      leaves every other record as it was. */
  lemma DeactivatedRecords(records: map<EmployeeId, Employee>, ids: set<EmployeeId>)
    ensures forall id :: id in records && id in ids ==>
              Deactivated(records, ids)[id] == records[id].(isActive := false)
    ensures forall id :: id in records && id !in ids ==> Deactivated(records, ids)[id] == records[id]
    ensures ActiveIds(Deactivated(records, ids)) == ActiveIds(records) - ids
  {
  }

  /** Ids that name no record change nothing. */
  lemma UnknownIdsIgnored(records: map<EmployeeId, Employee>, ids: set<EmployeeId>)
    ensures Deactivated(records, ids) == Deactivated(records, ids * records.Keys)
  {
  }

  /** The number of active records drops by exactly the listed records that
      were active. */
  lemma BulkCountIsActiveDrop(records: map<EmployeeId, Employee>, ids: set<EmployeeId>)
    ensures |ActiveIds(Deactivated(records, ids))| == |ActiveIds(records)| - |ActiveIds(records) * ids|
  {
    var a := ActiveIds(records);
    DeactivatedRecords(records, ids);
    assert a == (a - ids) + (a * ids);
    assert (a - ids) * (a * ids) == {};
  }

  /** The reported count is never below the drop in active records, and
      equals it exactly when every listed record was still active. */
  lemma BulkCountBoundsActiveDrop(records: map<EmployeeId, Employee>, ids: set<EmployeeId>)
    ensures |ActiveIds(records) * ids| <= |ids * records.Keys|
    ensures |ActiveIds(records) * ids| == |ids * records.Keys| <==>
              forall id :: id in ids && id in records ==> records[id].isActive
  {
    var a, m := ActiveIds(records) * ids, ids * records.Keys;
    assert a <= m;
    assert |m| == |a| + |m - a| by {
      assert m == a + (m - a);
      assert a * (m - a) == {};
    }
    if forall id :: id in ids && id in records ==> records[id].isActive {
      assert a == m;
    } else {
      var id :| id in ids && id in records && !records[id].isActive;
      assert id in m - a;
    }
  }

  /** Repeating a bulk delete leaves no listed record active, changes nothing
      more, and reports the same count again. */
  lemma BulkDeleteRepeatable(records: map<EmployeeId, Employee>, ids: set<EmployeeId>)
    ensures ActiveIds(Deactivated(records, ids)) * ids == {}
    ensures Deactivated(Deactivated(records, ids), ids) == Deactivated(records, ids)
    ensures ids * Deactivated(records, ids).Keys == ids * records.Keys
  {
    DeactivatedRecords(records, ids);
  }

  // ---------------------------------------------------------------- login

  predicate IsAccountFor(u: User, email: string) {
    u.email == email && u.isActive
  }

  /** No two accounts share an email. */
  predicate UniqueEmails(users: seq<User>) {
    forall i, j :: 0 <= i < |users| && 0 <= j < |users| && users[i].email == users[j].email ==> i == j
  }

  /** `User.findOne({ email, isActive: true })`: the first active account with
      that email. */
  function FindActiveByEmail(users: seq<User>, email: string): (r: Option<User>)
    ensures r.Some? ==> r.value in users && IsAccountFor(r.value, email)
    ensures r.None? ==> forall i :: 0 <= i < |users| ==> !IsAccountFor(users[i], email)
    decreases |users|
  {
    if |users| == 0 then None
    else if IsAccountFor(users[0], email) then Some(users[0])
    else FindActiveByEmail(users[1..], email)
  }

  /** With unique emails, the lookup finds the one active account holding it. */
  lemma {:induction false} FindsTheAccount(users: seq<User>, email: string, i: nat)
    requires UniqueEmails(users) && i < |users| && IsAccountFor(users[i], email)
    ensures FindActiveByEmail(users, email) == Some(users[i])
    decreases |users|
  {
    if i > 0 {
      FindsTheAccount(users[1..], email, i - 1);
    }
  }

  /** `Mutation.login`. The password check and token signing are calls into
      code outside this model: `passwordMatches` stands for the hash
      comparison, `sign` for issuing the token. */
  function Login(users: seq<User>, email: string, password: string,
                 passwordMatches: (User, string) -> bool, sign: UserId -> string): (r: Result<AuthPayload>)
    ensures r.Failure? ==> r.error == InvalidCredentials
    ensures r.Success? ==> r.value.user in users && IsAccountFor(r.value.user, email)
    ensures r.Success? ==> passwordMatches(r.value.user, password) && r.value.token == sign(r.value.user.id)
    ensures (forall i :: 0 <= i < |users| ==> !IsAccountFor(users[i], email)) ==> r == Failure(InvalidCredentials)
  {
    match FindActiveByEmail(users, email)
    case None => Failure(InvalidCredentials)
    case Some(u) =>
      if !passwordMatches(u, password) then Failure(InvalidCredentials)
      else Success(AuthPayload(sign(u.id), u))
  }

  /** An unknown email, an inactive account and a wrong password all give the
      one same failure; the right password for the active account succeeds. */
  lemma LoginFailsAlike(users: seq<User>, email: string, password: string,
                        passwordMatches: (User, string) -> bool, sign: UserId -> string)
    requires UniqueEmails(users)
    ensures (forall i :: 0 <= i < |users| ==> users[i].email != email) ==>
              Login(users, email, password, passwordMatches, sign) == Failure(InvalidCredentials)
    ensures forall i :: 0 <= i < |users| && users[i].email == email && !users[i].isActive ==>
              Login(users, email, password, passwordMatches, sign) == Failure(InvalidCredentials)
    ensures forall i :: 0 <= i < |users| && IsAccountFor(users[i], email) ==>
              (Login(users, email, password, passwordMatches, sign).Success? <==> passwordMatches(users[i], password))
  {
    forall i | 0 <= i < |users| && IsAccountFor(users[i], email)
      ensures Login(users, email, password, passwordMatches, sign).Success? <==> passwordMatches(users[i], password)
    {
      FindsTheAccount(users, email, i);
    }
  }

  // ---------------------------------------------------------------- field resolvers

  /** `User.role`: the stored role upper-cased for the wire enum. */
  function RoleOnWire(u: User): (r: string)
    ensures |r| == |u.role| && IsUpperCase(r)
  {
    Upper(u.role)
  }

  /** `role.toLowerCase()` at registration: the wire enum stored lower-case. */
  function StoredRole(wireRole: string): (r: string)
    ensures |r| == |wireRole| && IsLowerCase(r)
  {
    Lower(wireRole)
  }

  /** A role stored from the wire is sent back as the same wire value. */
  lemma RoleRoundTrip(u: User, wireRole: string)
    requires IsUpperCase(wireRole) && u.role == StoredRole(wireRole)
    ensures RoleOnWire(u) == wireRole
  {
    LowerUpperRoundTrip(wireRole);
  }

  /** An account registered as `ADMIN` passes the admin guard. */
  lemma RegisteredAdminPassesGuard(u: User)
    requires u.role == StoredRole("ADMIN")
    ensures RequireAdmin(Some(u)) == Success(u)
  {
    assert StoredRole("ADMIN") == AdminRole;
  }

  /** The text `YYYY-MM-DD`: four, two and two digits between dashes. */
  predicate IsDateShaped(d: string) {
    && |d| == 10 && d[4] == '-' && d[7] == '-'
    && forall i :: 0 <= i < 10 && i != 4 && i != 7 ==> '0' <= d[i] <= '9'
  }

  function DigitValue(c: char): int {
    c as int - '0' as int
  }

  /** The number the digits `d[i..j]` spell. */
  function DigitsValue(d: string, i: nat, j: nat): int
    requires i <= j <= |d|
    decreases j - i
  {
    if i == j then 0 else DigitsValue(d, i, j - 1) * 10 + DigitValue(d[j - 1])
  }

  predicate IsLeapYear(y: int) {
    y % 4 == 0 && (y % 100 != 0 || y % 400 == 0)
  }

  /** The length of month `m` of year `y` in the Gregorian calendar. */
  function DaysInMonth(y: int, m: int): int {
    if m == 2 then (if IsLeapYear(y) then 29 else 28)
    else if m == 4 || m == 6 || m == 9 || m == 11 then 30
    else 31
  }

  /** A calendar date as the wire carries it: `YYYY-MM-DD` naming a day that
      exists, with months 01 to 12 and days up to the month's length. */
  predicate IsCalendarDate(d: string) {
    && IsDateShaped(d)
    && var y, m, day := DigitsValue(d, 0, 4), DigitsValue(d, 5, 7), DigitsValue(d, 8, 10);
      1 <= m <= 12 && 1 <= day <= DaysInMonth(y, m)
  }

  /** `toISOString()` of a date created from a calendar date: date-only text
      is read as midnight UTC, so the day comes back followed by the time. */
  function IsoString(date: string): string {
    date + "T00:00:00.000Z"
  }

  /** `Employee.joinDate`: `toISOString().split('T')[0]`. */
  function JoinDateOnWire(e: Employee): string {
    Split(IsoString(e.joinDate), 'T')[0]
  }

  /** A calendar date goes out on the wire as it came in. */
  lemma JoinDateRoundTrip(e: Employee)
    requires IsCalendarDate(e.joinDate)
    ensures JoinDateOnWire(e) == e.joinDate
  {
    var d := e.joinDate;
    assert IsDateShaped(d);
    assert 'T' !in d by {
      forall i | 0 <= i < |d| ensures d[i] != 'T' {
        if i != 4 && i != 7 {
          assert '0' <= d[i] <= '9';
        }
      }
    }
    assert IsoString(d) == d + ['T'] + "00:00:00.000Z";
    SplitAtSeparator(d, 'T', "00:00:00.000Z");
  }

  /** The 29th of February exists exactly in leap years. */
  lemma LeapDayExamples()
    ensures IsCalendarDate("2024-02-29") && !IsCalendarDate("2023-02-29")
  {
    assert DigitsValue("2024-02-29", 0, 4) == 2024;
    assert DigitsValue("2023-02-29", 0, 4) == 2023;
  }

  /** Days past the month's end and months past December are not dates. */
  lemma ImpossibleDateExamples()
    ensures !IsCalendarDate("2024-02-30") && !IsCalendarDate("2024-13-01") && !IsCalendarDate("2024-04-31")
  {
  }

  // ---------------------------------------------------------------- scenarios

  /** Deleting the same record twice succeeds both times and leaves it
      inactive but stored. */
  method DeleteTwice(svc: EmployeeService, user: User, id: EmployeeId) returns (first: Result<bool>, second: Result<bool>)
    requires svc.Valid() && id in svc.records && MayModify(user, svc.records[id])
    modifies svc
    ensures first == Success(true) && second == Success(true)
    ensures id in svc.records && !svc.records[id].isActive
  {
    first := svc.DeleteEmployee(Some(user), id);
    second := svc.DeleteEmployee(Some(user), id);
  }

  /** A second create with the same email, in any letter case or padding,
      fails and leaves the store as the first create left it. */
  method CreateTwice(svc: EmployeeService, user: User, input: EmployeeInput, again: EmployeeInput)
    returns (first: Result<Employee>, second: Result<Employee>)
    requires svc.Valid() && NormalizeEmail(again.email) == NormalizeEmail(input.email)
    modifies svc
    ensures first.Success? <==> Acceptable(input) && !EmailInUse(old(svc.records), NormalizeEmail(input.email))
    ensures first.Success? ==> second == Failure(DuplicateEmail)
    ensures first.Success? ==> svc.records == old(svc.records)[first.value.id := first.value]
  {
    first := svc.CreateEmployee(Some(user), input);
    second := svc.CreateEmployee(Some(user), again);
    if first.Success? {
      assert svc.records[first.value.id].email == NormalizeEmail(again.email);
    }
  }
}
