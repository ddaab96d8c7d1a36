/** The read path of the `employees` query: turning the filter argument into
    a document query, choosing the sort, and the pagination arithmetic. */
module QueryBuilder {
  import opened Base
  import opened Text
  import opened EmployeeSchema

  /** The `filter` argument; `None` is a field the caller left out. */
  datatype Filter = Filter(
    department: Option<string>,
    position: Option<string>,
    minAge: Option<int>,
    maxAge: Option<int>,
    minSalary: Option<real>,
    maxSalary: Option<real>,
    search: Option<string>,
    isActive: Option<bool>)

  // JavaScript truthiness of the filter values: a missing value, the empty
  // string and the number 0 are false.
  predicate TruthyText(o: Option<string>) { o.Some? && o.value != [] }
  predicate TruthyInt(o: Option<int>) { o.Some? && o.value != 0 }
  predicate TruthyReal(o: Option<real>) { o.Some? && o.value != 0.0 }

  /** A range object `{ $gte?, $lte? }`. */
  datatype Bounds<T> = Bounds(gte: Option<T>, lte: Option<T>)

  /** The query document: the `isActive` equality, optional equalities on
      department and position, optional range objects on age and salary, and
      an optional `$text` search. */
  datatype Query = Query(
    isActive: bool,
    department: Option<string>,
    position: Option<string>,
    age: Option<Bounds<int>>,
    salary: Option<Bounds<real>>,
    text: Option<string>)

  /** How the store reads a range object on an integer field. An object with
      neither bound is `{}`, which the store reads as equality with the empty
      object, so no number matches it. */
  predicate IntInBounds(b: Bounds<int>, x: int) {
    if b.gte.None? && b.lte.None? then false
    else (b.gte.None? || x >= b.gte.value) && (b.lte.None? || x <= b.lte.value)
  }

  predicate RealInBounds(b: Bounds<real>, x: real) {
    if b.gte.None? && b.lte.None? then false
    else (b.gte.None? || x >= b.gte.value) && (b.lte.None? || x <= b.lte.value)
  }

  /** Whether the store counts a document as matching the query. The store
      casts an equality value through the path's setters, so the department
      and position values are trimmed before they are compared. Full-text
      matching is not modelled: `textMatches` stands for the store's `$text`
      index lookup. */
  predicate Matches(q: Query, e: Employee, textMatches: (string, Employee) -> bool) {
    && e.isActive == q.isActive
    && (q.department.None? || e.department == Trim(q.department.value))
    && (q.position.None? || e.position == Trim(q.position.value))
    && (q.age.None? || IntInBounds(q.age.value, e.age))
    && (q.salary.None? || RealInBounds(q.salary.value, e.salary))
    && (q.text.None? || textMatches(q.text.value, e))
  }

  /** The listing policy, stated directly on the filter: active records unless
      `isActive` is given, and each other criterion applied only when its value
      is truthy, so a minimum of 0 is no minimum at all. Department and
      position are compared as the schema stores them, trimmed. */
  predicate Selects(f: Filter, e: Employee, textMatches: (string, Employee) -> bool) {
    && e.isActive == f.isActive.GetOr(true)
    && (TruthyText(f.department) ==> e.department == Trim(f.department.value))
    && (TruthyText(f.position) ==> e.position == Trim(f.position.value))
    && (TruthyInt(f.minAge) ==> e.age >= f.minAge.value)
    && (TruthyInt(f.maxAge) ==> e.age <= f.maxAge.value)
    && (TruthyReal(f.minSalary) ==> e.salary >= f.minSalary.value)
    && (TruthyReal(f.maxSalary) ==> e.salary <= f.maxSalary.value)
    && (TruthyText(f.search) ==> textMatches(f.search.value, e))
  }

  /** The age range object: `$gte` for a truthy minimum, `$lte` for a truthy
      maximum. */
  function AgeRange(minAge: Option<int>, maxAge: Option<int>): (b: Bounds<int>)
    requires TruthyInt(minAge) || TruthyInt(maxAge)
    ensures b.gte.Some? <==> TruthyInt(minAge)
    ensures b.lte.Some? <==> TruthyInt(maxAge)
    ensures forall x :: IntInBounds(b, x) <==>
              (TruthyInt(minAge) ==> x >= minAge.value) && (TruthyInt(maxAge) ==> x <= maxAge.value)
  {
    Bounds(if TruthyInt(minAge) then minAge else None, if TruthyInt(maxAge) then maxAge else None)
  }

  /** The salary range object, built the same way. */
  function SalaryRange(minSalary: Option<real>, maxSalary: Option<real>): (b: Bounds<real>)
    requires TruthyReal(minSalary) || TruthyReal(maxSalary)
    ensures b.gte.Some? <==> TruthyReal(minSalary)
    ensures b.lte.Some? <==> TruthyReal(maxSalary)
    ensures forall x :: RealInBounds(b, x) <==>
              (TruthyReal(minSalary) ==> x >= minSalary.value) && (TruthyReal(maxSalary) ==> x <= maxSalary.value)
  {
    Bounds(if TruthyReal(minSalary) then minSalary else None, if TruthyReal(maxSalary) then maxSalary else None)
  }

  /** Builds the query document field by field, as the resolver does. */
  method BuildQuery(filter: Filter) returns (q: Query)
    ensures forall e, textMatches :: Matches(q, e, textMatches) <==> Selects(filter, e, textMatches)
  {
    var isActive := filter.isActive.GetOr(true);
    var department := if TruthyText(filter.department) then filter.department else None;
    var position := if TruthyText(filter.position) then filter.position else None;
    var age := if TruthyInt(filter.minAge) || TruthyInt(filter.maxAge)
               then Some(AgeRange(filter.minAge, filter.maxAge)) else None;
    var salary := if TruthyReal(filter.minSalary) || TruthyReal(filter.maxSalary)
                  then Some(SalaryRange(filter.minSalary, filter.maxSalary)) else None;
    var text := if TruthyText(filter.search) then filter.search else None;
    q := Query(isActive, department, position, age, salary, text);
    DocumentSelects(filter, q);
  }

  /** A query document built by the rules of `BuildQuery` selects exactly
      what the listing policy selects. */
  lemma DocumentSelects(filter: Filter, q: Query)
    requires q.isActive == filter.isActive.GetOr(true)
    requires q.department == (if TruthyText(filter.department) then filter.department else None)
    requires q.position == (if TruthyText(filter.position) then filter.position else None)
    requires q.text == (if TruthyText(filter.search) then filter.search else None)
    requires q.age.Some? <==> TruthyInt(filter.minAge) || TruthyInt(filter.maxAge)
    requires q.age.Some? ==> forall x :: IntInBounds(q.age.value, x) <==>
               (TruthyInt(filter.minAge) ==> x >= filter.minAge.value) && (TruthyInt(filter.maxAge) ==> x <= filter.maxAge.value)
    requires q.salary.Some? <==> TruthyReal(filter.minSalary) || TruthyReal(filter.maxSalary)
    requires q.salary.Some? ==> forall x :: RealInBounds(q.salary.value, x) <==>
               (TruthyReal(filter.minSalary) ==> x >= filter.minSalary.value) && (TruthyReal(filter.maxSalary) ==> x <= filter.maxSalary.value)
    ensures forall e, textMatches :: Matches(q, e, textMatches) <==> Selects(filter, e, textMatches)
  {
  }

  /** The records of a store that the filter selects. */
  function Selected(records: map<EmployeeId, Employee>, f: Filter,
                    textMatches: (string, Employee) -> bool): (s: set<Employee>)
    ensures forall e :: e in s ==> e in records.Values
  {
    set e | e in records.Values && Selects(f, e, textMatches)
  }

  /** A zero minimum age or salary selects exactly what no minimum selects. */
  lemma ZeroMinimumIsIgnored(records: map<EmployeeId, Employee>, f: Filter,
                             textMatches: (string, Employee) -> bool)
    ensures Selected(records, f.(minAge := Some(0)), textMatches) == Selected(records, f.(minAge := None), textMatches)
    ensures Selected(records, f.(minSalary := Some(0.0)), textMatches) == Selected(records, f.(minSalary := None), textMatches)
  {
  }

  /** Without `isActive` in the filter only active records are selected;
      `isActive: false` selects only soft-deleted ones. */
  lemma ActiveScope(records: map<EmployeeId, Employee>, f: Filter,
                    textMatches: (string, Employee) -> bool)
    ensures f.isActive.None? ==> forall e :: e in Selected(records, f, textMatches) ==> e.isActive
    ensures f.isActive == Some(false) ==> forall e :: e in Selected(records, f, textMatches) ==> !e.isActive
  {
  }

  /** Padding around a department filter does not change what is listed,
      since the store trims the value as it trims the field. */
  lemma PaddedDepartmentSelectsAlike(f: Filter, e: Employee, textMatches: (string, Employee) -> bool)
    requires TruthyText(f.department) && Trim(f.department.value) != []
    ensures Selects(f, e, textMatches) <==> Selects(f.(department := Some(Trim(f.department.value))), e, textMatches)
  {
    TrimIdempotent(f.department.value);
  }

  /** The same for a position filter. */
  lemma PaddedPositionSelectsAlike(f: Filter, e: Employee, textMatches: (string, Employee) -> bool)
    requires TruthyText(f.position) && Trim(f.position.value) != []
    ensures Selects(f, e, textMatches) <==> Selects(f.(position := Some(Trim(f.position.value))), e, textMatches)
  {
    TrimIdempotent(f.position.value);
  }

  /** Both at once: a filter padded in both fields lists what the trimmed
      filter lists. */
  lemma PaddedFilterSelectsAlike(f: Filter, e: Employee, textMatches: (string, Employee) -> bool)
    requires TruthyText(f.department) && Trim(f.department.value) != []
    requires TruthyText(f.position) && Trim(f.position.value) != []
    ensures var g := f.(department := Some(Trim(f.department.value)), position := Some(Trim(f.position.value)));
      Selects(f, e, textMatches) <==> Selects(g, e, textMatches)
  {
    var d := f.(department := Some(Trim(f.department.value)));
    PaddedDepartmentSelectsAlike(f, e, textMatches);
    PaddedPositionSelectsAlike(d, e, textMatches);
  }

  // ---------------------------------------------------------------- sort

  datatype SortOrder = Asc | Desc

  /** The `sort` argument. */
  datatype Sort = Sort(field: string, order: SortOrder)

  /** The sort document `{ [field]: direction }`, direction 1 or -1. */
  datatype SortQuery = SortQuery(field: string, direction: int)

  /** Newest first. */
  const DefaultSort := SortQuery("createdAt", -1)

  /** The sort document: the caller's field and direction replace the default
      entirely. */
  function SortQueryFor(sort: Option<Sort>): (sq: SortQuery)
    ensures sort.None? ==> sq == DefaultSort
    ensures sort.Some? ==> sq.field == sort.value.field
    ensures sort.Some? ==> (sq.direction == 1 <==> sort.value.order == Asc)
    ensures sq.direction == 1 || sq.direction == -1
  {
    match sort
    case None => DefaultSort
    case Some(s) => SortQuery(s.field, if s.order == Asc then 1 else -1)
  }

  /** `xs` lists each member of `s` exactly once: the shape of what the store
      returns for a query, in whatever order the sort puts it. */
  ghost predicate Enumerates(xs: seq<Employee>, s: set<Employee>) {
    && (forall i, j :: 0 <= i < j < |xs| ==> xs[i] != xs[j])
    && (forall x :: x in xs <==> x in s)
  }

  lemma {:induction false} EnumerationLength(xs: seq<Employee>, s: set<Employee>)
    requires Enumerates(xs, s)
    ensures |xs| == |s|
    decreases |xs|
  {
    if |xs| > 0 {
      var rest := s - {xs[0]};
      forall x ensures x in xs[1..] <==> x in rest {
        if x in xs[1..] {
          var k :| 0 <= k < |xs[1..]| && xs[1..][k] == x;
          assert xs[k + 1] == x;
        }
      }
      EnumerationLength(xs[1..], rest);
    }
  }

  // ---------------------------------------------------------------- pagination

  datatype PageInfo = PageInfo(
    totalCount: nat,
    hasNextPage: bool,
    hasPreviousPage: bool,
    currentPage: int,
    totalPages: nat)

  /** How many matches the pages before `page` hold. */
  function Skip(page: int, limit: int): (n: nat)
    requires page >= 1 && limit >= 1
    ensures n % limit == 0 && n / limit == page - 1
  {
    LemmaMulDiv(page - 1, limit);
    (page - 1) * limit
  }

  lemma LemmaMulDiv(a: nat, b: int)
    requires b >= 1
    ensures (a * b) % b == 0 && (a * b) / b == a
  {
    var q, r := (a * b) / b, (a * b) % b;
    assert a * b == q * b + r && 0 <= r < b;
    assert (a - q) * b == r by {
      assert (a - q) * b == a * b - q * b;
    }
  }

  /** `Math.ceil(totalCount / limit)`, proved to be the ceiling. */
  function TotalPages(totalCount: nat, limit: int): (n: nat)
    requires limit >= 1
    ensures n * limit >= totalCount
    ensures n == 0 || (n - 1) * limit < totalCount
  {
    (totalCount + limit - 1) / limit
  }

  /** The `pageInfo` envelope. */
  function Paginate(totalCount: nat, page: int, limit: int): (p: PageInfo)
    requires page >= 1 && limit >= 1
    ensures p.totalCount == totalCount && p.currentPage == page
    ensures p.totalPages * limit >= totalCount
    ensures p.totalPages == 0 || (p.totalPages - 1) * limit < totalCount
  {
    var totalPages := TotalPages(totalCount, limit);
    PageInfo(totalCount, page < totalPages, page > 1, page, totalPages)
  }

  /** `.skip(skip).limit(limit)` on the ordered matches. */
  function Window<T>(xs: seq<T>, skip: nat, limit: nat): (r: seq<T>)
    ensures |r| <= limit
    ensures skip >= |xs| ==> r == []
    ensures skip < |xs| ==> |r| == (if skip + limit <= |xs| then limit else |xs| - skip)
    ensures skip < |xs| ==> r == xs[skip..skip + |r|]
  {
    if skip >= |xs| then []
    else if skip + limit <= |xs| then xs[skip..skip + limit]
    else xs[skip..]
  }

  /** A page holds nothing but matches. */
  lemma WindowWithin<T>(xs: seq<T>, skip: nat, limit: nat)
    ensures forall x :: x in Window(xs, skip, limit) ==> x in xs
  {
    var r := Window(xs, skip, limit);
    forall x | x in r ensures x in xs {
      var k :| 0 <= k < |r| && r[k] == x;
      assert xs[skip + k] == x;
    }
  }

  /** There is a next page exactly when matches remain after this one. */
  lemma HasNextPageIffMoreRemain(totalCount: nat, page: int, limit: int)
    requires page >= 1 && limit >= 1
    ensures Paginate(totalCount, page, limit).hasNextPage <==> Skip(page, limit) + limit < totalCount
  {
    var n := TotalPages(totalCount, limit);
    if page < n {
      assert page * limit <= (n - 1) * limit by {
        MultiplyMonotone(page, n - 1, limit);
      }
    } else if page * limit < totalCount {
      MultiplyMonotone(n, page, limit);
    }
  }

  lemma MultiplyMonotone(a: int, b: int, c: nat)
    requires a <= b
    ensures a * c <= b * c
  {
  }

  /** A page past the last one is empty, and has no next page. */
  lemma PagePastEndIsEmpty<T>(xs: seq<T>, page: int, limit: int)
    requires page >= 1 && limit >= 1
    requires page > TotalPages(|xs|, limit)
    ensures Window(xs, Skip(page, limit), limit) == []
    ensures !Paginate(|xs|, page, limit).hasNextPage
  {
    var n := TotalPages(|xs|, limit);
    MultiplyMonotone(n, page - 1, limit);
  }

  /** Each page from the first to the last holds at least one match. */
  lemma PageWithinRangeIsNotEmpty<T>(xs: seq<T>, page: int, limit: int)
    requires limit >= 1 && 1 <= page <= TotalPages(|xs|, limit)
    ensures |Window(xs, Skip(page, limit), limit)| > 0
  {
    var n := TotalPages(|xs|, limit);
    MultiplyMonotone(page - 1, n - 1, limit);
  }

  /** Every match appears on exactly the page its position says, at the
      position within that page its remainder says: the pages split the
      ordered matches without gap or overlap. */
  lemma MatchOnItsPage<T>(xs: seq<T>, limit: int, k: nat)
    requires limit >= 1 && k < |xs|
    ensures var page := k / limit + 1;
      && 1 <= page <= TotalPages(|xs|, limit)
      && Skip(page, limit) == k - k % limit
      && k % limit < |Window(xs, Skip(page, limit), limit)|
      && Window(xs, Skip(page, limit), limit)[k % limit] == xs[k]
  {
    var page := k / limit + 1;
    var n := TotalPages(|xs|, limit);
    assert k == (k / limit) * limit + k % limit;
    assert Skip(page, limit) == (k / limit) * limit;
    if page > n {
      MultiplyMonotone(n, page - 1, limit);
    }
  }
}
