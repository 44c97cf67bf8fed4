/** The three benchmark classes. Each sets up an employee list and a list of
    related records, then attaches the related records to the employees in
    two ways: a `foreach` body that looks them up per employee (`Single` or
    `Where`), and a body that runs `Join` or `GroupJoin` with a result
    selector that writes the same property on the employee and returns it. */
module Benchmarks {
  import opened Linq
  import opened Entities

  /** The outer key of the department join: the employee's department id. */
  function EmployeeDepartmentKey(e: Employee): int
  {
    e.departmentId
  }

  /** The inner key of the department join: the department's id. */
  function DepartmentKey(d: Department): int
  {
    d.id
  }

  /** The outer key of the equipment group join: the employee's id. */
  function EmployeeIdKey(e: Employee): int
  {
    e.id
  }

  /** The inner key of the equipment group join: the custodian's id. */
  function CustodianKey(q: Equipment): int
  {
    q.custodian
  }

  /** The composite key of the salary join, an anonymous type with a
      department id and a rank, equal when both fields are equal. */
  datatype SalaryKey = SalaryKey(departmentId: int, rank: int)

  /** The outer key of the salary join, taken from an employee. */
  function EmployeeSalaryKey(e: Employee): SalaryKey
  {
    SalaryKey(e.departmentId, e.rank)
  }

  /** The inner key of the salary join, taken from a salary. */
  function SalaryKeyOf(s: Salary): SalaryKey
  {
    SalaryKey(s.departmentId, s.rank)
  }

  /** The `foreach` department predicate: the department has the given id. */
  function DepartmentIdIs(departmentId: int): Department -> bool
  {
    (dep: Department) => dep.id == departmentId
  }

  /** The `foreach` equipment predicate: the item's custodian is the given employee id. */
  function CustodianIs(id: int): Equipment -> bool
  {
    (eqp: Equipment) => eqp.custodian == id
  }

  /** The `foreach` salary predicate: both the department id and the rank match. */
  function GradeIs(departmentId: int, rank: int): Salary -> bool
  {
    (brk: Salary) => brk.departmentId == departmentId && brk.rank == rank
  }

  /** The `Single` department lookup the `foreach` body makes for one employee. */
  function DepartmentOf(departments: seq<Department>, e: Employee): (r: SingleResult<Department>)
    ensures r.Found? ==> r.value in departments && r.value.id == e.departmentId
  {
    Single(departments, DepartmentIdIs(e.departmentId))
  }

  /** The `Single` salary lookup the `foreach` body makes for one employee. */
  function SalaryOf(salaries: seq<Salary>, e: Employee): (r: SingleResult<Salary>)
    ensures r.Found? ==> r.value.departmentId == e.departmentId && r.value.rank == e.rank
  {
    Single(salaries, GradeIs(e.departmentId, e.rank))
  }

  /** The department lookup as a function of the employee. */
  function DepartmentLookup(departments: seq<Department>): Employee -> SingleResult<Department>
  {
    (e: Employee) => DepartmentOf(departments, e)
  }

  /** The salary lookup as a function of the employee. */
  function SalaryLookup(salaries: seq<Salary>): Employee -> SingleResult<Salary>
  {
    (e: Employee) => SalaryOf(salaries, e)
  }

  /** The department lookup of every employee, in list order. */
  function DepartmentLookups(departments: seq<Department>, employees: seq<Employee>): seq<SingleResult<Department>>
  {
    Select(employees, DepartmentLookup(departments))
  }

  /** The salary lookup of every employee, in list order. */
  function SalaryLookups(salaries: seq<Salary>, employees: seq<Employee>): seq<SingleResult<Salary>>
  {
    Select(employees, SalaryLookup(salaries))
  }

  /** The (employee, department) pairs the department join hands its result
      selector, in order, matching department id against department. */
  function DepartmentPairs(employees: seq<Employee>, departments: seq<Department>): seq<(Employee, Department)>
  {
    Join<Employee, Department, int, (Employee, Department)>(employees, departments, EmployeeDepartmentKey, DepartmentKey, Pair)
  }

  /** The (employee, salary) pairs of the composite-key join, in order. */
  function SalaryPairs(employees: seq<Employee>, salaries: seq<Salary>): seq<(Employee, Salary)>
  {
    Join<Employee, Salary, SalaryKey, (Employee, Salary)>(employees, salaries, EmployeeSalaryKey, SalaryKeyOf, Pair)
  }

  /** The (employee, equipment group) pairs the group join hands its result
      selector, in order, matching employee id against custodian. */
  function EquipmentGroups(employees: seq<Employee>, equipments: seq<Equipment>): seq<(Employee, seq<Equipment>)>
  {
    GroupJoin<Employee, Equipment, int, (Employee, seq<Equipment>)>(employees, equipments, EmployeeIdKey, CustodianKey, Pair)
  }

  /** The `foreach` predicate and the join's key selectors pick the same departments. */
  lemma {:induction false} DepartmentPredicateIsKeyMatch(departments: seq<Department>, departmentId: int)
    ensures Where(departments, DepartmentIdIs(departmentId)) == Where(departments, KeyIs(DepartmentKey, departmentId))
    ensures Single(departments, DepartmentIdIs(departmentId)) == Single(departments, KeyIs(DepartmentKey, departmentId))
  {
    forall i | 0 <= i < |departments|
      ensures DepartmentIdIs(departmentId)(departments[i]) == KeyIs(DepartmentKey, departmentId)(departments[i])
    {
      assert KeyIs(DepartmentKey, departmentId)(departments[i]) == (DepartmentKey(departments[i]) == departmentId);
    }
    WhereExtensional(departments, DepartmentIdIs(departmentId), KeyIs(DepartmentKey, departmentId));
  }

  /** The `foreach` predicate and the join's key selectors pick the same equipment. */
  lemma {:induction false} CustodianPredicateIsKeyMatch(equipments: seq<Equipment>, id: int)
    ensures Where(equipments, CustodianIs(id)) == Where(equipments, KeyIs(CustodianKey, id))
  {
    forall i | 0 <= i < |equipments|
      ensures CustodianIs(id)(equipments[i]) == KeyIs(CustodianKey, id)(equipments[i])
    {
      assert KeyIs(CustodianKey, id)(equipments[i]) == (CustodianKey(equipments[i]) == id);
    }
    WhereExtensional(equipments, CustodianIs(id), KeyIs(CustodianKey, id));
  }

  /** The two-part predicate of the `foreach` body and equality of the
      composite keys pick the same salaries: a salary matches exactly when
      its department id and its rank are both the employee's. */
  lemma {:induction false} GradePredicateIsKeyMatch(salaries: seq<Salary>, e: Employee)
    ensures Where(salaries, GradeIs(e.departmentId, e.rank)) == Where(salaries, KeyIs(SalaryKeyOf, EmployeeSalaryKey(e)))
    ensures Single(salaries, GradeIs(e.departmentId, e.rank)) == Single(salaries, KeyIs(SalaryKeyOf, EmployeeSalaryKey(e)))
  {
    forall i | 0 <= i < |salaries|
      ensures GradeIs(e.departmentId, e.rank)(salaries[i]) == KeyIs(SalaryKeyOf, EmployeeSalaryKey(e))(salaries[i])
    {
      assert KeyIs(SalaryKeyOf, EmployeeSalaryKey(e))(salaries[i]) == (SalaryKeyOf(salaries[i]) == EmployeeSalaryKey(e));
    }
    WhereExtensional(salaries, GradeIs(e.departmentId, e.rank), KeyIs(SalaryKeyOf, EmployeeSalaryKey(e)));
  }

  /** How a `foreach` body that calls `Single` ends: it runs to the end of the
      list, or `Single` throws for the employee at `index`, and the loop stops. */
  datatype Outcome = Completed | Threw(index: nat, error: SingleError)

  /** How many employees the `foreach` body assigned before it ended. */
  function Processed(o: Outcome, n: nat): nat
  {
    if o.Threw? then o.index else n
  }

  /** The outcome of running the lookups in order: the first one that throws, if any. */
  function FirstThrow<T>(lookups: seq<SingleResult<T>>): (o: Outcome)
    ensures o.Threw? ==> o.index < |lookups| && lookups[o.index] == Throws(o.error)
    ensures forall j :: 0 <= j < Processed(o, |lookups|) ==> lookups[j].Found?
  {
    if lookups == [] then Completed
    else if lookups[0].Throws? then Threw(0, lookups[0].error)
    else match FirstThrow(lookups[1..])
      case Completed => Completed
      case Threw(i, err) => Threw(i + 1, err)
  }

  /** The assignments the `foreach` body makes: each employee before the
      first lookup that throws, paired with the record its lookup found. */
  function FoundPrefix<A, T>(staff: seq<A>, lookups: seq<SingleResult<T>>): (w: seq<(A, T)>)
    requires |staff| == |lookups|
    ensures |w| == Processed(FirstThrow(lookups), |staff|)
    ensures forall j :: 0 <= j < |w| ==> lookups[j].Found? && w[j] == (staff[j], lookups[j].value)
  {
    if staff == [] || lookups[0].Throws? then []
    else [(staff[0], lookups[0].value)] + FoundPrefix(staff[1..], lookups[1..])
  }

  /** When every lookup succeeds, the loop runs to the end. */
  lemma FirstThrowCompleted<T>(lookups: seq<SingleResult<T>>)
    requires forall j :: 0 <= j < |lookups| ==> lookups[j].Found?
    ensures FirstThrow(lookups) == Completed
  {
  }

  /** A lookup that throws after lookups that all succeed is where the loop stops. */
  lemma {:induction false} FirstThrowAt<T>(lookups: seq<SingleResult<T>>, i: nat)
    requires i < |lookups| && lookups[i].Throws?
    requires forall j :: 0 <= j < i ==> lookups[j].Found?
    ensures FirstThrow(lookups) == Threw(i, lookups[i].error)
  {
    if i > 0 {
      assert forall j :: 0 <= j < |lookups| - 1 ==> lookups[1..][j] == lookups[j + 1];
      FirstThrowAt(lookups[1..], i - 1);
    }
  }

  /** The value the last of the given assignments left on x, or init when
      none of them was to x. */
  function LastAssigned<A(==), T>(assignments: seq<(A, T)>, x: A, init: Option<T>): Option<T>
  {
    if assignments == [] then init
    else if assignments[|assignments| - 1].0 == x then Some(assignments[|assignments| - 1].1)
    else LastAssigned(assignments[..|assignments| - 1], x, init)
  }

  /** When every assignment to x writes v, and there is one, x ends up holding v. */
  lemma {:induction false} LastAssignedUniform<A, T>(assignments: seq<(A, T)>, x: A, v: T, init: Option<T>)
    requires exists k :: 0 <= k < |assignments| && assignments[k].0 == x
    requires forall k :: 0 <= k < |assignments| && assignments[k].0 == x ==> assignments[k].1 == v
    ensures LastAssigned(assignments, x, init) == Some(v)
  {
    var n := |assignments| - 1;
    if assignments[n].0 != x {
      var k :| 0 <= k < |assignments| && assignments[k].0 == x;
      assert forall m :: 0 <= m < n ==> assignments[..n][m] == assignments[m];
      assert k < n && assignments[..n][k] == assignments[k];
      LastAssignedUniform(assignments[..n], x, v, init);
    }
  }

  /** Adding one assignment at the end: it decides x when it is to x, and
      otherwise x keeps what the earlier ones left. */
  lemma LastAssignedStep<A, T>(assignments: seq<(A, T)>, k: nat, x: A, init: Option<T>)
    requires k < |assignments|
    ensures LastAssigned(assignments[..k + 1], x, init)
         == if assignments[k].0 == x then Some(assignments[k].1) else LastAssigned(assignments[..k], x, init)
  {
    assert assignments[..k + 1][..k] == assignments[..k];
  }

  /** An employee that no assignment names keeps what it held. */
  lemma {:induction false} LastAssignedUntouched<A, T>(assignments: seq<(A, T)>, x: A, init: Option<T>)
    requires forall k :: 0 <= k < |assignments| ==> assignments[k].0 != x
    ensures LastAssigned(assignments, x, init) == init
  {
    if assignments != [] {
      LastAssignedUntouched(assignments[..|assignments| - 1], x, init);
    }
  }

  /** The assignments a `foreach` body makes: the looked-up value of each of
      the first employees in turn. When the lookup depends only on the
      employee, every employee of that prefix ends up holding its own
      looked-up value, and no other employee is touched. */
  lemma {:induction false} LookupWritesSettle<A, T>(staff: seq<A>, lookups: seq<SingleResult<T>>, writes: seq<(A, T)>)
    requires |lookups| == |staff| && |writes| <= |staff|
    requires forall j, k :: 0 <= j < |staff| && 0 <= k < |staff| && staff[j] == staff[k] ==> lookups[j] == lookups[k]
    requires forall j :: 0 <= j < |writes| ==> lookups[j].Found? && writes[j] == (staff[j], lookups[j].value)
    ensures forall j, init :: 0 <= j < |writes| ==> LastAssigned(writes, staff[j], init) == Some(lookups[j].value)
    ensures forall e, init :: e !in staff[..|writes|] ==> LastAssigned(writes, e, init) == init
  {
    if writes != [] {
      var n := |writes| - 1;
      var w := writes[..n];
      assert forall j :: 0 <= j < n ==> w[j] == writes[j];
      LookupWritesSettle(staff, lookups, w);
      assert staff[..n + 1] == staff[..n] + [staff[n]];
    }
  }

  /** The same for the assignments the `foreach` body makes before the first
      lookup that throws, with each employee's lookup given as a function. */
  lemma FoundPrefixSettles<A, T>(staff: seq<A>, lookup: A -> SingleResult<T>)
    ensures var writes := FoundPrefix(staff, Select(staff, lookup));
      (forall j :: 0 <= j < |writes| ==> lookup(staff[j]).Found?) &&
      (forall j, init :: 0 <= j < |writes| ==> LastAssigned(writes, staff[j], init) == Some(lookup(staff[j]).value)) &&
      (forall e, init :: e !in staff[..|writes|] ==> LastAssigned(writes, e, init) == init)
  {
    LookupWritesSettle(staff, Select(staff, lookup), FoundPrefix(staff, Select(staff, lookup)));
  }

  /** When no department lookup throws, the join keeps the employee list one
      for one and in order, pairing each employee with the department `Single` finds. */
  lemma DepartmentJoinIsOneToOne(employees: seq<Employee>, departments: seq<Department>)
    requires FirstThrow(DepartmentLookups(departments, employees)) == Completed
    ensures forall j :: 0 <= j < |employees| ==> DepartmentOf(departments, employees[j]).Found?
    ensures var pairs := DepartmentPairs(employees, departments);
      |pairs| == |employees| &&
      forall j :: 0 <= j < |employees| ==> pairs[j] == (employees[j], DepartmentOf(departments, employees[j]).value)
  {
    forall j | 0 <= j < |employees|
      ensures Single(departments, KeyIs(DepartmentKey, EmployeeDepartmentKey(employees[j]))) == DepartmentOf(departments, employees[j])
    {
      DepartmentPredicateIsKeyMatch(departments, employees[j].departmentId);
    }
    JoinOneToOne<Employee, Department, int, (Employee, Department)>(employees, departments, EmployeeDepartmentKey, DepartmentKey, Pair);
  }

  /** When no department lookup throws, running the join's result selector
      over the pairs leaves each employee holding the department `Single` finds. */
  lemma DepartmentJoinAssigns(employees: seq<Employee>, departments: seq<Department>, j: nat, init: Option<Department>)
    requires FirstThrow(DepartmentLookups(departments, employees)) == Completed
    requires j < |employees|
    ensures DepartmentOf(departments, employees[j]).Found?
    ensures LastAssigned(DepartmentPairs(employees, departments), employees[j], init)
         == Some(DepartmentOf(departments, employees[j]).value)
  {
    DepartmentJoinIsOneToOne(employees, departments);
    var pairs := DepartmentPairs(employees, departments);
    assert pairs[j].0 == employees[j];
    LastAssignedUniform(pairs, employees[j], DepartmentOf(departments, employees[j]).value, init);
  }

  /** `DepartmentJoinAssigns` for every employee and every starting value at once. */
  lemma DepartmentJoinAssignsAll(employees: seq<Employee>, departments: seq<Department>)
    requires FirstThrow(DepartmentLookups(departments, employees)) == Completed
    ensures forall j, init :: 0 <= j < |employees| ==>
      DepartmentOf(departments, employees[j]).Found? &&
      LastAssigned(DepartmentPairs(employees, departments), employees[j], init) == Some(DepartmentOf(departments, employees[j]).value)
  {
    forall j, init | 0 <= j < |employees|
      ensures DepartmentOf(departments, employees[j]).Found?
      ensures LastAssigned(DepartmentPairs(employees, departments), employees[j], init) == Some(DepartmentOf(departments, employees[j]).value)
    {
      DepartmentJoinAssigns(employees, departments, j, init);
    }
  }

  /** When no salary lookup throws, the composite-key join keeps the employee
      list one for one and in order, pairing each employee with the salary `Single` finds. */
  lemma SalaryJoinIsOneToOne(employees: seq<Employee>, salaries: seq<Salary>)
    requires FirstThrow(SalaryLookups(salaries, employees)) == Completed
    ensures forall j :: 0 <= j < |employees| ==> SalaryOf(salaries, employees[j]).Found?
    ensures var pairs := SalaryPairs(employees, salaries);
      |pairs| == |employees| &&
      forall j :: 0 <= j < |employees| ==> pairs[j] == (employees[j], SalaryOf(salaries, employees[j]).value)
  {
    forall j | 0 <= j < |employees|
      ensures Single(salaries, KeyIs(SalaryKeyOf, EmployeeSalaryKey(employees[j]))) == SalaryOf(salaries, employees[j])
    {
      GradePredicateIsKeyMatch(salaries, employees[j]);
    }
    JoinOneToOne<Employee, Salary, SalaryKey, (Employee, Salary)>(employees, salaries, EmployeeSalaryKey, SalaryKeyOf, Pair);
  }

  /** When no salary lookup throws, running the join's result selector over
      the pairs leaves each employee holding the salary `Single` finds. */
  lemma SalaryJoinAssigns(employees: seq<Employee>, salaries: seq<Salary>, j: nat, init: Option<Salary>)
    requires FirstThrow(SalaryLookups(salaries, employees)) == Completed
    requires j < |employees|
    ensures SalaryOf(salaries, employees[j]).Found?
    ensures LastAssigned(SalaryPairs(employees, salaries), employees[j], init)
         == Some(SalaryOf(salaries, employees[j]).value)
  {
    SalaryJoinIsOneToOne(employees, salaries);
    var pairs := SalaryPairs(employees, salaries);
    assert pairs[j].0 == employees[j];
    LastAssignedUniform(pairs, employees[j], SalaryOf(salaries, employees[j]).value, init);
  }

  /** `SalaryJoinAssigns` for every employee and every starting value at once. */
  lemma SalaryJoinAssignsAll(employees: seq<Employee>, salaries: seq<Salary>)
    requires FirstThrow(SalaryLookups(salaries, employees)) == Completed
    ensures forall j, init :: 0 <= j < |employees| ==>
      SalaryOf(salaries, employees[j]).Found? &&
      LastAssigned(SalaryPairs(employees, salaries), employees[j], init) == Some(SalaryOf(salaries, employees[j]).value)
  {
    forall j, init | 0 <= j < |employees|
      ensures SalaryOf(salaries, employees[j]).Found?
      ensures LastAssigned(SalaryPairs(employees, salaries), employees[j], init) == Some(SalaryOf(salaries, employees[j]).value)
    {
      SalaryJoinAssigns(employees, salaries, j, init);
    }
  }

  /** The other direction: an employee whose `Single` department lookup
      finds no match, so that the `foreach` body throws there, is in no pair
      of the join, which leaves its department as it was. */
  lemma DepartmentJoinDropsUnmatched(employees: seq<Employee>, departments: seq<Department>, e: Employee, init: Option<Department>)
    requires DepartmentOf(departments, e) == Throws(NoMatch)
    ensures LastAssigned(DepartmentPairs(employees, departments), e, init) == init
  {
    var pairs := DepartmentPairs(employees, departments);
    JoinPairsMatch<Employee, Department, int>(employees, departments, EmployeeDepartmentKey, DepartmentKey);
    assert Where(departments, DepartmentIdIs(e.departmentId)) == [];
    assert forall i :: 0 <= i < |departments| ==> !DepartmentIdIs(e.departmentId)(departments[i]);
    forall k | 0 <= k < |pairs|
      ensures pairs[k].0 != e
    {
      assert pairs[k] in pairs;
      assert pairs[k].1.id != e.departmentId;
    }
    LastAssignedUntouched(pairs, e, init);
  }

  /** The same for the salary join: no matching grade, no pair. */
  lemma SalaryJoinDropsUnmatched(employees: seq<Employee>, salaries: seq<Salary>, e: Employee, init: Option<Salary>)
    requires SalaryOf(salaries, e) == Throws(NoMatch)
    ensures LastAssigned(SalaryPairs(employees, salaries), e, init) == init
  {
    var pairs := SalaryPairs(employees, salaries);
    JoinPairsMatch<Employee, Salary, SalaryKey>(employees, salaries, EmployeeSalaryKey, SalaryKeyOf);
    assert Where(salaries, GradeIs(e.departmentId, e.rank)) == [];
    assert forall i :: 0 <= i < |salaries| ==> !GradeIs(e.departmentId, e.rank)(salaries[i]);
    forall k | 0 <= k < |pairs|
      ensures pairs[k].0 != e
    {
      assert pairs[k] in pairs;
      assert SalaryKeyOf(pairs[k].1) != EmployeeSalaryKey(e);
    }
    LastAssignedUntouched(pairs, e, init);
  }

  /** The group join pairs every employee, one for one and in order, with
      the equipment whose custodian is its id: the list the `foreach` body's
      `Where` gives. */
  lemma EquipmentGroupsAreFilters(employees: seq<Employee>, equipments: seq<Equipment>)
    ensures var groups := EquipmentGroups(employees, equipments);
      |groups| == |employees| &&
      forall j :: 0 <= j < |employees| ==> groups[j] == (employees[j], Where(equipments, CustodianIs(employees[j].id)))
  {
    GroupJoinIsFilter<Employee, Equipment, int, (Employee, seq<Equipment>)>(employees, equipments, EmployeeIdKey, CustodianKey, Pair);
    forall j | 0 <= j < |employees|
      ensures Where(equipments, KeyIs(CustodianKey, EmployeeIdKey(employees[j]))) == Where(equipments, CustodianIs(employees[j].id))
    {
      CustodianPredicateIsKeyMatch(equipments, employees[j].id);
    }
  }

  /** Running the group join's result selector over its pairs leaves every
      employee holding its own equipment list, whatever it held before. */
  lemma EquipmentJoinAssignsAll(employees: seq<Employee>, equipments: seq<Equipment>)
    ensures forall j, init :: 0 <= j < |employees| ==>
      LastAssigned(EquipmentGroups(employees, equipments), employees[j], init) == Some(Where(equipments, CustodianIs(employees[j].id)))
  {
    var groups := EquipmentGroups(employees, equipments);
    EquipmentGroupsAreFilters(employees, equipments);
    forall j, init | 0 <= j < |employees|
      ensures LastAssigned(groups, employees[j], init) == Some(Where(equipments, CustodianIs(employees[j].id)))
    {
      assert groups[j].0 == employees[j];
      LastAssignedUniform(groups, employees[j], Where(equipments, CustodianIs(employees[j].id)), init);
    }
  }

  /** The department ids of `Department.CreateDummies` are 1 to 10 and
      distinct, so every id in that range has exactly one department. */
  lemma DepartmentDummiesUnique(guid: int -> string, departmentId: int)
    requires 1 <= departmentId <= 10
    ensures Single(Department.CreateDummies(guid), DepartmentIdIs(departmentId)) == Found(Department(departmentId, guid(departmentId)))
  {
    var departments := Department.CreateDummies(guid);
    assert DistinctKeys(departments, DepartmentKey);
    WhereDistinctKey(departments, DepartmentKey, departmentId - 1);
    DepartmentPredicateIsKeyMatch(departments, departmentId);
  }

  /** No two salaries of the grid share a (department id, rank) pair. */
  lemma SalaryKeysDistinct(salaries: seq<Salary>)
    requires IsSalaryGrid(salaries)
    ensures DistinctKeys(salaries, SalaryKeyOf)
  {
  }

  /** The (department id, rank) pairs of the grid are distinct and cover
      1..10 by 1..3, so every pair in that range has exactly one salary,
      whose amount is departmentId * 10000 + rank * 1000. */
  lemma GridSalaryUnique(salaries: seq<Salary>, departmentId: int, rank: int)
    requires IsSalaryGrid(salaries)
    requires 1 <= departmentId <= 10 && 1 <= rank <= 3
    ensures Single(salaries, GradeIs(departmentId, rank))
         == Found(Salary(departmentId, rank, departmentId * 10000 + rank * 1000))
  {
    SalaryKeysDistinct(salaries);
    var j := 3 * (departmentId - 1) + (rank - 1);
    assert j / 3 == departmentId - 1 && j % 3 == rank - 1;
    var key := SalaryKey(departmentId, rank);
    assert SalaryKeyOf(salaries[j]) == key;
    WhereDistinctKey(salaries, SalaryKeyOf, j);
    forall i | 0 <= i < |salaries|
      ensures GradeIs(departmentId, rank)(salaries[i]) == KeyIs(SalaryKeyOf, key)(salaries[i])
    {
      assert KeyIs(SalaryKeyOf, key)(salaries[i]) == (SalaryKeyOf(salaries[i]) == key);
    }
    WhereExtensional(salaries, GradeIs(departmentId, rank), KeyIs(SalaryKeyOf, key));
    assert Where(salaries, GradeIs(departmentId, rank)) == [salaries[j]];
  }

  /** On the fixtures no department lookup throws, and each employee gets the
      department of its department id. */
  lemma FixtureDepartmentsAlwaysFound(employees: seq<Employee>, guid: int -> string)
    requires IsEmployeeFixture(employees)
    ensures FirstThrow(DepartmentLookups(Department.CreateDummies(guid), employees)) == Completed
    ensures forall j :: 0 <= j < |employees| ==>
      DepartmentOf(Department.CreateDummies(guid), employees[j])
        == Found(Department(employees[j].departmentId, guid(employees[j].departmentId)))
  {
    var departments := Department.CreateDummies(guid);
    var lookups := DepartmentLookups(departments, employees);
    forall j | 0 <= j < |employees|
      ensures DepartmentOf(departments, employees[j]) == Found(Department(employees[j].departmentId, guid(employees[j].departmentId)))
      ensures lookups[j].Found?
    {
      DepartmentDummiesUnique(guid, employees[j].departmentId);
    }
    FirstThrowCompleted(lookups);
  }

  /** Against the salary grid no composite-key lookup of a fixture employee
      throws: employee ranks are in [1, 4), so every (department id, rank)
      pair is in the grid. */
  lemma GridSalariesAlwaysFound(employees: seq<Employee>, salaries: seq<Salary>)
    requires IsEmployeeFixture(employees) && IsSalaryGrid(salaries)
    ensures FirstThrow(SalaryLookups(salaries, employees)) == Completed
    ensures forall j :: 0 <= j < |employees| ==>
      var e := employees[j];
      SalaryOf(salaries, e) == Found(Salary(e.departmentId, e.rank, e.departmentId * 10000 + e.rank * 1000))
  {
    var lookups := SalaryLookups(salaries, employees);
    forall j | 0 <= j < |employees|
      ensures SalaryOf(salaries, employees[j])
           == Found(Salary(employees[j].departmentId, employees[j].rank, employees[j].departmentId * 10000 + employees[j].rank * 1000))
      ensures lookups[j].Found?
    {
      var e := employees[j];
      GridSalaryUnique(salaries, e.departmentId, e.rank);
      assert SalaryOf(salaries, e) == Single(salaries, GradeIs(e.departmentId, e.rank));
    }
    FirstThrowCompleted(lookups);
  }

  /** On the fixtures no composite-key salary lookup throws, and each
      employee gets the salary of its grade. */
  lemma FixtureSalariesAlwaysFound(employees: seq<Employee>)
    requires IsEmployeeFixture(employees)
    ensures FirstThrow(SalaryLookups(Salary.CreateDummies(), employees)) == Completed
    ensures forall j :: 0 <= j < |employees| ==>
      var e := employees[j];
      SalaryOf(Salary.CreateDummies(), e) == Found(Salary(e.departmentId, e.rank, e.departmentId * 10000 + e.rank * 1000))
  {
    SalaryGrid();
    GridSalariesAlwaysFound(employees, Salary.CreateDummies());
  }

  /** On the fixtures every equipment item's custodian is exactly one
      employee's id, so the groups partition the 1000 items: the group sizes
      add up to the equipment count. */
  lemma FixtureEquipmentPartitioned(employees: seq<Employee>, guid: int -> string, custodianDraw: int -> int)
    requires IsEmployeeFixture(employees)
    requires forall id :: 1 <= id <= 1000 ==> 1 <= custodianDraw(id) < 101
    ensures var equipments := Equipment.CreateDummies(guid, custodianDraw);
      (forall i :: 0 <= i < |equipments| ==> KeyCount(employees, EmployeeIdKey, equipments[i].custodian) == 1) &&
      GroupTotal(employees, equipments, EmployeeIdKey, CustodianKey) == 1000
  {
    var equipments := Equipment.CreateDummies(guid, custodianDraw);
    assert DistinctKeys(employees, EmployeeIdKey);
    forall i | 0 <= i < |equipments|
      ensures exists j :: 0 <= j < |employees| && EmployeeIdKey(employees[j]) == CustodianKey(equipments[i])
    {
      var j := equipments[i].custodian - 1;
      assert EmployeeIdKey(employees[j]) == CustodianKey(equipments[i]);
    }
    GroupsPartitionInner(employees, equipments, EmployeeIdKey, CustodianKey);
  }

  /** The department benchmark on the lists `Setup` builds: the `foreach`
      body runs to the end, the join keeps the employee list one for one and
      in order, and both bodies give every employee the department of its
      department id. */
  lemma FixtureDepartmentBodiesAgree(employees: seq<Employee>, guid: int -> string)
    requires IsEmployeeFixture(employees)
    ensures var departments := Department.CreateDummies(guid);
      var pairs := DepartmentPairs(employees, departments);
      FirstThrow(DepartmentLookups(departments, employees)) == Completed &&
      |pairs| == |employees| &&
      (forall j :: 0 <= j < |employees| ==> pairs[j].0 == employees[j]) &&
      forall j, init :: 0 <= j < |employees| ==>
        var d := Department(employees[j].departmentId, guid(employees[j].departmentId));
        DepartmentOf(departments, employees[j]) == Found(d) &&
        LastAssigned(pairs, employees[j], init) == Some(d)
  {
    var departments := Department.CreateDummies(guid);
    FixtureDepartmentsAlwaysFound(employees, guid);
    DepartmentJoinIsOneToOne(employees, departments);
    DepartmentJoinAssignsAll(employees, departments);
  }

  /** The salary benchmark on the lists `Setup` builds: the `foreach` body
      runs to the end, the join keeps the employee list one for one and in
      order, and both bodies give every employee the salary of its grade. */
  lemma FixtureSalaryBodiesAgree(employees: seq<Employee>, salaries: seq<Salary>)
    requires IsEmployeeFixture(employees) && salaries == Salary.CreateDummies()
    ensures var pairs := SalaryPairs(employees, salaries);
      FirstThrow(SalaryLookups(salaries, employees)) == Completed &&
      |pairs| == |employees| &&
      (forall j :: 0 <= j < |employees| ==> pairs[j].0 == employees[j]) &&
      forall j, init :: 0 <= j < |employees| ==>
        var e := employees[j];
        var s := Salary(e.departmentId, e.rank, e.departmentId * 10000 + e.rank * 1000);
        SalaryOf(salaries, e) == Found(s) && LastAssigned(pairs, e, init) == Some(s)
  {
    SalaryGrid();
    GridSalariesAlwaysFound(employees, salaries);
    SalaryJoinIsOneToOne(employees, salaries);
    SalaryJoinAssignsAll(employees, salaries);
  }

  /** The equipment benchmark on the lists `Setup` builds: both bodies give
      every employee the items whose custodian is its id, in list order, and
      those lists share out the 1000 items. */
  lemma FixtureEquipmentBodiesAgree(employees: seq<Employee>, equipments: seq<Equipment>, guid: int -> string, custodianDraw: int -> int)
    requires IsEmployeeFixture(employees)
    requires forall id :: 1 <= id <= 1000 ==> 1 <= custodianDraw(id) < 101
    requires equipments == Equipment.CreateDummies(guid, custodianDraw)
    ensures var groups := EquipmentGroups(employees, equipments);
      |groups| == |employees| &&
      (forall j :: 0 <= j < |employees| ==> groups[j].0 == employees[j]) &&
      (forall j, init :: 0 <= j < |employees| ==>
        LastAssigned(groups, employees[j], init) == Some(Where(equipments, CustodianIs(employees[j].id)))) &&
      GroupTotal(employees, equipments, EmployeeIdKey, CustodianKey) == 1000
  {
    EquipmentGroupsAreFilters(employees, equipments);
    EquipmentJoinAssignsAll(employees, equipments);
    FixtureEquipmentPartitioned(employees, guid, custodianDraw);
  }

  /** `JoinBenchmark`: employees to departments, one to one on a single key. */
  class JoinBenchmark {
    var employees: seq<Employee>
    var departments: seq<Department>

    method Setup(draw: int -> EmployeeDraw, guid: int -> string)
      requires forall id :: 1 <= id <= 100 ==> IsEmployeeDraw(draw(id))
      modifies this
      ensures IsEmployeeFixture(employees) && departments == Department.CreateDummies(guid)
      ensures DrawnBy(employees, draw)
      ensures forall e :: e in employees ==> fresh(e) && e.Unjoined()
    {
      employees := Employee.CreateDummies(draw);
      departments := Department.CreateDummies(guid);
    }

    /** `EmployeesJoinDepartmentsByForEach`: each employee in turn gets the
        single department with its department id; the first lookup that
        throws ends the loop, leaving the employees before it assigned and
        the rest as they were. Only `Department` properties are written. */
    method EmployeesJoinDepartmentsByForEach() returns (outcome: Outcome)
      modifies employees`department
      ensures outcome == FirstThrow(DepartmentLookups(departments, employees))
      ensures forall j :: 0 <= j < Processed(outcome, |employees|) ==>
        DepartmentOf(departments, employees[j]).Found? &&
        employees[j].department == Some(DepartmentOf(departments, employees[j]).value)
      ensures forall e :: e in employees && e !in employees[..Processed(outcome, |employees|)] ==>
        e.department == old(e.department)
    {
      outcome := AttachDepartments(employees, DepartmentLookup(departments));
    }

    /** The `foreach` loop: runs the lookup for each employee in turn and
        writes what it found on the employee, until a lookup throws. */
    static method AttachDepartments(staff: seq<Employee>, lookup: Employee -> SingleResult<Department>) returns (outcome: Outcome)
      modifies staff`department
      ensures outcome == FirstThrow(Select(staff, lookup))
      ensures forall j :: 0 <= j < Processed(outcome, |staff|) ==>
        lookup(staff[j]).Found? && staff[j].department == Some(lookup(staff[j]).value)
      ensures forall e :: e in staff && e !in staff[..Processed(outcome, |staff|)] ==>
        e.department == old(e.department)
    {
      ghost var lookups := Select(staff, lookup);
      ghost var writes := FoundPrefix<Employee, Department>(staff, lookups);
      outcome := Completed;
      var i := 0;
      while i < |staff|
        invariant i <= |writes| && outcome == Completed
        invariant forall e :: e in staff ==> e.department == LastAssigned(writes[..i], e, old(e.department))
      {
        var found := lookup(staff[i]);
        if found.Throws? {
          FirstThrowAt(lookups, i);
          outcome := Threw(i, found.error);
          break;
        }
        staff[i].department := Some(found.value);
        forall e | e in staff
          ensures e.department == LastAssigned(writes[..i + 1], e, old(e.department))
        {
          LastAssignedStep(writes, i, e, old(e.department));
        }
        i := i + 1;
      }
      assert writes[..i] == writes;
      FoundPrefixSettles(staff, lookup);
      assert writes == FoundPrefix(staff, Select(staff, lookup));
      forall j | 0 <= j < |writes|
        ensures lookup(staff[j]).Found? && staff[j].department == Some(lookup(staff[j]).value)
      {
        assert staff[j] in staff;
      }
    }

    /** `EmployeesJoinDepartmentsByJoin`: the result selector of the join is
        run for every (employee, department) pair in join order, writes the
        department on the employee and returns the employee; the list becomes
        the returned employees. When no `Single` lookup would throw, the list
        is unchanged and every employee holds the department the `foreach`
        body assigns. */
    method EmployeesJoinDepartmentsByJoin()
      modifies this`employees, employees`department
      ensures var pairs := DepartmentPairs(old(employees), departments);
        |employees| == |pairs| &&
        (forall k :: 0 <= k < |pairs| ==> employees[k] == pairs[k].0) &&
        forall e :: e in old(employees) ==> e.department == LastAssigned(pairs, e, old(e.department))
      ensures FirstThrow(DepartmentLookups(departments, old(employees))) == Completed ==>
        employees == old(employees) &&
        forall j :: 0 <= j < |employees| ==>
          DepartmentOf(departments, employees[j]).Found? &&
          employees[j].department == Some(DepartmentOf(departments, employees[j]).value)
    {
      var outer := employees;
      var pairs := DepartmentPairs(outer, departments);
      JoinPairsMatch<Employee, Department, int>(outer, departments, EmployeeDepartmentKey, DepartmentKey);
      employees := AssignDepartments(outer, pairs);
      if FirstThrow(DepartmentLookups(departments, outer)) == Completed {
        DepartmentJoinIsOneToOne(outer, departments);
        assert employees == outer;
        DepartmentJoinAssignsAll(outer, departments);
      }
    }

    /** Enumerating the join runs the result selector on each pair in turn:
        it writes the department on the employee and returns the employee,
        and the list built is the employees it returns. */
    static method AssignDepartments(outer: seq<Employee>, pairs: seq<(Employee, Department)>) returns (joined: seq<Employee>)
      requires forall k :: 0 <= k < |pairs| ==> pairs[k].0 in outer
      modifies outer`department
      ensures |joined| == |pairs| && forall k :: 0 <= k < |pairs| ==> joined[k] == pairs[k].0
      ensures forall e :: e in outer ==> e.department == LastAssigned(pairs, e, old(e.department))
    {
      joined := [];
      for k := 0 to |pairs|
        invariant |joined| == k && forall m :: 0 <= m < k ==> joined[m] == pairs[m].0
        invariant forall e :: e in outer ==> e.department == LastAssigned(pairs[..k], e, old(e.department))
      {
        var emp := pairs[k].0;
        emp.department := Some(pairs[k].1);
        joined := joined + [emp];
        forall e | e in outer
          ensures e.department == LastAssigned(pairs[..k + 1], e, old(e.department))
        {
          LastAssignedStep(pairs, k, e, old(e.department));
        }
      }
      assert pairs[..|pairs|] == pairs;
    }
  }

  /** `GroupJoinBenchmark`: employees to equipment, one to many. */
  class GroupJoinBenchmark {
    var employees: seq<Employee>
    var equipments: seq<Equipment>

    method Setup(draw: int -> EmployeeDraw, guid: int -> string, custodianDraw: int -> int)
      requires forall id :: 1 <= id <= 100 ==> IsEmployeeDraw(draw(id))
      requires forall id :: 1 <= id <= 1000 ==> 1 <= custodianDraw(id) < 101
      modifies this
      ensures IsEmployeeFixture(employees) && equipments == Equipment.CreateDummies(guid, custodianDraw)
      ensures DrawnBy(employees, draw)
      ensures forall e :: e in employees ==> fresh(e) && e.Unjoined()
    {
      employees := Employee.CreateDummies(draw);
      equipments := Equipment.CreateDummies(guid, custodianDraw);
    }

    /** `EmployeesJoinEquipmentsByForEach`: every employee gets the equipment
        it is custodian of, in equipment-list order, or an empty list. Only
        `Equipments` properties are written. */
    method EmployeesJoinEquipmentsByForEach()
      modifies employees`equipments
      ensures forall e :: e in employees ==> e.equipments == Some(Where(equipments, CustodianIs(e.id)))
    {
      for i := 0 to |employees|
        invariant forall j :: 0 <= j < i ==> employees[j].equipments == Some(Where(equipments, CustodianIs(employees[j].id)))
      {
        employees[i].equipments := Some(Where(equipments, CustodianIs(employees[i].id)));
      }
    }

    /** `EmployeesJoinEquipmentsByJoin`: the result selector of the group
        join is run once per employee, in list order, with that employee's
        group. The list comes back as it was, and every employee holds the
        same list the `foreach` body assigns. */
    method EmployeesJoinEquipmentsByJoin()
      modifies this`employees, employees`equipments
      ensures employees == old(employees)
      ensures forall e :: e in employees ==> e.equipments == Some(Where(equipments, CustodianIs(e.id)))
    {
      var outer := employees;
      var groups := EquipmentGroups(outer, equipments);
      EquipmentGroupsAreFilters(outer, equipments);
      employees := AssignEquipments(outer, groups);
      assert employees == outer;
      EquipmentJoinAssignsAll(outer, equipments);
    }

    /** Enumerating the group join runs the result selector on each pair in
        turn: it writes a copy of the group on the employee and returns the
        employee, and the list built is the employees it returns. */
    static method AssignEquipments(outer: seq<Employee>, groups: seq<(Employee, seq<Equipment>)>) returns (joined: seq<Employee>)
      requires forall k :: 0 <= k < |groups| ==> groups[k].0 in outer
      modifies outer`equipments
      ensures |joined| == |groups| && forall k :: 0 <= k < |groups| ==> joined[k] == groups[k].0
      ensures forall e :: e in outer ==> e.equipments == LastAssigned(groups, e, old(e.equipments))
    {
      joined := [];
      for k := 0 to |groups|
        invariant |joined| == k && forall m :: 0 <= m < k ==> joined[m] == groups[m].0
        invariant forall e :: e in outer ==> e.equipments == LastAssigned(groups[..k], e, old(e.equipments))
      {
        var emp := groups[k].0;
        emp.equipments := Some(groups[k].1);
        joined := joined + [emp];
        forall e | e in outer
          ensures e.equipments == LastAssigned(groups[..k + 1], e, old(e.equipments))
        {
          LastAssignedStep(groups, k, e, old(e.equipments));
        }
      }
      assert groups[..|groups|] == groups;
    }
  }

  /** `JoinWithMultipleKeysBenchmark`: employees to salaries, one to one on
      the composite key (department id, rank). */
  class JoinWithMultipleKeysBenchmark {
    var employees: seq<Employee>
    var salaries: seq<Salary>

    method Setup(draw: int -> EmployeeDraw)
      requires forall id :: 1 <= id <= 100 ==> IsEmployeeDraw(draw(id))
      modifies this
      ensures IsEmployeeFixture(employees) && salaries == Salary.CreateDummies()
      ensures DrawnBy(employees, draw)
      ensures forall e :: e in employees ==> fresh(e) && e.Unjoined()
    {
      employees := Employee.CreateDummies(draw);
      salaries := Salary.CreateDummies();
    }

    /** `EmployeesJoinSalarysByForEach`: each employee in turn gets the single
        salary with its department id and rank; the first lookup that throws
        ends the loop. Only `Salary` properties are written. */
    method EmployeesJoinSalarysByForEach() returns (outcome: Outcome)
      modifies employees`salary
      ensures outcome == FirstThrow(SalaryLookups(salaries, employees))
      ensures forall j :: 0 <= j < Processed(outcome, |employees|) ==>
        SalaryOf(salaries, employees[j]).Found? &&
        employees[j].salary == Some(SalaryOf(salaries, employees[j]).value)
      ensures forall e :: e in employees && e !in employees[..Processed(outcome, |employees|)] ==>
        e.salary == old(e.salary)
    {
      outcome := AttachSalaries(employees, SalaryLookup(salaries));
    }

    /** The `foreach` loop: runs the lookup for each employee in turn and
        writes what it found on the employee, until a lookup throws. */
    static method AttachSalaries(staff: seq<Employee>, lookup: Employee -> SingleResult<Salary>) returns (outcome: Outcome)
      modifies staff`salary
      ensures outcome == FirstThrow(Select(staff, lookup))
      ensures forall j :: 0 <= j < Processed(outcome, |staff|) ==>
        lookup(staff[j]).Found? && staff[j].salary == Some(lookup(staff[j]).value)
      ensures forall e :: e in staff && e !in staff[..Processed(outcome, |staff|)] ==>
        e.salary == old(e.salary)
    {
      ghost var lookups := Select(staff, lookup);
      ghost var writes := FoundPrefix<Employee, Salary>(staff, lookups);
      outcome := Completed;
      var i := 0;
      while i < |staff|
        invariant i <= |writes| && outcome == Completed
        invariant forall e :: e in staff ==> e.salary == LastAssigned(writes[..i], e, old(e.salary))
      {
        var found := lookup(staff[i]);
        if found.Throws? {
          FirstThrowAt(lookups, i);
          outcome := Threw(i, found.error);
          break;
        }
        staff[i].salary := Some(found.value);
        forall e | e in staff
          ensures e.salary == LastAssigned(writes[..i + 1], e, old(e.salary))
        {
          LastAssignedStep(writes, i, e, old(e.salary));
        }
        i := i + 1;
      }
      assert writes[..i] == writes;
      FoundPrefixSettles(staff, lookup);
      assert writes == FoundPrefix(staff, Select(staff, lookup));
      forall j | 0 <= j < |writes|
        ensures lookup(staff[j]).Found? && staff[j].salary == Some(lookup(staff[j]).value)
      {
        assert staff[j] in staff;
      }
    }

    /** `EmployeesJoinSalarysByJoin`: the composite-key join, with a result
        selector that writes the salary on the employee and returns it. When
        no `Single` lookup would throw, the list is unchanged and every
        employee holds the salary the `foreach` body assigns. */
    method EmployeesJoinSalarysByJoin()
      modifies this`employees, employees`salary
      ensures var pairs := SalaryPairs(old(employees), salaries);
        |employees| == |pairs| &&
        (forall k :: 0 <= k < |pairs| ==> employees[k] == pairs[k].0) &&
        forall e :: e in old(employees) ==> e.salary == LastAssigned(pairs, e, old(e.salary))
      ensures FirstThrow(SalaryLookups(salaries, old(employees))) == Completed ==>
        employees == old(employees) &&
        forall j :: 0 <= j < |employees| ==>
          SalaryOf(salaries, employees[j]).Found? &&
          employees[j].salary == Some(SalaryOf(salaries, employees[j]).value)
    {
      var outer := employees;
      var pairs := SalaryPairs(outer, salaries);
      JoinPairsMatch<Employee, Salary, SalaryKey>(outer, salaries, EmployeeSalaryKey, SalaryKeyOf);
      employees := AssignSalaries(outer, pairs);
      if FirstThrow(SalaryLookups(salaries, outer)) == Completed {
        SalaryJoinIsOneToOne(outer, salaries);
        assert employees == outer;
        SalaryJoinAssignsAll(outer, salaries);
      }
    }

    /** Enumerating the join runs the result selector on each pair in turn:
        it writes the salary on the employee and returns the employee, and
        the list built is the employees it returns. */
    static method AssignSalaries(outer: seq<Employee>, pairs: seq<(Employee, Salary)>) returns (joined: seq<Employee>)
      requires forall k :: 0 <= k < |pairs| ==> pairs[k].0 in outer
      modifies outer`salary
      ensures |joined| == |pairs| && forall k :: 0 <= k < |pairs| ==> joined[k] == pairs[k].0
      ensures forall e :: e in outer ==> e.salary == LastAssigned(pairs, e, old(e.salary))
    {
      joined := [];
      for k := 0 to |pairs|
        invariant |joined| == k && forall m :: 0 <= m < k ==> joined[m] == pairs[m].0
        invariant forall e :: e in outer ==> e.salary == LastAssigned(pairs[..k], e, old(e.salary))
      {
        var emp := pairs[k].0;
        emp.salary := Some(pairs[k].1);
        joined := joined + [emp];
        forall e | e in outer
          ensures e.salary == LastAssigned(pairs[..k + 1], e, old(e.salary))
        {
          LastAssignedStep(pairs, k, e, old(e.salary));
        }
      }
      assert pairs[..|pairs|] == pairs;
    }
  }
}
