# join-and-groupjoin, modelled in Dafny

The program is a micro-benchmark. It builds in-memory fixtures: 100
employees, 10 departments, a grid of 30 salaries and 1000 pieces of
equipment. It then attaches related records to every employee in two ways
and times them:

- a `foreach` loop that looks the record up per employee, with `Single` or
  `Where`;
- a LINQ `Join` or `GroupJoin`, whose result selector writes the property
  on the employee and returns it.

There are three benchmarks:

- departments, one to one on a single key;
- equipment, one to many;
- salaries, one to one on the composite key (department id, rank).

The model has three modules:

- `Linq` (`linq.dfy`) gives the observable behaviour of the LINQ operators
  the program uses, over finite sequences. These are `Range`, `Select`,
  `SelectMany`, `Where`, `Single(predicate)`, `Join` and `GroupJoin`.
  - `Single` scans for a first match and then for a second. Its result is
    proved to be decided by the order-preserving filter: exactly one match is
    returned, and no match or two matches throw.
  - `Join` and `GroupJoin` build a lookup from key to the inner records, in
    inner order, and probe it with each outer record. They are proved equal
    to the nested-loop reading of the operators.
- `Entities` (`entities.dfy`) holds the four record types and their
  `CreateDummies` builders. Departments, salaries and equipment are values.
  An employee is a class: its `Department`, `Salary` and `Equipments`
  properties are fields that the benchmarks write in place, with `None`
  for null.
- `Benchmarks` (`benchmarks.dfy`) holds the three benchmark classes: `Setup`
  and the six benchmark bodies as methods over the employee objects.
  - Each `foreach` body is a loop proved against the per-employee lookup.
    The loop is a static method that takes that lookup as a function, and
    the benchmark method hands it the `Single` lookup over its own list.
    When `Single` throws, the method returns an outcome naming the employee
    at which the loop stopped.
  - Each join body is a loop that runs the result selector over the join's
    pairs in order. It is proved to leave every employee holding the value
    of the last pair that named it.
  - Lemmas connect the two bodies of each benchmark. When no `Single`
    lookup throws, the join keeps the employee list one for one and in
    order, and every employee ends up with exactly what the `foreach` body
    assigns. On the fixtures `Setup` builds, no lookup throws. The equipment
    groups then partition the 1000 items.
  - `Join` has no cardinality check. An employee with no match is in no
    pair, so the join leaves its property as it was, where the `foreach`
    body throws. An employee with several matches is paired with each in
    turn and keeps the last. The lemmas prove the two bodies agree when no
    lookup throws, and prove the no-match case.

## Model

| member | source | states |
|---|---|---|
| `Linq.Range` | ConsoleApp10/ConsoleApp10/Program.cs:42 | `Enumerable.Range(start, count)` has `count` elements, the i-th being `start + i` |
| `Linq.Select` | ConsoleApp10/ConsoleApp10/Program.cs:43-51 | projection keeps the length and maps element i to `f` of element i |
| `Linq.SelectMany` | ConsoleApp10/ConsoleApp10/Program.cs:78-82 | the blocks concatenated in order; it has no contract of its own, and `SelectManyLength` and `SelectManyAt` state its length and where each element sits |
| `Linq.SelectManyLength` | ConsoleApp10/ConsoleApp10/Program.cs:78-82 | flattening blocks of equal length n gives `|s| * n` elements |
| `Linq.SelectManyAt` | ConsoleApp10/ConsoleApp10/Program.cs:78-82 | element j of the block of element i sits at position `i * n + j` of the flattened list |
| `Linq.Where` | ConsoleApp10/ConsoleApp10/Program.cs:159 | the filter is no longer than its input, keeps only matching elements drawn from the input, and keeps every matching element |
| `Linq.WhereConcat` | ConsoleApp10/ConsoleApp10/Program.cs:159 | the filter keeps order: filtering a concatenation is the concatenation of the filtered parts |
| `Linq.WhereExtensional` | ConsoleApp10/ConsoleApp10/Program.cs:159 | two predicates that agree on the elements present select the same list |
| `Linq.Single` | ConsoleApp10/ConsoleApp10/Program.cs:121 | the scan returns the match when exactly one element matches, and throws "no match" when none does and "more than one match" when two or more do |
| `Linq.ToLookup` | ConsoleApp10/ConsoleApp10/Program.cs:128-131 | the join's index holds no empty group |
| `Linq.LookupIsFilter` | ConsoleApp10/ConsoleApp10/Program.cs:128-131 | probing the index with a key gives exactly the inner records of that key, in inner order |
| `Linq.Join` | ConsoleApp10/ConsoleApp10/Program.cs:128-138 | the join indexes the inner list by key and probes the index with each outer record in order; it has no contract of its own, and `JoinIsNestedLoop`, `JoinPairsMatch` and `JoinOneToOne` state what it yields |
| `Linq.NestedLoopJoin` | ConsoleApp10/ConsoleApp10/Program.cs:128-138 | the reference reading of the join: for each outer record in order, every inner record of equal key in inner order; `JoinIsNestedLoop` proves the join equal to it and `NestedLoopPairsMatch` proves its pairs have equal keys |
| `Linq.CombineMatchesIsRow` | ConsoleApp10/ConsoleApp10/Program.cs:128-138 | pairing one outer record with its indexed matches equals scanning the whole inner list for it |
| `Linq.JoinIsNestedLoop` | ConsoleApp10/ConsoleApp10/Program.cs:128-138 | the indexed join produces exactly the nested-loop join's results, in outer-then-inner order |
| `Linq.RowMembers` | ConsoleApp10/ConsoleApp10/Program.cs:128-138 | every pair of one nested-loop row holds that outer record and an inner record of its key |
| `Linq.NestedLoopPairsMatch` | ConsoleApp10/ConsoleApp10/Program.cs:128-138 | every nested-loop pair holds an outer record and an inner record with equal keys |
| `Linq.JoinPairsMatch` | ConsoleApp10/ConsoleApp10/Program.cs:128-138 | inner-join semantics: every pair the join yields holds an outer record and an inner record with equal keys |
| `Linq.JoinOneToOne` | ConsoleApp10/ConsoleApp10/Program.cs:128-138 | when `Single` succeeds for every outer record, the join has one result per outer record, in order, built from that single match |
| `Linq.GroupJoin` | ConsoleApp10/ConsoleApp10/Program.cs:166-176 | the group join yields one result per outer record |
| `Linq.GroupJoinIsFilter` | ConsoleApp10/ConsoleApp10/Program.cs:166-176 | the group of each outer record is the `Where` filter of the inner list by its key |
| `Linq.WhereDistinctKey` | ConsoleApp10/ConsoleApp10/Program.cs:121 | with distinct keys, the key of a record selects that record alone, and `Single` finds it |
| `Linq.KeyCountDistinct` | ConsoleApp10/ConsoleApp10/Program.cs:166-176 | a key that occurs among distinct keys occurs exactly once |
| `Linq.KeyCountAbsent` | ConsoleApp10/ConsoleApp10/Program.cs:166-176 | a key no record carries has count zero |
| `Linq.GroupTotalCons` | ConsoleApp10/ConsoleApp10/Program.cs:166-176 | one more inner record adds one to the group of every outer record of its key |
| `Linq.GroupTotalEmpty` | ConsoleApp10/ConsoleApp10/Program.cs:166-176 | with no inner records every group is empty |
| `Linq.GroupsPartitionInner` | ConsoleApp10/ConsoleApp10/Program.cs:166-176 | with distinct outer keys covering every inner key, each inner record lands in exactly one group and the group sizes add up to the inner length |
| `Entities.Department.CreateDummies` | ConsoleApp10/ConsoleApp10/Program.cs:62-65 | ten departments with ids 1 to 10 in order, each named by its own draw |
| `Entities.Salary.RankSalaries` | ConsoleApp10/ConsoleApp10/Program.cs:80-81 | a department's three salaries, ranks 1 to 3, amount `depId * 10000 + rank * 1000` |
| `Entities.Salary.CreateDummies` | ConsoleApp10/ConsoleApp10/Program.cs:76-83 | the rank blocks of departments 1 to 10, in order; it has no contract of its own, and `SalaryAt` and `SalaryGrid` state its contents |
| `Entities.SalaryAt` | ConsoleApp10/ConsoleApp10/Program.cs:78-82 | the salary at position `3 * d + k` is that of department `d + 1`, rank `k + 1`, with its amount |
| `Entities.SalaryGrid` | ConsoleApp10/ConsoleApp10/Program.cs:76-83 | `Salary.CreateDummies` builds the 30-salary grid of departments 1 to 10 by ranks 1 to 3, in department-major order |
| `Entities.Equipment.CreateDummies` | ConsoleApp10/ConsoleApp10/Program.cs:94-101 | 1000 items with ids 1 to 1000 in order, each with its drawn name and custodian, every custodian in [1, 101) |
| `Entities.Employee.constructor` | ConsoleApp10/ConsoleApp10/Program.cs:44-51 | a new employee holds the given id, name, age, department id and rank, with nothing joined |
| `Entities.Employee.CreateDummies` | ConsoleApp10/ConsoleApp10/Program.cs:38-53 | 100 new employees with ids 1 to 100 in order, each holding its draws (age in [18, 65), department id in [1, 11), rank in [1, 4)), none joined |
| `Benchmarks.DepartmentPredicateIsKeyMatch` | ConsoleApp10/ConsoleApp10/Program.cs:128-131 | the `foreach` department predicate and the join's key selectors select the same departments and give the same `Single` result |
| `Benchmarks.CustodianPredicateIsKeyMatch` | ConsoleApp10/ConsoleApp10/Program.cs:166-169 | the `foreach` equipment predicate and the group join's key selectors select the same items |
| `Benchmarks.GradePredicateIsKeyMatch` | ConsoleApp10/ConsoleApp10/Program.cs:205-208 | the two-part salary predicate and equality of the composite keys select the same salaries |
| `Benchmarks.DepartmentOf` | ConsoleApp10/ConsoleApp10/Program.cs:121 | a department the `Single` lookup returns is one of the list and has the employee's department id |
| `Benchmarks.SalaryOf` | ConsoleApp10/ConsoleApp10/Program.cs:198 | a salary the `Single` lookup returns has the employee's department id and rank |
| `Benchmarks.DepartmentPairs` | ConsoleApp10/ConsoleApp10/Program.cs:128-131 | the (employee, department) pairs the join hands its result selector; `DepartmentJoinIsOneToOne` and `DepartmentJoinDropsUnmatched` state which pairs they are |
| `Benchmarks.SalaryPairs` | ConsoleApp10/ConsoleApp10/Program.cs:205-208 | the (employee, salary) pairs of the composite-key join; `SalaryJoinIsOneToOne` and `SalaryJoinDropsUnmatched` state which pairs they are |
| `Benchmarks.EquipmentGroups` | ConsoleApp10/ConsoleApp10/Program.cs:166-169 | the (employee, items) groups the group join hands its result selector; `EquipmentGroupsAreFilters` states which they are |
| `Benchmarks.FirstThrow` | ConsoleApp10/ConsoleApp10/Program.cs:119-122 | the loop stops at a lookup that throws, with that lookup's error, and every lookup before the stop succeeds |
| `Benchmarks.FirstThrowCompleted` | ConsoleApp10/ConsoleApp10/Program.cs:119-122 | when every lookup succeeds, the loop runs to the end |
| `Benchmarks.FirstThrowAt` | ConsoleApp10/ConsoleApp10/Program.cs:119-122 | a lookup that throws after lookups that all succeed is where the loop stops, with that lookup's error |
| `Benchmarks.FoundPrefix` | ConsoleApp10/ConsoleApp10/Program.cs:119-122 | the writes the `foreach` body makes before the first throw: one per employee up to the stop, each pairing the employee with the record its lookup found |
| `Benchmarks.LastAssignedStep` | ConsoleApp10/ConsoleApp10/Program.cs:132-137 | loop helper for the assignment loops: one more assignment decides the property of the employee it names and leaves the others as they were |
| `Benchmarks.LastAssigned` | ConsoleApp10/ConsoleApp10/Program.cs:132-137 | the value an employee's property holds after a run of writes, the last one naming it winning; it has no contract of its own, and `LastAssignedStep`, `LastAssignedUniform` and `LastAssignedUntouched` state its behaviour |
| `Benchmarks.LastAssignedUniform` | ConsoleApp10/ConsoleApp10/Program.cs:132-137 | when some assignment names an employee and all of them write the same value, the employee ends up holding that value |
| `Benchmarks.LastAssignedUntouched` | ConsoleApp10/ConsoleApp10/Program.cs:132-137 | an employee that no assignment names keeps what it held |
| `Benchmarks.LookupWritesSettle` | ConsoleApp10/ConsoleApp10/Program.cs:119-122 | when the lookup depends only on the employee, writing each of the first employees' looked-up value leaves each of them holding its own value and changes no other employee |
| `Benchmarks.FoundPrefixSettles` | ConsoleApp10/ConsoleApp10/Program.cs:119-122 | the writes the `foreach` body makes before the first throw leave every employee before the stop holding what its lookup found, and no other employee changed |
| `Benchmarks.DepartmentJoinIsOneToOne` | ConsoleApp10/ConsoleApp10/Program.cs:128-138 | when no department lookup throws, the join pairs every employee, in order, with the department `Single` finds |
| `Benchmarks.DepartmentJoinAssigns` | ConsoleApp10/ConsoleApp10/Program.cs:128-138 | when no department lookup throws, the result selector leaves each employee holding the department `Single` finds |
| `Benchmarks.DepartmentJoinAssignsAll` | ConsoleApp10/ConsoleApp10/Program.cs:128-138 | the same, for every employee and every value it held before |
| `Benchmarks.DepartmentJoinDropsUnmatched` | ConsoleApp10/ConsoleApp10/Program.cs:128-138 | an employee for whom `Single` finds no department, where the `foreach` body throws, is in no pair of the join, so the join leaves its department as it was |
| `Benchmarks.SalaryJoinIsOneToOne` | ConsoleApp10/ConsoleApp10/Program.cs:205-215 | when no salary lookup throws, the composite-key join pairs every employee, in order, with the salary `Single` finds |
| `Benchmarks.SalaryJoinAssigns` | ConsoleApp10/ConsoleApp10/Program.cs:205-215 | when no salary lookup throws, the result selector leaves each employee holding the salary `Single` finds |
| `Benchmarks.SalaryJoinAssignsAll` | ConsoleApp10/ConsoleApp10/Program.cs:205-215 | the same, for every employee and every value it held before |
| `Benchmarks.SalaryJoinDropsUnmatched` | ConsoleApp10/ConsoleApp10/Program.cs:205-215 | an employee for whom `Single` finds no salary is in no pair of the composite-key join, so the join leaves its salary as it was |
| `Benchmarks.EquipmentGroupsAreFilters` | ConsoleApp10/ConsoleApp10/Program.cs:166-176 | the group join pairs every employee, in order, with the items whose custodian is its id, the list the `foreach` body's `Where` gives |
| `Benchmarks.EquipmentJoinAssignsAll` | ConsoleApp10/ConsoleApp10/Program.cs:166-176 | the group join's result selector leaves every employee holding its own equipment list, whatever it held before |
| `Benchmarks.DepartmentDummiesUnique` | ConsoleApp10/ConsoleApp10/Program.cs:64 | every department id from 1 to 10 has exactly one department, which `Single` returns |
| `Benchmarks.SalaryKeysDistinct` | ConsoleApp10/ConsoleApp10/Program.cs:78-82 | no two salaries of the grid share a (department id, rank) pair |
| `Benchmarks.GridSalaryUnique` | ConsoleApp10/ConsoleApp10/Program.cs:78-82 | every (department id, rank) pair of the grid has exactly one salary, which `Single` returns, with amount `departmentId * 10000 + rank * 1000` |
| `Benchmarks.FixtureDepartmentsAlwaysFound` | ConsoleApp10/ConsoleApp10/Program.cs:42-52 | on the fixtures no department lookup throws, and each employee gets the department of its department id |
| `Benchmarks.GridSalariesAlwaysFound` | ConsoleApp10/ConsoleApp10/Program.cs:49-50 | employees with department ids in [1, 11) and ranks in [1, 4) always find their salary in the grid |
| `Benchmarks.FixtureSalariesAlwaysFound` | ConsoleApp10/ConsoleApp10/Program.cs:76-83 | on the fixtures no salary lookup throws, and each employee gets the salary of its grade |
| `Benchmarks.FixtureEquipmentPartitioned` | ConsoleApp10/ConsoleApp10/Program.cs:98-99 | on the fixtures every item's custodian is exactly one employee's id, and the group sizes add up to 1000 |
| `Benchmarks.FixtureDepartmentBodiesAgree` | ConsoleApp10/ConsoleApp10/Program.cs:110-139 | on the lists `Setup` builds, the `foreach` body runs to the end, the join keeps the employee list one for one and in order, and both give every employee the department of its department id |
| `Benchmarks.FixtureSalaryBodiesAgree` | ConsoleApp10/ConsoleApp10/Program.cs:187-216 | on the lists `Setup` builds, the `foreach` body runs to the end, the composite-key join keeps the employee list one for one and in order, and both give every employee the salary of its grade |
| `Benchmarks.FixtureEquipmentBodiesAgree` | ConsoleApp10/ConsoleApp10/Program.cs:148-177 | on the lists `Setup` builds, both bodies give every employee the items whose custodian is its id, in list order, and those lists share out the 1000 items |
| `Benchmarks.JoinBenchmark.Setup` | ConsoleApp10/ConsoleApp10/Program.cs:110-114 | the setup leaves fresh, unjoined fixture employees, each holding the values drawn for its id, and the ten departments |
| `Benchmarks.JoinBenchmark.EmployeesJoinDepartmentsByForEach` | ConsoleApp10/ConsoleApp10/Program.cs:117-123 | each employee in turn gets the department `Single` finds; the first throw stops the loop; employees from there on, and every other property, are unchanged |
| `Benchmarks.JoinBenchmark.AttachDepartments` | ConsoleApp10/ConsoleApp10/Program.cs:119-122 | the loop with the per-employee lookup given: its outcome is the first lookup that throws; every employee before it holds what its lookup found; no other employee changes |
| `Benchmarks.JoinBenchmark.AssignDepartments` | ConsoleApp10/ConsoleApp10/Program.cs:132-138 | running the result selector over the pairs returns their employees in order and leaves each employee the department of the last pair naming it |
| `Benchmarks.JoinBenchmark.EmployeesJoinDepartmentsByJoin` | ConsoleApp10/ConsoleApp10/Program.cs:128-138 | the list becomes the join's employees and each holds its last-paired department; when no lookup throws, the list is unchanged and each employee holds the department the `foreach` body assigns |
| `Benchmarks.GroupJoinBenchmark.Setup` | ConsoleApp10/ConsoleApp10/Program.cs:148-152 | the setup leaves fresh, unjoined fixture employees, each holding the values drawn for its id, and the 1000 items |
| `Benchmarks.GroupJoinBenchmark.EmployeesJoinEquipmentsByForEach` | ConsoleApp10/ConsoleApp10/Program.cs:155-161 | every employee gets the items whose custodian is its id, in list order; only equipment lists are written |
| `Benchmarks.GroupJoinBenchmark.AssignEquipments` | ConsoleApp10/ConsoleApp10/Program.cs:170-176 | running the result selector over the groups returns their employees in order and leaves each employee the group of the last pair naming it |
| `Benchmarks.GroupJoinBenchmark.EmployeesJoinEquipmentsByJoin` | ConsoleApp10/ConsoleApp10/Program.cs:166-176 | the list comes back unchanged and every employee holds the same list the `foreach` body assigns |
| `Benchmarks.JoinWithMultipleKeysBenchmark.Setup` | ConsoleApp10/ConsoleApp10/Program.cs:187-191 | the setup leaves fresh, unjoined fixture employees, each holding the values drawn for its id, and the salary grid |
| `Benchmarks.JoinWithMultipleKeysBenchmark.EmployeesJoinSalarysByForEach` | ConsoleApp10/ConsoleApp10/Program.cs:194-200 | each employee in turn gets the salary `Single` finds for its department id and rank; the first throw stops the loop; the rest is unchanged |
| `Benchmarks.JoinWithMultipleKeysBenchmark.AttachSalaries` | ConsoleApp10/ConsoleApp10/Program.cs:196-199 | the loop with the per-employee salary lookup given: its outcome is the first lookup that throws; every employee before it holds what its lookup found; no other employee changes |
| `Benchmarks.JoinWithMultipleKeysBenchmark.AssignSalaries` | ConsoleApp10/ConsoleApp10/Program.cs:209-215 | running the result selector over the pairs returns their employees in order and leaves each employee the salary of the last pair naming it |
| `Benchmarks.JoinWithMultipleKeysBenchmark.EmployeesJoinSalarysByJoin` | ConsoleApp10/ConsoleApp10/Program.cs:205-215 | the list becomes the join's employees and each holds its last-paired salary; when no lookup throws, the list is unchanged and each employee holds the salary the `foreach` body assigns |

## Left out

- `Program.Main`, `BenchmarkRunner` and the BenchmarkDotNet attributes are
  left out. They time the bodies and do not change what the bodies compute.
- `Guid.NewGuid()` and `Random` are parameters. An employee's name, age,
  department id and rank are `draw(id)`. A department's or an item's name
  is `guid(id)`, and an item's custodian is `custodianDraw(id)`. Each draw
  is kept within `Random.Next`'s bounds by a precondition. The random
  seed and the distribution are not modelled.
- `Salary.Amount` is a `decimal`. It is an unbounded integer here, which is
  exact for the values built.
- The inner workings of LINQ are left out: hashing, deferred execution and
  buffering. `Join` and `GroupJoin` are a map lookup, followed by a loop
  that runs the result selector over the pairs in order. LINQ interleaves
  the selector with enumeration, but the writes and their order are the
  same.
- `Id`, `Name`, `Age`, `DepartmentId` and `Rank` are settable properties in
  C#. No code of the program writes them after an employee is built, so
  they are constants here.
- Aliasing of records is left out. Departments, salaries and equipment are
  values, and a `ToList()` copy is a sequence value.
- Null `Department`, `Salary` and `Equipments` are `None`. Reading through
  a null reference never happens in the program, so it is not modelled.
- Benchmarks.SalaryOf: its contract says the salary found has the
  employee's department id and rank, but not that it is one of the list.
  `GridSalaryUnique` gives the exact salary on the grid.
- A `Single` that throws ends the `foreach` body. The exception itself is
  not raised: the method returns the outcome naming the employee where the
  loop stopped.
