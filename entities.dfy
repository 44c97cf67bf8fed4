/** The benchmark's records and the `CreateDummies` builders that fill them.

    Departments, salaries and equipment are never changed after they are
    built, so they are values. An employee is an object: the benchmarks write
    its `Department`, `Salary` and `Equipments` properties in place. Its `Id`,
    `Name`, `Age`, `DepartmentId` and `Rank` are set only when it is built, and
    are constants here.

    `Guid.NewGuid()` names and `Random.Next(min, max)` draws are parameters:
    `guid(id)` is the name given to the record with that id, and each draw
    function gives the value drawn for the record with that id, within
    `Random.Next`'s bounds (min inclusive, max exclusive). */
module Entities {
  import opened Linq

  /** The counts the builders pass to `Enumerable.Range`. */
  const DepartmentCount := 10
  const RankCount := 3
  const EquipmentCount := 1000

  datatype Department = Department(id: int, name: string)
  {
    /** `Department.CreateDummies`: ids 1 to 10, in order. */
    static function CreateDummies(guid: int -> string): (r: seq<Department>)
      ensures |r| == 10
      ensures forall i :: 0 <= i < 10 ==> r[i].id == i + 1 && r[i].name == guid(i + 1)
    {
      Select(Range(1, DepartmentCount), id => Department(id, guid(id)))
    }
  }

  datatype Salary = Salary(departmentId: int, rank: int, amount: int)
  {
    /** The salaries of one department, ranks 1 to 3. */
    static function RankSalaries(depId: int): (r: seq<Salary>)
      ensures |r| == 3
      ensures forall k :: 0 <= k < 3 ==> r[k] == Salary(depId, k + 1, depId * 10000 + (k + 1) * 1000)
    {
      Select(Range(1, RankCount), rank => Salary(depId, rank, depId * 10000 + rank * 1000))
    }

    /** `Salary.CreateDummies`: department 1 to 10, each with ranks 1 to 3. */
    static function CreateDummies(): seq<Salary>
    {
      SelectMany(Range(1, DepartmentCount), RankSalaries)
    }
  }

  /** The salary at position 3 * d + k is that of department d + 1, rank k + 1. */
  lemma SalaryAt(d: nat, k: nat)
    requires d < 10 && k < 3
    ensures |Salary.CreateDummies()| == 30
    ensures Salary.CreateDummies()[3 * d + k] == Salary(d + 1, k + 1, (d + 1) * 10000 + (k + 1) * 1000)
  {
    var deps := Range(1, DepartmentCount);
    SelectManyAt(deps, Salary.RankSalaries, 3, d, k);
    assert d * 3 + k == 3 * d + k;
  }

  /** The shape of the salary list: 30 salaries forming the grid of
      departments 1..10 by ranks 1..3, in department-major order, each
      amount following its (department id, rank) pair. */
  predicate IsSalaryGrid(salaries: seq<Salary>)
  {
    |salaries| == 30 &&
    forall i :: 0 <= i < 30 ==>
      salaries[i] == Salary(i / 3 + 1, i % 3 + 1, (i / 3 + 1) * 10000 + (i % 3 + 1) * 1000)
  }

  /** `Salary.CreateDummies` builds exactly that grid. */
  lemma SalaryGrid()
    ensures IsSalaryGrid(Salary.CreateDummies())
  {
    SalaryAt(0, 0);
    forall i | 0 <= i < 30
      ensures Salary.CreateDummies()[i] == Salary(i / 3 + 1, i % 3 + 1, (i / 3 + 1) * 10000 + (i % 3 + 1) * 1000)
    {
      SalaryAt(i / 3, i % 3);
    }
  }

  datatype Equipment = Equipment(id: int, name: string, custodian: int)
  {
    /** `Equipment.CreateDummies`: ids 1 to 1000, in order, each with a
        custodian drawn by `Random.Next(1, 101)`. */
    static function CreateDummies(guid: int -> string, custodianDraw: int -> int): (r: seq<Equipment>)
      requires forall id :: 1 <= id <= 1000 ==> 1 <= custodianDraw(id) < 101
      ensures |r| == 1000
      ensures forall i :: 0 <= i < 1000 ==>
        r[i].id == i + 1 && r[i].name == guid(i + 1) && r[i].custodian == custodianDraw(i + 1)
      ensures forall i :: 0 <= i < 1000 ==> 1 <= r[i].custodian < 101
    {
      Select(Range(1, EquipmentCount), id => Equipment(id, guid(id), custodianDraw(id)))
    }
  }

  /** The values drawn for one employee: a name and three `Random.Next` draws. */
  datatype EmployeeDraw = EmployeeDraw(name: string, age: int, departmentId: int, rank: int)

  /** `Random.Next(18, 65)`, `Random.Next(1, 11)` and `Random.Next(1, 4)`. */
  predicate IsEmployeeDraw(d: EmployeeDraw)
  {
    18 <= d.age < 65 && 1 <= d.departmentId < 11 && 1 <= d.rank < 4
  }

  class Employee {
    const id: int
    const name: string
    const age: int
    const departmentId: int
    const rank: int
    var department: Option<Department>
    var salary: Option<Salary>
    var equipments: Option<seq<Equipment>>

    /** Nothing is joined yet: the three join targets are still null. */
    predicate Unjoined()
      reads this
    {
      department == None && salary == None && equipments == None
    }

    constructor (id: int, name: string, age: int, departmentId: int, rank: int)
      ensures this.id == id && this.name == name && this.age == age
      ensures this.departmentId == departmentId && this.rank == rank
      ensures Unjoined()
    {
      this.id := id;
      this.name := name;
      this.age := age;
      this.departmentId := departmentId;
      this.rank := rank;
      department := None;
      salary := None;
      equipments := None;
    }

    /** `Employee.CreateDummies`: 100 new employees with ids 1 to 100, in order. */
    static method CreateDummies(draw: int -> EmployeeDraw) returns (employees: seq<Employee>)
      requires forall id :: 1 <= id <= 100 ==> IsEmployeeDraw(draw(id))
      ensures IsEmployeeFixture(employees) && DrawnBy(employees, draw)
      ensures forall i :: 0 <= i < |employees| ==> fresh(employees[i]) && employees[i].Unjoined()
    {
      employees := [];
      for id := 1 to 101
        invariant |employees| == id - 1
        invariant forall i :: 0 <= i < |employees| ==>
          var e := employees[i];
          e.id == i + 1 && e.name == draw(e.id).name && e.age == draw(e.id).age &&
          e.departmentId == draw(e.id).departmentId && e.rank == draw(e.id).rank
        invariant forall i :: 0 <= i < |employees| ==> fresh(employees[i]) && employees[i].Unjoined()
      {
        var d := draw(id);
        var e := new Employee(id, d.name, d.age, d.departmentId, d.rank);
        employees := employees + [e];
      }
    }
  }

  /** The shape `Employee.CreateDummies` gives its list: ids 1 to 100 in
      order, every department id in [1, 11), every rank in [1, 4). */
  predicate IsEmployeeFixture(employees: seq<Employee>)
  {
    |employees| == 100 &&
    forall i :: 0 <= i < |employees| ==>
      employees[i].id == i + 1 &&
      18 <= employees[i].age < 65 &&
      1 <= employees[i].departmentId < 11 &&
      1 <= employees[i].rank < 4
  }

  /** Every employee's name, age, department id and rank are the values
      drawn for its id. */
  predicate DrawnBy(employees: seq<Employee>, draw: int -> EmployeeDraw)
  {
    forall i :: 0 <= i < |employees| ==>
      var e := employees[i];
      e.name == draw(e.id).name && e.age == draw(e.id).age &&
      e.departmentId == draw(e.id).departmentId && e.rank == draw(e.id).rank
  }
}
