// The user and organisation records the chat and account code reads:
// users, departments, sections and employees, and the lookups the
// repositories offer over them.  A repository's table is a sequence in
// primary-key order; a derived finder returns its first match.

module Directory {
  import opened Common

  /** A login account (UserEntity); the primary key is `userId`. */
  datatype User = User(
    userId: string,
    password: Option<string>,
    email: Option<string>,
    loginType: Option<string>,
    role: string,
    kakaoUuid: Option<string>)

  /** A department (DepartmentEntity); `flag` is "add", "update" or "delete". */
  datatype Department = Department(id: int, name: string, flag: string)

  /** A section (SectionEntity), optionally linked to a department. */
  datatype Section = Section(id: int, name: Option<string>, departmentId: Option<int>)

  /** An employee (EmployeeEntity).  The user link holds the user's id; the
      department and section links hold the referenced rows. */
  datatype Employee = Employee(
    id: int,
    user: Option<string>,
    name: Option<string>,
    phone: Option<string>,
    department: Option<Department>,
    section: Option<Section>,
    position: Option<string>,
    kakaoUuid: Option<string>)

  /** EmployeeRepository.findById. */
  function EmployeeById(employees: seq<Employee>, id: int): (r: Option<Employee>)
    ensures r.Some? ==> r.value in employees && r.value.id == id
    ensures r.None? ==> forall e :: e in employees ==> e.id != id
  {
    FindFirst(employees, (e: Employee) => e.id == id)
  }

  /** EmployeeRepository.findByUser_UserId. */
  function EmployeeByUserId(employees: seq<Employee>, userId: string): (r: Option<Employee>)
    ensures r.Some? ==> r.value in employees && r.value.user == Some(userId)
    ensures r.None? ==> forall e :: e in employees ==> e.user != Some(userId)
  {
    FindFirst(employees, (e: Employee) => e.user == Some(userId))
  }

  /** EmployeeRepository.findByDepartment_DepartmentName. */
  function EmployeesOfDepartment(employees: seq<Employee>, name: string): (r: seq<Employee>)
    ensures forall e :: e in r <==> e in employees && e.department.Some? && e.department.value.name == name
  {
    if employees == [] then []
    else
      var e := employees[0];
      (if e.department.Some? && e.department.value.name == name then [e] else [])
      + EmployeesOfDepartment(employees[1..], name)
  }

  /** DepartmentRepository.findByDepartmentName. */
  function DepartmentByName(departments: seq<Department>, name: string): (r: Option<Department>)
    ensures r.Some? ==> r.value in departments && r.value.name == name
    ensures r.None? ==> forall d :: d in departments ==> d.name != name
  {
    FindFirst(departments, (d: Department) => d.name == name)
  }

  /** DepartmentRepository.findById. */
  function DepartmentById(departments: seq<Department>, id: int): (r: Option<Department>)
    ensures r.Some? ==> r.value in departments && r.value.id == id
    ensures r.None? ==> forall d :: d in departments ==> d.id != id
  {
    FindFirst(departments, (d: Department) => d.id == id)
  }

  /** SectionRepository.findBySectionName: matched by name across all
      departments.  The column is not unique, and the Optional finder
      throws when several rows carry the name. */
  function SectionByName(sections: seq<Section>, name: string): (r: Result<Option<Section>, Exception>)
    ensures r.Ok? && r.value.Some? ==>
              r.value.value in sections && r.value.value.name == Some(name)
              && forall s :: s in sections && s.name == Some(name) ==> s == r.value.value
    ensures r == Ok(None) <==> forall s :: s in sections ==> s.name != Some(name)
    ensures r.Err? <==> exists i, j :: 0 <= i < j < |sections| && sections[i].name == Some(name)
                                       && sections[j].name == Some(name)
    ensures r.Err? ==> r.error == IncorrectResultSize
  {
    SingleMatch(sections, (s: Section) => s.name == Some(name))
  }

  /** SectionRepository.findById. */
  function SectionById(sections: seq<Section>, id: int): (r: Option<Section>)
    ensures r.Some? ==> r.value in sections && r.value.id == id
    ensures r.None? ==> forall s :: s in sections ==> s.id != id
  {
    FindFirst(sections, (s: Section) => s.id == id)
  }

  /** SectionRepository.findBySectionNameAndDepartment; a null department
      matches the sections linked to none.  Nothing keeps a name unique
      within a department either, so two such rows make it throw. */
  function SectionByNameInDepartment(sections: seq<Section>, name: string, departmentId: Option<int>)
    : (r: Result<Option<Section>, Exception>)
    ensures r.Ok? && r.value.Some? ==>
              && r.value.value in sections && r.value.value.name == Some(name)
              && r.value.value.departmentId == departmentId
              && forall s :: s in sections && s.name == Some(name) && s.departmentId == departmentId ==> s == r.value.value
    ensures r == Ok(None) <==> forall s :: s in sections ==> !(s.name == Some(name) && s.departmentId == departmentId)
    ensures r.Err? <==> exists i, j :: 0 <= i < j < |sections| && sections[i].name == Some(name)
                                       && sections[i].departmentId == departmentId
                                       && sections[j].name == Some(name) && sections[j].departmentId == departmentId
    ensures r.Err? ==> r.error == IncorrectResultSize
  {
    SingleMatch(sections, (s: Section) => s.name == Some(name) && s.departmentId == departmentId)
  }

  /** The tables of the relational store that the directory code reads and
      writes: users, departments, sections and employees, each with the next
      identity value. */
  class Org {
    var users: map<string, User>
    var departments: seq<Department>
    var sections: seq<Section>
    var employees: seq<Employee>
    var nextId: int

    constructor ()
      ensures users == map[] && departments == [] && sections == [] && employees == []
      ensures nextId == 1
    {
      users := map[];
      departments := [];
      sections := [];
      employees := [];
      nextId := 1;
    }
  }
}
