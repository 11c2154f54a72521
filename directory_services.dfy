// The directory's write paths: EmployeeService (registration, partial
// update, the uuid update, deletion, the kakao-uuid lists and the name
// search), SectionService (adding, removing and renaming sections),
// DepartmentController (the department `flag` life cycle) and
// SectionSettingsService (the single use-sections switch).  Every table is
// a sequence in primary-key order; one identity counter serves them all.

module DirectoryServices {
  import opened Common
  import opened Directory

  /** The directory tables the services write. */
  datatype Tables = Tables(departments: seq<Department>, sections: seq<Section>, employees: seq<Employee>, nextId: int)

  function TablesOf(org: Org): Tables
    reads org
  {
    Tables(org.departments, org.sections, org.employees, org.nextId)
  }

  /** The keys of the tables: distinct ids below the identity counter, and
      distinct department names (the column is unique). */
  predicate Keyed(t: Tables)
  {
    && (forall i, j :: 0 <= i < j < |t.departments| ==>
          t.departments[i].id != t.departments[j].id && t.departments[i].name != t.departments[j].name)
    && (forall i, j :: 0 <= i < j < |t.sections| ==> t.sections[i].id != t.sections[j].id)
    && (forall i, j :: 0 <= i < j < |t.employees| ==> t.employees[i].id != t.employees[j].id)
    && (forall d :: d in t.departments ==> d.id < t.nextId)
    && (forall s :: s in t.sections ==> s.id < t.nextId)
    && (forall e :: e in t.employees ==> e.id < t.nextId)
  }

  /** `save` of a row whose key exists: the row with that key replaced. */
  function PutDepartment(ds: seq<Department>, d: Department): (r: seq<Department>)
    ensures |r| == |ds|
  {
    seq(|ds|, k requires 0 <= k < |ds| => if ds[k].id == d.id then d else ds[k])
  }

  function PutSection(ss: seq<Section>, s: Section): (r: seq<Section>)
    ensures |r| == |ss|
  {
    seq(|ss|, k requires 0 <= k < |ss| => if ss[k].id == s.id then s else ss[k])
  }

  function PutEmployee(es: seq<Employee>, e: Employee): (r: seq<Employee>)
    ensures |r| == |es|
  {
    seq(|es|, k requires 0 <= k < |es| => if es[k].id == e.id then e else es[k])
  }

  /** `name != null && !name.trim().isEmpty()`: some character survives
      the trim (see GivenIffTrimmedNonEmpty). */
  predicate Given(name: Option<string>)
  {
    name.Some? && exists i :: 0 <= i < |name.value| && !IsTrimmed(name.value[i])
  }

  lemma GivenIffTrimmedNonEmpty(name: Option<string>)
    ensures Given(name) <==> name.Some? && Trim(name.value) != []
  {
    if name.Some? {
      TrimEmptyIffAllTrimmed(name.value);
    }
  }

  // ---------------------------------------------------------------------
  // EmployeeService

  /** The RuntimeException messages registerEmployee refuses with, and the
      IncorrectResultSizeDataAccessException of a section name that
      several rows carry. */
  datatype Refusal = UserNotFound | DepartmentNotFound | SectionNotUnique | SectionNotFound | AlreadyRegistered

  /** registerEmployee: an unknown user, then an unknown department, then a
      given section name that several sections carry or none does, then an
      existing employee of the user are refused; otherwise the employee is
      saved with the user's kakao uuid. */
  function RegisterEmployeeSpec(users: map<string, User>, t: Tables, userId: string, name: Option<string>,
                                phone: Option<string>, departmentName: string, sectionName: Option<string>,
                                position: Option<string>): (Tables, Result<Employee, Refusal>)
  {
    if userId !in users then (t, Err(UserNotFound))
    else if DepartmentByName(t.departments, departmentName).None? then (t, Err(DepartmentNotFound))
    else if Given(sectionName) && SectionByName(t.sections, sectionName.value).Err? then (t, Err(SectionNotUnique))
    else if Given(sectionName) && SectionByName(t.sections, sectionName.value) == Ok(None) then (t, Err(SectionNotFound))
    else if EmployeeByUserId(t.employees, userId).Some? then (t, Err(AlreadyRegistered))
    else
      var section := if Given(sectionName) then SectionByName(t.sections, sectionName.value).value else None;
      var e := Employee(t.nextId, Some(userId), name, phone, DepartmentByName(t.departments, departmentName),
                        section, position, users[userId].kakaoUuid);
      (t.(employees := t.employees + [e], nextId := t.nextId + 1), Ok(e))
  }

  /** DepartmentEntity.equals against the employee's current department:
      equal ids, and never equal to null. */
  predicate SameDepartment(d: Department, current: Option<Department>)
  {
    current.Some? && current.value.id == d.id
  }

  /** The department id the section lookup is made in. */
  function IdOf(d: Option<Department>): Option<int>
  {
    if d.None? then None else Some(d.value.id)
  }

  /** The department step of updateEmployee: the department named, or the
      current one when no name is given; None when the name is unknown. */
  function NewDepartment(t: Tables, e: Employee, departmentName: Option<string>): Option<Option<Department>>
  {
    if departmentName.None? then Some(e.department)
    else
      match DepartmentByName(t.departments, departmentName.value)
      case None => None
      case Some(d) => Some(Some(d))
  }

  /** updateEmployee.  With `nullSafe` false this is the code as written,
      which, when assigning a department to an employee that has none,
      dereferences the missing department to log the change; with
      `nullSafe` true the department is assigned.  A refused section comes
      after the department has been set on the managed entity, so that
      change is committed although the answer is false.  A section name
      that several sections of the department carry makes the finder
      throw before the entity is saved, so nothing changes. */
  function UpdateEmployeeWith(nullSafe: bool, t: Tables, employeeId: int, name: Option<string>, phone: Option<string>,
                              departmentName: Option<string>, sectionName: Option<string>, position: Option<string>)
    : (Tables, Result<bool, Exception>)
  {
    match EmployeeById(t.employees, employeeId)
    case None => (t, Ok(false))
    case Some(e) =>
      match NewDepartment(t, e, departmentName)
      case None => (t, Ok(false))
      case Some(department) =>
        var changes := departmentName.Some? && !SameDepartment(department.value, e.department);
        if changes && e.department.None? && !nullSafe then (t, Err(NullPointer))
        else
          var e1 := if changes then e.(department := department) else e;
          match SectionUpdate(t.sections, e1, sectionName, IdOf(department))
          case Err(x) => (t, Err(x))
          case Ok(None) => (t.(employees := PutEmployee(t.employees, e1)), Ok(false))
          case Ok(Some(e2)) => (t.(employees := PutEmployee(t.employees, Edited(e2, name, phone, position))), Ok(true))
  }

  /** The section step: untouched when the employee has no section,
      cleared for a null or blank name, else replaced by the section of
      that name in the department; None when there is no such section, and
      the finder's exception when there are several. */
  function SectionUpdate(sections: seq<Section>, e: Employee, sectionName: Option<string>, departmentId: Option<int>)
    : Result<Option<Employee>, Exception>
  {
    if e.section.None? then Ok(Some(e))
    else if !Given(sectionName) then Ok(Some(e.(section := None)))
    else
      match SectionByNameInDepartment(sections, sectionName.value, departmentId)
      case Err(x) => Err(x)
      case Ok(None) => Ok(None)
      case Ok(Some(s)) => Ok(Some(e.(section := Some(s))))
  }

  /** The null-means-keep assignments of name, phone and position. */
  function Edited(e: Employee, name: Option<string>, phone: Option<string>, position: Option<string>): Employee
  {
    e.(name := if name.Some? then name else e.name,
       phone := if phone.Some? then phone else e.phone,
       position := if position.Some? then position else e.position)
  }

  function UpdateEmployeeAsWritten(t: Tables, employeeId: int, name: Option<string>, phone: Option<string>,
                                   departmentName: Option<string>, sectionName: Option<string>, position: Option<string>)
    : (Tables, Result<bool, Exception>)
  {
    UpdateEmployeeWith(false, t, employeeId, name, phone, departmentName, sectionName, position)
  }

  function UpdateEmployeeSpec(t: Tables, employeeId: int, name: Option<string>, phone: Option<string>,
                              departmentName: Option<string>, sectionName: Option<string>, position: Option<string>)
    : (Tables, Result<bool, Exception>)
  {
    UpdateEmployeeWith(true, t, employeeId, name, phone, departmentName, sectionName, position)
  }

  /** deleteEmployee. */
  function DeleteEmployeeSpec(t: Tables, employeeId: int): (Tables, bool)
  {
    if EmployeeById(t.employees, employeeId).Some? then
      (t.(employees := Filter(t.employees, (e: Employee) => e.id != employeeId)), true)
    else (t, false)
  }

  /** A uuid the lists keep: present and not empty. */
  predicate Usable(uuid: Option<string>)
  {
    uuid.Some? && uuid.value != []
  }

  /** The stream `map(uuid).filter(non-null and non-empty)`, in table order. */
  function Uuids(es: seq<Employee>, uuid: Employee -> Option<string>): (r: seq<string>)
    ensures forall u :: u in r <==> exists e :: e in es && uuid(e) == Some(u) && u != []
  {
    if es == [] then []
    else
      var rest := Uuids(es[1..], uuid);
      assert forall e :: e in es[1..] ==> e in es;
      assert forall e :: e in es ==> e == es[0] || e in es[1..];
      if Usable(uuid(es[0])) then [uuid(es[0]).value] + rest else rest
  }

  /** getAllKakaoUuids: the employees' own uuids. */
  function AllKakaoUuids(employees: seq<Employee>): seq<string>
  {
    Uuids(employees, (e: Employee) => e.kakaoUuid)
  }

  /** The uuid of the user an employee is linked to. */
  function UserUuid(users: map<string, User>, e: Employee): Option<string>
  {
    if e.user.Some? && e.user.value in users then users[e.user.value].kakaoUuid else None
  }

  /** getKakaoUuidsByDepartment: the uuids of the linked users, not the
      employees' own copies. */
  function KakaoUuidsByDepartment(users: map<string, User>, employees: seq<Employee>, departmentName: string): seq<string>
  {
    Uuids(EmployeesOfDepartment(employees, departmentName), (e: Employee) => UserUuid(users, e))
  }

  /** getKakaoUuidsWithEmployees: the employees whose uuid is among the
      requested ones, then their uuids. */
  function KakaoUuidsWithEmployees(employees: seq<Employee>, kakaoUuids: seq<string>): seq<string>
  {
    Uuids(Filter(employees, (e: Employee) => e.kakaoUuid.Some? && e.kakaoUuid.value in kakaoUuids),
          (e: Employee) => e.kakaoUuid)
  }

  /** EmployeeRequestDTO as toDTO fills it. */
  datatype EmployeeDto = EmployeeDto(id: int, name: Option<string>, phone: Option<string>, position: Option<string>,
                                     departmentName: string, sectionName: Option<string>, kakaoUuid: Option<string>)

  const NoDepartment: string := "부서 없음"
  const NoSection: string := "구역 없음"

  /** toDTO: the employee's fields, with placeholders for a missing
      department or section. */
  function ToDto(e: Employee): EmployeeDto
  {
    EmployeeDto(e.id, e.name, e.phone, e.position,
                if e.department != None then e.department.value.name else NoDepartment,
                if e.section != None then e.section.value.name else Some(NoSection),
                e.kakaoUuid)
  }

  /** The derived finders' `NameContaining`: LIKE '%keyword%' on a present
      name. */
  predicate NameContains(e: Employee, keyword: string)
  {
    e.name.Some? && Contains(e.name.value, keyword)
  }

  /** The row test of searchEmployees' two finders: by name within the
      named department when a non-empty department name is given, else by
      name alone. */
  predicate SearchMatches(e: Employee, keyword: string, department: Option<string>)
  {
    && NameContains(e, keyword)
    && (department.Some? && department.value != [] ==>
          e.department.Some? && e.department.value.name == department.value)
  }

  /** The rows searchEmployees finds, in table order. */
  function Searched(employees: seq<Employee>, keyword: string, department: Option<string>): seq<Employee>
  {
    Filter(employees, (e: Employee) => SearchMatches(e, keyword, department))
  }

  /** searchEmployees: the found rows as DTOs, in table order. */
  function SearchEmployees(employees: seq<Employee>, keyword: string, department: Option<string>): seq<EmployeeDto>
  {
    var found := Searched(employees, keyword, department);
    seq(|found|, i requires 0 <= i < |found| => ToDto(found[i]))
  }

  /** The user row updateKakaoUuid's query writes.  As written (`ownUser`
      false) it drops the first six characters of the employee's user id,
      meant to be "kakao_", and matches "kakao_" followed by the rest; with
      `ownUser` true it is the employee's own user. */
  function KakaoUuidTarget(ownUser: bool, userId: string): string
    requires ownUser || |userId| >= 6
  {
    if ownUser then userId else KakaoPrefix + userId[6..]
  }

  const KakaoPrefix: string := "kakao_"

  /** updateKakaoUuid: an unknown employee is refused, an employee without
      a user is dereferenced, and as written a user id shorter than six
      characters fails the substring; otherwise the UPDATE sets the uuid of
      the user row it matches, if there is one, and the employee's own copy
      is saved. */
  function UpdateKakaoUuidWith(ownUser: bool, users: map<string, User>, t: Tables, employeeId: int,
                               kakaoUuid: Option<string>): (map<string, User>, Tables, Result<bool, Exception>)
  {
    match EmployeeById(t.employees, employeeId)
    case None => (users, t, Err(Runtime))
    case Some(e) =>
      if e.user.None? then (users, t, Err(NullPointer))
      else if !ownUser && |e.user.value| < 6 then (users, t, Err(IndexOutOfBounds))
      else
        var target := KakaoUuidTarget(ownUser, e.user.value);
        var users1 := if target in users then users[target := users[target].(kakaoUuid := kakaoUuid)] else users;
        (users1, t.(employees := PutEmployee(t.employees, e.(kakaoUuid := kakaoUuid))), Ok(true))
  }

  function UpdateKakaoUuidAsWritten(users: map<string, User>, t: Tables, employeeId: int, kakaoUuid: Option<string>)
    : (map<string, User>, Tables, Result<bool, Exception>)
  {
    UpdateKakaoUuidWith(false, users, t, employeeId, kakaoUuid)
  }

  function UpdateKakaoUuidSpec(users: map<string, User>, t: Tables, employeeId: int, kakaoUuid: Option<string>)
    : (map<string, User>, Tables, Result<bool, Exception>)
  {
    UpdateKakaoUuidWith(true, users, t, employeeId, kakaoUuid)
  }

  class EmployeeService {
    const org: Org

    constructor (org: Org)
      ensures this.org == org
    {
      this.org := org;
    }

    method RegisterEmployee(userId: string, name: Option<string>, phone: Option<string>, departmentName: string,
                            sectionName: Option<string>, position: Option<string>) returns (r: Result<Employee, Refusal>)
      modifies org
      ensures (TablesOf(org), r) ==
              RegisterEmployeeSpec(org.users, old(TablesOf(org)), userId, name, phone, departmentName, sectionName, position)
      ensures org.users == old(org.users)
    {
      if userId !in org.users {
        return Err(UserNotFound);
      }
      var user := org.users[userId];
      var department := DepartmentByName(org.departments, departmentName);
      if department.None? {
        return Err(DepartmentNotFound);
      }
      var section: Option<Section> := None;
      if Given(sectionName) {
        var found := SectionByName(org.sections, sectionName.value);
        if found.Err? {
          return Err(SectionNotUnique);
        }
        section := found.value;
        if section.None? {
          return Err(SectionNotFound);
        }
      }
      var existingEmployee := EmployeeByUserId(org.employees, userId);
      if existingEmployee.Some? {
        return Err(AlreadyRegistered);
      }
      var employee := Employee(org.nextId, Some(userId), name, phone, department, section, position, user.kakaoUuid);
      org.employees := org.employees + [employee];
      org.nextId := org.nextId + 1;
      r := Ok(employee);
    }

    method UpdateEmployee(employeeId: int, name: Option<string>, phone: Option<string>, departmentName: Option<string>,
                          sectionName: Option<string>, position: Option<string>) returns (r: Result<bool, Exception>)
      modifies org
      ensures (TablesOf(org), r) ==
              UpdateEmployeeSpec(old(TablesOf(org)), employeeId, name, phone, departmentName, sectionName, position)
      ensures org.users == old(org.users)
    {
      var employeeOptional := EmployeeById(org.employees, employeeId);
      if employeeOptional.None? {
        return Ok(false);
      }
      var chosen := AssignDepartment(employeeOptional.value, departmentName);
      if chosen.None? {
        return Ok(false);
      }
      var (employee, newDepartment) := chosen.value;
      r := SaveEdited(employee, sectionName, IdOf(newDepartment), name, phone, position);
    }

    /** The rest of updateEmployee: the section step, the null-means-keep
        assignments when it succeeds, and the save, which also happens when
        the section is refused; nothing is saved when the section lookup
        throws. */
    method SaveEdited(employee: Employee, sectionName: Option<string>, departmentId: Option<int>,
                      name: Option<string>, phone: Option<string>, position: Option<string>)
      returns (r: Result<bool, Exception>)
      modifies org
      ensures r == match SectionUpdate(old(org.sections), employee, sectionName, departmentId)
                   case Err(x) => Err(x)
                   case Ok(sectioned) => Ok(sectioned.Some?)
      ensures org.employees == match SectionUpdate(old(org.sections), employee, sectionName, departmentId)
                               case Err(_) => old(org.employees)
                               case Ok(None) => PutEmployee(old(org.employees), employee)
                               case Ok(Some(e2)) => PutEmployee(old(org.employees), Edited(e2, name, phone, position))
      ensures org.users == old(org.users) && org.departments == old(org.departments)
      ensures org.sections == old(org.sections) && org.nextId == old(org.nextId)
    {
      var sectioned := AssignSection(employee, sectionName, departmentId);
      if sectioned.Err? {
        return Err(sectioned.error);
      }
      if sectioned.value.None? {
        org.employees := PutEmployee(org.employees, employee);
        return Ok(false);
      }
      var edited := sectioned.value.value;
      if name.Some? { edited := edited.(name := name); }
      if phone.Some? { edited := edited.(phone := phone); }
      if position.Some? { edited := edited.(position := position); }
      assert edited == Edited(sectioned.value.value, name, phone, position);
      org.employees := PutEmployee(org.employees, edited);
      r := Ok(true);
    }

    /** The department branch of updateEmployee: the edited entity and the
        department the section is then looked up in. */
    method AssignDepartment(employee: Employee, departmentName: Option<string>)
      returns (r: Option<(Employee, Option<Department>)>)
      ensures r.None? <==> NewDepartment(TablesOf(org), employee, departmentName).None?
      ensures r.Some? ==>
        var department := NewDepartment(TablesOf(org), employee, departmentName).value;
        var changes := departmentName.Some? && !SameDepartment(department.value, employee.department);
        r.value == (if changes then employee.(department := department) else employee, department)
    {
      var newDepartment := employee.department;
      var edited := employee;
      if departmentName.Some? {
        var departmentOptional := DepartmentByName(org.departments, departmentName.value);
        if departmentOptional.None? {
          return None;
        }
        newDepartment := departmentOptional;
        if !SameDepartment(departmentOptional.value, employee.department) {
          edited := employee.(department := newDepartment);
        }
      }
      r := Some((edited, newDepartment));
    }

    /** The section branch of updateEmployee, on the entity being edited. */
    method AssignSection(employee: Employee, sectionName: Option<string>, departmentId: Option<int>)
      returns (r: Result<Option<Employee>, Exception>)
      ensures r == SectionUpdate(org.sections, employee, sectionName, departmentId)
    {
      if employee.section.None? {
        return Ok(Some(employee));
      }
      if !Given(sectionName) {
        return Ok(Some(employee.(section := None)));
      }
      var sectionOptional := SectionByNameInDepartment(org.sections, sectionName.value, departmentId);
      if sectionOptional.Err? {
        return Err(sectionOptional.error);
      }
      if sectionOptional.value.None? {
        return Ok(None);
      }
      r := Ok(Some(employee.(section := sectionOptional.value)));
    }

    method UpdateKakaoUuid(employeeId: int, kakaoUuid: Option<string>) returns (r: Result<bool, Exception>)
      modifies org
      ensures (org.users, TablesOf(org), r) == UpdateKakaoUuidSpec(old(org.users), old(TablesOf(org)), employeeId, kakaoUuid)
    {
      var employee := EmployeeById(org.employees, employeeId);
      if employee.None? {
        return Err(Runtime);
      }
      var e := employee.value;
      if e.user.None? {
        return Err(NullPointer);
      }
      var userId := e.user.value;
      if userId in org.users {
        org.users := org.users[userId := org.users[userId].(kakaoUuid := kakaoUuid)];
      }
      org.employees := PutEmployee(org.employees, e.(kakaoUuid := kakaoUuid));
      r := Ok(true);
    }

    method DeleteEmployee(employeeId: int) returns (deleted: bool)
      modifies org
      ensures (TablesOf(org), deleted) == DeleteEmployeeSpec(old(TablesOf(org)), employeeId)
      ensures org.users == old(org.users)
    {
      var employeeOptional := EmployeeById(org.employees, employeeId);
      if employeeOptional.Some? {
        org.employees := Filter(org.employees, (e: Employee) => e.id != employeeId);
        return true;
      }
      deleted := false;
    }
  }

  // ---------------------------------------------------------------------
  // SectionService

  const AddFlag: string := "add"
  const UpdateFlag: string := "update"
  const DeleteFlag: string := "delete"

  /** addSection: an unknown department gives null and saves nothing;
      otherwise a section linked to it is saved and its flag set to
      "update". */
  function AddSectionSpec(t: Tables, departmentId: int, sectionName: string): (Tables, Option<Department>)
  {
    match DepartmentById(t.departments, departmentId)
    case None => (t, None)
    case Some(d) =>
      var updated := d.(flag := UpdateFlag);
      (t.(sections := t.sections + [Section(t.nextId, Some(sectionName), Some(d.id))],
          departments := PutDepartment(t.departments, updated),
          nextId := t.nextId + 1), Some(updated))
  }

  /** removeSection: the section is looked up by name in every department;
      an unknown department or name gives null, and a name several
      sections carry makes the finder throw. */
  function RemoveSectionSpec(t: Tables, departmentId: int, sectionName: string)
    : (Tables, Result<Option<Department>, Exception>)
  {
    match DepartmentById(t.departments, departmentId)
    case None => (t, Ok(None))
    case Some(d) =>
      match SectionByName(t.sections, sectionName)
      case Err(x) => (t, Err(x))
      case Ok(None) => (t, Ok(None))
      case Ok(Some(s)) =>
        var updated := d.(flag := UpdateFlag);
        (t.(sections := Filter(t.sections, (x: Section) => x.id != s.id),
            departments := PutDepartment(t.departments, updated)), Ok(Some(updated)))
  }

  /** updateSection: the section, found by id, is renamed; the department
      is saved as it was.  A null section id is refused by findById. */
  function UpdateSectionSpec(t: Tables, departmentId: int, sectionId: Option<int>, newSectionName: Option<string>)
    : (Tables, Result<Option<Department>, Exception>)
  {
    match DepartmentById(t.departments, departmentId)
    case None => (t, Ok(None))
    case Some(d) =>
      if sectionId.None? then (t, Err(IllegalArgument))
      else
        match SectionById(t.sections, sectionId.value)
        case None => (t, Ok(None))
        case Some(s) => (t.(sections := PutSection(t.sections, s.(name := newSectionName))), Ok(Some(d)))
  }

  class SectionService {
    const org: Org

    constructor (org: Org)
      ensures this.org == org
    {
      this.org := org;
    }

    method AddSection(departmentId: int, sectionName: string) returns (r: Option<Department>)
      modifies org
      ensures (TablesOf(org), r) == AddSectionSpec(old(TablesOf(org)), departmentId, sectionName)
      ensures org.users == old(org.users)
    {
      var departmentOpt := DepartmentById(org.departments, departmentId);
      if departmentOpt.None? {
        return None;
      }
      var department := departmentOpt.value;
      var newSection := Section(org.nextId, Some(sectionName), Some(department.id));
      org.sections := org.sections + [newSection];
      org.nextId := org.nextId + 1;
      department := department.(flag := UpdateFlag);
      org.departments := PutDepartment(org.departments, department);
      r := Some(department);
    }

    method RemoveSection(departmentId: int, sectionName: string) returns (r: Result<Option<Department>, Exception>)
      modifies org
      ensures (TablesOf(org), r) == RemoveSectionSpec(old(TablesOf(org)), departmentId, sectionName)
      ensures org.users == old(org.users)
    {
      var departmentOpt := DepartmentById(org.departments, departmentId);
      if departmentOpt.None? {
        return Ok(None);
      }
      var department := departmentOpt.value;
      var sectionOpt := SectionByName(org.sections, sectionName);
      if sectionOpt.Err? {
        return Err(sectionOpt.error);
      }
      if sectionOpt.value.None? {
        return Ok(None);
      }
      var section := sectionOpt.value.value;
      org.sections := Filter(org.sections, (x: Section) => x.id != section.id);
      department := department.(flag := UpdateFlag);
      org.departments := PutDepartment(org.departments, department);
      r := Ok(Some(department));
    }

    method UpdateSection(departmentId: int, sectionId: Option<int>, newSectionName: Option<string>)
      returns (r: Result<Option<Department>, Exception>)
      modifies org
      ensures (TablesOf(org), r) == UpdateSectionSpec(old(TablesOf(org)), departmentId, sectionId, newSectionName)
      ensures org.users == old(org.users)
    {
      var department := DepartmentById(org.departments, departmentId);
      if department.None? {
        return Ok(None);
      }
      if sectionId.None? {
        return Err(IllegalArgument);
      }
      var section := SectionById(org.sections, sectionId.value);
      if section.None? {
        return Ok(None);
      }
      org.sections := PutSection(org.sections, section.value.(name := newSectionName));
      r := Ok(department);
    }
  }

  // ---------------------------------------------------------------------
  // DepartmentController

  const OkStatus: int := 200
  const CreatedStatus: int := 201
  const NotFoundStatus: int := 404

  /** A response: its status and the department in its body, if any. */
  datatype DepartmentReply = DepartmentReply(status: int, body: Option<Department>)

  /** getDepartments: findByFlagNot("delete"). */
  function ListedDepartments(ds: seq<Department>): seq<Department>
  {
    Filter(ds, (d: Department) => d.flag != DeleteFlag)
  }

  /** addDepartment: a new row with flag "add"; a null name breaks the
      not-null column and a taken name the unique one. */
  function AddDepartmentSpec(t: Tables, departmentName: Option<string>): (Tables, Result<DepartmentReply, Exception>)
  {
    if departmentName.None? || DepartmentByName(t.departments, departmentName.value).Some? then (t, Err(Runtime))
    else
      var saved := Department(t.nextId, departmentName.value, AddFlag);
      (t.(departments := t.departments + [saved], nextId := t.nextId + 1), Ok(DepartmentReply(CreatedStatus, Some(saved))))
  }

  /** updateDepartment: an unknown id is 404; otherwise the name is
      replaced and the flag set to "update", under the same column
      constraints as add. */
  function UpdateDepartmentSpec(t: Tables, departmentId: int, departmentName: Option<string>)
    : (Tables, Result<DepartmentReply, Exception>)
  {
    match DepartmentById(t.departments, departmentId)
    case None => (t, Ok(DepartmentReply(NotFoundStatus, None)))
    case Some(d) =>
      if departmentName.None? then (t, Err(Runtime))
      else
        var other := DepartmentByName(t.departments, departmentName.value);
        if other.Some? && other.value.id != d.id then (t, Err(Runtime))
        else
          var updated := d.(name := departmentName.value, flag := UpdateFlag);
          (t.(departments := PutDepartment(t.departments, updated)), Ok(DepartmentReply(OkStatus, Some(updated))))
  }

  /** deleteDepartment: a soft delete. */
  function DeleteDepartmentSpec(t: Tables, departmentId: int): (Tables, DepartmentReply)
  {
    match DepartmentById(t.departments, departmentId)
    case None => (t, DepartmentReply(NotFoundStatus, None))
    case Some(d) => (t.(departments := PutDepartment(t.departments, d.(flag := DeleteFlag))), DepartmentReply(OkStatus, None))
  }

  class DepartmentController {
    const org: Org

    constructor (org: Org)
      ensures this.org == org
    {
      this.org := org;
    }

    method GetDepartments() returns (r: DepartmentReply, departments: seq<Department>)
      ensures r.status == OkStatus
      ensures forall d :: d in departments <==> d in org.departments && d.flag != DeleteFlag
      ensures exists idx :: OrderedPositions(departments, org.departments, idx)
    {
      departments := ListedDepartments(org.departments);
      ghost var idx := FilterPositions(org.departments, (d: Department) => d.flag != DeleteFlag);
      r := DepartmentReply(OkStatus, None);
    }

    method AddDepartment(departmentName: Option<string>) returns (r: Result<DepartmentReply, Exception>)
      modifies org
      ensures (TablesOf(org), r) == AddDepartmentSpec(old(TablesOf(org)), departmentName)
      ensures org.users == old(org.users)
    {
      if departmentName.None? || DepartmentByName(org.departments, departmentName.value).Some? {
        return Err(Runtime);
      }
      var department := Department(org.nextId, departmentName.value, AddFlag);
      org.departments := org.departments + [department];
      org.nextId := org.nextId + 1;
      r := Ok(DepartmentReply(CreatedStatus, Some(department)));
    }

    method UpdateDepartment(departmentId: int, departmentName: Option<string>) returns (r: Result<DepartmentReply, Exception>)
      modifies org
      ensures (TablesOf(org), r) == UpdateDepartmentSpec(old(TablesOf(org)), departmentId, departmentName)
      ensures org.users == old(org.users)
    {
      var departmentOpt := DepartmentById(org.departments, departmentId);
      if departmentOpt.None? {
        return Ok(DepartmentReply(NotFoundStatus, None));
      }
      var department := departmentOpt.value;
      if departmentName.None? {
        return Err(Runtime);
      }
      var other := DepartmentByName(org.departments, departmentName.value);
      if other.Some? && other.value.id != department.id {
        return Err(Runtime);
      }
      department := department.(name := departmentName.value, flag := UpdateFlag);
      org.departments := PutDepartment(org.departments, department);
      r := Ok(DepartmentReply(OkStatus, Some(department)));
    }

    method DeleteDepartment(departmentId: int) returns (r: DepartmentReply)
      modifies org
      ensures (TablesOf(org), r) == DeleteDepartmentSpec(old(TablesOf(org)), departmentId)
      ensures org.users == old(org.users)
    {
      var departmentOpt := DepartmentById(org.departments, departmentId);
      if departmentOpt.None? {
        return DepartmentReply(NotFoundStatus, None);
      }
      org.departments := PutDepartment(org.departments, departmentOpt.value.(flag := DeleteFlag));
      r := DepartmentReply(OkStatus, None);
    }
  }

  // ---------------------------------------------------------------------
  // SectionSettingsService

  /** The settings row; the column may hold null. */
  datatype SectionSettings = SectionSettings(id: int, useSections: Option<bool>)

  /** getUseSectionsStatus: the first row by id, or true when there is none. */
  function UseSectionsStatus(rows: seq<SectionSettings>): Option<bool>
  {
    if rows == [] then Some(true) else rows[0].useSections
  }

  /** The settings table, in id order, with its identity counter. */
  class SectionSettingsRepository {
    var rows: seq<SectionSettings>
    var nextId: int

    constructor ()
      ensures rows == [] && nextId == 1
    {
      rows := [];
      nextId := 1;
    }

    predicate Valid()
      reads this
    {
      SettingsOrdered(rows, nextId)
    }
  }

  /** The order the settings table keeps: ids ascending, all below the
      next identity value. */
  predicate SettingsOrdered(rows: seq<SectionSettings>, nextId: int)
  {
    && (forall i, j :: 0 <= i < j < |rows| ==> rows[i].id < rows[j].id)
    && (forall k :: 0 <= k < |rows| ==> rows[k].id < nextId)
  }

  /** updateUseSectionsStatus: the first row overwritten, or a first row
      created. */
  function UpdateUseSectionsSpec(rows: seq<SectionSettings>, nextId: int, useSections: Option<bool>)
    : (seq<SectionSettings>, int, SectionSettings)
  {
    if rows == [] then
      var created := SectionSettings(nextId, useSections);
      ([created], nextId + 1, created)
    else
      var updated := rows[0].(useSections := useSections);
      (rows[0 := updated], nextId, updated)
  }

  class SectionSettingsService {
    const repo: SectionSettingsRepository

    constructor (repo: SectionSettingsRepository)
      ensures this.repo == repo
    {
      this.repo := repo;
    }

    method UpdateUseSectionsStatus(useSections: Option<bool>) returns (saved: SectionSettings)
      requires repo.Valid()
      modifies repo
      ensures repo.Valid()
      ensures (repo.rows, repo.nextId, saved) == UpdateUseSectionsSpec(old(repo.rows), old(repo.nextId), useSections)
    {
      if repo.rows == [] {
        saved := SectionSettings(repo.nextId, useSections);
        repo.rows := [saved];
        repo.nextId := repo.nextId + 1;
      } else {
        saved := repo.rows[0].(useSections := useSections);
        repo.rows := repo.rows[0 := saved];
      }
    }
  }
}
