// What the directory services promise: the order in which registration
// refuses, the fields an update may touch, deletion, the section and
// department flag life cycle, the use-sections default, and that every
// write keeps the tables' keys.

module DirectoryServiceProperties {
  import opened Common
  import opened Directory
  import opened DirectoryServices

  // ---------------------------------------------------------------------
  // Lookup after save

  /** A search that stops at index k. */
  lemma FirstIndexAt<T>(s: seq<T>, p: T -> bool, k: nat)
    requires k < |s| && p(s[k]) && forall j :: 0 <= j < k ==> !p(s[j])
    ensures FirstIndex(s, p) == Some(k)
  {
    var r := FirstIndex(s, p);
    assert r.Some?;
  }

  /** After saving an employee whose id is in the table, findById returns
      the saved row, and every other id finds what it found before. */
  lemma PutEmployeeFinds(es: seq<Employee>, x: Employee, j: int)
    requires EmployeeById(es, x.id).Some?
    ensures EmployeeById(PutEmployee(es, x), x.id) == Some(x)
    ensures j != x.id ==> EmployeeById(PutEmployee(es, x), j) == EmployeeById(es, j)
  {
    var put := PutEmployee(es, x);
    var k := FirstIndex(es, (e: Employee) => e.id == x.id).value;
    assert put[k] == x;
    FirstIndexAt(put, (e: Employee) => e.id == x.id, k);
    if j != x.id {
      assert forall i :: 0 <= i < |es| ==> (put[i].id == j <==> es[i].id == j);
      match FirstIndex(es, (e: Employee) => e.id == j)
      case None =>
      case Some(i) =>
        FirstIndexAt(put, (e: Employee) => e.id == j, i);
    }
  }

  /** With distinct keys, findById of a row's id finds that row. */
  lemma KeyedEmployee(t: Tables, k: int)
    requires Keyed(t) && 0 <= k < |t.employees|
    ensures EmployeeById(t.employees, t.employees[k].id) == Some(t.employees[k])
  {
    FirstIndexAt(t.employees, (e: Employee) => e.id == t.employees[k].id, k);
  }

  lemma KeyedDepartment(t: Tables, k: int)
    requires Keyed(t) && 0 <= k < |t.departments|
    ensures DepartmentById(t.departments, t.departments[k].id) == Some(t.departments[k])
  {
    FirstIndexAt(t.departments, (d: Department) => d.id == t.departments[k].id, k);
  }

  /** A row appended with an id above every key is what findById finds. */
  lemma AppendedEmployeeFound(es: seq<Employee>, x: Employee)
    requires forall e :: e in es ==> e.id < x.id
    ensures EmployeeById(es + [x], x.id) == Some(x)
  {
    var s := es + [x];
    assert forall j :: 0 <= j < |es| ==> s[j] == es[j] && s[j] in es;
    FirstIndexAt(s, (e: Employee) => e.id == x.id, |es|);
  }

  // ---------------------------------------------------------------------
  // registerEmployee

  /** The refusals, in the order the source checks them; a refusal
      changes nothing. */
  lemma RegisterEmployeeRefusals(users: map<string, User>, t: Tables, userId: string, name: Option<string>,
                                 phone: Option<string>, departmentName: string, sectionName: Option<string>,
                                 position: Option<string>)
    ensures var (t1, r) := RegisterEmployeeSpec(users, t, userId, name, phone, departmentName, sectionName, position);
      && (userId !in users ==> r == Err(UserNotFound))
      && (userId in users && DepartmentByName(t.departments, departmentName).None? ==> r == Err(DepartmentNotFound))
      && ((userId in users && DepartmentByName(t.departments, departmentName).Some? && Given(sectionName) &&
           SectionByName(t.sections, sectionName.value).Err?) ==> r == Err(SectionNotUnique))
      && ((userId in users && DepartmentByName(t.departments, departmentName).Some? && Given(sectionName) &&
           SectionByName(t.sections, sectionName.value) == Ok(None)) ==> r == Err(SectionNotFound))
      && ((userId in users && DepartmentByName(t.departments, departmentName).Some? &&
           (!Given(sectionName) || (SectionByName(t.sections, sectionName.value).Ok? &&
                                    SectionByName(t.sections, sectionName.value).value.Some?)) &&
           EmployeeByUserId(t.employees, userId).Some?) ==> r == Err(AlreadyRegistered))
      && (r.Err? ==> t1 == t)
  {
  }

  /** A registration appends one employee, linked to the user, carrying the
      user's kakao uuid, the named department, and the named section or
      none for a null or blank section name; it then is the user's
      employee, and a second registration is refused. */
  lemma {:induction false} RegisterEmployeeSaves(users: map<string, User>, t: Tables, userId: string, name: Option<string>,
                                                 phone: Option<string>, departmentName: string, sectionName: Option<string>,
                                                 position: Option<string>)
    requires Keyed(t)
    ensures var (t1, r) := RegisterEmployeeSpec(users, t, userId, name, phone, departmentName, sectionName, position);
      r.Ok? ==>
        var e := r.value;
        && t1 == t.(employees := t.employees + [e], nextId := t.nextId + 1)
        && e.id == t.nextId && e.user == Some(userId) && e.name == name && e.phone == phone && e.position == position
        && e.kakaoUuid == users[userId].kakaoUuid
        && e.department.Some? && e.department.value in t.departments && e.department.value.name == departmentName
        && (!Given(sectionName) ==> e.section.None?)
        && (Given(sectionName) ==> e.section.Some? && e.section.value in t.sections
                                   && e.section.value.name == sectionName)
        && EmployeeById(t1.employees, e.id) == Some(e)
        && EmployeeByUserId(t1.employees, userId) == Some(e)
        && RegisterEmployeeSpec(users, t1, userId, name, phone, departmentName, sectionName, position).1
           == Err(AlreadyRegistered)
  {
    var (t1, r) := RegisterEmployeeSpec(users, t, userId, name, phone, departmentName, sectionName, position);
    if r.Ok? {
      var e := r.value;
      AppendedEmployeeFound(t.employees, e);
      var s := t1.employees;
      assert forall j :: 0 <= j < |t.employees| ==> s[j] == t.employees[j] && s[j] in t.employees;
      FirstIndexAt(s, (x: Employee) => x.user == Some(userId), |t.employees|);
      assert EmployeeByUserId(t1.employees, userId) == Some(e);
    }
  }

  /** Registration keeps the keys: the new id is the counter, which then
      moves past it. */
  lemma RegisterEmployeeKeepsKeys(users: map<string, User>, t: Tables, userId: string, name: Option<string>,
                                  phone: Option<string>, departmentName: string, sectionName: Option<string>,
                                  position: Option<string>)
    requires Keyed(t)
    ensures Keyed(RegisterEmployeeSpec(users, t, userId, name, phone, departmentName, sectionName, position).0)
  {
    var (t1, r) := RegisterEmployeeSpec(users, t, userId, name, phone, departmentName, sectionName, position);
    if r.Ok? {
      assert t1.employees == t.employees + [r.value];
      assert forall j :: 0 <= j < |t.employees| ==> t.employees[j] in t.employees;
    }
  }

  // ---------------------------------------------------------------------
  // updateEmployee

  /** The employee the update edits, and the department it is looked up in. */
  function Target(t: Tables, employeeId: int): Employee
    requires EmployeeById(t.employees, employeeId).Some?
  {
    EmployeeById(t.employees, employeeId).value
  }

  /** updateEmployee answers false, changing nothing, for an unknown
      employee or an unknown department name; a section not found in the
      department answers false too, but the department already assigned
      to the entity is committed with it.  It throws, changing nothing,
      only when the section lookup finds several sections. */
  lemma UpdateEmployeeRefusals(t: Tables, employeeId: int, name: Option<string>, phone: Option<string>,
                               departmentName: Option<string>, sectionName: Option<string>, position: Option<string>)
    requires Keyed(t)
    ensures var (t1, r) := UpdateEmployeeSpec(t, employeeId, name, phone, departmentName, sectionName, position);
      && (EmployeeById(t.employees, employeeId).None? ==> t1 == t && r == Ok(false))
      && ((EmployeeById(t.employees, employeeId).Some? && departmentName.Some? &&
           DepartmentByName(t.departments, departmentName.value).None?) ==> t1 == t && r == Ok(false))
      && (r == Ok(false) && EmployeeById(t.employees, employeeId).Some? ==>
            var e := Target(t, employeeId);
            && t1.departments == t.departments && t1.sections == t.sections && t1.nextId == t.nextId
            && (forall k :: 0 <= k < |t.employees| ==>
                  if t.employees[k].id == employeeId then t1.employees[k].(department := e.department) == e
                  else t1.employees[k] == t.employees[k])
            && (t1 != t ==> e.section.Some? && Given(sectionName) && departmentName.Some?))
      && (r.Err? <==>
            && EmployeeById(t.employees, employeeId).Some?
            && NewDepartment(t, Target(t, employeeId), departmentName).Some?
            && Target(t, employeeId).section.Some? && Given(sectionName)
            && SectionByNameInDepartment(t.sections, sectionName.value,
                                         IdOf(NewDepartment(t, Target(t, employeeId), departmentName).value)).Err?)
      && (r.Err? ==> t1 == t && r.error == IncorrectResultSize)
  {
    var (t1, r) := UpdateEmployeeSpec(t, employeeId, name, phone, departmentName, sectionName, position);
    if r == Ok(false) && EmployeeById(t.employees, employeeId).Some? {
      var e := Target(t, employeeId);
      forall k | 0 <= k < |t.employees| && t.employees[k].id == employeeId ensures t.employees[k] == e {
        KeyedEmployee(t, k);
      }
    }
  }

  /** A successful update edits the target row: null name, phone and
      position keep the old values, the department is the named one or
      stays, and the id, user link and kakao uuid never change. */
  lemma {:induction false} UpdateEmployeeEdits(t: Tables, employeeId: int, name: Option<string>, phone: Option<string>,
                                               departmentName: Option<string>, sectionName: Option<string>,
                                               position: Option<string>)
    ensures var (t1, r) := UpdateEmployeeSpec(t, employeeId, name, phone, departmentName, sectionName, position);
      r == Ok(true) ==>
        var e := Target(t, employeeId);
        && EmployeeById(t1.employees, employeeId).Some?
        && var e1 := EmployeeById(t1.employees, employeeId).value;
        && e1.id == e.id && e1.user == e.user && e1.kakaoUuid == e.kakaoUuid
        && e1.name == (if name.Some? then name else e.name)
        && e1.phone == (if phone.Some? then phone else e.phone)
        && e1.position == (if position.Some? then position else e.position)
        && (departmentName.None? ==> e1.department == e.department)
        && (departmentName.Some? ==> e1.department.Some? && e1.department.value.id
                                       == DepartmentByName(t.departments, departmentName.value).value.id)
  {
    var (t1, r) := UpdateEmployeeSpec(t, employeeId, name, phone, departmentName, sectionName, position);
    if r == Ok(true) {
      var e := Target(t, employeeId);
      var department := NewDepartment(t, e, departmentName).value;
      var changes := departmentName.Some? && !SameDepartment(department.value, e.department);
      var e1 := if changes then e.(department := department) else e;
      var e2 := SectionUpdate(t.sections, e1, sectionName, IdOf(department)).value.value;
      assert e2 == e1.(section := e2.section);
      assert departmentName.Some? ==> e1.department.Some? && e1.department.value.id
                                      == DepartmentByName(t.departments, departmentName.value).value.id;
      var edited := Edited(e2, name, phone, position);
      assert t1.employees == PutEmployee(t.employees, edited);
      PutEmployeeFinds(t.employees, edited, employeeId);
    }
  }


  /** An update, whatever it answers, writes no row but the target's and no
      table but the employees. */
  lemma UpdateEmployeeKeepsOthers(t: Tables, employeeId: int, name: Option<string>, phone: Option<string>,
                                  departmentName: Option<string>, sectionName: Option<string>, position: Option<string>)
    ensures var t1 := UpdateEmployeeSpec(t, employeeId, name, phone, departmentName, sectionName, position).0;
      && |t1.employees| == |t.employees|
      && (forall k :: 0 <= k < |t.employees| && t.employees[k].id != employeeId ==> t1.employees[k] == t.employees[k])
      && t1.departments == t.departments && t1.sections == t.sections && t1.nextId == t.nextId
  {
  }

  /** The section of a successful update is touched only when the employee
      has one, and then cleared for a null or blank name or set to the
      section of that name in the new department. */
  lemma {:induction false} UpdateEmployeeSection(t: Tables, employeeId: int, name: Option<string>, phone: Option<string>,
                                                 departmentName: Option<string>, sectionName: Option<string>,
                                                 position: Option<string>)
    ensures var (t1, r) := UpdateEmployeeSpec(t, employeeId, name, phone, departmentName, sectionName, position);
      r == Ok(true) ==>
        var e := Target(t, employeeId);
        && EmployeeById(t1.employees, employeeId).Some?
        && var e1 := EmployeeById(t1.employees, employeeId).value;
        && (e.section.None? ==> e1.section.None?)
        && (e.section.Some? && !Given(sectionName) ==> e1.section.None?)
        && (e.section.Some? && Given(sectionName) ==>
              && e1.section.Some? && e1.section.value in t.sections && e1.section.value.name == sectionName
              && e1.section.value.departmentId == IdOf(NewDepartment(t, e, departmentName).value))
  {
    var (t1, r) := UpdateEmployeeSpec(t, employeeId, name, phone, departmentName, sectionName, position);
    if r == Ok(true) {
      var e := Target(t, employeeId);
      var department := NewDepartment(t, e, departmentName).value;
      var changes := departmentName.Some? && !SameDepartment(department.value, e.department);
      var e1 := if changes then e.(department := department) else e;
      var e2 := SectionUpdate(t.sections, e1, sectionName, IdOf(department)).value.value;
      assert e2 == e1.(section := e2.section);
      var edited := Edited(e2, name, phone, position);
      assert t1.employees == PutEmployee(t.employees, edited);
      PutEmployeeFinds(t.employees, edited, employeeId);
    }
  }

  /** The refused-section answer keeps the department just assigned. */
  lemma UpdateEmployeeFalseKeepsDepartment(t: Tables, employeeId: int, departmentName: string, sectionName: string)
    requires EmployeeById(t.employees, employeeId).Some?
    requires Target(t, employeeId).section.Some? && Given(Some(sectionName))
    requires DepartmentByName(t.departments, departmentName).Some?
    requires SectionByNameInDepartment(t.sections, sectionName, Some(DepartmentByName(t.departments, departmentName).value.id))
             == Ok(None)
    ensures var (t1, r) := UpdateEmployeeSpec(t, employeeId, None, None, Some(departmentName), Some(sectionName), None);
      && r == Ok(false)
      && EmployeeById(t1.employees, employeeId).Some?
      && EmployeeById(t1.employees, employeeId).value.department.value.id == DepartmentByName(t.departments, departmentName).value.id
  {
    var e := Target(t, employeeId);
    var d := DepartmentByName(t.departments, departmentName).value;
    var e1 := if SameDepartment(d, e.department) then e else e.(department := Some(d));
    PutEmployeeFinds(t.employees, e1, employeeId);
  }

  /** The code as written throws on the department change of an employee
      that has none: it logs the current department's name. */
  lemma UpdateEmployeeNoDepartmentAsWritten(t: Tables, employeeId: int, departmentName: string,
                                            name: Option<string>, phone: Option<string>, sectionName: Option<string>,
                                            position: Option<string>)
    requires EmployeeById(t.employees, employeeId).Some? && Target(t, employeeId).department.None?
    requires DepartmentByName(t.departments, departmentName).Some?
    ensures UpdateEmployeeAsWritten(t, employeeId, name, phone, Some(departmentName), sectionName, position)
            == (t, Err(NullPointer))
  {
  }

  /** As intended, the same request assigns the department. */
  lemma UpdateEmployeeAssignsDepartment(t: Tables, employeeId: int, departmentName: string,
                                        name: Option<string>, phone: Option<string>, sectionName: Option<string>,
                                        position: Option<string>)
    requires EmployeeById(t.employees, employeeId).Some? && Target(t, employeeId).department.None?
    requires DepartmentByName(t.departments, departmentName).Some?
    ensures var (t1, r) := UpdateEmployeeSpec(t, employeeId, name, phone, Some(departmentName), sectionName, position);
      && (r.Ok? || (Target(t, employeeId).section.Some? && r == Err(IncorrectResultSize)))
      && (r.Ok? ==>
            && EmployeeById(t1.employees, employeeId).Some?
            && EmployeeById(t1.employees, employeeId).value.department == DepartmentByName(t.departments, departmentName))
  {
    var e := Target(t, employeeId);
    var d := DepartmentByName(t.departments, departmentName);
    var e1 := e.(department := d);
    var (t1, r) := UpdateEmployeeSpec(t, employeeId, name, phone, Some(departmentName), sectionName, position);
    match SectionUpdate(t.sections, e1, sectionName, IdOf(d))
    case Err(_) =>
    case Ok(None) =>
      PutEmployeeFinds(t.employees, e1, employeeId);
    case Ok(Some(e2)) =>
      PutEmployeeFinds(t.employees, Edited(e2, name, phone, position), employeeId);
  }

  /** Saving an employee under a key below the counter keeps the keys. */
  lemma PutEmployeeKeepsKeys(t: Tables, x: Employee)
    requires Keyed(t) && x.id < t.nextId
    ensures Keyed(t.(employees := PutEmployee(t.employees, x)))
  {
    var es := PutEmployee(t.employees, x);
    assert forall k :: 0 <= k < |t.employees| ==> es[k].id == t.employees[k].id;
    forall e | e in es ensures e.id < t.nextId {
      var k :| 0 <= k < |es| && es[k] == e;
      assert t.employees[k] in t.employees;
    }
  }

  /** An update keeps the keys: rows keep their ids. */
  lemma UpdateEmployeeKeepsKeys(t: Tables, employeeId: int, name: Option<string>, phone: Option<string>,
                                departmentName: Option<string>, sectionName: Option<string>, position: Option<string>)
    requires Keyed(t)
    ensures Keyed(UpdateEmployeeSpec(t, employeeId, name, phone, departmentName, sectionName, position).0)
  {
    var t1 := UpdateEmployeeSpec(t, employeeId, name, phone, departmentName, sectionName, position).0;
    if t1 != t {
      var e := Target(t, employeeId);
      var department := NewDepartment(t, e, departmentName).value;
      var changes := departmentName.Some? && !SameDepartment(department.value, e.department);
      var e1 := if changes then e.(department := department) else e;
      match SectionUpdate(t.sections, e1, sectionName, IdOf(department))
      case Err(_) =>
      case Ok(None) =>
        PutEmployeeKeepsKeys(t, e1);
      case Ok(Some(e2)) =>
        PutEmployeeKeepsKeys(t, Edited(e2, name, phone, position));
    }
  }

  // ---------------------------------------------------------------------
  // deleteEmployee

  /** deleteEmployee answers true exactly when the employee exists, and
      then removes every row with that id and no other. */
  lemma DeleteEmployeeOutcome(t: Tables, employeeId: int)
    ensures var (t1, deleted) := DeleteEmployeeSpec(t, employeeId);
      && (deleted <==> exists e :: e in t.employees && e.id == employeeId)
      && (forall e :: e in t1.employees <==> e in t.employees && e.id != employeeId)
      && EmployeeById(t1.employees, employeeId).None?
      && t1.departments == t.departments && t1.sections == t.sections && t1.nextId == t.nextId
  {
    var (t1, deleted) := DeleteEmployeeSpec(t, employeeId);
    if deleted {
      FilterMembership(t.employees, employeeId);
    }
  }

  lemma FilterMembership(es: seq<Employee>, employeeId: int)
    ensures forall e :: e in Filter(es, (x: Employee) => x.id != employeeId) <==> e in es && e.id != employeeId
  {
    var r := Filter(es, (x: Employee) => x.id != employeeId);
    forall e | e in r ensures e in es && e.id != employeeId {
      var i :| 0 <= i < |r| && r[i] == e;
    }
    forall e | e in es && e.id != employeeId ensures e in r {
      var i :| 0 <= i < |es| && es[i] == e;
    }
  }

  // ---------------------------------------------------------------------
  // updateKakaoUuid

  /** updateKakaoUuid, as intended: an unknown employee is refused and an
      employee without a user dereferenced, changing nothing; otherwise the
      employee's user row and the employee's own copy both get the uuid,
      so that the two agree afterwards, and nothing else changes. */
  lemma UpdateKakaoUuidOutcome(users: map<string, User>, t: Tables, employeeId: int, kakaoUuid: Option<string>)
    ensures var (users1, t1, r) := UpdateKakaoUuidSpec(users, t, employeeId, kakaoUuid);
      && (EmployeeById(t.employees, employeeId).None? ==> users1 == users && t1 == t && r == Err(Runtime))
      && (EmployeeById(t.employees, employeeId).Some? && Target(t, employeeId).user.None? ==>
            users1 == users && t1 == t && r == Err(NullPointer))
      && (r.Ok? <==> EmployeeById(t.employees, employeeId).Some? && Target(t, employeeId).user.Some?)
      && (r.Ok? ==>
            var e := Target(t, employeeId);
            var u := e.user.value;
            && r.value
            && users1 == (if u in users then users[u := users[u].(kakaoUuid := kakaoUuid)] else users)
            && EmployeeById(t1.employees, employeeId) == Some(e.(kakaoUuid := kakaoUuid))
            && (u in users ==> UserUuid(users1, EmployeeById(t1.employees, employeeId).value) == kakaoUuid)
            && (forall j :: j != employeeId ==> EmployeeById(t1.employees, j) == EmployeeById(t.employees, j))
            && t1.departments == t.departments && t1.sections == t.sections && t1.nextId == t.nextId)
  {
    var (users1, t1, r) := UpdateKakaoUuidSpec(users, t, employeeId, kakaoUuid);
    if r.Ok? {
      var e := Target(t, employeeId);
      PutEmployeeFinds(t.employees, e.(kakaoUuid := kakaoUuid), employeeId);
      forall j | j != employeeId ensures EmployeeById(t1.employees, j) == EmployeeById(t.employees, j) {
        PutEmployeeFinds(t.employees, e.(kakaoUuid := kakaoUuid), j);
      }
    }
  }

  /** updateKakaoUuid keeps the keys. */
  lemma UpdateKakaoUuidKeepsKeys(users: map<string, User>, t: Tables, employeeId: int, kakaoUuid: Option<string>)
    requires Keyed(t)
    ensures Keyed(UpdateKakaoUuidSpec(users, t, employeeId, kakaoUuid).1)
  {
    var (users1, t1, r) := UpdateKakaoUuidSpec(users, t, employeeId, kakaoUuid);
    if r.Ok? {
      var e := Target(t, employeeId);
      PutEmployeeKeepsKeys(t, e.(kakaoUuid := kakaoUuid));
    }
  }

  /** As written, the query strips six characters and prepends "kakao_":
      for a user id with another prefix, such as a "naver_" one, the
      employee's own user row keeps its old uuid, and the row of the user
      the rewritten id names, if there is one, is overwritten instead. */
  lemma UpdateKakaoUuidAsWrittenMisses(users: map<string, User>, t: Tables, employeeId: int, kakaoUuid: Option<string>)
    requires EmployeeById(t.employees, employeeId).Some? && Target(t, employeeId).user.Some?
    requires |Target(t, employeeId).user.value| >= 6 && !StartsWith(Target(t, employeeId).user.value, KakaoPrefix)
    requires Target(t, employeeId).user.value in users
    ensures var u := Target(t, employeeId).user.value;
      var (users1, t1, r) := UpdateKakaoUuidAsWritten(users, t, employeeId, kakaoUuid);
      && r == Ok(true)
      && u in users1 && users1[u] == users[u]
      && (KakaoPrefix + u[6..] in users ==> users1[KakaoPrefix + u[6..]].kakaoUuid == kakaoUuid)
  {
    var u := Target(t, employeeId).user.value;
    assert (KakaoPrefix + u[6..])[..6] == KakaoPrefix;
  }

  /** As written, a user id shorter than six characters fails the
      substring, changing nothing. */
  lemma UpdateKakaoUuidShortIdAsWritten(users: map<string, User>, t: Tables, employeeId: int, kakaoUuid: Option<string>)
    requires EmployeeById(t.employees, employeeId).Some? && Target(t, employeeId).user.Some?
    requires |Target(t, employeeId).user.value| < 6
    ensures UpdateKakaoUuidAsWritten(users, t, employeeId, kakaoUuid) == (users, t, Err(IndexOutOfBounds))
  {
  }

  /** For a "kakao_" user the code as written and the intended update
      agree. */
  lemma UpdateKakaoUuidKakaoUsersAgree(users: map<string, User>, t: Tables, employeeId: int, kakaoUuid: Option<string>)
    requires EmployeeById(t.employees, employeeId).Some? && Target(t, employeeId).user.Some?
    requires StartsWith(Target(t, employeeId).user.value, KakaoPrefix)
    ensures UpdateKakaoUuidAsWritten(users, t, employeeId, kakaoUuid) == UpdateKakaoUuidSpec(users, t, employeeId, kakaoUuid)
  {
    var u := Target(t, employeeId).user.value;
    assert u == u[..6] + u[6..];
  }

  // ---------------------------------------------------------------------
  // searchEmployees

  /** searchEmployees lists exactly the DTOs of the employees whose name
      contains the keyword and, when a non-empty department name is given,
      who belong to that department; every listed name contains the
      keyword, and an empty keyword without a department lists every
      employee that has a name. */
  lemma {:induction false} SearchEmployeesExact(employees: seq<Employee>, keyword: string, department: Option<string>,
                                                d: EmployeeDto)
    ensures d in SearchEmployees(employees, keyword, department) <==>
            exists e :: e in employees && SearchMatches(e, keyword, department) && d == ToDto(e)
    ensures d in SearchEmployees(employees, keyword, department) ==> d.name.Some? && Contains(d.name.value, keyword)
    ensures |SearchEmployees(employees, keyword, department)| <= |employees|
    ensures keyword == [] && department.None? ==>
              forall e :: e in employees && e.name.Some? ==> ToDto(e) in SearchEmployees(employees, keyword, department)
  {
    var found := Searched(employees, keyword, department);
    var r := SearchEmployees(employees, keyword, department);
    if d in r {
      var i :| 0 <= i < |r| && r[i] == d;
      assert d == ToDto(found[i]) && found[i] in found;
    }
    if exists e :: e in employees && SearchMatches(e, keyword, department) && d == ToDto(e) {
      var e :| e in employees && SearchMatches(e, keyword, department) && d == ToDto(e);
      var k :| 0 <= k < |employees| && employees[k] == e;
      assert e in found;
      var i :| 0 <= i < |found| && found[i] == e;
      assert r[i] == d;
    }
    if keyword == [] && department.None? {
      forall e | e in employees && e.name.Some? ensures ToDto(e) in r {
        assert StartsWith(e.name.value[0..], keyword);
        var k :| 0 <= k < |employees| && employees[k] == e;
        assert e in found;
        var i :| 0 <= i < |found| && found[i] == e;
        assert r[i] == ToDto(e);
      }
    }
  }


  // ---------------------------------------------------------------------
  // The uuid lists and toDTO

  /** getAllKakaoUuids: exactly the present, non-empty employee uuids. */
  lemma AllKakaoUuidsExact(employees: seq<Employee>, u: string)
    ensures u in AllKakaoUuids(employees) <==> u != [] && exists e :: e in employees && e.kakaoUuid == Some(u)
  {
  }

  /** getKakaoUuidsByDepartment: exactly the present, non-empty uuids of
      the users linked to the department's employees. */
  lemma KakaoUuidsByDepartmentExact(users: map<string, User>, employees: seq<Employee>, departmentName: string, u: string)
    ensures u in KakaoUuidsByDepartment(users, employees, departmentName) <==>
            u != [] && exists e :: e in employees && e.department.Some? && e.department.value.name == departmentName
                                   && e.user.Some? && e.user.value in users && users[e.user.value].kakaoUuid == Some(u)
  {
    var es := EmployeesOfDepartment(employees, departmentName);
    if u in KakaoUuidsByDepartment(users, employees, departmentName) {
      var e :| e in es && UserUuid(users, e) == Some(u) && u != [];
      assert e in employees;
    }
    if u != [] && exists e :: e in employees && e.department.Some? && e.department.value.name == departmentName
                              && e.user.Some? && e.user.value in users && users[e.user.value].kakaoUuid == Some(u) {
      var e :| e in employees && e.department.Some? && e.department.value.name == departmentName
               && e.user.Some? && e.user.value in users && users[e.user.value].kakaoUuid == Some(u);
      assert e in es && UserUuid(users, e) == Some(u);
    }
  }

  /** getKakaoUuidsWithEmployees: only requested, non-empty uuids, and
      every requested one some employee holds. */
  lemma KakaoUuidsWithEmployeesExact(employees: seq<Employee>, kakaoUuids: seq<string>, u: string)
    ensures u in KakaoUuidsWithEmployees(employees, kakaoUuids) <==>
            u != [] && u in kakaoUuids && exists e :: e in employees && e.kakaoUuid == Some(u)
  {
    var held := Filter(employees, (e: Employee) => e.kakaoUuid.Some? && e.kakaoUuid.value in kakaoUuids);
    if u in KakaoUuidsWithEmployees(employees, kakaoUuids) {
      var e :| e in held && e.kakaoUuid == Some(u) && u != [];
      var i :| 0 <= i < |held| && held[i] == e;
    }
    if u != [] && u in kakaoUuids && exists e :: e in employees && e.kakaoUuid == Some(u) {
      var e :| e in employees && e.kakaoUuid == Some(u);
      var i :| 0 <= i < |employees| && employees[i] == e;
      assert e in held;
    }
  }

  // ---------------------------------------------------------------------
  // Sections

  /** addSection: an unknown department gives null and changes nothing;
      otherwise one section, linked to the department under the next id,
      is added, and the department's flag becomes "update". */
  lemma {:induction false} AddSectionOutcome(t: Tables, departmentId: int, sectionName: string)
    requires Keyed(t)
    ensures var (t1, r) := AddSectionSpec(t, departmentId, sectionName);
      && (DepartmentById(t.departments, departmentId).None? ==> t1 == t && r.None?)
      && (r.Some? ==>
            var added := Section(t.nextId, Some(sectionName), Some(departmentId));
            && r.value == DepartmentById(t.departments, departmentId).value.(flag := UpdateFlag)
            && t1.sections == t.sections + [added]
            && SectionById(t1.sections, t.nextId) == Some(added)
            && DepartmentById(t1.departments, departmentId) == r
            && t1.employees == t.employees)
  {
    var (t1, r) := AddSectionSpec(t, departmentId, sectionName);
    if r.Some? {
      var s := t1.sections;
      assert forall j :: 0 <= j < |t.sections| ==> s[j] == t.sections[j] && s[j] in t.sections;
      FirstIndexAt(s, (x: Section) => x.id == t.nextId, |t.sections|);
      PutDepartmentFinds(t.departments, r.value);
    }
  }

  /** addSection keeps the keys. */
  lemma AddSectionKeepsKeys(t: Tables, departmentId: int, sectionName: string)
    requires Keyed(t)
    ensures Keyed(AddSectionSpec(t, departmentId, sectionName).0)
  {
    var (t1, r) := AddSectionSpec(t, departmentId, sectionName);
    if r.Some? {
      PutDepartmentKeepsKeys(t, r.value);
      var t2 := t.(departments := t1.departments);
      assert t1 == t2.(sections := t.sections + [Section(t.nextId, Some(sectionName), Some(departmentId))], nextId := t.nextId + 1);
      assert forall j :: 0 <= j < |t.sections| ==> t.sections[j] in t.sections;
    }
  }

  /** Saving a department whose id exists: findById then returns it. */
  lemma PutDepartmentFinds(ds: seq<Department>, x: Department)
    requires DepartmentById(ds, x.id).Some?
    ensures DepartmentById(PutDepartment(ds, x), x.id) == Some(x)
  {
    var put := PutDepartment(ds, x);
    var k := FirstIndex(ds, (d: Department) => d.id == x.id).value;
    assert put[k] == x;
    FirstIndexAt(put, (d: Department) => d.id == x.id, k);
  }

  /** Re-saving a department under its own name, or under a name no other
      department holds, keeps the keys. */
  lemma PutDepartmentKeepsKeys(t: Tables, x: Department)
    requires Keyed(t) && DepartmentById(t.departments, x.id).Some?
    requires forall d :: d in t.departments && d.id != x.id ==> d.name != x.name
    ensures Keyed(t.(departments := PutDepartment(t.departments, x)))
  {
    var put := PutDepartment(t.departments, x);
    assert forall k :: 0 <= k < |put| ==> put[k].id == t.departments[k].id && t.departments[k] in t.departments;
    forall i, j | 0 <= i < j < |put| ensures put[i].name != put[j].name {
      assert t.departments[i] in t.departments && t.departments[j] in t.departments;
    }
  }

  /** removeSection: an unknown department or section name gives null and
      changes nothing, and a name several sections carry throws, changing
      nothing; otherwise the one section of that name, in any department,
      is deleted and the given department's flag becomes "update". */
  lemma RemoveSectionOutcome(t: Tables, departmentId: int, sectionName: string)
    ensures var (t1, r) := RemoveSectionSpec(t, departmentId, sectionName);
      && (DepartmentById(t.departments, departmentId).None? || SectionByName(t.sections, sectionName) == Ok(None)
          ==> t1 == t && r == Ok(None))
      && (DepartmentById(t.departments, departmentId).Some? && SectionByName(t.sections, sectionName).Err?
          ==> t1 == t && r == Err(IncorrectResultSize))
      && (r.Ok? && r.value.Some? ==>
            var s := SectionByName(t.sections, sectionName).value.value;
            && r.value.value == DepartmentById(t.departments, departmentId).value.(flag := UpdateFlag)
            && (forall x :: x in t1.sections <==> x in t.sections && x.id != s.id)
            && DepartmentById(t1.departments, departmentId) == r.value
            && t1.employees == t.employees && t1.nextId == t.nextId)
  {
    var (t1, r) := RemoveSectionSpec(t, departmentId, sectionName);
    if r.Ok? && r.value.Some? {
      var s := SectionByName(t.sections, sectionName).value.value;
      var kept := Filter(t.sections, (x: Section) => x.id != s.id);
      forall x | x in kept ensures x in t.sections && x.id != s.id {
        var i :| 0 <= i < |kept| && kept[i] == x;
      }
      forall x | x in t.sections && x.id != s.id ensures x in kept {
        var i :| 0 <= i < |t.sections| && t.sections[i] == x;
      }
      PutDepartmentFinds(t.departments, r.value.value);
    }
  }

  /** The section removed may belong to another department than the one
      named in the request, whose flag is set all the same. */
  lemma RemoveSectionMatchesGlobally(t: Tables, departmentId: int, otherId: int, sectionName: string)
    requires DepartmentById(t.departments, departmentId).Some? && otherId != departmentId
    requires t.sections == [Section(7, Some(sectionName), Some(otherId))]
    ensures var (t1, r) := RemoveSectionSpec(t, departmentId, sectionName);
      r.Ok? && r.value.Some? && r.value.value.id == departmentId && t1.sections == []
  {
    var s := Section(7, Some(sectionName), Some(otherId));
    assert SectionByName(t.sections, sectionName) == Ok(Some(s));
  }

  /** updateSection: the section is renamed in place; the department row is
      returned unchanged, its flag untouched. */
  lemma UpdateSectionOutcome(t: Tables, departmentId: int, sectionId: Option<int>, newSectionName: Option<string>)
    ensures var (t1, r) := UpdateSectionSpec(t, departmentId, sectionId, newSectionName);
      && t1.departments == t.departments && t1.employees == t.employees && t1.nextId == t.nextId
      && (DepartmentById(t.departments, departmentId).None? ==> t1 == t && r == Ok(None))
      && (DepartmentById(t.departments, departmentId).Some? && sectionId.None? ==> r == Err(IllegalArgument))
      && (sectionId.Some? && SectionById(t.sections, sectionId.value).None? ==> t1 == t && r.Ok? && r.value.None?)
      && (r.Ok? && r.value.Some? ==>
            && r.value == DepartmentById(t.departments, departmentId)
            && SectionById(t1.sections, sectionId.value)
               == Some(SectionById(t.sections, sectionId.value).value.(name := newSectionName)))
  {
    var (t1, r) := UpdateSectionSpec(t, departmentId, sectionId, newSectionName);
    if r.Ok? && r.value.Some? {
      var s := SectionById(t.sections, sectionId.value).value;
      var x := s.(name := newSectionName);
      var put := PutSection(t.sections, x);
      var k := FirstIndex(t.sections, (y: Section) => y.id == x.id).value;
      assert put[k] == x;
      FirstIndexAt(put, (y: Section) => y.id == x.id, k);
    }
  }

  // ---------------------------------------------------------------------
  // Departments

  /** A created department is flagged "add" whatever the request carried,
      is listed, and keeps the keys; a null or taken name is refused. */
  lemma {:induction false} AddDepartmentOutcome(t: Tables, departmentName: Option<string>)
    requires Keyed(t)
    ensures var (t1, r) := AddDepartmentSpec(t, departmentName);
      && (departmentName.None? || DepartmentByName(t.departments, departmentName.value).Some? ==> t1 == t && r.Err?)
      && (r.Ok? ==>
            var d := r.value.body.value;
            && r.value.status == CreatedStatus
            && d == Department(t.nextId, departmentName.value, AddFlag)
            && d in ListedDepartments(t1.departments)
            && Keyed(t1))
  {
    var (t1, r) := AddDepartmentSpec(t, departmentName);
    if r.Ok? {
      var d := r.value.body.value;
      assert t1.departments == t.departments + [d];
      assert t1.departments[|t.departments|] == d;
      assert forall k :: 0 <= k < |t.departments| ==> t.departments[k] in t.departments;
      assert d.name != DeleteFlag || d.flag != DeleteFlag;
    }
  }

  /** updateDepartment: 404 exactly for an unknown id; otherwise the row
      gets the new name and flag "update", so that a deleted department
      is listed again; the keys are kept. */
  lemma UpdateDepartmentOutcome(t: Tables, departmentId: int, departmentName: Option<string>)
    requires Keyed(t)
    ensures var (t1, r) := UpdateDepartmentSpec(t, departmentId, departmentName);
      && (r.Ok? && r.value.status == NotFoundStatus <==> DepartmentById(t.departments, departmentId).None?)
      && (r.Err? ==> t1 == t)
      && (r.Ok? && r.value.status == OkStatus ==>
            var d := DepartmentById(t1.departments, departmentId);
            && d.Some? && d.value.name == departmentName.value && d.value.flag == UpdateFlag
            && d.value in ListedDepartments(t1.departments)
            && Keyed(t1))
  {
    var (t1, r) := UpdateDepartmentSpec(t, departmentId, departmentName);
    if r.Ok? && r.value.status == OkStatus {
      var updated := r.value.body.value;
      var other := DepartmentByName(t.departments, departmentName.value);
      assert forall d :: d in t.departments && d.id != updated.id ==> d.name != updated.name;
      PutDepartmentFinds(t.departments, updated);
      PutDepartmentKeepsKeys(t, updated);
      var put := t1.departments;
      var k := FirstIndex(put, (x: Department) => x.id == departmentId).value;
      assert put[k] in put;
    }
  }

  /** deleteDepartment is soft: 404 exactly for an unknown id; otherwise
      the row stays, flagged "delete", and drops out of the listing. */
  lemma DeleteDepartmentOutcome(t: Tables, departmentId: int)
    requires Keyed(t)
    ensures var (t1, r) := DeleteDepartmentSpec(t, departmentId);
      && (r.status == NotFoundStatus <==> DepartmentById(t.departments, departmentId).None?)
      && |t1.departments| == |t.departments|
      && (forall k :: 0 <= k < |t.departments| ==>
            t1.departments[k] == if t.departments[k].id == departmentId then t.departments[k].(flag := DeleteFlag)
                                  else t.departments[k])
      && (forall d :: d in ListedDepartments(t1.departments) ==> d.id != departmentId)
      && t1.sections == t.sections && t1.employees == t.employees
  {
    var (t1, r) := DeleteDepartmentSpec(t, departmentId);
    forall k | 0 <= k < |t.departments| && t.departments[k].id == departmentId
      ensures DepartmentById(t.departments, departmentId) == Some(t.departments[k])
    {
      KeyedDepartment(t, k);
    }
    forall d | d in ListedDepartments(t1.departments) ensures d.id != departmentId {
      var listed := ListedDepartments(t1.departments);
      var i :| 0 <= i < |listed| && listed[i] == d;
      var k :| 0 <= k < |t1.departments| && t1.departments[k] == d;
    }
  }

  // ---------------------------------------------------------------------
  // Section settings

  /** With no row the switch reads true; after an update it reads the
      value written, from a row created only when there was none; other
      rows are untouched and the order is kept. */
  lemma UseSectionsRoundTrip(rows: seq<SectionSettings>, nextId: int, useSections: Option<bool>)
    requires SettingsOrdered(rows, nextId)
    ensures UseSectionsStatus([]) == Some(true)
    ensures var (rows1, nextId1, saved) := UpdateUseSectionsSpec(rows, nextId, useSections);
      && UseSectionsStatus(rows1) == useSections
      && saved == rows1[0]
      && (rows == [] ==> rows1 == [SectionSettings(nextId, useSections)] && nextId1 == nextId + 1)
      && (rows != [] ==> |rows1| == |rows| && rows1[1..] == rows[1..] && saved.id == rows[0].id && nextId1 == nextId)
      && SettingsOrdered(rows1, nextId1)
  {
  }
}
