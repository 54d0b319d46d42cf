/** The repository facade of repo/repo.go: every operation is handed to the
    store it wraps, and each promises exactly what the store's does. */
module Repo {
  import opened Models
  import opened Pagination
  import opened Db

  class EmployeeRepo {
    const store: InMemoryStore

    /** Wraps exactly the given store; the store is shared, not copied. */
    constructor (store: InMemoryStore)
      ensures this.store == store
    {
      this.store := store;
    }

    method CreateEmployee(employee: Employee) returns (created: Employee)
      requires store.Valid()
      modifies store
      ensures store.Valid()
      ensures created == employee.(ID := old(store.nextID))
      ensures store.nextID == old(store.nextID) + 1
      ensures store.employees == old(store.employees)[created.ID := created]
      ensures created.ID !in old(store.employees)
      ensures created.ID !in old(store.issued) && store.issued == old(store.issued) + {created.ID}
      ensures forall k :: k in old(store.issued) ==> k < created.ID
    {
      created := store.CreateEmployee(employee);
    }

    method GetEmployeeByID(id: int) returns (employee: Employee, found: bool)
      ensures found <==> id in store.employees
      ensures found ==> employee == store.employees[id]
      ensures !found ==> employee == Zero
      ensures store.Valid() && found ==> employee.ID == id
    {
      employee, found := store.GetEmployeeByID(id);
    }

    method UpdateEmployee(employee: Employee) returns (updated: bool)
      requires store.Valid()
      modifies store
      ensures store.Valid()
      ensures updated <==> employee.ID in old(store.employees)
      ensures updated ==> store.employees == old(store.employees)[employee.ID := employee]
      ensures !updated ==> store.employees == old(store.employees)
      ensures store.employees.Keys == old(store.employees).Keys
      ensures store.nextID == old(store.nextID) && store.issued == old(store.issued)
    {
      updated := store.UpdateEmployee(employee);
    }

    method DeleteEmployee(id: int) returns (deleted: bool)
      requires store.Valid()
      modifies store
      ensures store.Valid()
      ensures deleted <==> id in old(store.employees)
      ensures deleted ==> store.employees == old(store.employees) - {id}
      ensures !deleted ==> store.employees == old(store.employees)
      ensures id !in store.employees
      ensures store.nextID == old(store.nextID) && store.issued == old(store.issued)
    {
      deleted := store.DeleteEmployee(id);
    }

    method ListEmployees(page: int, pageSize: int) returns (listed: seq<Employee>, ghost all: seq<Employee>)
      requires InBounds(page, pageSize, |store.employees|)
      ensures Collected(all, store.employees) && |all| == |store.employees|
      ensures listed == Page(all, page, pageSize)
      ensures Start(page, pageSize) >= |store.employees| ==> listed == []
      ensures Start(page, pageSize) < |store.employees| ==>
                |listed| == Min(pageSize, |store.employees| - Start(page, pageSize))
      ensures IdKeyed(store.employees) ==>
                Distinct(listed) && forall x :: x in listed ==> x.ID in store.employees && store.employees[x.ID] == x
    {
      listed, all := store.ListEmployees(page, pageSize);
    }
  }
}
