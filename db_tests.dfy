/** The store's test sequences of db/db_test.go, each starting from a fresh
    store, with their outcomes proved from the contracts alone. */
module DbTests {
  import opened Models
  import opened Pagination
  import opened Db

  const John := Employee(0, "John Doe", "Developer", 60000.0)
  const Jane := Employee(0, "Jane Smith", "Manager", 80000.0)

  /** The first record created in a new store gets id 1 and is stored as returned. */
  method CreateOnFreshStore() returns (created: Employee, stored: Employee)
    ensures created == John.(ID := 1) && stored == created
  {
    var store := new InMemoryStore();
    created := store.CreateEmployee(John);
    stored := store.employees[created.ID];
  }

  /** A lookup right after a create finds the created record. */
  method GetAfterCreate() returns (retrieved: Employee, found: bool)
    ensures found && retrieved == John.(ID := 1)
  {
    var store := new InMemoryStore();
    var created := store.CreateEmployee(John);
    retrieved, found := store.GetEmployeeByID(created.ID);
  }

  /** An update of a stored record replaces it; a later lookup shows the change. */
  method UpdateThenGet() returns (updated: bool, retrieved: Employee, found: bool)
    ensures updated && found
    ensures retrieved == John.(ID := 1, Position := "Senior Developer")
  {
    var store := new InMemoryStore();
    var created := store.CreateEmployee(John);
    updated := store.UpdateEmployee(created.(Position := "Senior Developer"));
    retrieved, found := store.GetEmployeeByID(created.ID);
  }

  /** A delete of a stored record succeeds and a later lookup reports it absent;
      an update or a second delete of that id fails. */
  method DeleteThenGet() returns (deleted: bool, found: bool, updatedAfter: bool, deletedAgain: bool)
    ensures deleted && !found && !updatedAfter && !deletedAgain
  {
    var store := new InMemoryStore();
    var created := store.CreateEmployee(John);
    deleted := store.DeleteEmployee(created.ID);
    var _, f := store.GetEmployeeByID(created.ID);
    found := f;
    updatedAfter := store.UpdateEmployee(created);
    deletedAgain := store.DeleteEmployee(created.ID);
  }

  lemma ValueBagOfTwo(a: Employee, b: Employee)
    requires a.ID != b.ID
    ensures ValueBag(map[a.ID := a, b.ID := b]) == multiset{a, b}
  {
    var empty: map<int, Employee> := map[];
    assert ValueBag(empty) == multiset{};
    ValueBagInsert(empty, a.ID, a);
    ValueBagInsert(empty[a.ID := a], b.ID, b);
  }

  /** With two records stored, a page of size 1 holds one of them and a page
      of size 2 holds both. */
  method ListTwo() returns (onePage: seq<Employee>, twoPage: seq<Employee>)
    ensures |onePage| == 1 && |twoPage| == 2
    ensures multiset(twoPage) == multiset{John.(ID := 1), Jane.(ID := 2)}
    ensures onePage[0] in twoPage
  {
    var store := new InMemoryStore();
    var a := store.CreateEmployee(John);
    var b := store.CreateEmployee(Jane);
    assert store.employees == map[a.ID := a, b.ID := b];
    ValueBagOfTwo(a, b);
    ghost var all1, all2;
    onePage, all1 := store.ListEmployees(1, 1);
    twoPage, all2 := store.ListEmployees(1, 2);
    assert twoPage == all2;
    assert onePage[0] == all1[0] && all1[0] in multiset(all1);
  }
}
