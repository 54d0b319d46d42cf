/** The test sequence of repo/repo_test.go, going through the facade on one
    store, with its outcomes proved from the contracts alone. */
module RepoTests {
  import opened Models
  import opened Pagination
  import opened Db
  import opened Repo
  import DbTests

  /** The first part of the sequence on an empty store: create, read back,
      update, read back, delete, read back. */
  method CreateUpdateDelete(repo: EmployeeRepo)
    returns (firstID: int, sameBack: bool, updated: bool, promoted: string,
             deleted: bool, foundAfterDelete: bool)
    requires repo.store.Valid() && repo.store.employees == map[] && repo.store.nextID == 1
    modifies repo.store
    ensures repo.store.Valid() && repo.store.employees == map[] && repo.store.nextID == 2
    ensures firstID == 1 && sameBack && updated && promoted == "Senior Developer"
    ensures deleted && !foundAfterDelete
  {
    var created := repo.CreateEmployee(DbTests.John);
    firstID := created.ID;
    var retrieved, found := repo.GetEmployeeByID(created.ID);
    sameBack := found && retrieved == created;

    created := created.(Position := "Senior Developer");
    updated := repo.UpdateEmployee(created);
    retrieved, found := repo.GetEmployeeByID(created.ID);
    promoted := retrieved.Position;

    deleted := repo.DeleteEmployee(created.ID);
    assert repo.store.employees == map[];
    retrieved, foundAfterDelete := repo.GetEmployeeByID(created.ID);
  }

  /** The whole sequence on a new store. Deleting id 1 does not free it: the
      two later creates get ids 2 and 3, and the pages of size 1 and 2 hold
      one and two of those records. */
  method FullSequence()
    returns (firstID: int, sameBack: bool, updated: bool, promoted: string,
             deleted: bool, foundAfterDelete: bool, laterIDs: seq<int>,
             onePage: seq<Employee>, twoPage: seq<Employee>)
    ensures firstID == 1 && sameBack && updated && promoted == "Senior Developer"
    ensures deleted && !foundAfterDelete
    ensures laterIDs == [2, 3]
    ensures |onePage| == 1 && |twoPage| == 2
    ensures multiset(twoPage) == multiset{DbTests.John.(ID := 2), DbTests.Jane.(ID := 3)}
  {
    var store := new InMemoryStore();
    var repo := new EmployeeRepo(store);
    firstID, sameBack, updated, promoted, deleted, foundAfterDelete := CreateUpdateDelete(repo);

    var a := repo.CreateEmployee(DbTests.John);
    var b := repo.CreateEmployee(DbTests.Jane);
    laterIDs := [a.ID, b.ID];
    assert store.employees == map[a.ID := a, b.ID := b];
    DbTests.ValueBagOfTwo(a, b);

    ghost var all1, all2;
    onePage, all1 := repo.ListEmployees(1, 1);
    twoPage, all2 := repo.ListEmployees(1, 2);
    assert twoPage == all2;
  }
}
