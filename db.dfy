/** The in-memory employee store of db/db.go. */
module Db {
  import opened Models
  import opened Pagination

  /** Every stored record carries the key it is stored under. */
  ghost predicate IdKeyed(employees: map<int, Employee>)
  {
    forall k :: k in employees ==> employees[k].ID == k
  }

  /** The store's invariant: every key is an id already handed out
      (`1 <= k < nextID`) and its record carries that id. */
  ghost predicate KeyedById(employees: map<int, Employee>, nextID: int)
  {
    && 1 <= nextID
    && (forall k :: k in employees ==> 1 <= k < nextID)
    && IdKeyed(employees)
  }

  /** Some key of a non-empty map. It fixes the order in which `ValueBag`
      takes a map apart; `ValueBagRemove` shows that the order does not
      matter. */
  ghost function SomeKey(m: map<int, Employee>): (k: int)
    requires m.Keys != {}
    ensures k in m
    ensures (m - {k}).Keys == m.Keys - {k} && |m - {k}| == |m| - 1
  {
    HasKey(m);
    var k :| k in m;
    assert (m - {k}).Keys == m.Keys - {k};
    k
  }

  /** Helper: a map whose key set is not empty has a key to pick (so that
      `:|` can choose one). */
  lemma HasKey(m: map<int, Employee>)
    requires m.Keys != {}
    ensures exists k :: k in m
  {
    if forall k :: k !in m {
      assert false;
    }
  }

  /** The values of a map, counted with their multiplicity. */
  ghost function ValueBag(m: map<int, Employee>): multiset<Employee>
    decreases |m|
  {
    if m.Keys == {} then multiset{}
    else
      var k := SomeKey(m);
      ValueBag(m - {k}) + multiset{m[k]}
  }

  /** `all` lists the values of `employees`, each as often as it is stored,
      in some order: what ranging over a Go map and appending yields. */
  ghost predicate Collected(all: seq<Employee>, employees: map<int, Employee>)
  {
    multiset(all) == ValueBag(employees)
  }

  /** Taking out any one key takes out exactly its value. */
  lemma {:induction false} ValueBagRemove(m: map<int, Employee>, k: int)
    requires k in m
    ensures ValueBag(m) == ValueBag(m - {k}) + multiset{m[k]}
    decreases |m|
  {
    var j := SomeKey(m);
    if j != k {
      var mj, mk := m - {j}, m - {k};
      assert mk.Keys == m.Keys - {k};
      assert k in mj && mj[k] == m[k];
      assert j in mk && mk[j] == m[j];
      assert mj - {k} == mk - {j};
      ValueBagRemove(mj, k);
      ValueBagRemove(mk, j);
    }
  }

  /** Storing a value under a new key adds exactly that value. */
  lemma ValueBagInsert(m: map<int, Employee>, k: int, e: Employee)
    requires k !in m
    ensures ValueBag(m[k := e]) == ValueBag(m) + multiset{e}
  {
    ValueBagRemove(m[k := e], k);
    assert m[k := e] - {k} == m;
  }

  /** A map holds as many values as keys. */
  lemma {:induction false} ValueBagSize(m: map<int, Employee>)
    ensures |ValueBag(m)| == |m|
    decreases |m|
  {
    if m.Keys != {} {
      var k := SomeKey(m);
      ValueBagSize(m - {k});
    }
  }

  /** In an id-keyed map each record is stored at most once, under its own id. */
  lemma {:induction false} ValueBagCount(m: map<int, Employee>, e: Employee)
    requires IdKeyed(m)
    ensures ValueBag(m)[e] == if e.ID in m && m[e.ID] == e then 1 else 0
    decreases |m|
  {
    if m.Keys != {} {
      var k := SomeKey(m);
      ValueBagCount(m - {k}, e);
    }
  }

  /** Helper: an element at two positions of a sequence occurs at least
      twice in its multiset. */
  lemma CountTwice<T>(s: seq<T>, i: int, j: int)
    requires 0 <= i < j < |s| && s[i] == s[j]
    ensures multiset(s)[s[i]] >= 2
  {
    assert s == s[..j] + s[j..];
    assert s[i] in s[..j];
    assert s[j..][0] == s[j];
  }

  /** What the store's list operation collects from an id-keyed map is a
      permutation of the stored records: exactly as many elements as keys,
      each a stored record, none twice, and every stored record present. */
  lemma CollectedIsPermutation(all: seq<Employee>, m: map<int, Employee>)
    requires IdKeyed(m) && Collected(all, m)
    ensures |all| == |m|
    ensures forall i :: 0 <= i < |all| ==> all[i].ID in m && m[all[i].ID] == all[i]
    ensures forall k :: k in m ==> m[k] in all
    ensures Distinct(all)
  {
    ValueBagSize(m);
    assert |all| == |multiset(all)|;
    forall i | 0 <= i < |all| ensures all[i].ID in m && m[all[i].ID] == all[i] {
      ValueBagCount(m, all[i]);
      assert all[i] in multiset(all);
    }
    forall k | k in m ensures m[k] in all {
      ValueBagCount(m, m[k]);
      assert m[k] in multiset(all);
    }
    forall i, j | 0 <= i < j < |all| ensures all[i] != all[j] {
      if all[i] == all[j] {
        CountTwice(all, i, j);
        ValueBagCount(m, all[i]);
      }
    }
  }

  /** Listing a store page by page, without changes in between and over one
      collected order: each page holds stored records only, two different
      pages share no record, and once the pages read reach the number of
      records they hold every stored record. */
  lemma StorePages(all: seq<Employee>, m: map<int, Employee>, p: int, q: int, s: int)
    requires IdKeyed(m) && Collected(all, m)
    requires 1 <= p < q && s >= 0
    ensures InBounds(p, s, |all|) && InBounds(q, s, |all|)
    ensures forall x :: x in Page(all, p, s) ==> x.ID in m && m[x.ID] == x
    ensures forall x :: x in Page(all, p, s) ==> x !in Page(all, q, s)
    ensures q * s >= |m| ==> forall k :: k in m ==> m[k] in FirstPages(all, q, s)
  {
    CollectedIsPermutation(all, m);
    PagesDisjoint(all, p, q, s);
    forall x | x in Page(all, p, s) ensures x.ID in m && m[x.ID] == x {
      var i :| 0 <= i < |Page(all, p, s)| && Page(all, p, s)[i] == x;
      assert x == all[Start(p, s) + i];
    }
    if q * s >= |m| {
      AllPagesCoverAll(all, q, s);
    }
  }

  /** The store. `employees` maps ids to records; `nextID` is the id the next
      created record gets. The mutex of the source is not modelled: every
      method runs as one step. */
  class InMemoryStore {
    var employees: map<int, Employee>
    var nextID: int
    /** The ids handed out so far. */
    ghost var issued: set<int>

    ghost predicate Valid()
      reads this
    {
      && KeyedById(employees, nextID)
      && employees.Keys <= issued
      && (forall k :: k in issued ==> 1 <= k < nextID)
    }

    /** A new store: no records, and 1 is the first id to hand out. */
    constructor ()
      ensures Valid()
      ensures employees == map[] && nextID == 1 && issued == {}
    {
      employees := map[];
      nextID := 1;
      issued := {};
    }

    /** Stores `employee` under a fresh id and returns it with that id; the
        caller's `ID` is ignored. */
    method CreateEmployee(employee: Employee) returns (created: Employee)
      requires Valid()
      modifies this
      ensures Valid()
      ensures created == employee.(ID := old(nextID))
      ensures nextID == old(nextID) + 1
      ensures employees == old(employees)[created.ID := created]
      ensures created.ID !in old(employees)
      ensures created.ID !in old(issued) && issued == old(issued) + {created.ID}
      ensures forall k :: k in old(issued) ==> k < created.ID
    {
      var e := employee.(ID := nextID);
      nextID := nextID + 1;
      employees := employees[e.ID := e];
      issued := issued + {e.ID};
      created := e;
    }

    /** Looks `id` up; an absent id gives the zero record and `false`. */
    method GetEmployeeByID(id: int) returns (employee: Employee, found: bool)
      ensures found <==> id in employees
      ensures found ==> employee == employees[id]
      ensures !found ==> employee == Zero
      ensures Valid() && found ==> employee.ID == id
    {
      found := id in employees;
      employee := if found then employees[id] else Zero;
    }

    /** Replaces the whole record stored under `employee.ID`, if there is one. */
    method UpdateEmployee(employee: Employee) returns (updated: bool)
      requires Valid()
      modifies this
      ensures Valid()
      ensures updated <==> employee.ID in old(employees)
      ensures updated ==> employees == old(employees)[employee.ID := employee]
      ensures !updated ==> employees == old(employees)
      ensures employees.Keys == old(employees).Keys
      ensures nextID == old(nextID) && issued == old(issued)
    {
      if employee.ID !in employees {
        return false;
      }
      employees := employees[employee.ID := employee];
      return true;
    }

    /** Removes the record stored under `id`, if there is one. Its id is not
        handed out again. */
    method DeleteEmployee(id: int) returns (deleted: bool)
      requires Valid()
      modifies this
      ensures Valid()
      ensures deleted <==> id in old(employees)
      ensures deleted ==> employees == old(employees) - {id}
      ensures !deleted ==> employees == old(employees)
      ensures id !in employees
      ensures nextID == old(nextID) && issued == old(issued)
    {
      if id !in employees {
        return false;
      }
      employees := employees - {id};
      return true;
    }

    /** Ranges over the map and appends every record, in whatever order
        the keys come. */
    method CollectEmployees() returns (collected: seq<Employee>)
      ensures Collected(collected, employees) && |collected| == |employees|
    {
      collected := [];
      var rest := employees;
      while rest.Keys != {}
        invariant multiset(collected) + ValueBag(rest) == ValueBag(employees)
        decreases |rest|
      {
        HasKey(rest);
        var k :| k in rest;
        ValueBagRemove(rest, k);
        assert (rest - {k}).Keys == rest.Keys - {k};
        collected := collected + [rest[k]];
        rest := rest - {k};
      }
      assert ValueBag(rest) == multiset{};
      ValueBagSize(employees);
      assert |collected| == |multiset(collected)|;
    }

    /** Collects the records in an unspecified order (`all`, ghost: the order
        the map happened to be ranged over) and returns page `page` of size
        `pageSize` of them. */
    method ListEmployees(page: int, pageSize: int) returns (listed: seq<Employee>, ghost all: seq<Employee>)
      requires InBounds(page, pageSize, |employees|)
      ensures Collected(all, employees) && |all| == |employees|
      ensures listed == Page(all, page, pageSize)
      ensures Start(page, pageSize) >= |employees| ==> listed == []
      ensures Start(page, pageSize) < |employees| ==>
                |listed| == Min(pageSize, |employees| - Start(page, pageSize))
      ensures IdKeyed(employees) ==>
                Distinct(listed) && forall x :: x in listed ==> x.ID in employees && employees[x.ID] == x
    {
      var collected := CollectEmployees();
      all := collected;
      if IdKeyed(employees) {
        CollectedIsPermutation(all, employees);
      }

      var start := (page - 1) * pageSize;
      var end := start + pageSize;
      if start > |collected| {
        return [], all;
      }
      if end > |collected| {
        end := |collected|;
      }
      listed := collected[start..end];
    }
  }
}
