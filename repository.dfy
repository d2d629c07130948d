/**
 * The job application repository: the table as a map from key to record plus
 * the identity counter the store draws new keys from, with the CRUD
 * operations that change it and the queries that read it.
 */
module Repository {
  import opened Wrappers
  import opened Domain
  import Query

  /** Every stored record carries its own key. */
  ghost predicate KeyedById(store: map<int, JobApplication>) {
    forall k :: k in store ==> store[k].id == k
  }

  ghost predicate KeysPositive(store: map<int, JobApplication>) {
    forall k :: k in store ==> 1 <= k
  }

  ghost function KeysBelow(store: map<int, JobApplication>, bound: int): set<int> {
    set k | k in store && k < bound
  }

  /** The stored records whose keys are below `bound`, in ascending key order. */
  function RowsBelow(store: map<int, JobApplication>, bound: int): seq<JobApplication>
    decreases bound
  {
    if bound <= 1 then []
    else if bound - 1 in store then RowsBelow(store, bound - 1) + [store[bound - 1]]
    else RowsBelow(store, bound - 1)
  }

  /** RowsBelow holds exactly the stored records keyed below `bound`. */
  lemma {:induction false} RowsBelowMembers(store: map<int, JobApplication>, bound: int)
    requires KeyedById(store)
    ensures forall x :: x in RowsBelow(store, bound) <==> x.id < bound && 1 <= x.id && x.id in store && store[x.id] == x
    decreases bound
  {
    if bound > 1 {
      RowsBelowMembers(store, bound - 1);
    }
  }

  /** RowsBelow lists the keys in strictly ascending order, all below `bound`. */
  lemma {:induction false} RowsBelowAscending(store: map<int, JobApplication>, bound: int)
    requires KeyedById(store)
    ensures forall i, j :: 0 <= i < j < |RowsBelow(store, bound)| ==> RowsBelow(store, bound)[i].id < RowsBelow(store, bound)[j].id
    decreases bound
  {
    if bound > 1 {
      RowsBelowAscending(store, bound - 1);
      RowsBelowMembers(store, bound - 1);
      var below := RowsBelow(store, bound - 1);
      assert forall i :: 0 <= i < |below| ==> below[i] in below;
    }
  }

  /** RowsBelow has one row per stored key below `bound`. */
  lemma {:induction false} RowsBelowCount(store: map<int, JobApplication>, bound: int)
    requires KeysPositive(store)
    ensures |RowsBelow(store, bound)| == |KeysBelow(store, bound)|
    decreases bound
  {
    if bound <= 1 {
      assert KeysBelow(store, bound) == {};
    } else {
      RowsBelowCount(store, bound - 1);
      if bound - 1 in store {
        assert KeysBelow(store, bound) == KeysBelow(store, bound - 1) + {bound - 1};
      } else {
        assert KeysBelow(store, bound) == KeysBelow(store, bound - 1);
      }
    }
  }

  datatype StoreError = NotFound(id: int)

  class JobApplicationRepository {
    var store: map<int, JobApplication>
    /** The identity counter: the key the next insert receives. */
    var nextId: int

    ghost predicate Valid()
      reads this
    {
      && 1 <= nextId
      && (forall k :: k in store ==> k < nextId)
      && KeysPositive(store)
      && KeyedById(store)
    }

    constructor ()
      ensures Valid()
      ensures store == map[] && nextId == 1
    {
      store := map[];
      nextId := 1;
    }

    /** The table's rows in key order: every stored record exactly once. */
    function Table(): (t: seq<JobApplication>)
      reads this
      requires Valid()
      ensures forall x :: x in t <==> x.id in store && store[x.id] == x
      ensures forall i, j :: 0 <= i < j < |t| ==> t[i].id < t[j].id
      ensures |t| == |store|
    {
      assert KeysBelow(store, nextId) == store.Keys;
      RowsBelowMembers(store, nextId);
      RowsBelowAscending(store, nextId);
      RowsBelowCount(store, nextId);
      RowsBelow(store, nextId)
    }

    /** GetAllAsync: every record, newest application first. */
    method GetAll() returns (all: seq<JobApplication>)
      requires Valid()
      ensures multiset(all) == multiset(Table())
      ensures forall i, j :: 0 <= i < j < |all| ==> all[i].dateApplied >= all[j].dateApplied
    {
      all := Query.SortApplications(Table());
      Query.SortedIsByDateDescending(all);
    }

    /** GetApplicationsAsync: one page of the filtered, ordered table and the number of matches. */
    method GetApplications(pageNumber: int, pageSize: int, status: Option<Status>, searchTerm: Option<string>)
      returns (applications: seq<JobApplication>, totalCount: nat)
      requires Valid()
      ensures Query.ScanResult(applications, totalCount) == Query.Scan(Table(), pageNumber, pageSize, status, searchTerm)
    {
      var result := Query.Scan(Table(), pageNumber, pageSize, status, searchTerm);
      applications, totalCount := result.applications, result.totalCount;
    }

    /** GetByIdAsync: the record stored under `id`, or absent. */
    method GetById(id: int) returns (r: Option<JobApplication>)
      requires Valid()
      ensures r.Some? <==> id in store
      ensures r.Some? ==> r.value == store[id] && r.value.id == id
    {
      r := if id in store then Some(store[id]) else None;
    }

    /** ExistsAsync. */
    method Exists(id: int) returns (b: bool)
      ensures b <==> id in store
    {
      b := id in store;
    }

    /** CreateAsync: the record is inserted under a key drawn from the identity counter. */
    method Create(application: JobApplication) returns (created: JobApplication)
      requires Valid()
      requires application.id == 0
      modifies this
      ensures Valid()
      ensures created == application.(id := created.id)
      ensures created.id > 0 && created.id !in old(store)
      ensures created.id == old(nextId) && nextId == old(nextId) + 1
      ensures store == old(store)[created.id := created]
    {
      created := application.(id := nextId);
      store := store[nextId := created];
      nextId := nextId + 1;
    }

    /**
     * UpdateAsync: the whole record is written back with UpdatedAt stamped;
     * a key that is no longer stored is reported as not found.
     */
    method Update(application: JobApplication, now: Ticks) returns (r: Result<JobApplication, StoreError>)
      requires Valid()
      modifies this
      ensures Valid() && nextId == old(nextId)
      ensures application.id in old(store) ==>
        && r == Success(application.(updatedAt := Some(now)))
        && store == old(store)[application.id := r.value]
      ensures application.id !in old(store) ==>
        r == Failure(NotFound(application.id)) && store == old(store)
    {
      var stamped := application.(updatedAt := Some(now));
      if stamped.id in store {
        store := store[stamped.id := stamped];
        r := Success(stamped);
      } else {
        r := Failure(NotFound(stamped.id));
      }
    }

    /** DeleteAsync: true and the key removed if it was stored; false and nothing changed otherwise. */
    method Delete(id: int) returns (deleted: bool)
      requires Valid()
      modifies this
      ensures Valid() && nextId == old(nextId)
      ensures deleted <==> id in old(store)
      ensures store == old(store) - {id}
    {
      if id in store {
        store := store - {id};
        deleted := true;
      } else {
        deleted := false;
      }
    }

    /** GetApplicationCountsByStatusAsync. */
    method GetCountsByStatus() returns (counts: map<Status, nat>)
      requires Valid()
      ensures counts == Query.CountsByStatus(Table())
      ensures forall s :: s in counts <==> exists id :: id in store && store[id].status == s
    {
      counts := Query.CountsByStatus(Table());
      var t := Table();
      forall s ensures (s in counts <==> exists id :: id in store && store[id].status == s) {
        if s in counts {
          var x :| x in t && x.status == s;
          assert x.id in store && store[x.id].status == s;
        }
        if id :| id in store && store[id].status == s {
          assert store[id] in t;
        }
      }
    }
  }
}
