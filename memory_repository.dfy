/**
 `MemoryCandidateRepository`: the in-memory implementation of the
 `CandidateRepository` interface. Its two fields are changed in place by
 its methods; each method is proved to take exactly the step that the
 matching function of `CandidateStore` describes and to keep the promise
 the interface makes for that operation.
 */
module MemoryRepository {
  import opened Model
  import CandidateStore
  import CandidateRepository

  class MemoryCandidateRepository {
    /** The candidates, keyed by id. */
    var candidates: map<Int32, Candidate>
    /** The last id handed out; the next automatic id is its successor. */
    var nextId: Int32

    /** The fields as a value. */
    function State(): CandidateStore.State
      reads this
    {
      CandidateStore.State(candidates, nextId)
    }

    /** The object invariant: every key holds the candidate with that id. */
    ghost predicate Valid()
      reads this
    {
      CandidateStore.KeyedById(State())
    }

    /**
     Starts from an empty map and a counter of 1 and saves six candidates
     with id 0; the creation dates are the six readings of the clock.
     */
    constructor (t1: DateTime, t2: DateTime, t3: DateTime,
                 t4: DateTime, t5: DateTime, t6: DateTime)
      ensures Valid()
      ensures State() == CandidateStore.Seeded(t1, t2, t3, t4, t5, t6)
      ensures nextId == 7 && forall k: Int32 :: k in candidates <==> 2 <= k <= 7
    {
      candidates := map[];
      nextId := 1;
      new;
      var cs := CandidateStore.Seed(t1, t2, t3, t4, t5, t6);
      var c := Save(cs[0]);
      c := Save(cs[1]);
      c := Save(cs[2]);
      c := Save(cs[3]);
      c := Save(cs[4]);
      c := Save(cs[5]);
      CandidateStore.SeededBySteps(t1, t2, t3, t4, t5, t6);
      CandidateStore.SeedState(t1, t2, t3, t4, t5, t6);
    }

    method Save(c: Candidate) returns (r: Candidate)
      requires Valid()
      modifies this
      ensures Valid()
      ensures (State(), r) == CandidateStore.Save(old(State()), c)
      ensures CandidateRepository.SavePromise(candidates, r)
    {
      r := c;
      if c.id == 0 {
        nextId := IncrementAndGet(nextId);
        r := c.(id := nextId);
      }
      candidates := candidates[r.id := r];
    }

    method DeleteById(id: Int32) returns (removed: bool)
      requires Valid()
      modifies this
      ensures Valid()
      ensures (State(), removed) == CandidateStore.DeleteById(old(State()), id)
      ensures CandidateRepository.DeleteByIdPromise(old(candidates), candidates, id, removed)
    {
      removed := id in candidates;
      candidates := candidates - {id};
    }

    method Update(c: Candidate) returns (ok: bool)
      requires Valid()
      modifies this
      ensures Valid()
      ensures (State(), ok) == CandidateStore.Update(old(State()), c)
      ensures CandidateRepository.UpdatePromise(old(candidates), candidates, c, ok)
    {
      if c.id in candidates {
        var prior := candidates[c.id];
        candidates := candidates[c.id := Candidate(prior.id, c.name, c.description, c.creationDate, c.cityId)];
        ok := true;
      } else {
        ok := false;
      }
    }

    method FindById(id: Int32) returns (r: Option<Candidate>)
      requires Valid()
      ensures r == CandidateStore.FindById(State(), id)
      ensures CandidateRepository.FindByIdPromise(candidates, id, r)
      ensures r.Some? ==> r.value.id == id
    {
      r := CandidateStore.FindById(State(), id);
    }

    method FindAll() returns (r: set<Candidate>)
      requires Valid()
      ensures r == CandidateStore.FindAll(State())
      ensures CandidateRepository.FindAllPromise(candidates, r)
      ensures |r| == |candidates|
    {
      r := CandidateStore.FindAll(State());
      CandidateStore.FindAllSize(State());
    }
  }

  /**
   A caller of the class: a fresh repository hands out 8 next, a deleted
   candidate is reported once and is gone, and an update of a missing id
   fails without inserting.
   */
  method Client(t: DateTime, u: DateTime)
  {
    var repo := new MemoryCandidateRepository(t, t, t, t, t, t);
    var a := repo.Save(Candidate(0, "A", "first", u, 1));
    assert a.id == 8;
    var b := repo.Save(Candidate(0, "B", "second", u, 2));
    assert b.id == 9;
    var all := repo.FindAll();
    assert a in all && b in all;
    var gone := repo.DeleteById(8);
    assert gone;
    var again := repo.DeleteById(8);
    assert !again;
    var found := repo.FindById(8);
    assert found.None?;
    found := repo.FindById(9);
    assert found == Some(b);
    var ok := repo.Update(Candidate(8, "C", "third", u, 3));
    assert !ok;
    found := repo.FindById(8);
    assert found.None?;
  }
}
