/**
 The state of the in-memory candidate repository as a value, and each of
 its operations as a function from the state before to the state after
 together with what the operation returns. The class in module
 `MemoryRepository` is proved to follow these functions step by step; the
 lemmas here state what several steps together guarantee.
 */
module CandidateStore {
  import opened Model

  /** The repository's two fields: the id-to-candidate map and the id counter. */
  datatype State = State(candidates: map<Int32, Candidate>, nextId: Int32)

  /** The fields as initialised: an empty map and a counter holding 1. */
  const Initial: State := State(map[], 1)

  /** Every key holds the candidate whose id it is. */
  ghost predicate KeyedById(s: State)
  {
    forall k :: k in s.candidates ==> s.candidates[k].id == k
  }

  /**
   No stored id exceeds the counter, so the next id the counter hands out
   is not in use. Automatic allocation keeps this; saving under an explicit
   id above the counter does not.
   */
  ghost predicate BelowCounter(s: State)
  {
    forall k :: k in s.candidates ==> k <= s.nextId
  }

  /** `findById`: the stored candidate, or an empty optional. */
  function FindById(s: State, id: Int32): (r: Option<Candidate>)
    ensures r.None? <==> id !in s.candidates
    ensures r.Some? ==> id in s.candidates && r.value == s.candidates[id]
    ensures KeyedById(s) && r.Some? ==> r.value.id == id
  {
    if id in s.candidates then Some(s.candidates[id]) else None
  }

  /** `findAll`: the stored candidates, as a snapshot. */
  function FindAll(s: State): (r: set<Candidate>)
    ensures forall c :: c in r <==> exists k :: k in s.candidates && s.candidates[k] == c
    ensures KeyedById(s) ==> forall c :: c in r ==> FindById(s, c.id) == Some(c)
  {
    s.candidates.Values
  }

  /**
   `save`: a candidate whose id is 0 gets the counter's successor as its id
   and the counter advances to it; any other id is kept and the counter is
   left alone. The candidate is stored under its id, replacing what was
   there, and is returned.
   */
  function Save(s: State, c: Candidate): (r: (State, Candidate))
    ensures c.id == 0 ==> r.1 == c.(id := IncrementAndGet(s.nextId)) && r.0.nextId == r.1.id
    ensures c.id != 0 ==> r.1 == c && r.0.nextId == s.nextId
    ensures FindById(r.0, r.1.id) == Some(r.1)
    ensures forall k :: k != r.1.id ==> FindById(r.0, k) == FindById(s, k)
    ensures r.0.candidates.Keys == s.candidates.Keys + {r.1.id}
    ensures KeyedById(s) ==> KeyedById(r.0)
  {
    var next := if c.id == 0 then IncrementAndGet(s.nextId) else s.nextId;
    var stored := if c.id == 0 then c.(id := next) else c;
    (State(s.candidates[stored.id := stored], next), stored)
  }

  /**
   `deleteById`: removes the entry for `id`, answering whether there was
   one; nothing else changes.
   */
  function DeleteById(s: State, id: Int32): (r: (State, bool))
    ensures r.1 <==> FindById(s, id).Some?
    ensures FindById(r.0, id) == None
    ensures forall k :: k != id ==> FindById(r.0, k) == FindById(s, k)
    ensures r.0.nextId == s.nextId
    ensures KeyedById(s) ==> KeyedById(r.0)
    ensures BelowCounter(s) ==> BelowCounter(r.0)
  {
    (State(s.candidates - {id}, s.nextId), id in s.candidates)
  }

  /**
   `update`: only when an entry for the argument's id exists, replaces it
   by a candidate built from the stored candidate's id and the argument's
   name, description, creation date and city; answers whether it did.
   */
  function Update(s: State, c: Candidate): (r: (State, bool))
    ensures r.1 <==> c.id in s.candidates
    ensures !r.1 ==> r.0 == s
    ensures r.0.nextId == s.nextId && r.0.candidates.Keys == s.candidates.Keys
    ensures r.1 ==> FindById(r.0, c.id) == Some(
      Candidate(s.candidates[c.id].id, c.name, c.description, c.creationDate, c.cityId))
    ensures forall k :: k != c.id ==> FindById(r.0, k) == FindById(s, k)
    ensures KeyedById(s) ==> KeyedById(r.0)
    ensures BelowCounter(s) ==> BelowCounter(r.0)
    ensures KeyedById(s) && r.1 ==> FindById(r.0, c.id) == Some(c)
  {
    if c.id in s.candidates then
      var prior := s.candidates[c.id];
      var replacement := Candidate(prior.id, c.name, c.description, c.creationDate, c.cityId);
      (State(s.candidates[c.id := replacement], s.nextId), true)
    else
      (s, false)
  }

  /** The ids carried by a sequence of candidates. */
  function Ids(rs: seq<Candidate>): set<Int32>
  {
    set i | 0 <= i < |rs| :: rs[i].id
  }

  /**
   Successive `save` calls, returning what each call returned, in order.
   Each result is its argument with at most the id changed, and exactly the
   argument when that already had an id.
   */
  function SaveAll(s: State, cs: seq<Candidate>): (r: (State, seq<Candidate>))
    ensures |r.1| == |cs|
    ensures forall i :: 0 <= i < |cs| ==> r.1[i] == cs[i].(id := r.1[i].id)
    ensures forall i :: 0 <= i < |cs| && cs[i].id != 0 ==> r.1[i] == cs[i]
    decreases |cs|
  {
    if cs == [] then (s, [])
    else
      var (s1, c1) := Save(s, cs[0]);
      var (s2, rest) := SaveAll(s1, cs[1..]);
      (s2, [c1] + rest)
  }

  /** The ids of a candidate followed by more candidates. */
  lemma IdsCons(c: Candidate, rest: seq<Candidate>)
    ensures Ids([c] + rest) == {c.id} + Ids(rest)
  {
    forall x | x in Ids([c] + rest) ensures x in {c.id} + Ids(rest) {
      var i :| 0 <= i < |rest| + 1 && ([c] + rest)[i].id == x;
      if i > 0 { assert rest[i - 1].id == x; }
    }
    forall x | x in Ids(rest) ensures x in Ids([c] + rest) {
      var i :| 0 <= i < |rest| && rest[i].id == x;
      assert ([c] + rest)[i + 1].id == x;
    }
    assert ([c] + rest)[0].id == c.id;
  }

  /** No result after position `i` carries the id of the result at `i`. */
  ghost predicate NotOverwritten(rs: seq<Candidate>, i: int)
    requires 0 <= i < |rs|
  {
    forall j :: i < j < |rs| ==> rs[j].id != rs[i].id
  }

  /** Successive saves add exactly the returned ids to the key set. */
  lemma {:induction false} SaveAllKeys(s: State, cs: seq<Candidate>)
    ensures SaveAll(s, cs).0.candidates.Keys == s.candidates.Keys + Ids(SaveAll(s, cs).1)
    decreases |cs|
  {
    if cs != [] {
      var (s1, c1) := Save(s, cs[0]);
      SaveAllKeys(s1, cs[1..]);
      var (s2, rest) := SaveAll(s1, cs[1..]);
      assert SaveAll(s, cs) == (s2, [c1] + rest);
      IdsCons(c1, rest);
    }
  }

  /** Successive saves leave every id they did not return as it was. */
  lemma {:induction false} SaveAllFrame(s: State, cs: seq<Candidate>)
    ensures forall k :: k !in Ids(SaveAll(s, cs).1) ==> FindById(SaveAll(s, cs).0, k) == FindById(s, k)
    decreases |cs|
  {
    if cs != [] {
      var (s1, c1) := Save(s, cs[0]);
      SaveAllFrame(s1, cs[1..]);
      var (s2, rest) := SaveAll(s1, cs[1..]);
      assert SaveAll(s, cs) == (s2, [c1] + rest);
      IdsCons(c1, rest);
    }
  }

  /**
   After successive saves, a result is still stored under its id unless a
   later save used the same id.
   */
  lemma {:induction false} SaveAllLastWins(s: State, cs: seq<Candidate>, i: int)
    requires 0 <= i < |cs| && NotOverwritten(SaveAll(s, cs).1, i)
    ensures FindById(SaveAll(s, cs).0, SaveAll(s, cs).1[i].id) == Some(SaveAll(s, cs).1[i])
    decreases |cs|
  {
    var (s1, c1) := Save(s, cs[0]);
    var (s2, rest) := SaveAll(s1, cs[1..]);
    var rs := [c1] + rest;
    assert SaveAll(s, cs) == (s2, rs);
    if i == 0 {
      SaveAllFrame(s1, cs[1..]);
      forall x | x in Ids(rest) ensures x != c1.id {
        var j :| 0 <= j < |rest| && rest[j].id == x;
        assert rs[j + 1] == rest[j];
      }
    } else {
      assert rs[i] == rest[i - 1];
      forall j | i - 1 < j < |rest| ensures rest[j].id != rest[i - 1].id {
        assert rs[j + 1] == rest[j];
      }
      SaveAllLastWins(s1, cs[1..], i - 1);
    }
  }

  /** Successive saves keep each key holding the candidate with that id. */
  lemma {:induction false} SaveAllKeyed(s: State, cs: seq<Candidate>)
    requires KeyedById(s)
    ensures KeyedById(SaveAll(s, cs).0)
    decreases |cs|
  {
    if cs != [] {
      SaveAllKeyed(Save(s, cs[0]).0, cs[1..]);
    }
  }

  /** The six candidates the constructor saves, each with id 0. */
  function Seed(t1: DateTime, t2: DateTime, t3: DateTime,
                t4: DateTime, t5: DateTime, t6: DateTime): (cs: seq<Candidate>)
    ensures |cs| == 6 && forall i :: 0 <= i < |cs| ==> cs[i].id == 0
  {
    [ Candidate(0, "Иван Иванов", "Описание 1", t1, 1),
      Candidate(0, "Петр Петров", "Описание 2", t2, 2),
      Candidate(0, "Дарья Дашина", "Описание 3", t3, 3),
      Candidate(0, "Егор Егоров", "Описание 4", t4, 3),
      Candidate(0, "Екатерина Попова", "Описание 5", t5, 2),
      Candidate(0, "Евгений Морозов", "Описание 6", t6, 1) ]
  }

  /** The state the constructor leaves behind. */
  function Seeded(t1: DateTime, t2: DateTime, t3: DateTime,
                  t4: DateTime, t5: DateTime, t6: DateTime): State
  {
    SaveAll(Initial, Seed(t1, t2, t3, t4, t5, t6)).0
  }

  // ---------------------------------------------------------------------
  // Identity allocation

  /**
   Saving candidates that all have id 0 hands them the ids counter+1,
   counter+2, ... in order (so the ids are strictly increasing and
   distinct), advances the counter past them, stores each under its id and
   leaves every other id as it was. Holds as long as the counter does not
   wrap around.
   */
  lemma {:induction false} FreshSavesAllocate(s: State, cs: seq<Candidate>)
    requires forall i :: 0 <= i < |cs| ==> cs[i].id == 0
    requires s.nextId + |cs| <= INT_MAX
    ensures SaveAll(s, cs).0.nextId == s.nextId + |cs|
    ensures forall i :: 0 <= i < |cs| ==> SaveAll(s, cs).1[i] == cs[i].(id := s.nextId + 1 + i)
    ensures forall i :: 0 <= i < |cs| ==>
      FindById(SaveAll(s, cs).0, SaveAll(s, cs).1[i].id) == Some(SaveAll(s, cs).1[i])
    ensures forall k: Int32 :: (k <= s.nextId || k > s.nextId + |cs|) ==>
      FindById(SaveAll(s, cs).0, k) == FindById(s, k)
    decreases |cs|
  {
    if cs != [] {
      var (s1, c1) := Save(s, cs[0]);
      assert s1.nextId == s.nextId + 1 && c1.id == s.nextId + 1;
      FreshSavesAllocate(s1, cs[1..]);
      var (s2, rest) := SaveAll(s1, cs[1..]);
      assert SaveAll(s, cs) == (s2, [c1] + rest);
      forall i | 0 <= i < |cs|
        ensures FindById(s2, SaveAll(s, cs).1[i].id) == Some(SaveAll(s, cs).1[i])
      {
        if i > 0 {
          assert SaveAll(s, cs).1[i] == rest[i - 1];
        }
      }
    }
  }

  /** Automatically assigned ids are strictly increasing, hence distinct. */
  lemma FreshIdsIncrease(s: State, cs: seq<Candidate>, i: int, j: int)
    requires forall n :: 0 <= n < |cs| ==> cs[n].id == 0
    requires s.nextId + |cs| <= INT_MAX
    requires 0 <= i < j < |cs|
    ensures s.nextId < SaveAll(s, cs).1[i].id < SaveAll(s, cs).1[j].id <= SaveAll(s, cs).0.nextId
  {
    FreshSavesAllocate(s, cs);
  }

  /** On the initial state the first automatically assigned id is 2, not 1. */
  lemma FirstAllocatedIdIsTwo(c: Candidate)
    requires c.id == 0
    ensures Save(Initial, c).1.id == 2
    ensures Save(Initial, c).0.nextId == 2
  {
  }

  /**
   While the counter has not reached the largest `int`, an automatic save
   under `BelowCounter` takes an id that is not in use, so it overwrites
   nothing, and it keeps `BelowCounter`.
   */
  lemma FreshSaveOverwritesNothing(s: State, c: Candidate)
    requires BelowCounter(s) && s.nextId < INT_MAX && c.id == 0
    ensures FindById(s, Save(s, c).1.id) == None
    ensures |Save(s, c).0.candidates| == |s.candidates| + 1
    ensures BelowCounter(Save(s, c).0)
  {
  }

  /** One call on the repository that may change it. */
  datatype Op = SaveOp(candidate: Candidate) | DeleteOp(id: Int32) | UpdateOp(candidate: Candidate)

  /** Whether a call allocates an id: a save of a candidate whose id is 0. */
  predicate Allocates(op: Op)
  {
    op.SaveOp? && op.candidate.id == 0
  }

  /** How many calls in a sequence allocate an id. */
  function CountFresh(ops: seq<Op>): (n: nat)
    ensures n <= |ops|
    decreases |ops|
  {
    if ops == [] then 0 else (if Allocates(ops[0]) then 1 else 0) + CountFresh(ops[1..])
  }

  /** One call: the new state and the id it allocated, if it was a save of id 0. */
  function Step(s: State, op: Op): (r: (State, seq<Int32>))
    ensures |r.1| <= 1
    ensures r.1 != [] <==> Allocates(op)
    ensures r.1 == [] ==> r.0.nextId == s.nextId
    ensures r.1 != [] ==> r.1 == [IncrementAndGet(s.nextId)] && r.0.nextId == r.1[0]
    ensures KeyedById(s) ==> KeyedById(r.0)
  {
    match op
    case SaveOp(c) =>
      var (s1, saved) := Save(s, c);
      (s1, if c.id == 0 then [saved.id] else [])
    case DeleteOp(id) => (DeleteById(s, id).0, [])
    case UpdateOp(c) => (Update(s, c).0, [])
  }

  /**
   Any sequence of calls, one after the other: the final state and, in
   order, the ids handed out automatically. Every call keeps each key
   holding the candidate with that id.
   */
  function Run(s: State, ops: seq<Op>): (r: (State, seq<Int32>))
    ensures |r.1| <= |ops|
    ensures KeyedById(s) ==> KeyedById(r.0)
    decreases |ops|
  {
    if ops == [] then (s, [])
    else
      var (s1, issued) := Step(s, ops[0]);
      var (s2, ids) := Run(s1, ops[1..]);
      (s2, issued + ids)
  }

  /** A sequence of calls hands out exactly one id per save of id 0. */
  lemma {:induction false} RunIssuesOnePerFreshSave(s: State, ops: seq<Op>)
    ensures |Run(s, ops).1| == CountFresh(ops)
    decreases |ops|
  {
    if ops != [] {
      var (s1, issued) := Step(s, ops[0]);
      RunIssuesOnePerFreshSave(s1, ops[1..]);
    }
  }

  /**
   Over any sequence of saves, deletes and updates, the automatically
   assigned ids are counter+1, counter+2, ... in order, so strictly
   increasing and never repeated, and the counter ends at the last of them.
   Holds as long as the saves of id 0 cannot make the counter wrap around.
   */
  lemma {:induction false} RunAllocates(s: State, ops: seq<Op>)
    requires s.nextId + CountFresh(ops) <= INT_MAX
    ensures Run(s, ops).0.nextId == s.nextId + |Run(s, ops).1|
    ensures forall i :: 0 <= i < |Run(s, ops).1| ==> Run(s, ops).1[i] == s.nextId + 1 + i
    ensures forall i, j :: 0 <= i < j < |Run(s, ops).1| ==> Run(s, ops).1[i] < Run(s, ops).1[j]
    decreases |ops|
  {
    if ops != [] {
      var (s1, issued) := Step(s, ops[0]);
      assert CountFresh(ops) == |issued| + CountFresh(ops[1..]);
      RunAllocates(s1, ops[1..]);
      var (s2, ids) := Run(s1, ops[1..]);
      assert Run(s, ops) == (s2, issued + ids);
      assert s1.nextId == s.nextId + |issued|;
      assert issued != [] ==> issued[0] == s.nextId + 1;
      forall i | 0 <= i < |issued + ids|
        ensures (issued + ids)[i] == s.nextId + 1 + i
      {
        if i >= |issued| {
          assert (issued + ids)[i] == ids[i - |issued|];
        }
      }
    }
  }

  /**
   An id handed out automatically is never handed out again, whatever
   sequence of calls follows, including a delete of the candidate that
   holds it, as long as the saves of id 0 cannot make the counter wrap.
   */
  lemma DeletedIdNotReallocated(s: State, c: Candidate, ops: seq<Op>)
    requires c.id == 0 && s.nextId + 1 + CountFresh(ops) <= INT_MAX
    ensures var (s1, r1) := Save(s, c);
            forall i :: 0 <= i < |Run(s1, ops).1| ==> Run(s1, ops).1[i] > r1.id
  {
    var (s1, r1) := Save(s, c);
    RunAllocates(s1, ops);
  }

  // ---------------------------------------------------------------------
  // The constructor's seeding

  /**
   The six seeding saves leave ids 2 through 7, each holding the matching
   seed candidate under that id, and the counter at 7.
   */
  lemma SeedState(t1: DateTime, t2: DateTime, t3: DateTime,
                  t4: DateTime, t5: DateTime, t6: DateTime)
    ensures var s := Seeded(t1, t2, t3, t4, t5, t6);
            var cs := Seed(t1, t2, t3, t4, t5, t6);
            && s.nextId == 7
            && (forall k :: k in s.candidates <==> 2 <= k <= 7)
            && (forall i :: 0 <= i < 6 ==> s.candidates[i + 2] == cs[i].(id := i + 2))
            && KeyedById(s) && BelowCounter(s)
  {
    var cs := Seed(t1, t2, t3, t4, t5, t6);
    FreshSavesAllocate(Initial, cs);
    var s := Seeded(t1, t2, t3, t4, t5, t6);
    forall i | 0 <= i < 6
      ensures i + 2 in s.candidates && s.candidates[i + 2] == cs[i].(id := i + 2)
    {
      assert SaveAll(Initial, cs).1[i].id == i + 2;
    }
    forall k: Int32 | 2 <= k <= 7
      ensures k in s.candidates && s.candidates[k].id == k
    {
      assert SaveAll(Initial, cs).1[k - 2].id == k;
    }
    forall k: Int32 | k in s.candidates
      ensures 2 <= k <= 7
    {
      assert FindById(s, k).Some?;
    }
  }

  /** The six seeding saves, written out one after the other, reach `Seeded`. */
  lemma SeededBySteps(t1: DateTime, t2: DateTime, t3: DateTime,
                      t4: DateTime, t5: DateTime, t6: DateTime)
    ensures var cs := Seed(t1, t2, t3, t4, t5, t6);
            Seeded(t1, t2, t3, t4, t5, t6) ==
              Save(Save(Save(Save(Save(Save(Initial,
                cs[0]).0, cs[1]).0, cs[2]).0, cs[3]).0, cs[4]).0, cs[5]).0
  {
    var cs := Seed(t1, t2, t3, t4, t5, t6);
    var s1 := Save(Initial, cs[0]).0;
    var s2 := Save(s1, cs[1]).0;
    var s3 := Save(s2, cs[2]).0;
    var s4 := Save(s3, cs[3]).0;
    var s5 := Save(s4, cs[4]).0;
    var s6 := Save(s5, cs[5]).0;
    assert SaveAll(s5, cs[5..]).0 == s6;
    assert SaveAll(s4, cs[4..]).0 == SaveAll(s5, cs[5..]).0;
    assert SaveAll(s3, cs[3..]).0 == SaveAll(s4, cs[4..]).0;
    assert SaveAll(s2, cs[2..]).0 == SaveAll(s3, cs[3..]).0;
    assert SaveAll(s1, cs[1..]).0 == SaveAll(s2, cs[2..]).0;
    assert SaveAll(Initial, cs).0 == SaveAll(s1, cs[1..]).0;
  }

  // ---------------------------------------------------------------------
  // Queries and deletion

  /**
   Because each key holds the candidate with that id, no two keys hold the
   same candidate: `findAll` yields exactly one candidate per stored id.
   */
  lemma {:induction false} FindAllCountsEntries(m: map<Int32, Candidate>)
    requires forall k :: k in m ==> m[k].id == k
    ensures |m.Values| == |m|
    decreases |m|
  {
    if m != map[] {
      var k :| k in m;
      var rest := m - {k};
      FindAllCountsEntries(rest);
      forall v | v in m.Values
        ensures v in rest.Values + {m[k]}
      {
        var j :| j in m && m[j] == v;
        if j != k {
          assert j in rest;
        }
      }
      forall v | v in rest.Values
        ensures v in m.Values
      {
        var j :| j in rest && rest[j] == v;
        assert j in m;
      }
      assert m.Values == rest.Values + {m[k]};
      assert m[k] !in rest.Values;
      assert |m| == |rest| + 1;
    }
  }

  /** `findAll` of a well-keyed state has one candidate per entry. */
  lemma FindAllSize(s: State)
    requires KeyedById(s)
    ensures |FindAll(s)| == |s.candidates|
  {
    FindAllCountsEntries(s.candidates);
  }

  /** A second `deleteById` of the same id reports false and changes nothing. */
  lemma DeleteReportedOnce(s: State, id: Int32)
    ensures DeleteById(DeleteById(s, id).0, id) == (DeleteById(s, id).0, false)
  {
    assert s.candidates - {id} - {id} == s.candidates - {id};
  }

  /** `update` of an id that is not stored changes neither the map nor the counter. */
  lemma UpdateNeverInserts(s: State, c: Candidate)
    requires FindById(s, c.id).None?
    ensures Update(s, c) == (s, false)
    ensures FindById(Update(s, c).0, c.id).None?
  {
  }
}
