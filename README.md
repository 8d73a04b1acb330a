# In-memory candidate repository of a job board

This project models the candidate store of a small job-board application:
the `CandidateRepository` interface (save, delete by id, update, find by id,
find all) and its in-memory implementation `MemoryCandidateRepository`,
which keeps a map from integer id to `Candidate` and an atomic id counter
that starts at 1.

- `model.dfy` — module `Model`: Java's 32-bit `int` (`Int32`), the counter's
  `incrementAndGet` with two's-complement wrap-around, `Option` for
  `java.util.Optional`, an uninterpreted `DateTime`, and the `Candidate`
  record (id, name, description, creation date, city id; id 0 means "not yet
  assigned").
- `candidate_repository.dfy` — module `CandidateRepository`: the interface.
  Each of its five operations is given as a predicate relating the store
  before a call, the store after it and the call's result.
- `candidate_store.dfy` — module `CandidateStore`: the repository's two fields
  as a value (`State`), each operation as a function from the old state to
  the new state and its result, and the lemmas about them. These cover id
  allocation over any sequence of saves, deletes and updates (`Op`, `Run`),
  the seeding done by the constructor, that every key holds the candidate
  with that id, delete reporting once and update never inserting.
- `memory_repository.dfy` — module `MemoryRepository`: class
  `MemoryCandidateRepository` with the fields `candidates` (a `map`) and
  `nextId`, changed in place by its methods. Each method is proved to take
  exactly the step of the matching `CandidateStore` function, to keep the
  object invariant and to meet the interface's predicate. A client method
  exercises the class through its contracts alone.

Behaviour of the code worth knowing; the model follows the code:

- The counter starts at 1 and `save` uses increment-then-get, so the first
  automatically assigned id is 2, not 1. The constructor's six seed
  candidates get ids 2 to 7 and leave the counter at 7.
- `save` writes the new id into the candidate it was given and stores that
  same candidate; it does not copy it first. The model returns the
  id-assigned value (see "Left out" for the aliasing).
- `update` builds its replacement with the five-argument `Candidate`
  constructor: the stored candidate's id plus the argument's name,
  description, creation date and city id. Any further field of the
  argument, such as a file id, is not carried over. The model has only
  these five fields, so there `CandidateStore.Update` stores exactly the
  argument whenever every key holds the candidate with that id.

## Model

| member | source | states |
|---|---|---|
| `Model.IncrementAndGet` | src/main/java/ru/job4j/dreamjob/repository/MemoryCandidateRepository.java:33 | below the largest `int` the new counter is the old plus one, so it is larger; at the largest `int` it wraps to the smallest |
| `CandidateRepository.SavePromise` | src/main/java/ru/job4j/dreamjob/repository/CandidateRepository.java:9 | save returns the candidate that is now stored under its id |
| `CandidateRepository.DeleteByIdPromise` | src/main/java/ru/job4j/dreamjob/repository/CandidateRepository.java:11 | delete answers true exactly when the id was present, and the id is absent afterwards |
| `CandidateRepository.UpdatePromise` | src/main/java/ru/job4j/dreamjob/repository/CandidateRepository.java:13 | update answers false exactly when the id is absent, then changes nothing, and never changes the key set |
| `CandidateRepository.FindByIdPromise` | src/main/java/ru/job4j/dreamjob/repository/CandidateRepository.java:15 | absence is an empty optional; presence yields the stored candidate |
| `CandidateRepository.FindAllPromise` | src/main/java/ru/job4j/dreamjob/repository/CandidateRepository.java:17 | find all returns exactly the stored candidates |
| `CandidateStore.Initial` | src/main/java/ru/job4j/dreamjob/repository/MemoryCandidateRepository.java:18-19 | the fields as initialised: an empty map and a counter holding 1 |
| `CandidateStore.KeyedById` | src/main/java/ru/job4j/dreamjob/repository/MemoryCandidateRepository.java:35 | the invariant that each key holds the candidate whose id it is |
| `CandidateStore.FindById` | src/main/java/ru/job4j/dreamjob/repository/MemoryCandidateRepository.java:51-54 | empty exactly when the id is not a key; otherwise the stored candidate, whose id is the key when every key holds its own candidate |
| `CandidateStore.FindAll` | src/main/java/ru/job4j/dreamjob/repository/MemoryCandidateRepository.java:56-59 | a candidate is in the result exactly when some key holds it; in a well-keyed state each one is found again by its own id |
| `CandidateStore.Save` | src/main/java/ru/job4j/dreamjob/repository/MemoryCandidateRepository.java:30-37 | id 0: the result gets the counter's successor as id and the counter advances to it; other ids: result and counter unchanged; afterwards the result is found under its id, every other id is as before, the key set gains just that id, and "key = stored id" is preserved |
| `CandidateStore.DeleteById` | src/main/java/ru/job4j/dreamjob/repository/MemoryCandidateRepository.java:39-42 | true exactly when the id was present; afterwards it is absent, every other id and the counter are unchanged, both invariants preserved |
| `CandidateStore.Update` | src/main/java/ru/job4j/dreamjob/repository/MemoryCandidateRepository.java:44-49 | true exactly when the id is present; false leaves the state identical; the key set and the counter never change; on success the id holds a candidate with the old stored id and the argument's other four fields, which in a well-keyed state is the argument itself; other ids unchanged; both invariants preserved |
| `CandidateStore.SaveAll` | src/main/java/ru/job4j/dreamjob/repository/MemoryCandidateRepository.java:22-27 | one result per argument; each result is its argument with at most the id changed, and exactly the argument when that had a non-zero id (what is stored: `SaveAllKeys`, `SaveAllFrame`, `SaveAllLastWins`, `FreshSavesAllocate`) |
| `CandidateStore.SaveAllKeys` | src/main/java/ru/job4j/dreamjob/repository/MemoryCandidateRepository.java:35 | for any arguments, successive saves leave the old keys plus exactly the returned ids |
| `CandidateStore.SaveAllFrame` | src/main/java/ru/job4j/dreamjob/repository/MemoryCandidateRepository.java:35 | for any arguments, every id not returned by the saves holds what it held before |
| `CandidateStore.SaveAllLastWins` | src/main/java/ru/job4j/dreamjob/repository/MemoryCandidateRepository.java:35 | for any arguments, a returned candidate is found under its id at the end unless a later save returned the same id |
| `CandidateStore.SaveAllKeyed` | src/main/java/ru/job4j/dreamjob/repository/MemoryCandidateRepository.java:32-35 | successive saves keep every key holding the candidate with that id |
| `CandidateStore.Seed` | src/main/java/ru/job4j/dreamjob/repository/MemoryCandidateRepository.java:22-27 | the constructor saves six candidates, all with id 0 |
| `CandidateStore.FreshSavesAllocate` | src/main/java/ru/job4j/dreamjob/repository/MemoryCandidateRepository.java:32-35 | saving n candidates with id 0 gives them the ids counter+1 … counter+n in order, stores each under its id, advances the counter by n and leaves every other id unchanged |
| `CandidateStore.FreshIdsIncrease` | src/main/java/ru/job4j/dreamjob/repository/MemoryCandidateRepository.java:32-34 | while the counter plus the number of saves stays at or below the largest `int` (no wrap-around), automatically assigned ids are strictly increasing, so distinct, and lie above the old counter and at most the new one |
| `CandidateStore.FirstAllocatedIdIsTwo` | src/main/java/ru/job4j/dreamjob/repository/MemoryCandidateRepository.java:19-34 | from the initial fields the first automatic id, and the new counter, is 2 |
| `CandidateStore.FreshSaveOverwritesNothing` | src/main/java/ru/job4j/dreamjob/repository/MemoryCandidateRepository.java:32-35 | when no key exceeds the counter and the counter has not reached the largest `int`, an automatic save takes an unused id, grows the map by one entry and keeps "no key above the counter" |
| `CandidateStore.Step` | src/main/java/ru/job4j/dreamjob/repository/MemoryCandidateRepository.java:30-49 | one save, delete or update: it reports an allocated id exactly when it is a save of id 0, and that id is the counter's successor, which becomes the counter; otherwise the counter is unchanged; keeps every key holding its own candidate |
| `CandidateStore.Run` | src/main/java/ru/job4j/dreamjob/repository/MemoryCandidateRepository.java:30-49 | any sequence of calls allocates at most one id per call and keeps every key holding the candidate with that id |
| `CandidateStore.CountFresh` | src/main/java/ru/job4j/dreamjob/repository/MemoryCandidateRepository.java:32-33 | the number of calls in a sequence that are saves of id 0, the only calls that allocate; never more than the number of calls |
| `CandidateStore.RunIssuesOnePerFreshSave` | src/main/java/ru/job4j/dreamjob/repository/MemoryCandidateRepository.java:32-33 | any sequence of calls hands out exactly one id per save of id 0 |
| `CandidateStore.RunAllocates` | src/main/java/ru/job4j/dreamjob/repository/MemoryCandidateRepository.java:19-34 | over any sequence of saves, deletes and updates during which the saves of id 0 cannot make the counter wrap, the automatic ids are counter+1, counter+2, … in order, hence strictly increasing and distinct, and the counter ends at the last one |
| `CandidateStore.DeletedIdNotReallocated` | src/main/java/ru/job4j/dreamjob/repository/MemoryCandidateRepository.java:32-48 | after an automatic save, while the later saves of id 0 cannot make the counter wrap, no automatic id handed out by any later sequence of calls (deletes of that id included) equals it |
| `CandidateStore.SeededBySteps` | src/main/java/ru/job4j/dreamjob/repository/MemoryCandidateRepository.java:21-28 | the six separate save calls of the constructor reach the same state as saving the seed sequence |
| `CandidateStore.SeedState` | src/main/java/ru/job4j/dreamjob/repository/MemoryCandidateRepository.java:21-28 | after seeding, the keys are exactly 2 to 7, key i+2 holds the i-th seed candidate with id i+2, the counter is 7, and both invariants hold |
| `CandidateStore.FindAllCountsEntries` | src/main/java/ru/job4j/dreamjob/repository/MemoryCandidateRepository.java:58 | when every key holds its own candidate, the map has as many distinct values as keys |
| `CandidateStore.FindAllSize` | src/main/java/ru/job4j/dreamjob/repository/MemoryCandidateRepository.java:56-59 | in a well-keyed state `findAll` yields one candidate per stored id |
| `CandidateStore.DeleteReportedOnce` | src/main/java/ru/job4j/dreamjob/repository/MemoryCandidateRepository.java:41 | a second delete of the same id returns false and changes nothing |
| `CandidateStore.UpdateNeverInserts` | src/main/java/ru/job4j/dreamjob/repository/MemoryCandidateRepository.java:46-48 | an update of an absent id returns false, leaves the state unchanged and the id stays absent |
| `MemoryRepository.MemoryCandidateRepository.constructor` | src/main/java/ru/job4j/dreamjob/repository/MemoryCandidateRepository.java:18-28 | starts with an empty map and counter 1, then six saves; ends in the seeded state, keys exactly 2 to 7, counter 7, invariant established |
| `MemoryRepository.MemoryCandidateRepository.Save` | src/main/java/ru/job4j/dreamjob/repository/MemoryCandidateRepository.java:30-37 | new fields and result are exactly `CandidateStore.Save` of the old fields; invariant kept; interface promise met |
| `MemoryRepository.MemoryCandidateRepository.DeleteById` | src/main/java/ru/job4j/dreamjob/repository/MemoryCandidateRepository.java:39-42 | new fields and result are exactly `CandidateStore.DeleteById` of the old fields; invariant kept; interface promise met |
| `MemoryRepository.MemoryCandidateRepository.Update` | src/main/java/ru/job4j/dreamjob/repository/MemoryCandidateRepository.java:44-49 | new fields and result are exactly `CandidateStore.Update` of the old fields; invariant kept; interface promise met |
| `MemoryRepository.MemoryCandidateRepository.FindById` | src/main/java/ru/job4j/dreamjob/repository/MemoryCandidateRepository.java:51-54 | read-only; result is `CandidateStore.FindById` of the fields, meets the interface promise, and a found candidate carries the requested id |
| `MemoryRepository.MemoryCandidateRepository.FindAll` | src/main/java/ru/job4j/dreamjob/repository/MemoryCandidateRepository.java:56-59 | read-only; result is the stored candidates, meets the interface promise, and has as many elements as the map has entries |

## Left out

- Concurrency: the `ConcurrentHashMap`, the `AtomicInteger` and the thread-safety annotation. Each operation is one atomic sequential step, and `computeIfPresent` is a single check-and-replace.
- Aliasing: `save` writes the id into the caller's object and stores that object, so a caller who changes it later changes the stored entry. Candidates are values in the model, which is why "key = stored id" can be kept as an invariant.
- `findAll` returns a live view of the map's values in Java. The model returns a snapshot `set`. `FindAllSize` shows that a set loses nothing here, because no two entries hold the same candidate.
- `LocalDateTime.now()`: the six clock readings are parameters of the constructor, and `DateTime` is never inspected.
- Spring wiring (`@Repository`, the private constructor used by the container): the model has an ordinary public constructor.
- The Java `Candidate` class is not part of this model. The model defines its own `Candidate` record instead, keeping the five fields that `update` copies. The controller tests build candidates with a sixth argument, a file id. The model leaves that field out, so it does not show that `update` loses the argument's file id. `CandidateStore.Update` stores exactly its argument only because the model has no sixth field.
- The interface is modelled as one predicate per operation, not as a type that classes implement. Each method of the class ensures the matching predicate, which shows that the implementation satisfies it.
- CandidateStore.FreshSavesAllocate: proved only while the counter plus the number of saves stays at or below the largest `int`. Past that point Java's counter wraps to negative ids, and then to 0 and small ids that may already be stored. `Model.IncrementAndGet` models the wrap, but no lemma covers saves after it.
- CandidateStore.RunAllocates: proved only while the counter plus the number of saves of id 0 in the sequence stays at or below the largest `int`. Past that point Java's counter wraps, and the ids stop increasing.
- CandidateStore.DeletedIdNotReallocated: proved only under the same bound. Once the counter wraps all the way round, Java's `incrementAndGet` hands out an id it has handed out before, and this can be a deleted id.
- CandidateStore.FreshIdsIncrease: proved only while the counter plus the number of saves stays at or below the largest `int`, because the ids stop increasing at the wrap.
- CandidateStore.FreshSaveOverwritesNothing: needs that no stored id is above the counter. A `save` with an explicit id above the counter, which the code allows, breaks this, and the next automatic save can then overwrite that entry.
