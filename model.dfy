/**
 The value types shared by the candidate repository: Java's 32-bit `int`,
 the optional result of a lookup, and the `Candidate` record itself.
 */
module Model {

  const INT_MIN: int := -0x8000_0000
  const INT_MAX: int := 0x7fff_ffff

  /** A Java `int`. */
  type Int32 = x: int | INT_MIN <= x <= INT_MAX

  /**
   `AtomicInteger.incrementAndGet` read as a plain step: two's-complement
   addition of one, so the successor of the largest `int` is the smallest.
   */
  function IncrementAndGet(n: Int32): (r: Int32)
    ensures n < INT_MAX ==> r == n + 1 && r > n
    ensures n == INT_MAX ==> r == INT_MIN
  {
    (n + 1 - INT_MIN) % 0x1_0000_0000 + INT_MIN
  }

  /** `java.util.Optional`: absence is a value, not an error. */
  datatype Option<T> = None | Some(value: T)

  /**
   A point in time as produced by `LocalDateTime.now()`. The repository
   never inspects it; it only carries it from one candidate to another.
   */
  datatype DateTime = DateTime(ticks: int)

  /** A job candidate; an `id` of 0 means "no id assigned yet". */
  datatype Candidate = Candidate(
    id: Int32,
    name: string,
    description: string,
    creationDate: DateTime,
    cityId: Int32)
}
