/** The wall clock, read as `Instant.now()`: nanoseconds since the epoch. */
module Time {

  ghost predicate NonDecreasing(readings: nat -> int)
  {
    forall i: nat, j: nat :: i <= j ==> readings(i) <= readings(j)
  }

  /** A clock whose successive readings are `readings(0)`, `readings(1)`, ... */
  class Clock {
    const readings: nat -> int
    var taken: nat

    constructor (readings: nat -> int)
      ensures this.readings == readings && taken == 0
    {
      this.readings := readings;
      taken := 0;
    }

    method Now() returns (t: int)
      modifies this
      ensures t == readings(old(taken)) && taken == old(taken) + 1
    {
      t := readings(taken);
      taken := taken + 1;
    }
  }
}
