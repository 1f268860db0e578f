/** The buses the memory devices hang on. */
module Bus {

  /** What can happen to one transfer, or to one wait for a status: it goes well; it is lost; or
      the device acts on it, but the driver is told it failed. */
  datatype Fault = Good | Lost | DoneButFailed

  /** The n steps from one point of time on all go well. */
  ghost predicate GoodFrom(faults: nat -> Fault, clock: nat, n: int) {
    forall k :: clock <= k < clock + n ==> faults(k) == Good
  }
}
