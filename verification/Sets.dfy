/** Facts about finite sets that the proofs of several modules share. */
module Sets {

  /** A nonempty set has an element. */
  lemma Pick<T>(s: set<T>) returns (x: T)
    requires s != {}
    ensures x in s
  {
    x :| x in s;
  }
}
