/** Small facts about finite sets that the verifier does not find unaided. */
module Sets {

  /** A set without members is the empty set. */
  lemma NoMemberMeansEmpty<T>(s: set<T>)
    requires forall x :: x !in s
    ensures s == {}
  {
    assert forall x :: x in s <==> x in {};
  }
}
