/** Set facts that the verifier has to be reminded of. */
module Sets {

  lemma NonEmpty(s: set<int>)
    ensures s == {} || exists x :: x in s
  {
    if forall x :: x !in s {
      assert forall x | x in s :: x in {0};
      assert s <= {0};
    }
  }
}
