/** Bags with parts exchanged. */
module Multisets {

  lemma Rearrange<T>(before: multiset<T>, after: multiset<T>, rest: multiset<T>, added: multiset<T>, removed: multiset<T>)
    requires after + removed == before + added
    ensures (after + rest) + removed == (before + rest) + added
  {
    assert (after + rest) + removed == (after + removed) + rest;
  }

  lemma Reassociate<T>(a: multiset<T>, before: multiset<T>, after: multiset<T>, added: multiset<T>, removed: multiset<T>)
    requires after + removed == before + added
    ensures (a + after) + removed == (a + before) + added
  {
    assert (a + after) + removed == a + (after + removed);
  }

  /** A common part can be taken away. */
  lemma Cancel<T>(a: multiset<T>, b: multiset<T>, c: multiset<T>)
    requires a + c == b + c
    ensures a == b
  {
    forall x
      ensures a[x] == b[x]
    {
      assert (a + c)[x] == (b + c)[x];
    }
  }

  /** One part goes and another comes. */
  lemma Exchange<T>(after: multiset<T>, before: multiset<T>, rest: multiset<T>, gone: multiset<T>, come: multiset<T>)
    requires after + gone == before + come && before == rest + gone
    ensures after == rest + come
  {
    assert (rest + come) + gone == (rest + gone) + come;
    Cancel(after, rest + come, gone);
  }
}
