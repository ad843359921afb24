// Laws of multiset sums that the conservation arguments share.
module Multisets {

  lemma Cancel<T>(a: multiset<T>, b: multiset<T>, c: multiset<T>)
    requires a + c == b + c
    ensures a == b
  {
    forall x ensures a[x] == b[x] {
      assert (a + c)[x] == (b + c)[x];
    }
  }

  lemma Regroup<T>(a: multiset<T>, b: multiset<T>, c: multiset<T>)
    ensures (a + b) + c == (a + c) + b
    ensures (a + b) + c == a + (b + c)
    ensures a + b == b + a
  {
  }

  lemma Unit<T>(a: multiset<T>)
    ensures a + multiset{} == a
    ensures |a| == 0 ==> a == multiset{}
  {
  }
}
