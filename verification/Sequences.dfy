/** Sequences whose members are distinct, as those of the nodes of a linked list are. */
module Sequences {

  ghost predicate Distinct<T>(s: seq<T>) {
    forall i, j | 0 <= i < j < |s| :: s[i] != s[j]
  }

  ghost function Without<T>(s: seq<T>, k: nat): (r: seq<T>)
    requires k < |s|
  {
    s[..k] + s[k + 1..]
  }

  lemma RemovalLeaves<T>(s: seq<T>, k: nat)
    requires k < |s| && Distinct(s)
    ensures forall t :: t in Without(s, k) <==> t in s && t != s[k]
  {
    forall t | t in s && t != s[k] ensures t in Without(s, k) {
      var i :| 0 <= i < |s| && s[i] == t;
      assert Without(s, k)[if i < k then i else i - 1] == t;
    }
  }
}
