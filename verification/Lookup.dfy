/** Linear search, as every table of the repository is searched: the first match counts. */
module Lookup {
  /** The first index holding `k`, or the length. */
  function Find<K(==)>(keys: seq<K>, k: K): (i: nat)
    ensures i <= |keys|
    ensures i < |keys| ==> keys[i] == k
    ensures forall j :: 0 <= j < i ==> keys[j] != k
  {
    if keys == [] || keys[0] == k then 0 else 1 + Find(keys[1..], k)
  }
}
