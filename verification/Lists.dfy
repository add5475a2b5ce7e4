/** Optional values; sequences without repetition, their elements, constant sequences, and ranges of integers. */
module Lists {
  datatype Option<T> = None | Some(value: T)

  predicate NoDup<T(==)>(s: seq<T>) { forall i, j :: 0 <= i < j < |s| ==> s[i] != s[j] }

  function Elems<T(==, !new)>(s: seq<T>): (e: set<T>)
    ensures forall a :: a in e <==> a in s
    ensures NoDup(s) ==> |e| == |s|
  {
    if s == [] then {}
    else
      assert NoDup(s) ==> s[0] !in s[1..];
      assert s == [s[0]] + s[1..];
      Elems(s[1..]) + {s[0]}
  }

  /** The numbers lo, ..., hi - 1 */
  function Range(lo: nat, hi: nat): (r: set<nat>)
    ensures forall m: nat :: m in r <==> lo <= m < hi
  {
    if hi <= lo then {} else Range(lo, hi - 1) + {hi - 1}
  }

  lemma {:induction false} RangeSize(lo: nat, hi: nat)
    requires lo <= hi
    ensures |Range(lo, hi)| == hi - lo
  {
    if lo < hi { RangeSize(lo, hi - 1); }
  }

  function Rep<T>(x: T, k: nat): (s: seq<T>)
    ensures |s| == k && forall i :: 0 <= i < k ==> s[i] == x
  {
    seq(k, _ => x)
  }
}
