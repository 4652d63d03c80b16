/** Operations on the firmware's linked lists, modelled as sequences. */
module Lists {

  /** `i` is the index of the first element satisfying `p`. */
  predicate IsFirstMatch<T>(l: seq<T>, p: T -> bool, i: int)
  {
    0 <= i < |l| && p(l[i]) && forall j :: 0 <= j < i ==> !p(l[j])
  }

  /** The index of the first element satisfying `p`, or `|l|` when none does. */
  function FirstIndex<T>(l: seq<T>, p: T -> bool): (i: nat)
    ensures i <= |l|
    ensures forall j :: 0 <= j < i ==> !p(l[j])
    ensures i < |l| ==> p(l[i])
  {
    if |l| == 0 then 0
    else if p(l[0]) then 0
    else 1 + FirstIndex(l[1..], p)
  }

  /** Deletes the first element satisfying `p`, as every `...Remove` method
      of the firmware does: it walks the list, removes the first match and
      returns true, or returns false with the list untouched. */
  function RemoveFirst<T>(l: seq<T>, p: T -> bool): (r: (bool, seq<T>))
    ensures !r.0 <==> forall j :: 0 <= j < |l| ==> !p(l[j])
    ensures !r.0 ==> r.1 == l
    ensures r.0 ==> exists i :: IsFirstMatch(l, p, i) && r.1 == l[..i] + l[i + 1..]
    ensures r.0 ==> |r.1| == |l| - 1
  {
    var i := FirstIndex(l, p);
    if i == |l| then (false, l)
    else
      assert IsFirstMatch(l, p, i);
      (true, l[..i] + l[i + 1..])
  }

  /** Putting one element in front of the kept part keeps a split of the
      elements a split. */
  lemma MultisetCons<T>(a: T, s: seq<T>, kept: seq<T>, gone: seq<T>)
    requires multiset(s) == multiset(kept) + multiset(gone)
    ensures multiset([a] + s) == multiset([a] + kept) + multiset(gone)
  {
  }

  /** Two elements in front, the first sent to the gone part and the second
      to the kept part. */
  lemma MultisetRegroup<T>(a: T, b: T, s: seq<T>, kept: seq<T>, gone: seq<T>)
    requires multiset(s) == multiset(kept) + multiset(gone)
    ensures multiset([a] + ([b] + s)) == multiset([b] + kept) + multiset([a] + gone)
  {
  }
}
