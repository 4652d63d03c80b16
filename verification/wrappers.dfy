/** The optional value used wherever the firmware passes a nullable pointer
    or a "maybe" result. */
module Wrappers {

  datatype Option<+T> = None | Some(value: T)

  /** The values of the present entries, in their order: what a loop that
      acts on each entry that yields something produces. */
  function Somes<T>(s: seq<Option<T>>): (r: seq<T>)
    ensures |r| <= |s|
    decreases |s|
  {
    if |s| == 0 then [] else (if s[0].Some? then [s[0].value] else []) + Somes(s[1..])
  }

  /** A present head value comes first; an absent one adds nothing. */
  lemma SomesCons<T>(x: Option<T>, s: seq<Option<T>>)
    ensures Somes([x] + s) == (if x.Some? then [x.value] else []) + Somes(s)
  {
    assert ([x] + s)[1..] == s;
  }

  /** Nothing present is lost and nothing absent is made up. */
  lemma {:induction false} SomesMembers<T>(s: seq<Option<T>>)
    ensures forall i :: 0 <= i < |s| && s[i].Some? ==> s[i].value in Somes(s)
    ensures forall x :: x in Somes(s) ==> Some(x) in s
    decreases |s|
  {
    if |s| > 0 {
      SomesMembers(s[1..]);
      assert forall i :: 1 <= i < |s| ==> s[i] == s[1..][i - 1];
    }
  }
}

/** Callbacks are user code the model cannot see: each registered callback
    is an opaque identity, and invoking it is recorded as an event. */
module Callbacks {

  type CbId = nat
}
