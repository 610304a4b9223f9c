/** Optional values and the "first one present" search that every fallback chain of the plugin follows. */
module Options {

  datatype Option<+T> = None | Some(value: T)

  /** The first present entry of a priority list: later entries are looked at only when every
      earlier one is absent. */
  function FirstSome<T>(xs: seq<Option<T>>): (r: Option<T>)
    ensures r.Some? ==> exists i :: 0 <= i < |xs| && xs[i] == r && forall k :: 0 <= k < i ==> xs[k].None?
    ensures r.None? <==> forall k :: 0 <= k < |xs| ==> xs[k].None?
  {
    if xs == [] then None
    else if xs[0].Some? then xs[0]
    else
      var rest := FirstSome(xs[1..]);
      assert forall k :: 1 <= k < |xs| ==> xs[k] == xs[1..][k - 1];
      rest
  }

  /** An entry that is present and preceded only by absent entries is the result. */
  lemma {:induction false} FirstSomeAt<T>(xs: seq<Option<T>>, i: int)
    requires 0 <= i < |xs| && xs[i].Some?
    requires forall k :: 0 <= k < i ==> xs[k].None?
    ensures FirstSome(xs) == xs[i]
  {
    if i > 0 {
      assert xs[1..][i - 1] == xs[i];
      FirstSomeAt(xs[1..], i - 1);
    }
  }

  /** The first present entry of a concatenation is taken from the first part when that part
      has one, and from the second part otherwise. */
  lemma {:induction false} FirstSomeAppend<T>(xs: seq<Option<T>>, ys: seq<Option<T>>)
    ensures FirstSome(xs + ys) == if FirstSome(xs).Some? then FirstSome(xs) else FirstSome(ys)
  {
    if xs != [] {
      assert (xs + ys)[0] == xs[0];
      assert (xs + ys)[1..] == xs[1..] + ys;
      FirstSomeAppend(xs[1..], ys);
    } else {
      assert xs + ys == ys;
    }
  }
}
