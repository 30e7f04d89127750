/** Optional values, and the "last value that was set" reading of a sequence of them. */
module Options {

  datatype Option<+T> = None | Some(value: T) {

    /** The carried value, or `default` when there is none. */
    function GetOr(default: T): T {
      match this
      case Some(v) => v
      case None => default
    }
  }

  /** The position of the last `Some` in `xs`, or -1 when there is none. */
  function LastIndex<T>(xs: seq<Option<T>>): (r: int)
    ensures -1 <= r < |xs|
    ensures r >= 0 ==> xs[r].Some?
    ensures forall j :: r < j < |xs| ==> xs[j].None?
  {
    if |xs| == 0 then -1
    else if xs[|xs| - 1].Some? then |xs| - 1
    else LastIndex(xs[..|xs| - 1])
  }

  /** The last `Some` in `xs`, if any: the value a "last assignment wins" variable ends with. */
  function LastSome<T>(xs: seq<Option<T>>): (r: Option<T>)
    ensures r.None? <==> forall k :: 0 <= k < |xs| ==> xs[k].None?
    ensures r.Some? ==> exists k :: 0 <= k < |xs| && xs[k] == r && forall j :: k < j < |xs| ==> xs[j].None?
  {
    var k := LastIndex(xs);
    if k < 0 then None else xs[k]
  }

  /** Reading the sequence front to back: a later assignment overrides an earlier one. */
  lemma {:induction false} LastSomeCons<T>(x: Option<T>, xs: seq<Option<T>>)
    ensures LastSome([x] + xs) == if LastSome(xs).Some? then LastSome(xs) else x
    decreases |xs|
  {
    if |xs| == 0 {
      assert [x] + xs == [x];
    } else {
      var ys := [x] + xs;
      assert ys[|ys| - 1] == xs[|xs| - 1];
      if xs[|xs| - 1].None? {
        assert ys[..|ys| - 1] == [x] + xs[..|xs| - 1];
        LastSomeCons(x, xs[..|xs| - 1]);
      }
    }
  }

  /** Deleting an entry that assigns nothing leaves the last assignment unchanged. */
  lemma {:induction false} LastSomeSkipsNone<T>(xs: seq<Option<T>>, k: nat)
    requires k < |xs| && xs[k].None?
    ensures LastSome(xs[..k] + xs[k + 1..]) == LastSome(xs)
    decreases |xs|
  {
    var ys := xs[..k] + xs[k + 1..];
    if k == |xs| - 1 {
      assert ys == xs[..|xs| - 1];
    } else {
      assert ys[|ys| - 1] == xs[|xs| - 1];
      if xs[|xs| - 1].None? {
        var xs' := xs[..|xs| - 1];
        assert ys[..|ys| - 1] == xs'[..k] + xs'[k + 1..];
        LastSomeSkipsNone(xs', k);
      }
    }
  }
}
