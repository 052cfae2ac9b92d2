/** Option and Result, and one helper for results that carry a sequence. */
module Wrappers {

  datatype Option<+T> = None | Some(value: T)

  datatype Result<+T, +E> = Ok(value: T) | Err(error: E)

  /** `pre` in front of the sequence a successful `r` carries; an error passes through. */
  function Prefixed<T, E>(pre: seq<T>, r: Result<seq<T>, E>): (p: Result<seq<T>, E>)
    ensures p.Ok? <==> r.Ok?
    ensures p.Ok? ==> p.value == pre + r.value
    ensures p.Err? ==> p.error == r.error
  {
    match r
    case Ok(s) => Ok(pre + s)
    case Err(e) => Err(e)
  }

  /** Run `first`; on success, its sequence goes in front of `rest`'s. The first error wins. */
  function Then<T, E>(first: Result<seq<T>, E>, rest: Result<seq<T>, E>): (p: Result<seq<T>, E>)
    ensures first.Err? ==> p == first
    ensures first.Ok? ==> p == Prefixed(first.value, rest)
  {
    match first
    case Ok(s) => Prefixed(s, rest)
    case Err(e) => Err(e)
  }

  lemma PrefixedNothing<T, E>(r: Result<seq<T>, E>)
    ensures Prefixed([], r) == r
  {
    if r.Ok? {
      assert [] + r.value == r.value;
    }
  }

  lemma PrefixedTwice<T, E>(a: seq<T>, b: seq<T>, r: Result<seq<T>, E>)
    ensures Prefixed(a, Prefixed(b, r)) == Prefixed(a + b, r)
  {
    if r.Ok? {
      assert a + (b + r.value) == (a + b) + r.value;
    }
  }

  lemma AppendAssociates<T>(x: seq<T>, y: seq<T>, z: seq<T>)
    ensures (x + y) + z == x + (y + z)
  {
  }

  /** `f` applied to each element, in order. */
  function Map<A, B>(f: A -> B, xs: seq<A>): (ys: seq<B>)
    ensures |ys| == |xs|
    ensures forall k :: 0 <= k < |xs| ==> ys[k] == f(xs[k])
    decreases |xs|
  {
    if xs == [] then [] else [f(xs[0])] + Map(f, xs[1..])
  }

  lemma MapAppend<A, B>(f: A -> B, a: seq<A>, b: seq<A>)
    ensures Map(f, a + b) == Map(f, a) + Map(f, b)
  {
    var whole := Map(f, a + b);
    var left, right := Map(f, a), Map(f, b);
    forall k | 0 <= k < |whole| ensures whole[k] == (left + right)[k] {
      if k < |a| {
        assert (a + b)[k] == a[k] && (left + right)[k] == left[k];
      } else {
        assert (a + b)[k] == b[k - |a|] && (left + right)[k] == right[k - |a|];
      }
    }
    assert whole == left + right;
  }

  /** The sequences the results carry, one after another; the first error is the result. */
  function ThenAll<T, E>(rs: seq<Result<seq<T>, E>>): Result<seq<T>, E>
    decreases |rs|
  {
    if rs == [] then Ok([]) else Then(rs[0], ThenAll(rs[1..]))
  }

  /** Peeling the `n`-th result off `rs[n..]`. */
  lemma ThenAllFrom<T, E>(rs: seq<Result<seq<T>, E>>, n: nat)
    requires n < |rs|
    ensures ThenAll(rs[n..]) == Then(rs[n], ThenAll(rs[n + 1..]))
  {
    assert rs[n..][1..] == rs[n + 1..];
  }

  /** All succeed exactly when each one does. */
  lemma {:induction false} ThenAllOk<T, E>(rs: seq<Result<seq<T>, E>>)
    ensures ThenAll(rs).Ok? <==> forall k :: 0 <= k < |rs| ==> rs[k].Ok?
    decreases |rs|
  {
    if rs != [] {
      ThenAllOk(rs[1..]);
      assert forall k :: 1 <= k < |rs| ==> rs[k] == rs[1..][k - 1];
    }
  }

  /** A failure is the failure of the first result that fails. */
  lemma {:induction false} ThenAllFailure<T, E>(rs: seq<Result<seq<T>, E>>) returns (k: nat)
    requires ThenAll(rs).Err?
    ensures k < |rs| && rs[k].Err? && ThenAll(rs).error == rs[k].error
    ensures forall k' :: 0 <= k' < k ==> rs[k'].Ok?
    decreases |rs|
  {
    if rs[0].Err? {
      k := 0;
    } else {
      var k' := ThenAllFailure(rs[1..]);
      k := k' + 1;
      assert forall i :: 1 <= i < k ==> rs[i] == rs[1..][i - 1];
    }
  }

  /** The length a result carries, 0 for an error. */
  function Len<T, E>(r: Result<seq<T>, E>): nat {
    if r.Ok? then |r.value| else 0
  }

  /** How many elements the first `k` results carry: where the `k`-th one's elements begin. */
  function Before<T, E>(rs: seq<Result<seq<T>, E>>, k: nat): nat
    requires k <= |rs|
    decreases k
  {
    if k == 0 then 0 else Len(rs[0]) + Before(rs[1..], k - 1)
  }

  /** The `p`-th element of the `k`-th result is element `Before(rs, k) + p` of the whole, which has `Before(rs, |rs|)` elements. */
  lemma {:induction false} ThenAllAt<T, E>(rs: seq<Result<seq<T>, E>>, k: nat, p: nat)
    requires ThenAll(rs).Ok? && k < |rs| && rs[k].Ok? && p < |rs[k].value|
    ensures |ThenAll(rs).value| == Before(rs, |rs|)
    ensures Before(rs, k) + p < |ThenAll(rs).value| && ThenAll(rs).value[Before(rs, k) + p] == rs[k].value[p]
    decreases |rs|
  {
    var whole := ThenAll(rs).value;
    if k == 0 {
      if |rs| > 1 {
        ThenAllLength(rs[1..]);
      }
    } else {
      ThenAllAt(rs[1..], k - 1, p);
      assert rs[1..][k - 1] == rs[k];
    }
  }

  /** A successful whole carries `Before(rs, |rs|)` elements. */
  lemma {:induction false} ThenAllLength<T, E>(rs: seq<Result<seq<T>, E>>)
    requires ThenAll(rs).Ok?
    ensures |ThenAll(rs).value| == Before(rs, |rs|)
    decreases |rs|
  {
    if rs != [] {
      ThenAllLength(rs[1..]);
    }
  }
}
