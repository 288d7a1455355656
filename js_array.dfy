/**
 * `xs.map(f).filter((y) => y !== null)`: apply a callback that may give
 * null to every element, then keep the non-null results in order.
 */
module JsArray {
  import opened Wrappers

  function MapDefined<A, B>(xs: seq<A>, f: A -> Option<B>): (ys: seq<B>)
    ensures |ys| <= |xs|
    ensures ys == [] <==> forall k :: 0 <= k < |xs| ==> f(xs[k]).None?
  {
    if xs == [] then []
    else
      var rest := MapDefined(xs[1..], f);
      assert forall k :: 1 <= k < |xs| ==> xs[k] == xs[1..][k - 1];
      match f(xs[0])
      case Some(y) => [y] + rest
      case None => rest
  }

  /** Every result comes from some element. */
  lemma {:induction false} MapDefinedOrigin<A, B>(xs: seq<A>, f: A -> Option<B>, j: nat)
    requires j < |MapDefined(xs, f)|
    ensures exists k :: 0 <= k < |xs| && f(xs[k]) == Some(MapDefined(xs, f)[j])
  {
    var rest := MapDefined(xs[1..], f);
    if f(xs[0]).Some? && j == 0 {
      assert f(xs[0]) == Some(MapDefined(xs, f)[j]);
    } else {
      var j' := if f(xs[0]).Some? then j - 1 else j;
      assert MapDefined(xs, f)[j] == rest[j'];
      MapDefinedOrigin(xs[1..], f, j');
      var k :| 0 <= k < |xs[1..]| && f(xs[1..][k]) == Some(rest[j']);
      assert xs[1..][k] == xs[k + 1];
    }
  }

  /** Mapping and filtering two runs one after the other is the same as doing it to the whole. */
  lemma {:induction false} MapDefinedAppend<A, B>(xs: seq<A>, zs: seq<A>, f: A -> Option<B>)
    ensures MapDefined(xs + zs, f) == MapDefined(xs, f) + MapDefined(zs, f)
  {
    if xs == [] {
      assert xs + zs == zs;
    } else {
      assert (xs + zs)[1..] == xs[1..] + zs;
      MapDefinedAppend(xs[1..], zs, f);
    }
  }

  /** An element with a result contributes it right after the results of the elements before it. */
  lemma MapDefinedPosition<A, B>(xs: seq<A>, i: nat, f: A -> Option<B>)
    requires i < |xs| && f(xs[i]).Some?
    ensures MapDefined(xs[..i + 1], f) == MapDefined(xs[..i], f) + [f(xs[i]).value]
    ensures |MapDefined(xs[..i], f)| < |MapDefined(xs, f)|
    ensures MapDefined(xs, f)[|MapDefined(xs[..i], f)|] == f(xs[i]).value
  {
    assert xs[..i + 1] == xs[..i] + [xs[i]];
    assert xs == xs[..i + 1] + xs[i + 1..];
    assert MapDefined([xs[i]], f) == [f(xs[i]).value] by {
      assert [xs[i]][1..] == [];
    }
    MapDefinedAppend(xs[..i], [xs[i]], f);
    MapDefinedAppend(xs[..i + 1], xs[i + 1..], f);
  }

  /** An element without a result can be dropped without changing the outcome. */
  lemma MapDefinedSkip<A, B>(xs: seq<A>, i: nat, f: A -> Option<B>)
    requires i < |xs| && f(xs[i]).None?
    ensures MapDefined(xs, f) == MapDefined(xs[..i] + xs[i + 1..], f)
  {
    assert xs == xs[..i] + ([xs[i]] + xs[i + 1..]);
    assert ([xs[i]] + xs[i + 1..])[1..] == xs[i + 1..];
    MapDefinedAppend(xs[..i], [xs[i]] + xs[i + 1..], f);
    MapDefinedAppend(xs[..i], xs[i + 1..], f);
  }

  /** When every element has a result, the results line up one to one with the elements. */
  lemma {:induction false} MapDefinedTotal<A, B>(xs: seq<A>, f: A -> Option<B>)
    requires forall k :: 0 <= k < |xs| ==> f(xs[k]).Some?
    ensures |MapDefined(xs, f)| == |xs|
    ensures forall k :: 0 <= k < |xs| ==> MapDefined(xs, f)[k] == f(xs[k]).value
  {
    if xs != [] {
      assert forall k :: 0 <= k < |xs| - 1 ==> xs[1..][k] == xs[k + 1];
      MapDefinedTotal(xs[1..], f);
    }
  }
}
