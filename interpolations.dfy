/** Embedding interpolation and the decode sweep of `PLMs/src/interpolations.py`.
    An embedding tensor is modelled by its components, flattened, as reals. */
module Interpolations {
  import opened Common
  import opened EsmDecode

  type Embedding = seq<real>

  /** `linear_interpolation(e1, e2, lamb)`: the componentwise blend `lamb*e1 + (1-lamb)*e2`. */
  function LinearInterpolation(e1: Embedding, e2: Embedding, lamb: real): (r: Embedding)
    requires |e1| == |e2|
    ensures |r| == |e1|
  {
    seq(|e1|, i requires 0 <= i < |e1| => lamb * e1[i] + (1.0 - lamb) * e2[i])
  }

  /** Weight 1 gives the first embedding and weight 0 the second. */
  lemma LinearEndpoints(e1: Embedding, e2: Embedding)
    requires |e1| == |e2|
    ensures LinearInterpolation(e1, e2, 1.0) == e1
    ensures LinearInterpolation(e1, e2, 0.0) == e2
  {
  }

  /** Interpolating an embedding with itself gives it back, whatever the weight. */
  lemma LinearSelf(e: Embedding, lamb: real)
    ensures LinearInterpolation(e, e, lamb) == e
  {
  }

  /** Exchanging the endpoints is the same as flipping the weight. */
  lemma LinearSwap(e1: Embedding, e2: Embedding, lamb: real)
    requires |e1| == |e2|
    ensures LinearInterpolation(e1, e2, lamb) == LinearInterpolation(e2, e1, 1.0 - lamb)
  {
  }

  /** For a weight in [0, 1] every component lies between the two endpoint components. */
  lemma LinearBetween(e1: Embedding, e2: Embedding, lamb: real, i: nat)
    requires |e1| == |e2| && 0.0 <= lamb <= 1.0 && i < |e1|
    ensures var r := LinearInterpolation(e1, e2, lamb)[i];
      (e1[i] <= r <= e2[i]) || (e2[i] <= r <= e1[i])
  {
    var r := LinearInterpolation(e1, e2, lamb)[i];
    var d := e1[i] - e2[i];
    assert r - e2[i] == lamb * d;
    assert d - lamb * d == (1.0 - lamb) * d;
    ScaledBetween(lamb, d);
    ScaledBetween(1.0 - lamb, d);
  }

  /** A weight in [0, 1] scales a difference towards zero without changing its sign. */
  lemma ScaledBetween(w: real, d: real)
    requires 0.0 <= w <= 1.0
    ensures d >= 0.0 ==> 0.0 <= w * d
    ensures d <= 0.0 ==> w * d <= 0.0
  {
  }

  /** `decode_interpolations`: each embedding is decoded as a batch of one and the
      single row's text is kept; one sequence per embedding, in input order. */
  method DecodeInterpolations(head: Embedding -> seq<Token>, interpolations: seq<Embedding>)
    returns (decoded: seq<string>)
    ensures |decoded| == |interpolations|
    ensures forall i :: 0 <= i < |interpolations| ==> Decode(head, [interpolations[i]]) == Some(decoded[i])
    ensures forall i :: 0 <= i < |interpolations| ==> decoded[i] == Detokenize(head(interpolations[i]))
  {
    decoded := [];
    for i := 0 to |interpolations|
      invariant |decoded| == i
      invariant forall j :: 0 <= j < i ==> decoded[j] == Detokenize(head(interpolations[j]))
    {
      var batch := [interpolations[i]];
      var rows := BatchDecode(head, batch);
      decoded := decoded + [rows[0]];
    }
  }
}
