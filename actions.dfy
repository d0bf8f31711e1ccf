/**
 * Action decoding in `eval_net` (neat_gym/__init__.py): a discrete action
 * space takes the index of the largest network output (numpy `argmax`, the
 * first such index), a continuous one scales each output by the action
 * space's upper bound `high`.
 */
module Actions {

  /** An action handed to `env.step`. */
  datatype Action = Discrete(index: nat) | Continuous(values: seq<real>)

  /** numpy `argmax`: the first index of a maximal entry. */
  function Argmax(xs: seq<real>): (i: nat)
    requires |xs| >= 1
    ensures i < |xs|
    ensures forall j :: 0 <= j < |xs| ==> xs[j] <= xs[i]
    ensures forall j :: 0 <= j < i ==> xs[j] < xs[i]
  {
    if |xs| == 1 then 0
    else
      var k := Argmax(xs[..|xs| - 1]);
      if xs[|xs| - 1] > xs[k] then |xs| - 1 else k
  }

  /** `output * high`, element by element. */
  function Scale(output: seq<real>, high: seq<real>): (a: seq<real>)
    requires |output| == |high|
    ensures |a| == |output|
  {
    seq(|output|, i requires 0 <= i < |output| => output[i] * high[i])
  }

  /** Whether an output vector can be decoded: numpy raises on an empty argmax or on mismatched shapes. */
  predicate Decodable(output: seq<real>, isDiscrete: bool, high: seq<real>)
  {
    if isDiscrete then |output| >= 1 else |output| == |high|
  }

  /**
   * The action `eval_net` derives from the last network output: for a
   * discrete space the first position of a largest output, for a continuous
   * one each output times its bound.
   */
  function Decode(output: seq<real>, isDiscrete: bool, high: seq<real>): (a: Action)
    requires Decodable(output, isDiscrete, high)
    ensures a.Discrete? == isDiscrete
    ensures a.Discrete? ==>
      a.index < |output| &&
      (forall j :: 0 <= j < |output| ==> output[j] <= output[a.index]) &&
      (forall j :: 0 <= j < a.index ==> output[j] < output[a.index])
    ensures a.Continuous? ==>
      |a.values| == |output| &&
      forall j :: 0 <= j < |output| ==> a.values[j] == output[j] * high[j]
  {
    if isDiscrete then Discrete(Argmax(output)) else Continuous(Scale(output, high))
  }

  /** One output in [-1, 1] times a non-negative bound lies in [-bound, bound]. */
  lemma ProductBound(o: real, h: real)
    requires -1.0 <= o <= 1.0 && 0.0 <= h
    ensures -h <= o * h <= h
  {
    if o >= 0.0 {
      assert o * h <= 1.0 * h;
    } else {
      assert (-o) * h <= 1.0 * h;
    }
  }

  /**
   * With outputs in [-1, 1] and non-negative bounds, a continuous action
   * stays within [-high, high]: scaling by `high` alone assumes the space
   * is symmetric about zero.
   */
  lemma ScaledWithinBounds(output: seq<real>, high: seq<real>)
    requires |output| == |high|
    requires forall j :: 0 <= j < |output| ==> -1.0 <= output[j] <= 1.0
    requires forall j :: 0 <= j < |high| ==> 0.0 <= high[j]
    ensures forall j :: 0 <= j < |output| ==> -high[j] <= Scale(output, high)[j] <= high[j]
  {
    forall j | 0 <= j < |output|
      ensures -high[j] <= Scale(output, high)[j] <= high[j]
    {
      ProductBound(output[j], high[j]);
    }
  }

  /** The two decoding examples: argmax of [0.1, 0.9, 0.2] and [0.5, -0.5] scaled by [2, 2]. */
  lemma DecodeExamples()
    ensures Decode([0.1, 0.9, 0.2], true, []) == Discrete(1)
    ensures Decode([0.5, -0.5], false, [2.0, 2.0]) == Continuous([1.0, -1.0])
  {
  }
}
