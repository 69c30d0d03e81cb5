/** Stimulus pairing (experiment.py lines 37-47): a balanced 0/1 mask is
    shuffled, zipped with the signal and noise image lists, and the resulting
    triples are shuffled again. Each triple's bit says which of its two images
    the trial shows. */
module Stimuli {
  import opened Shuffle

  /** A stimulus file, by its path. */
  type Image = string

  /** One element of `image_pairs`: `(signal_image, noise_image, mask)`. */
  datatype Pair = Pair(signal: Image, noise: Image, bit: int)

  function Min(a: nat, b: nat): nat {
    if a <= b then a else b
  }

  /** `[0, 1] * k`: the two-element list repeated `k` times. */
  function Repeat01(k: nat): (m: seq<int>)
    ensures |m| == 2 * k
    ensures forall i :: 0 <= i < |m| ==> m[i] == i % 2
    ensures multiset(m)[0] == k && multiset(m)[1] == k
  {
    if k == 0 then [] else [0, 1] + Repeat01(k - 1)
  }

  /** Line 41: the mask, before shuffling, for `noiseCount` noise images.
      It is exactly balanced, and an odd noise count loses one slot. */
  function Mask(noiseCount: nat): (m: seq<int>)
    ensures |m| == 2 * (noiseCount / 2) && |m| <= noiseCount
    ensures multiset(m)[0] == noiseCount / 2 && multiset(m)[1] == noiseCount / 2
    ensures forall i :: 0 <= i < |m| ==> m[i] == 0 || m[i] == 1
  {
    Repeat01(noiseCount / 2)
  }

  /** Line 44: Python's `zip` of three lists stops at the shortest one. */
  function Zip(signals: seq<Image>, noises: seq<Image>, bits: seq<int>): (z: seq<Pair>)
    ensures |z| == Min(|signals|, Min(|noises|, |bits|))
    ensures forall i :: 0 <= i < |z| ==> z[i] == Pair(signals[i], noises[i], bits[i])
  {
    if signals == [] || noises == [] || bits == [] then []
    else [Pair(signals[0], noises[0], bits[0])] + Zip(signals[1..], noises[1..], bits[1..])
  }

  /** How many pairs the zip of line 44 yields. */
  function PairCount(signalCount: nat, noiseCount: nat): nat {
    Min(signalCount, Min(noiseCount, 2 * (noiseCount / 2)))
  }

  /** Lines 37-47. `maskOrder` is the shuffle of line 42, `pairOrder` the
      shuffle of line 47. */
  function PairStimuli(signals: seq<Image>, noises: seq<Image>, maskOrder: seq<nat>, pairOrder: seq<nat>): (pairs: seq<Pair>)
    requires IsPermutation(maskOrder, 2 * (|noises| / 2))
    requires IsPermutation(pairOrder, PairCount(|signals|, |noises|))
    ensures |pairs| == PairCount(|signals|, |noises|)
    ensures |pairs| <= |signals| && |pairs| <= |noises| && |pairs| <= 2 * (|noises| / 2)
    ensures multiset(pairs) == multiset(Zip(signals, noises, Permute(Mask(|noises|), maskOrder)))
    ensures forall i :: 0 <= i < |pairs| ==> pairs[i].bit == 0 || pairs[i].bit == 1
  {
    var mask := Permute(Mask(|noises|), maskOrder);
    var zipped := Zip(signals, noises, mask);
    PermutePreservesMultiset(zipped, pairOrder);
    Permute(zipped, pairOrder)
  }

  /** The mask bits of `pairs`, in order. */
  function Bits(pairs: seq<Pair>): seq<int> {
    seq(|pairs|, i requires 0 <= i < |pairs| => pairs[i].bit)
  }

  lemma BitsOfPermute(pairs: seq<Pair>, p: seq<nat>)
    requires IsPermutation(p, |pairs|)
    ensures Bits(Permute(pairs, p)) == Permute(Bits(pairs), p)
  {
  }

  lemma BitsOfZip(signals: seq<Image>, noises: seq<Image>, bits: seq<int>)
    ensures Bits(Zip(signals, noises, bits)) == bits[..|Zip(signals, noises, bits)|]
  {
  }

  lemma PrefixMultiset(s: seq<int>, k: nat)
    requires k <= |s|
    ensures multiset(s[..k]) <= multiset(s)
  {
    assert s == s[..k] + s[k..];
  }

  /** The bits the trials use are a sub-multiset of the balanced mask, and all
      of it exactly when there are enough signal images to fill the mask; then
      exactly half of the pairs show their signal image and half their noise
      image. */
  lemma {:induction false} PairingIsBalanced(signals: seq<Image>, noises: seq<Image>, maskOrder: seq<nat>, pairOrder: seq<nat>)
    requires IsPermutation(maskOrder, 2 * (|noises| / 2))
    requires IsPermutation(pairOrder, PairCount(|signals|, |noises|))
    ensures multiset(Bits(PairStimuli(signals, noises, maskOrder, pairOrder))) <= multiset(Mask(|noises|))
    ensures multiset(Bits(PairStimuli(signals, noises, maskOrder, pairOrder))) == multiset(Mask(|noises|))
      <==> |signals| >= 2 * (|noises| / 2)
  {
    var mask := Permute(Mask(|noises|), maskOrder);
    var zipped := Zip(signals, noises, mask);
    var used := |zipped|;
    BitsOfPermute(zipped, pairOrder);
    PermutePreservesMultiset(Bits(zipped), pairOrder);
    BitsOfZip(signals, noises, mask);
    PrefixMultiset(mask, used);
    PermutePreservesMultiset(Mask(|noises|), maskOrder);
    if |signals| >= 2 * (|noises| / 2) {
      assert mask[..used] == mask;
    } else {
      var bits := Bits(PairStimuli(signals, noises, maskOrder, pairOrder));
      assert |multiset(bits)| == |bits| < |Mask(|noises|)| == |multiset(Mask(|noises|))|;
    }
  }
}
