/** The image-discrimination trial loop (experiment.py lines 53-103): one
    trial per stimulus pair, each answered by one key press or a timeout, each
    appended to `image_trials` as a record. */
module Trials {
  import opened Shuffle
  import opened Keys
  import opened Stimuli

  /** The two stimulus categories, written "signal" and "noise" in the trial table. */
  datatype Label = Signal | Noise {
    function Name(): string {
      match this
      case Signal => "signal"
      case Noise => "noise"
    }
  }

  /** The `response` column: a judgement, "timeout" or "error". */
  datatype Response = Judged(verdict: Label) | Timeout | Error {
    function Name(): string {
      match this
      case Judged(l) => l.Name()
      case Timeout => "timeout"
      case Error => "error"
    }
  }

  /** The strings written to the `stimuli_type` and `response` columns tell
      the values apart, so each row's column can be read back unambiguously. */
  lemma ColumnNamesDistinct(a: Response, b: Response)
    ensures a.Name() == b.Name() <==> a == b
    ensures a.Name() in ["signal", "noise", "timeout", "error"]
  {
  }

  /** One row of `image_trials`. The `reaction_time` column is not modelled. */
  datatype TrialRecord = TrialRecord(subjectId: string, trialId: nat, stimuliType: Label, stimuli: Image, response: Response)

  /** Lines 78-90: escape ends the session; any other outcome of the wait
      becomes the trial's response. */
  function Classify(k: KeyPress): (r: Outcome<Response>)
    ensures r == Quit <==> k == Key(ESCAPE)
    ensures r == Done(Timeout) <==> k == NoKey
    ensures r == Done(Judged(Noise)) <==> k == Key("f")
    ensures r == Done(Judged(Signal)) <==> k == Key("j")
    ensures r == Done(Error) <==> k.Key? && k.name != "f" && k.name != "j" && k.name != ESCAPE
    ensures Offered(k, TRIAL_KEYS) ==> r != Done(Error)
    ensures r.Done? && k.Key? ==> r.value.Name() == (if k.name == "f" then "noise" else if k.name == "j" then "signal" else "error")
  {
    if k.Key? && k.name == ESCAPE then Quit
    else if k.NoKey? then Done(Timeout)
    else if k.name == "f" then Done(Judged(Noise))
    else if k.name == "j" then Done(Judged(Signal))
    else Done(Error)
  }

  /** Line 62: `bool(mask)`. */
  function LabelOf(bit: int): Label {
    if bit != 0 then Signal else Noise
  }

  /** Lines 62-67 and 93-100: the record of trial `id`, shown `pair`. */
  function MakeRecord(subject: string, id: nat, pair: Pair, response: Response): (rec: TrialRecord)
    ensures rec.subjectId == subject && rec.trialId == id && rec.response == response
    ensures rec.stimuliType == Signal <==> pair.bit != 0
    ensures rec.stimuliType == Signal ==> rec.stimuli == pair.signal
    ensures rec.stimuliType == Noise ==> rec.stimuli == pair.noise
  {
    var signal := pair.bit != 0;
    TrialRecord(subject, id, LabelOf(pair.bit), if signal then pair.signal else pair.noise, response)
  }

  /** Lines 53-103. `keys[i]` is what the wait of trial `i` reported. An
      escape anywhere ends the session and every record made so far is lost;
      otherwise there is one record per pair, in pair order, numbered from 0. */
  method RunTrials(subject: string, pairs: seq<Pair>, keys: seq<KeyPress>) returns (r: Outcome<seq<TrialRecord>>)
    requires |keys| == |pairs|
    ensures r.Quit? <==> Key(ESCAPE) in keys
    ensures r.Done? ==> |r.value| == |pairs|
    ensures r.Done? ==> forall i :: 0 <= i < |pairs| ==>
      && Classify(keys[i]) == Done(r.value[i].response)
      && r.value[i] == MakeRecord(subject, i, pairs[i], r.value[i].response)
  {
    var trials: seq<TrialRecord> := [];
    var i := 0;
    while i < |pairs|
      invariant 0 <= i <= |pairs|
      invariant Key(ESCAPE) !in keys[..i]
      invariant |trials| == i
      invariant forall j :: 0 <= j < i ==>
        && Classify(keys[j]) == Done(trials[j].response)
        && trials[j] == MakeRecord(subject, j, pairs[j], trials[j].response)
    {
      var outcome := Classify(keys[i]);
      if outcome.Quit? {
        return Quit;
      }
      trials := trials + [MakeRecord(subject, i, pairs[i], outcome.value)];
      assert keys[..i + 1] == keys[..i] + [keys[i]];
      i := i + 1;
    }
    assert keys[..i] == keys;
    r := Done(trials);
  }

  /** The `stimuli_type` column. */
  function Labels(trials: seq<TrialRecord>): seq<Label> {
    seq(|trials|, i requires 0 <= i < |trials| => trials[i].stimuliType)
  }

  /** Records whose types follow 0/1 bits have as many "signal" rows as ones
      and as many "noise" rows as zeros. */
  lemma {:induction false} LabelsFollowBits(trials: seq<TrialRecord>, bits: seq<int>)
    requires |trials| == |bits|
    requires forall i :: 0 <= i < |bits| ==> bits[i] == 0 || bits[i] == 1
    requires forall i :: 0 <= i < |bits| ==> trials[i].stimuliType == LabelOf(bits[i])
    ensures multiset(Labels(trials))[Signal] == multiset(bits)[1]
    ensures multiset(Labels(trials))[Noise] == multiset(bits)[0]
  {
    if |bits| > 0 {
      var n := |bits| - 1;
      LabelsFollowBits(trials[..n], bits[..n]);
      var labels := Labels(trials);
      assert labels[..n] == Labels(trials[..n]);
      CountLast(labels, Signal);
      CountLast(labels, Noise);
      CountLast(bits, 1);
      CountLast(bits, 0);
    }
  }

  /** Counting in a non-empty list is counting in all but its last element, plus the last. */
  lemma CountLast<T>(s: seq<T>, v: T)
    requires |s| > 0
    ensures multiset(s)[v] == multiset(s[..|s| - 1])[v] + (if s[|s| - 1] == v then 1 else 0)
  {
    assert s == s[..|s| - 1] + [s[|s| - 1]];
  }

  /** A completed trial loop over the pairs of lines 37-47 shows at most half
      of the noise images' count of each category, and exactly that many when
      the signal images suffice to fill the mask. */
  lemma CompletedTrialsAreBalanced(
    subject: string, signals: seq<Image>, noises: seq<Image>, maskOrder: seq<nat>, pairOrder: seq<nat>,
    trials: seq<TrialRecord>)
    requires IsPermutation(maskOrder, 2 * (|noises| / 2))
    requires IsPermutation(pairOrder, PairCount(|signals|, |noises|))
    requires |trials| == PairCount(|signals|, |noises|)
    requires forall i :: 0 <= i < |trials| ==>
      trials[i] == MakeRecord(subject, i, PairStimuli(signals, noises, maskOrder, pairOrder)[i], trials[i].response)
    ensures multiset(Labels(trials))[Signal] <= |noises| / 2
    ensures multiset(Labels(trials))[Noise] <= |noises| / 2
    ensures |signals| >= 2 * (|noises| / 2) ==>
      multiset(Labels(trials))[Signal] == |noises| / 2 == multiset(Labels(trials))[Noise]
  {
    var pairs := PairStimuli(signals, noises, maskOrder, pairOrder);
    var bits := Bits(pairs);
    LabelsFollowBits(trials, bits);
    PairingIsBalanced(signals, noises, maskOrder, pairOrder);
  }
}
