/** The order of phases in experiment.py, from stimulus pairing through the
    survey (lines 37-172): trials, then the comprehension gate, then the
    survey. An escape in any phase ends the session, and nothing it collected
    reaches the result. */
module Session {
  import opened Shuffle
  import opened Keys
  import opened Stimuli
  import opened Trials
  import opened Gate
  import opened Survey

  /** What a session hands to the demographic form and the CSV writers, or
      why it did not get there. `Stalled` means the comprehension prompt was
      still waiting when the given key presses ran out. */
  datatype SessionResult =
    | Completed(trials: seq<TrialRecord>, responses: map<string, nat>)
    | Aborted
    | Stalled

  /** `trialKeys`, `gateKeys` and `surveyKeys` are the key presses of the
      three phases; `maskOrder`, `pairOrder` and `questionOrder` the three
      shuffles. */
  method RunSession(
    subject: string, signals: seq<Image>, noises: seq<Image>, maskOrder: seq<nat>, pairOrder: seq<nat>,
    trialKeys: seq<KeyPress>, gateKeys: seq<KeyPress>,
    questions: seq<Question>, questionOrder: seq<nat>, surveyKeys: seq<KeyPress>)
    returns (r: SessionResult)
    requires IsPermutation(maskOrder, 2 * (|noises| / 2))
    requires IsPermutation(pairOrder, PairCount(|signals|, |noises|))
    requires |trialKeys| == PairCount(|signals|, |noises|)
    requires IsPermutation(questionOrder, |questions|)
    requires |surveyKeys| == |questions|
    ensures Key(ESCAPE) in trialKeys ==> r.Aborted?
    ensures r.Completed? <==>
      Key(ESCAPE) !in trialKeys && ContinueExperiment(gateKeys).Passed? && Key(ESCAPE) !in surveyKeys
    ensures r.Stalled? <==> Key(ESCAPE) !in trialKeys && ContinueExperiment(gateKeys).Waiting?
    ensures r.Completed? ==> |r.trials| == PairCount(|signals|, |noises|)
    ensures r.Completed? ==> forall i :: 0 <= i < |r.trials| ==> r.trials[i].trialId == i
    ensures r.Completed? ==> forall i :: 0 <= i < |r.trials| ==>
      && Classify(trialKeys[i]) == Done(r.trials[i].response)
      && r.trials[i] == MakeRecord(subject, i, PairStimuli(signals, noises, maskOrder, pairOrder)[i], r.trials[i].response)
    ensures r.Completed? ==>
      multiset(Labels(r.trials))[Signal] <= |noises| / 2 && multiset(Labels(r.trials))[Noise] <= |noises| / 2
    ensures r.Completed? && |signals| >= 2 * (|noises| / 2) ==>
      multiset(Labels(r.trials))[Signal] == |noises| / 2 == multiset(Labels(r.trials))[Noise]
    ensures r.Completed? ==> r.responses.Keys == CategorySet(questions)
    ensures r.Completed? ==> forall c :: c in r.responses ==>
      r.responses[c] == YesCount(Answers(Permute(questions, questionOrder), surveyKeys), c)
  {
    var pairs := PairStimuli(signals, noises, maskOrder, pairOrder);
    var trials := RunTrials(subject, pairs, trialKeys);
    if trials.Quit? {
      return Aborted;
    }
    CompletedTrialsAreBalanced(subject, signals, noises, maskOrder, pairOrder, trials.value);
    var gate := ContinueExperiment(gateKeys);
    if gate.QuitAt? {
      return Aborted;
    } else if gate.Waiting? {
      return Stalled;
    }
    var responses := RunSurvey(questions, questionOrder, surveyKeys);
    if responses.Quit? {
      return Aborted;
    }
    r := Completed(trials.value, responses.value);
  }
}
