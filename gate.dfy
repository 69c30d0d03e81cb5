/** The comprehension gate `continue_experiment` (experiment.py lines
    107-130): the prompt is shown again after every "no" until some other
    answer arrives; escape or an empty wait ends the session. */
module Gate {
  import opened Keys

  /** How the gate ended. `used` counts the key presses it consumed,
      the deciding one included. `Waiting` means the given presses ran out
      while the prompt was still shown. */
  datatype GateResult = Passed(used: nat) | QuitAt(used: nat) | Waiting

  /** Lines 120-122: the wait reported nothing, or escape. */
  predicate EndsSession(k: KeyPress) {
    k == NoKey || k == Key(ESCAPE)
  }

  /** Lines 124-129: a key that remaps to "n" shows the prompt again. */
  predicate AsksAgain(k: KeyPress) {
    k.Key? && k.name != ESCAPE && Remap(k.name) == "n"
  }

  /** Lines 107-130, the self-call of line 129 unrolled over the successive
      key presses `keys`. The gate passes at the first press that neither
      ends the session nor asks again; with the keys `waitKeys` offers there,
      that press is one that remaps to "y". */
  function ContinueExperiment(keys: seq<KeyPress>): (g: GateResult)
    ensures g.Passed? ==> 1 <= g.used <= |keys|
    ensures g.Passed? ==> !EndsSession(keys[g.used - 1]) && !AsksAgain(keys[g.used - 1])
    ensures g.Passed? && Offered(keys[g.used - 1], ANSWER_KEYS) ==> IsYes(keys[g.used - 1])
    ensures g.QuitAt? ==> 1 <= g.used <= |keys| && EndsSession(keys[g.used - 1])
    ensures !g.Waiting? ==> forall i :: 0 <= i < g.used - 1 ==> AsksAgain(keys[i])
    ensures g.Waiting? ==> forall i :: 0 <= i < |keys| ==> AsksAgain(keys[i])
  {
    if keys == [] then Waiting
    else if EndsSession(keys[0]) then QuitAt(1)
    else if AsksAgain(keys[0]) then
      match ContinueExperiment(keys[1..])
      case Passed(u) => Passed(u + 1)
      case QuitAt(u) => QuitAt(u + 1)
      case Waiting => Waiting
    else Passed(1)
  }

  /** Presses after the deciding one are never read. */
  lemma {:induction false} GateIgnoresLaterKeys(keys: seq<KeyPress>, more: seq<KeyPress>)
    requires !ContinueExperiment(keys).Waiting?
    ensures ContinueExperiment(keys + more) == ContinueExperiment(keys)
  {
    ConcatHeadTail(keys, more);
    if AsksAgain(keys[0]) {
      GateIgnoresLaterKeys(keys[1..], more);
    }
  }

  lemma ConcatHeadTail<T>(a: seq<T>, b: seq<T>)
    requires a != []
    ensures (a + b)[0] == a[0] && (a + b)[1..] == a[1..] + b
  {
  }
}
