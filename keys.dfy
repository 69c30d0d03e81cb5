/** Key presses as `event.waitKeys` reports them, the yes/no remapping that
    the comprehension gate and the survey share, and the abort outcome. */
module Keys {

  /** What one call of `event.waitKeys` returns: nothing (its `maxWait` ran
      out), or the name of the first key pressed. */
  datatype KeyPress = NoKey | Key(name: string)

  /** `core.quit()`: the participant pressed escape and the session ends
      with nothing saved. `Done` carries what the phase produced. */
  datatype Outcome<+T> = Done(value: T) | Quit

  const ESCAPE := "escape"

  /** Keys the trial loop waits for (experiment.py line 73). */
  const TRIAL_KEYS: seq<string> := ["f", "j", ESCAPE]

  /** Keys the comprehension gate and the survey wait for (lines 119, 156). */
  const ANSWER_KEYS: seq<string> := ["y", "n", "f", "j", ESCAPE]

  /** `waitKeys(keyList = ...)` reports only keys of its list. */
  predicate Offered(k: KeyPress, keyList: seq<string>) {
    k.Key? ==> k.name in keyList
  }

  /** `map_keys = {"f": "n", "j": "y"}` (lines 124, 165). */
  const KEY_MAP: map<string, string> := map["f" := "n", "j" := "y"]

  /** Lines 125-126 and 166-167: a key found in `KEY_MAP` is replaced by its
      image, every other key is kept. */
  function Remap(name: string): string {
    if name in KEY_MAP then KEY_MAP[name] else name
  }

  /** The remap yields "y" exactly for `y` and `j`, "n" exactly for `n` and
      `f`, keeps every other key, and never yields `f` or `j`; so applying it
      twice is applying it once. */
  lemma RemapMeaning(name: string)
    ensures Remap(name) == "y" <==> name == "y" || name == "j"
    ensures Remap(name) == "n" <==> name == "n" || name == "f"
    ensures name != "f" && name != "j" ==> Remap(name) == name
    ensures Remap(name) != "f" && Remap(name) != "j"
    ensures Remap(Remap(name)) == Remap(name)
  {
  }

  /** A key press that the survey counts as "yes" (line 169, after the remap). */
  predicate IsYes(k: KeyPress) {
    k.Key? && Remap(k.name) == "y"
  }

  /** The presses counted as "yes" are exactly `y` and `j`; an empty wait is not one. */
  lemma YesKeys(k: KeyPress)
    ensures IsYes(k) <==> k == Key("y") || k == Key("j")
  {
  }
}
