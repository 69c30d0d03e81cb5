# Perception-and-action experiment: decision logic

`experiment.py` runs one session of a psychology experiment. A participant
sees a series of images and judges each one: manipulated (the "signal"
image) or original (the "noise" image). Then they pass a comprehension
prompt, answer a yes/no survey whose questions belong to categories, and
fill in a demographic form. Two CSV files receive the results.

This project models the decisions the script makes between the display
and file plumbing:

- **Stimulus pairing** (`Stimuli`, lines 37-47). The 0/1 mask `[0, 1] * (len(noise) // 2)`
  is shuffled and zipped with the signal and noise image lists; the zip stops
  at the shortest list. The pairs are then shuffled. Both shuffles are
  permutations of indices supplied by the caller (`Shuffle`).
- **Trial loop** (`Trials`, lines 53-103). Each wait for a key gives one of
  four responses: "timeout", "noise" (`f`), "signal" (`j`) or "error". Escape
  ends the session. Each trial appends one record whose `stimuli_type` and
  `stimuli` follow the pair's mask bit.
- **Comprehension gate** (`Gate`, lines 107-130). `f` is remapped to `n` and
  `j` to `y`. A key that remaps to `n` shows the prompt again. Escape or an
  empty wait ends the session. Any other key lets the session go on.
- **Survey tally** (`Survey`, lines 135-172). Every distinct category gets a
  counter set to 0. The questions are shown in shuffled order, and each
  "yes" (`y` or `j`) adds one to its question's category. An empty wait is
  skipped and escape ends the session.
- **Session** (`Session`). The three phases run in order. `core.quit()` is
  the result constructor `Quit` / `Aborted`, so an abort visibly discards
  everything collected.

Key presses are inputs: `KeyPress` is either `NoKey` (the wait reported
`None`) or `Key(name)`, the first key of the list that `event.waitKeys`
returns. Each phase takes the sequence of presses it receives.

Two behaviours of the code are worth stating outright:

- The comprehension prompt repeats only for a key that remaps to `n`. Any
  other key except escape passes the gate. `waitKeys` is given the key list
  `y, n, f, j, escape`, so among the keys it actually reports the gate passes
  only on `y` or `j`. `Gate.ContinueExperiment` states both facts.
- The mask is sized by the noise images alone, not by the number of pairs.
  An odd noise count therefore drops one pair, and fewer signal images than
  mask slots can leave the shown bits unbalanced (four noise images, two
  signal images and the shuffled mask `[0, 1, 1, 0]` still show one of each).
  `Stimuli.PairingIsBalanced` proves that the shown bits are the whole mask
  exactly when `len(signal) >= 2 * (len(noise) // 2)`.

## Model

| member | source | states |
|---|---|---|
| `Shuffle.PermutePreservesMultiset` | experiment.py:42-47 | a shuffle keeps every element with its multiplicity |
| `Stimuli.Mask` | experiment.py:41 | the mask has length `2*(n//2)`, at most `n`, holds only 0 and 1, with exactly `n//2` ones and `n//2` zeros |
| `Stimuli.Zip` | experiment.py:44 | `zip` yields as many triples as the shortest list, the `i`-th triple taking the `i`-th element of each list |
| `Stimuli.PairStimuli` | experiment.py:37-47 | the pair list has `min(len(signal), len(noise), 2*(len(noise)//2))` entries, is a permutation of the zip of the images with the shuffled mask, and every bit is 0 or 1 |
| `Stimuli.PairingIsBalanced` | experiment.py:40-47 | the bits of the pairs are a sub-multiset of the balanced mask, and equal to it exactly when the signal images fill the mask |
| `Keys.RemapMeaning` | experiment.py:124-126 | the remap yields `y` exactly for `y`/`j` and `n` exactly for `n`/`f`, leaves every other key unchanged, never yields `f` or `j`, and remapping twice equals remapping once |
| `Keys.YesKeys` | experiment.py:165-169 | a press counts as "yes" exactly when it is `y` or `j`; an empty wait never does |
| `Trials.Classify` | experiment.py:73-90 | escape aborts; no key gives "timeout", `f` "noise", `j` "signal", each in both directions; any other key gives "error", which the offered key list rules out; the column string of a pressed key's response is "noise", "signal" or "error" accordingly |
| `Trials.ColumnNamesDistinct` | experiment.py:83-98 | the `response` column strings are "signal", "noise", "timeout" or "error", and different responses are written differently |
| `Trials.MakeRecord` | experiment.py:62-100 | the record carries the subject, index and response; its type is "signal" exactly when the bit is non-zero, and its image is the pair's image of that type |
| `Trials.RunTrials` | experiment.py:53-103 | aborts exactly when some trial's key is escape; otherwise one record per pair, in pair order, with `trial_id` equal to its index and the response its key's classification |
| `Trials.LabelsFollowBits` | experiment.py:62-96 | records typed by 0/1 bits have as many "signal" rows as ones and "noise" rows as zeros |
| `Trials.CompletedTrialsAreBalanced` | experiment.py:41-100 | a completed trial loop has at most `len(noise)//2` records of each type, exactly that many of both when the signal images fill the mask |
| `Gate.ContinueExperiment` | experiment.py:107-130 | the gate passes at the first press that neither aborts nor remaps to `n`, which among offered keys is a yes; it aborts at the first escape or empty wait; every earlier press remapped to `n`; it waits while all presses remapped to `n` |
| `Gate.GateIgnoresLaterKeys` | experiment.py:119-130 | presses after the deciding one do not change the gate's outcome |
| `Survey.Unique` | experiment.py:141 | the categories are listed once each, exactly those of the table |
| `Survey.InitialResponses` | experiment.py:138-145 | the dictionary has exactly the listed categories as keys, each set to 0 |
| `Survey.YesCount` | experiment.py:169-170 | a category's count never exceeds the number of answers |
| `Survey.AskQuestions` | experiment.py:151-172 | stops exactly at an escape; otherwise every counter of the dictionary grows by the number of `y`/`j` answers to its category's questions, and no key is added |
| `Survey.RunSurvey` | experiment.py:147-172 | aborts exactly when some answer is escape; otherwise the keys are exactly the table's categories and each count is the number of `y`/`j` answers to that category's questions as shown |
| `Survey.YesCountMultiset` | experiment.py:151-170 | two answer lists with the same multiset give the same count |
| `Survey.TallyIgnoresOrder` | experiment.py:148-170 | shuffling the answered questions does not change any count |
| `Survey.SurveyTotal` | experiment.py:141-170 | the counters of a completed survey add up to the number of "yes" answers, so at most the number of questions |
| `Session.RunSession` | experiment.py:37-172 | an escape in the trials aborts the session; it completes exactly when no trial or survey key is escape and the gate passes; a completed session has one record per pair, in pair order, numbered from 0, with the pair's type and image and its key's response; at most `len(noise)//2` records of each type, exactly that many of both when the signal images fill the mask; and the survey's counts |

## Left out

- Display and timing: the window, text and image drawing, `win.flip`,
  `core.wait` and the fixation cross. They produce no data.
- The `reaction_time` column and `core.Clock`. It is a float measured from
  the clock, so `TrialRecord` has no such field.
- Finding the images with `Path.rglob`. The image lists are inputs, in the
  order the search returned them.
- How `random.shuffle` and `DataFrame.sample` draw their order. Each shuffle
  is any permutation the caller supplies; nothing is said about its
  distribution.
- `categories.sort()` (line 142). It fixes only the insertion order of the
  dictionary, and so the order of the participant file's columns. The model's
  `map` has no order.
- The instruction screen's wait for any key (line 28). It has no outcome.
- The demographic form `gui.Dlg`, its `int`/`float` parsing, and the failure
  when it is cancelled. These are a foreign UI and float conversions.
- Reading `questions.csv` and appending the two result files with
  `to_csv`, including the header-only-if-new policy. This is file I/O through
  pandas; a `Completed` session is what would be written.
- `uuid.uuid4()`. The subject id is a string parameter.
- The `print` calls and the process exit of `core.quit()`. Abort is modelled
  only as a result value.
- Waiting forever at the comprehension prompt. For a finite sequence of key
  presses that are all `n` or `f`, the model adds the outcome `Stalled`
  ("still waiting").
- Gate.ContinueExperiment: does not model Python's recursion limit. Each
  `n`/`f` answer makes `continue_experiment` call itself (line 129) without
  returning first, so after roughly a thousand consecutive such answers the
  script stops with an uncaught `RecursionError` and saves nothing. The model
  passes the gate after any number of them.
