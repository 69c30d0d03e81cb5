/** The categorical survey (experiment.py lines 135-172): one counter per
    distinct category, set to 0, then one yes/no question after another in
    shuffled order, each "yes" adding one to its question's category. */
module Survey {
  import opened Shuffle
  import opened Keys

  /** One row of the question table: columns `question` and `category`. */
  datatype Question = Question(text: string, category: string)

  /** A question as shown, with the key press that answered it. */
  datatype Answer = Answer(question: Question, key: KeyPress)

  /** The `category` column. */
  function Categories(questions: seq<Question>): seq<string> {
    seq(|questions|, i requires 0 <= i < |questions| => questions[i].category)
  }

  function CategorySet(questions: seq<Question>): set<string> {
    set c | c in Categories(questions)
  }

  predicate Distinct(s: seq<string>) {
    forall i, j :: 0 <= i < j < |s| ==> s[i] != s[j]
  }

  /** Line 141, `unique()`: each value once, in order of first appearance. */
  function Unique(s: seq<string>): (u: seq<string>)
    ensures forall c :: c in u <==> c in s
    ensures Distinct(u)
  {
    if s == [] then []
    else
      var u := Unique(s[..|s| - 1]);
      assert forall c :: c in s <==> c in s[..|s| - 1] || c == s[|s| - 1];
      if s[|s| - 1] in u then u else u + [s[|s| - 1]]
  }

  /** Lines 138-145: every category listed gets a counter set to 0. */
  method InitialResponses(categories: seq<string>) returns (responses: map<string, nat>)
    ensures responses.Keys == set c | c in categories
    ensures forall c :: c in responses ==> responses[c] == 0
  {
    responses := map[];
    for i := 0 to |categories|
      invariant responses.Keys == set c | c in categories[..i]
      invariant forall c :: c in responses ==> responses[c] == 0
    {
      assert categories[..i + 1] == categories[..i] + [categories[i]];
      if categories[i] !in responses {
        responses := responses[categories[i] := 0];
      }
    }
    assert categories[..|categories|] == categories;
  }

  /** Pairs the questions as shown with the key press each one received. */
  function Answers(shown: seq<Question>, keys: seq<KeyPress>): seq<Answer>
    requires |keys| == |shown|
  {
    seq(|shown|, i requires 0 <= i < |shown| => Answer(shown[i], keys[i]))
  }

  /** The number of "yes" answers (`y` or `j`) to questions of category `c`. */
  function YesCount(answers: seq<Answer>, c: string): (n: nat)
    ensures n <= |answers|
  {
    if answers == [] then 0
    else
      var last := answers[|answers| - 1];
      YesCount(answers[..|answers| - 1], c) + (if last.question.category == c && IsYes(last.key) then 1 else 0)
  }

  /** Lines 147-172. `order` is the shuffle of line 148 and `keys[i]` the
      press that answered the `i`-th question shown. An escape anywhere ends
      the session with nothing kept; otherwise every category of the table
      ends with the number of "yes" answers its questions received, an empty
      wait counting as no answer, and no other key is added. */
  method RunSurvey(questions: seq<Question>, order: seq<nat>, keys: seq<KeyPress>) returns (r: Outcome<map<string, nat>>)
    requires IsPermutation(order, |questions|)
    requires |keys| == |questions|
    ensures r.Quit? <==> Key(ESCAPE) in keys
    ensures r.Done? ==> r.value.Keys == CategorySet(questions)
    ensures r.Done? ==> forall c :: c in r.value ==>
      r.value[c] == YesCount(Answers(Permute(questions, order), keys), c)
  {
    var responses := InitialResponses(Unique(Categories(questions)));
    var shown := Permute(questions, order);
    ShownCategories(questions, order);
    r := AskQuestions(responses, shown, keys);
  }

  /** Every question shown comes from the table, so its category has a counter. */
  lemma ShownCategories(questions: seq<Question>, order: seq<nat>)
    requires IsPermutation(order, |questions|)
    ensures forall q :: q in Permute(questions, order) ==> q.category in CategorySet(questions)
  {
    var shown := Permute(questions, order);
    forall q | q in shown
      ensures q.category in CategorySet(questions)
    {
      var i :| 0 <= i < |shown| && shown[i] == q;
      assert q.category == Categories(questions)[order[i]];
    }
  }

  /** Lines 151-172, the loop over the shuffled questions: each count grows by
      the "yes" answers to its category; escape drops them all. */
  method AskQuestions(responses: map<string, nat>, shown: seq<Question>, keys: seq<KeyPress>)
    returns (r: Outcome<map<string, nat>>)
    requires |keys| == |shown|
    requires forall q :: q in shown ==> q.category in responses
    ensures r.Quit? <==> Key(ESCAPE) in keys
    ensures r.Done? ==> r.value.Keys == responses.Keys
    ensures r.Done? ==> forall c :: c in r.value ==> r.value[c] == responses[c] + YesCount(Answers(shown, keys), c)
  {
    var counts := responses;
    ghost var answered: seq<Answer> := [];
    var i := 0;
    while i < |shown|
      invariant 0 <= i <= |shown|
      invariant Key(ESCAPE) !in keys[..i]
      invariant answered == Answers(shown[..i], keys[..i])
      invariant counts.Keys == responses.Keys
      invariant forall c :: c in counts ==> counts[c] == responses[c] + YesCount(answered, c)
    {
      var category := shown[i].category;
      var keyPress := keys[i];
      if keyPress == Key(ESCAPE) {
        return Quit;
      }
      assert category in counts by {
        assert shown[i] in shown;
      }
      ghost var before := counts;
      if keyPress.Key? && Remap(keyPress.name) == "y" {
        counts := counts[category := counts[category] + 1];
      }
      AnswerStep(responses, before, counts, answered, Answer(shown[i], keyPress));
      answered := answered + [Answer(shown[i], keyPress)];
      AnswersGrow(shown, keys, i);
      i := i + 1;
    }
    assert keys[..i] == keys && shown[..i] == shown;
    r := Done(counts);
  }

  /** One pass of the survey loop keeps the counters equal to the initial
      ones plus the "yes" answers so far. */
  lemma AnswerStep(
    responses: map<string, nat>, before: map<string, nat>, after: map<string, nat>,
    answered: seq<Answer>, x: Answer)
    requires before.Keys == responses.Keys && x.question.category in before
    requires forall c :: c in before ==> before[c] == responses[c] + YesCount(answered, c)
    requires after == if IsYes(x.key) then before[x.question.category := before[x.question.category] + 1] else before
    ensures after.Keys == responses.Keys
    ensures forall c :: c in after ==> after[c] == responses[c] + YesCount(answered + [x], c)
  {
    forall c | c in after
      ensures after[c] == responses[c] + YesCount(answered + [x], c)
    {
      assert (answered + [x])[..|answered|] == answered;
    }
  }

  lemma AnswersGrow(shown: seq<Question>, keys: seq<KeyPress>, i: nat)
    requires |keys| == |shown| && i < |shown|
    ensures Answers(shown[..i + 1], keys[..i + 1]) == Answers(shown[..i], keys[..i]) + [Answer(shown[i], keys[i])]
    ensures keys[..i + 1] == keys[..i] + [keys[i]]
  {
  }

  lemma {:induction false} YesCountAppend(a: seq<Answer>, b: seq<Answer>, c: string)
    ensures YesCount(a + b, c) == YesCount(a, c) + YesCount(b, c)
  {
    if b == [] {
      assert a + b == a;
    } else {
      var n := |b| - 1;
      YesCountAppend(a, b[..n], c);
      assert (a + b)[..|a + b| - 1] == a + b[..n];
      assert (a + b)[|a + b| - 1] == b[n];
    }
  }

  /** Taking the answer at position `k` out of `b` takes its share out of every count. */
  lemma YesCountWithout(b: seq<Answer>, k: nat, c: string)
    requires k < |b|
    ensures YesCount(b, c) == YesCount(b[..k] + b[k + 1..], c) + YesCount([b[k]], c)
  {
    assert b == b[..k] + [b[k]] + b[k + 1..];
    YesCountAppend(b[..k], [b[k]], c);
    YesCountAppend(b[..k] + [b[k]], b[k + 1..], c);
    YesCountAppend(b[..k], b[k + 1..], c);
  }

  /** Removing the last answer of `a` and an equal answer of `b` keeps the multisets equal. */
  lemma MultisetWithout(a: seq<Answer>, b: seq<Answer>, k: nat)
    requires |a| > 0 && k < |b| && b[k] == a[|a| - 1]
    requires multiset(a) == multiset(b)
    ensures multiset(a[..|a| - 1]) == multiset(b[..k] + b[k + 1..])
  {
    var n, x := |a| - 1, b[k];
    assert a == a[..n] + [x];
    assert b == b[..k] + [x] + b[k + 1..];
    var rest := b[..k] + b[k + 1..];
    assert multiset(rest) == multiset(b[..k]) + multiset(b[k + 1..]);
    forall y
      ensures multiset(a[..n])[y] == multiset(rest)[y]
    {
      assert multiset(a)[y] == multiset(b)[y];
    }
  }

  /** A count depends only on which answers were given, not on their order. */
  lemma {:induction false} YesCountMultiset(a: seq<Answer>, b: seq<Answer>, c: string)
    requires multiset(a) == multiset(b)
    ensures YesCount(a, c) == YesCount(b, c)
  {
    if a != [] {
      var n := |a| - 1;
      assert a[n] in multiset(b);
      var k :| 0 <= k < |b| && b[k] == a[n];
      MultisetWithout(a, b, k);
      YesCountMultiset(a[..n], b[..k] + b[k + 1..], c);
      YesCountWithout(b, k, c);
      YesCountWithout(a, n, c);
      assert a[..n] + a[n + 1..] == a[..n];
    }
  }

  /** The shuffle of line 148 does not change the tally: answering the same
      questions the same way in any order yields the same counts. */
  lemma TallyIgnoresOrder(answers: seq<Answer>, p: seq<nat>, c: string)
    requires IsPermutation(p, |answers|)
    ensures YesCount(Permute(answers, p), c) == YesCount(answers, c)
  {
    PermutePreservesMultiset(answers, p);
    YesCountMultiset(Permute(answers, p), answers, c);
  }

  /** The number of "yes" answers, whatever their category. */
  function YesTotal(answers: seq<Answer>): (n: nat)
    ensures n <= |answers|
  {
    if answers == [] then 0
    else YesTotal(answers[..|answers| - 1]) + (if IsYes(answers[|answers| - 1].key) then 1 else 0)
  }

  /** The sum of the counters of `categories` in `tally`. */
  function TallySum(tally: map<string, nat>, categories: seq<string>): nat
    requires forall c :: c in categories ==> c in tally
  {
    if categories == [] then 0 else tally[categories[0]] + TallySum(tally, categories[1..])
  }

  /** The sum of `YesCount` over `categories`. */
  function SumCounts(answers: seq<Answer>, categories: seq<string>): nat {
    if categories == [] then 0 else YesCount(answers, categories[0]) + SumCounts(answers, categories[1..])
  }

  /** One more answer adds one to the sum over distinct categories exactly
      when it is a "yes" to a question of one of them. */
  lemma {:induction false} SumCountsStep(answers: seq<Answer>, x: Answer, categories: seq<string>)
    requires Distinct(categories)
    ensures SumCounts(answers + [x], categories) ==
      SumCounts(answers, categories) + (if IsYes(x.key) && x.question.category in categories then 1 else 0)
  {
    if categories != [] {
      assert (answers + [x])[..|answers|] == answers;
      assert Distinct(categories[1..]);
      SumCountsStep(answers, x, categories[1..]);
      assert x.question.category in categories <==>
        x.question.category == categories[0] || x.question.category in categories[1..];
    }
  }

  /** Over distinct categories that cover every question, the counts add up
      to the number of "yes" answers. */
  lemma {:induction false} SumCountsIsYesTotal(answers: seq<Answer>, categories: seq<string>)
    requires Distinct(categories)
    requires forall i :: 0 <= i < |answers| ==> answers[i].question.category in categories
    ensures SumCounts(answers, categories) == YesTotal(answers)
  {
    if answers == [] {
      SumCountsOfNothing(categories);
    } else {
      var n := |answers| - 1;
      SumCountsIsYesTotal(answers[..n], categories);
      SumCountsStep(answers[..n], answers[n], categories);
      assert answers[..n] + [answers[n]] == answers;
    }
  }

  lemma {:induction false} SumCountsOfNothing(categories: seq<string>)
    ensures SumCounts([], categories) == 0
  {
    if categories != [] {
      SumCountsOfNothing(categories[1..]);
    }
  }

  lemma {:induction false} TallySumIsSumCounts(tally: map<string, nat>, answers: seq<Answer>, categories: seq<string>)
    requires forall c :: c in categories ==> c in tally && tally[c] == YesCount(answers, c)
    ensures TallySum(tally, categories) == SumCounts(answers, categories)
  {
    if categories != [] {
      TallySumIsSumCounts(tally, answers, categories[1..]);
    }
  }

  /** The counters of a completed survey add up to the number of "yes"
      answers, hence to at most the number of questions. */
  lemma SurveyTotal(questions: seq<Question>, order: seq<nat>, keys: seq<KeyPress>, tally: map<string, nat>)
    requires IsPermutation(order, |questions|)
    requires |keys| == |questions|
    requires tally.Keys == CategorySet(questions)
    requires forall c :: c in tally ==> tally[c] == YesCount(Answers(Permute(questions, order), keys), c)
    ensures TallySum(tally, Unique(Categories(questions))) == YesTotal(Answers(Permute(questions, order), keys))
    ensures TallySum(tally, Unique(Categories(questions))) <= |questions|
  {
    var answers := Answers(Permute(questions, order), keys);
    var categories := Unique(Categories(questions));
    forall i | 0 <= i < |answers|
      ensures answers[i].question.category in categories
    {
      assert answers[i].question.category == Categories(questions)[order[i]];
    }
    TallySumIsSumCounts(tally, answers, categories);
    SumCountsIsYesTotal(answers, categories);
  }
}
