/** The quiz runner: showing a question with its answers in shuffled
    order, judging a click, the delayed reveal, and the "next" button that
    moves on or ends the quiz. */
module Runner {
  import opened Wrappers
  import opened Questions
  import opened Shuffle

  /** One answer button: its text and whether it is marked correct. */
  datatype Button = Button(text: string, correct: bool)

  /** The texts on the buttons, in display order. */
  function Texts(buttons: seq<Button>): (r: seq<string>)
    ensures |r| == |buttons|
    ensures forall k :: 0 <= k < |buttons| ==> r[k] == buttons[k].text
  {
    seq(|buttons|, k requires 0 <= k < |buttons| => buttons[k].text)
  }

  /** `buttons` display question `q`: every stored answer once (as a
      multiset), and a button is marked correct exactly when its text is
      the stored first answer. */
  ghost predicate Displays(buttons: seq<Button>, q: Question) {
    && |buttons| == |q.answers|
    && multiset(Texts(buttons)) == multiset(q.answers)
    && forall k :: 0 <= k < |buttons| ==> (buttons[k].correct <==> buttons[k].text == q.answers[0])
  }

  /** The answer part of `showQuestion`: the correct answer is read from
      `answers[0]` of a copy of the stored answers, the copy is shuffled
      with the given draws, and each button is marked by comparing its
      text with that answer. The stored question is left as it is. */
  function ShowAnswers(q: Question, picks: seq<nat>): (r: seq<Button>)
    requires ValidPicks(picks, |q.answers|)
    ensures Displays(r, q)
    ensures Texts(r) == Shuffled(q.answers, picks)
  {
    var shown := Shuffled(q.answers, picks);
    ShuffledPermutes(q.answers, picks);
    var r := seq(|shown|, k requires 0 <= k < |shown| => Button(shown[k], shown[k] == q.answers[0]));
    assert Texts(r) == shown;
    r
  }

  /** No value occurs twice. */
  predicate Distinct<T(==)>(s: seq<T>) {
    forall i, j :: 0 <= i < j < |s| ==> s[i] != s[j]
  }

  /** In a sequence without repeats every value occurs at most once. */
  lemma {:induction false} DistinctCounts<T>(s: seq<T>, x: T)
    requires Distinct(s)
    ensures multiset(s)[x] <= 1
    decreases |s|
  {
    if s != [] {
      var rest := s[1..];
      assert s == [s[0]] + rest;
      assert Distinct(rest);
      DistinctCounts(rest, x);
      assert s[0] !in rest;
    }
  }

  /** A value found at two positions occurs at least twice. */
  lemma RepeatCounts<T>(s: seq<T>, i: nat, j: nat)
    requires i < j < |s| && s[i] == s[j]
    ensures multiset(s)[s[i]] >= 2
  {
    assert s == s[..i] + [s[i]] + s[i + 1..j] + [s[j]] + s[j + 1..];
  }

  /** With four different stored answers, exactly one button is marked
      correct, whatever the draws. */
  lemma ExactlyOneCorrect(q: Question, picks: seq<nat>)
    requires ValidPicks(picks, |q.answers|) && |q.answers| > 0 && Distinct(q.answers)
    ensures var b := ShowAnswers(q, picks);
      && (exists k :: 0 <= k < |b| && b[k].correct)
      && forall k1, k2 :: 0 <= k1 < |b| && 0 <= k2 < |b| && b[k1].correct && b[k2].correct ==> k1 == k2
  {
    var b := ShowAnswers(q, picks);
    var texts := Texts(b);
    var correct := q.answers[0];
    assert correct in multiset(q.answers);
    assert correct in multiset(texts);
    var k :| 0 <= k < |texts| && texts[k] == correct;
    assert b[k].correct;
    forall k1, k2 | 0 <= k1 < |b| && 0 <= k2 < |b| && b[k1].correct && b[k2].correct
      ensures k1 == k2
    {
      DistinctCounts(q.answers, correct);
      if k1 < k2 {
        RepeatCounts(texts, k1, k2);
      } else if k2 < k1 {
        RepeatCounts(texts, k2, k1);
      }
    }
  }

  /** The mark of an answer depends on its text only, not on where the
      draws put it: the same text is judged the same under any two draws. */
  lemma MarkIndependentOfPosition(q: Question, picks1: seq<nat>, picks2: seq<nat>, k1: nat, k2: nat)
    requires ValidPicks(picks1, |q.answers|) && ValidPicks(picks2, |q.answers|)
    requires k1 < |q.answers| && k2 < |q.answers|
    requires ShowAnswers(q, picks1)[k1].text == ShowAnswers(q, picks2)[k2].text
    ensures ShowAnswers(q, picks1)[k1].correct == ShowAnswers(q, picks2)[k2].correct
  {
  }

  /** Where one question stands. `Answering`: the buttons take clicks and
      "next" is hidden. `Judging`: a button was clicked, the buttons are
      disabled and the 5000 ms reveal timer runs. `Revealed`: the correct
      button (and a wrong choice) are highlighted and "next" is shown.
      `Finished`: the last question was passed and the quiz is over. */
  datatype Phase =
    | Answering(buttons: seq<Button>)
    | Judging(buttons: seq<Button>, chosen: nat, isCorrect: bool)
    | Revealed(buttons: seq<Button>, chosen: nat, isCorrect: bool)
    | Finished

  /** A running quiz: the loaded questions, the current index, the phase. */
  datatype Session = Session(quiz: seq<Question>, index: nat, phase: Phase)

  /** Starting fails when the quiz has no question: `showQuestion` then
      reads a field of `quizData[0]`, which is undefined, and the load
      handler's `catch` reports an error. */
  datatype StartError = NoQuestion

  /** Whether the "next" button is visible. */
  predicate NextVisible(s: Session) {
    s.phase.Revealed?
  }

  /** The invariant of a running quiz: before the end the index names a
      question and the buttons display it; a judged click names a button
      and its verdict is that button's mark; at the end the index is the
      number of questions. */
  ghost predicate Valid(s: Session) {
    match s.phase
    case Finished => s.index == |s.quiz|
    case Answering(b) => s.index < |s.quiz| && Displays(b, s.quiz[s.index])
    case Judging(b, c, ok) =>
      s.index < |s.quiz| && Displays(b, s.quiz[s.index]) && c < |b| && ok == b[c].correct
    case Revealed(b, c, ok) =>
      s.index < |s.quiz| && Displays(b, s.quiz[s.index]) && c < |b| && ok == b[c].correct
  }

  /** Loading a quiz and showing its first question. */
  function Start(quiz: seq<Question>, picks: seq<nat>): (r: Result<Session, StartError>)
    requires |quiz| > 0 ==> ValidPicks(picks, |quiz[0].answers|)
    ensures r.Failure? <==> |quiz| == 0
    ensures r.Success? ==> Valid(r.value) && r.value.index == 0 && r.value.phase.Answering?
    ensures r.Success? ==> r.value.quiz == quiz && !NextVisible(r.value)
  {
    if |quiz| == 0 then Failure(NoQuestion)
    else Success(Session(quiz, 0, Answering(ShowAnswers(quiz[0], picks))))
  }

  /** `handleAnswerClick`: a click on button `k` while the question takes
      answers disables the buttons and judges the click by the button's
      mark (`isCorrect`); any other click does nothing. */
  function Click(s: Session, k: nat): (r: Session)
    requires Valid(s)
    ensures Valid(r) && r.quiz == s.quiz && r.index == s.index
    ensures NextVisible(r) == NextVisible(s)
    ensures s.phase.Answering? && k < |s.phase.buttons| ==>
      && r.phase.Judging? && r.phase.buttons == s.phase.buttons && r.phase.chosen == k
      && (r.phase.isCorrect <==> s.phase.buttons[k].text == s.quiz[s.index].answers[0])
    ensures !(s.phase.Answering? && k < |s.phase.buttons|) ==> r == s
  {
    match s.phase
    case Answering(b) =>
      if k < |b| then s.(phase := Judging(b, k, b[k].correct)) else s
    case _ => s
  }

  /** The 5000 ms timer of a judged click: the verdict is revealed and
      "next" becomes visible. Without a pending timer nothing happens. */
  function Reveal(s: Session): (r: Session)
    requires Valid(s)
    ensures Valid(r) && r.quiz == s.quiz && r.index == s.index
    ensures NextVisible(r) <==> s.phase.Judging? || s.phase.Revealed?
    ensures s.phase.Judging? ==>
      r.phase.Revealed? && r.phase.chosen == s.phase.chosen && r.phase.isCorrect == s.phase.isCorrect
    ensures !s.phase.Judging? ==> r == s
  {
    match s.phase
    case Judging(b, c, ok) => s.(phase := Revealed(b, c, ok))
    case _ => s
  }

  /** How a button looks once the verdict is revealed. */
  datatype Highlight = Plain | ShownCorrect | ShownIncorrect

  /** The highlighting of the reveal: every button marked correct is shown
      correct, and the chosen button is shown incorrect when the click was
      wrong. */
  function Highlights(buttons: seq<Button>, chosen: nat, isCorrect: bool): (r: seq<Highlight>)
    ensures |r| == |buttons|
    ensures forall k :: 0 <= k < |buttons| ==> (r[k] == ShownCorrect <==> buttons[k].correct)
    ensures forall k :: 0 <= k < |buttons| ==> (r[k] == ShownIncorrect <==> k == chosen && !buttons[k].correct && !isCorrect)
  {
    seq(|buttons|, k requires 0 <= k < |buttons| =>
      if buttons[k].correct then ShownCorrect
      else if k == chosen && !isCorrect then ShownIncorrect
      else Plain)
  }

  /** After a reveal, the chosen button is shown correct exactly when the
      click was right, and is shown incorrect otherwise. */
  lemma RevealShowsVerdict(s: Session)
    requires Valid(s) && s.phase.Revealed?
    ensures var p := s.phase;
      var h := Highlights(p.buttons, p.chosen, p.isCorrect);
      && (p.isCorrect ==> h[p.chosen] == ShownCorrect)
      && (!p.isCorrect ==> h[p.chosen] == ShownIncorrect)
  {
  }

  /** The "next" button: the index moves up by one; if it still names a
      question that question is shown with freshly drawn order, otherwise
      the quiz is over. While "next" is hidden it cannot be clicked. */
  function Next(s: Session, picks: seq<nat>): (r: Session)
    requires Valid(s)
    requires s.phase.Revealed? && s.index + 1 < |s.quiz| ==> ValidPicks(picks, |s.quiz[s.index + 1].answers|)
    ensures Valid(r) && r.quiz == s.quiz && !NextVisible(r)
    ensures s.phase.Revealed? ==> r.index == s.index + 1
    ensures s.phase.Revealed? ==> (r.phase.Finished? <==> r.index == |s.quiz|)
    ensures s.phase.Revealed? && r.index < |s.quiz| ==>
      r.phase == Answering(ShowAnswers(s.quiz[r.index], picks))
    ensures !s.phase.Revealed? ==> r == s
  {
    if !s.phase.Revealed? then s
    else if s.index + 1 < |s.quiz| then
      Session(s.quiz, s.index + 1, Answering(ShowAnswers(s.quiz[s.index + 1], picks)))
    else Session(s.quiz, s.index + 1, Finished)
  }

  /** One question played through: click button `k`, wait for the reveal,
      press "next". */
  function Round(s: Session, k: nat, picks: seq<nat>): (r: Session)
    requires Valid(s) && s.phase.Answering? && k < |s.phase.buttons|
    requires s.index + 1 < |s.quiz| ==> ValidPicks(picks, |s.quiz[s.index + 1].answers|)
    ensures Valid(r) && r.quiz == s.quiz && r.index == s.index + 1
    ensures r.phase.Finished? <==> r.index == |s.quiz|
    ensures !r.phase.Finished? ==> r.phase.Answering?
  {
    Next(Reveal(Click(s, k)), picks)
  }

  /** Clicks and draws that can play the quiz from the current question to
      the end: one click per remaining question on one of its buttons, and
      for every question after the current one a valid table of draws. */
  ghost predicate Playable(s: Session, clicks: seq<nat>, draws: seq<seq<nat>>) {
    && Valid(s) && s.phase.Answering?
    && |clicks| == |draws| == |s.quiz| - s.index
    && (forall r :: 0 <= r < |clicks| ==> clicks[r] < |s.quiz[s.index + r].answers|)
    && (forall r :: 0 <= r < |draws| && s.index + r + 1 < |s.quiz| ==>
          ValidPicks(draws[r], |s.quiz[s.index + r + 1].answers|))
  }

  /** Playing all remaining questions. */
  function Play(s: Session, clicks: seq<nat>, draws: seq<seq<nat>>): (r: Session)
    requires Playable(s, clicks, draws)
    decreases |clicks|
  {
    var next := Round(s, clicks[0], draws[0]);
    if next.phase.Finished? then next
    else
      PlayableRest(s, next, clicks, draws);
      Play(next, clicks[1..], draws[1..])
  }

  /** After a round that does not finish, the remaining clicks and draws
      can play the rest of the quiz. */
  lemma PlayableRest(s: Session, next: Session, clicks: seq<nat>, draws: seq<seq<nat>>)
    requires Playable(s, clicks, draws)
    requires Valid(next) && next.phase.Answering?
    requires next.quiz == s.quiz && next.index == s.index + 1
    ensures Playable(next, clicks[1..], draws[1..])
  {
    forall r | 0 <= r < |clicks| - 1
      ensures clicks[1..][r] < |next.quiz[next.index + r].answers|
    {
      assert clicks[1..][r] == clicks[r + 1];
    }
    forall r | 0 <= r < |draws| - 1 && next.index + r + 1 < |next.quiz|
      ensures ValidPicks(draws[1..][r], |next.quiz[next.index + r + 1].answers|)
    {
      assert draws[1..][r] == draws[r + 1];
    }
  }

  /** However the questions are answered, playing them all ends the quiz
      with the index equal to the number of questions, and no question is
      shown past the end. */
  lemma {:induction false} PlayFinishes(s: Session, clicks: seq<nat>, draws: seq<seq<nat>>)
    requires Playable(s, clicks, draws)
    ensures Play(s, clicks, draws).phase.Finished?
    ensures Play(s, clicks, draws).index == |s.quiz|
    decreases |clicks|
  {
    var next := Round(s, clicks[0], draws[0]);
    if !next.phase.Finished? {
      PlayableRest(s, next, clicks, draws);
      PlayFinishes(next, clicks[1..], draws[1..]);
    }
  }
}
