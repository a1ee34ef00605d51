/** The quiz screen of Top100Words (`LearningView`) as an object whose fields
    change step by step: the dictionary, the word on show, the four answer
    buttons, the guess counter, the `isShowingAnswer` flag, the countdown, and
    the per-slot highlights. The flag only locks the buttons until the next
    word: nothing on screen displays the translation when it is set. Work that the screen defers to the main queue is kept
    in `scheduled` and run by explicit step methods. Random draws are left to
    the verifier (`:|`): every property below holds for whatever the random
    source returns. */
module LearningScreen {
  import opened QuizRules

  /** A callback the screen has handed to the main queue and that has not run
      yet. */
  datatype Deferred =
    | AdvanceAfterCorrect         // 0.5 s after a right answer: next word
    | ClearIncorrect(index: Slot) // 0.5 s after a wrong answer: unlight the slot
    | AdvanceAfterLastMiss        // 2 s after the last guess: next word

  /** The dictionary has at least four different translations and no empty
      word; the four buttons show translations; and once a word is on show
      ("" means none yet) its buttons are well formed. */
  ghost predicate ButtonsOk(words: map<string, string>, currentWord: string, choices: seq<string>) {
    && |words.Values| >= ChoiceCount
    && "" !in words
    && |choices| == ChoiceCount
    && (forall c :: c in choices ==> c in words.Values)
    && (currentWord == "" || ChoicesFor(words, currentWord, choices))
  }

  /** Every lit slot, and a raised `isShowingAnswer` flag, still has the
      callback pending that will undo it. */
  ghost predicate Undoable(isCorrect: seq<bool>, isIncorrect: seq<bool>, isShowingAnswer: bool, scheduled: multiset<Deferred>) {
    && (true in isCorrect ==> AdvanceAfterCorrect in scheduled)
    && (isShowingAnswer ==> AdvanceAfterLastMiss in scheduled)
    && |isIncorrect| == ChoiceCount
    && (forall i :: 0 <= i < ChoiceCount && isIncorrect[i] ==> ClearIncorrect(i) in scheduled)
  }

  /** A right answer lights slots and schedules the callback that unlights
      them. */
  lemma UndoableAfterHit(isCorrect: seq<bool>, isIncorrect: seq<bool>, scheduled: multiset<Deferred>, marks: seq<bool>)
    requires Undoable(isCorrect, isIncorrect, false, scheduled)
    ensures Undoable(marks, isIncorrect, false, scheduled + multiset{AdvanceAfterCorrect})
  {
  }

  /** A wrong answer lights slot `k` and schedules its unlighting. */
  lemma UndoableAfterFlash(isCorrect: seq<bool>, isIncorrect: seq<bool>, isShowingAnswer: bool, scheduled: multiset<Deferred>, k: Slot)
    requires Undoable(isCorrect, isIncorrect, isShowingAnswer, scheduled)
    ensures Undoable(isCorrect, isIncorrect[k := true], isShowingAnswer, scheduled + multiset{ClearIncorrect(k)})
  {
  }

  /** Raising the `isShowingAnswer` flag after the last guess schedules the
      move to the next word. */
  lemma UndoableAfterLastMiss(isCorrect: seq<bool>, isIncorrect: seq<bool>, isShowingAnswer: bool, scheduled: multiset<Deferred>)
    requires Undoable(isCorrect, isIncorrect, isShowingAnswer, scheduled)
    ensures Undoable(isCorrect, isIncorrect, true, scheduled + multiset{AdvanceAfterLastMiss})
  {
  }

  /** The part of the screen's state that answers change: the "correct" and
      "incorrect" highlights, the guesses left, the `isShowingAnswer` flag
      (which locks the buttons) and the callbacks waiting on the main
      queue. */
  datatype Feedback = Feedback(
    isCorrect: seq<bool>,
    isIncorrect: seq<bool>,
    remainingGuesses: int,
    isShowingAnswer: bool,
    scheduled: multiset<Deferred>)

  /** Guesses stay between 0 and 3, the `isShowingAnswer` flag is up exactly
      when none is left, there is one highlight per slot, and every highlight
      and a raised flag still have their undoing callback pending. */
  ghost predicate FeedbackOk(f: Feedback) {
    && 0 <= f.remainingGuesses <= MaxGuesses
    && (f.isShowingAnswer <==> f.remainingGuesses == 0)
    && |f.isCorrect| == ChoiceCount
    && Undoable(f.isCorrect, f.isIncorrect, f.isShowingAnswer, f.scheduled)
  }

  /** What answering `answer` to `word`, with `choices` on the buttons, does
      to the feedback `f`. A right answer lights the slot(s) holding the
      translation and schedules the move to the next word. A wrong one costs
      a guess, lights the first slot holding `answer` (if any) and schedules
      its unlighting, and when no guess is left raises the `isShowingAnswer`
      flag (locking the buttons; no slot is lit green) and schedules the move
      to the next word. */
  function Respond(words: map<string, string>, word: string, choices: seq<string>, answer: string, f: Feedback): Feedback {
    if Answers(words, word, answer) then
      f.(isCorrect := Marks(choices, words[word]),
         scheduled := f.scheduled + multiset{AdvanceAfterCorrect})
    else
      var k := FirstIndex(choices, answer);
      var left := f.remainingGuesses - 1;
      var spent := f.(remainingGuesses := left);
      var flashed := if 0 <= k < ChoiceCount && |f.isIncorrect| == ChoiceCount
        then spent.(isIncorrect := f.isIncorrect[k := true], scheduled := f.scheduled + multiset{ClearIncorrect(k)})
        else spent;
      if left == 0
        then flashed.(isShowingAnswer := true, scheduled := flashed.scheduled + multiset{AdvanceAfterLastMiss})
        else flashed
  }

  /** Answering while the flag is down and a guess is left keeps the
      feedback well formed: guesses never go negative, the flag follows the
      guess count, and nothing is lit without its undoing
      callback. */
  lemma RespondKeepsOk(words: map<string, string>, word: string, choices: seq<string>, answer: string, f: Feedback)
    requires FeedbackOk(f) && !f.isShowingAnswer && f.remainingGuesses > 0
    requires |choices| == ChoiceCount
    ensures FeedbackOk(Respond(words, word, choices, answer, f))
  {
    if Answers(words, word, answer) {
      UndoableAfterHit(f.isCorrect, f.isIncorrect, f.scheduled, Marks(choices, words[word]));
    } else {
      var k := FirstIndex(choices, answer);
      var left := f.remainingGuesses - 1;
      var isIncorrect, scheduled := f.isIncorrect, f.scheduled;
      if 0 <= k {
        UndoableAfterFlash(f.isCorrect, isIncorrect, false, scheduled, k);
        isIncorrect, scheduled := isIncorrect[k := true], scheduled + multiset{ClearIncorrect(k)};
      }
      if left == 0 {
        UndoableAfterLastMiss(f.isCorrect, isIncorrect, false, scheduled);
      }
    }
  }

  /** A right answer on well-formed buttons lights exactly one slot, the one
      holding the translation, and costs no guess. */
  lemma RightAnswerLightsOneSlot(words: map<string, string>, word: string, choices: seq<string>, answer: string, f: Feedback)
    requires ChoicesFor(words, word, choices) && Answers(words, word, answer)
    ensures var g := Respond(words, word, choices, answer, f);
      && |g.isCorrect| == ChoiceCount
      && multiset(g.isCorrect)[true] == 1
      && (forall i :: 0 <= i < ChoiceCount ==> (g.isCorrect[i] <==> i == FirstIndex(choices, answer)))
      && g.remainingGuesses == f.remainingGuesses
      && AdvanceAfterCorrect in g.scheduled
  {
    OneSlotMarked(choices, answer);
  }

  /** A wrong answer costs exactly one guess and lights no "correct" slot;
      the last guess raises the `isShowingAnswer` flag with the next-word
      callback pending. A translation that is on the buttons is lit as
      incorrect. */
  lemma WrongAnswerCostsGuess(words: map<string, string>, word: string, choices: seq<string>, answer: string, f: Feedback)
    requires !Answers(words, word, answer)
    requires |choices| == ChoiceCount && |f.isIncorrect| == ChoiceCount
    ensures var g := Respond(words, word, choices, answer, f);
      && g.remainingGuesses == f.remainingGuesses - 1
      && g.isCorrect == f.isCorrect
      && (g.remainingGuesses == 0 ==> g.isShowingAnswer && AdvanceAfterLastMiss in g.scheduled)
      && (answer in choices ==> g.isIncorrect[FirstIndex(choices, answer)] && ClearIncorrect(FirstIndex(choices, answer)) in g.scheduled)
      && (answer !in choices ==> g.isIncorrect == f.isIncorrect)
  {
  }

  /** What a "next word" callback `d` does to the feedback: it is no longer
      pending, the guesses are reset and the flag lowered, and after a right
      answer the "correct" highlights are cleared. */
  function Advance(f: Feedback, d: Deferred): Feedback {
    f.(isCorrect := if d == AdvanceAfterCorrect then NoFlags else f.isCorrect,
       remainingGuesses := MaxGuesses,
       isShowingAnswer := false,
       scheduled := f.scheduled - multiset{d})
  }

  /** A "next word" callback keeps the feedback well formed: what stays lit
      still has its own undoing callback pending. */
  lemma AdvanceKeepsOk(f: Feedback, d: Deferred)
    requires FeedbackOk(f)
    requires d == AdvanceAfterCorrect || d == AdvanceAfterLastMiss
    ensures FeedbackOk(Advance(f, d))
  {
    var rest := f.scheduled - multiset{d};
    forall e | e != d && e in f.scheduled
      ensures e in rest
    {
      assert rest[e] == f.scheduled[e];
    }
    assert d == AdvanceAfterCorrect ==> !(true in NoFlags);
  }

  /** What the callback that unlights slot `k` does to the feedback. */
  function Unflash(f: Feedback, k: Slot): Feedback
    requires |f.isIncorrect| == ChoiceCount
  {
    f.(isIncorrect := f.isIncorrect[k := false],
       scheduled := f.scheduled - multiset{ClearIncorrect(k)})
  }

  /** Unlighting a slot keeps the feedback well formed, even when that slot
      was lit twice and a second unlighting is still pending. */
  lemma UnflashKeepsOk(f: Feedback, k: Slot)
    requires FeedbackOk(f)
    ensures FeedbackOk(Unflash(f, k))
  {
    var rest := f.scheduled - multiset{ClearIncorrect(k)};
    forall e | e != ClearIncorrect(k) && e in f.scheduled
      ensures e in rest
    {
      assert rest[e] == f.scheduled[e];
    }
  }

  class LearningView {
    /** word -> translation; never reassigned during a session */
    const words: map<string, string>
    /** word -> mistake count; never written by the screen */
    const wordMistakes: map<string, nat>
    /** the word on show; "" until the first word is drawn */
    var currentWord: string
    var choices: seq<string>
    var remainingGuesses: int
    var isShowingAnswer: bool
    var timeRemaining: int
    /** whether the repeating one-second timer is scheduled */
    var timerRunning: bool
    var isCorrect: seq<bool>
    var isIncorrect: seq<bool>
    /** callbacks waiting on the main queue (their order is not modelled) */
    var scheduled: multiset<Deferred>

    /** The screen's invariant: the dictionary and buttons are well formed,
        the countdown is within the session, and the answer feedback is well
        formed. */
    ghost predicate Valid()
      reads this
    {
      && ButtonsOk(words, currentWord, choices)
      && 0 <= timeRemaining <= SessionSeconds
      && FeedbackOk(State())
    }

    /** The fields that answers change, as one value. */
    function State(): Feedback
      reads this
    {
      Feedback(isCorrect, isIncorrect, remainingGuesses, isShowingAnswer, scheduled)
    }

    /** The screen as it appears: no word yet, three guesses, sixty seconds,
        nothing highlighted, and four dictionary translations on the buttons
        (`initialChoices`, a prefix of the shuffled translations). */
    constructor (words: map<string, string>, initialChoices: seq<string>)
      requires |words.Values| >= ChoiceCount
      requires "" !in words
      requires |initialChoices| == ChoiceCount
      requires forall c :: c in initialChoices ==> c in words.Values
      ensures Valid()
      ensures this.words == words && wordMistakes == map[]
      ensures currentWord == "" && choices == initialChoices
      ensures remainingGuesses == MaxGuesses && !isShowingAnswer
      ensures timeRemaining == SessionSeconds && !timerRunning
      ensures isCorrect == NoFlags && isIncorrect == NoFlags && scheduled == multiset{}
    {
      this.words := words;
      wordMistakes := map[];
      currentWord := "";
      choices := initialChoices;
      remainingGuesses := MaxGuesses;
      isShowingAnswer := false;
      timeRemaining := SessionSeconds;
      timerRunning := false;
      isCorrect := NoFlags;
      isIncorrect := NoFlags;
      scheduled := multiset{};
    }

    /** Schedules the repeating one-second timer. */
    method StartTimer()
      modifies this`timerRunning
      ensures timerRunning
    {
      timerRunning := true;
    }

    /** Cancels the timer. */
    method StopTimer()
      modifies this`timerRunning
      ensures !timerRunning
    {
      timerRunning := false;
    }

    /** One firing of the timer: count down while time is left, otherwise
        stop the timer. */
    method Tick()
      requires Valid() && timerRunning
      modifies this`timeRemaining, this`timerRunning
      ensures Valid()
      ensures Clock(timeRemaining, timerRunning) == NextClock(Clock(old(timeRemaining), true))
      ensures 0 <= timeRemaining <= old(timeRemaining)
    {
      if timeRemaining > 0 {
        timeRemaining := timeRemaining - 1;
      } else {
        StopTimer();
      }
    }

    /** Puts four different translations on the buttons, the right one for
        `word` among them, in a random order. Each round of the loop stands
        for the draw that finally yields a translation not yet shown; draws
        that hit a translation already shown change nothing. */
    method GenerateChoices(word: string)
      requires |words.Values| >= ChoiceCount && word in words
      modifies this`choices
      ensures ChoicesFor(words, word, choices)
      ensures multiset(choices)[words[word]] == 1
    {
      choices := [words[word]];
      while |choices| < ChoiceCount
        invariant 1 <= |choices| <= ChoiceCount
        invariant Distinct(choices)
        invariant words[word] in choices
        invariant forall c :: c in choices ==> c in words.Values
        decreases ChoiceCount - |choices|
      {
        FreshValueExists(words.Values, choices);
        var choice :| choice in words.Values && choice !in choices;
        choices := choices + [choice];
      }
      var shuffled :| multiset(shuffled) == multiset(choices);
      PermutationKeepsDistinct(choices, shuffled);
      assert |shuffled| == |multiset(shuffled)| == |choices|;
      assert forall c :: c in shuffled <==> c in multiset(choices);
      choices := shuffled;
      OccursOnce(choices, words[word]);
    }

    /** Draws the next word from the weighted pool and deals its buttons. The
        pool holds every key, and the dictionary is never empty, so the
        fallback draw from the keys alone never runs. */
    method SelectNextWord()
      requires |words.Values| >= ChoiceCount && "" !in words
      requires currentWord == "" || currentWord in words
      modifies this`currentWord, this`choices
      ensures currentWord in Pool(words, old(currentWord), wordMistakes)
      ensures currentWord in words && currentWord != ""
      ensures ChoicesFor(words, currentWord, choices)
    {
      var pool := Pool(words, currentWord, wordMistakes);
      assert |pool| > 0 by {
        var v :| v in words.Values;
        var k :| k in words && words[k] == v;
        assert k in words.Keys;
      }
      var word :| word in pool;
      currentWord := word;
      GenerateChoices(currentWord);
    }

    /** The screen appearing: the timer starts and the first word is drawn
        (the source hops through the main queue once before drawing). */
    method OnAppear()
      requires Valid()
      modifies this`timerRunning, this`currentWord, this`choices
      ensures Valid()
      ensures timerRunning
      ensures currentWord in Pool(words, old(currentWord), wordMistakes)
      ensures ChoicesFor(words, currentWord, choices)
    {
      StartTimer();
      SelectNextWord();
    }

    /** Handles one answer; the buttons call it only while the
        `isShowingAnswer` flag is down and a guess is left. The word, the buttons and the timer stay
        as they are. */
    method CheckAnswer(answer: string)
      requires Valid()
      requires !isShowingAnswer && remainingGuesses > 0
      modifies this`isCorrect, this`isIncorrect, this`remainingGuesses, this`isShowingAnswer, this`scheduled
      ensures Valid()
      ensures State() == Respond(words, old(currentWord), old(choices), answer, old(State()))
    {
      if Answers(words, currentWord, answer) {
        AcceptAnswer(answer);
      } else {
        RejectAnswer(answer);
      }
    }

    /** The right-answer branch of `CheckAnswer`: light the slot(s) holding
        the translation and schedule the move to the next word. */
    method AcceptAnswer(answer: string)
      requires Valid()
      requires !isShowingAnswer && Answers(words, currentWord, answer)
      modifies this`isCorrect, this`scheduled
      ensures Valid()
      ensures State() == Respond(words, old(currentWord), old(choices), answer, old(State()))
    {
      UndoableAfterHit(isCorrect, isIncorrect, scheduled, Marks(choices, words[currentWord]));
      isCorrect := Marks(choices, words[currentWord]);
      scheduled := scheduled + multiset{AdvanceAfterCorrect};
    }

    /** The wrong-answer branch of `CheckAnswer`: spend a guess, light the
        slot holding `answer` for a moment, and raise the `isShowingAnswer`
        flag after the last guess. */
    method RejectAnswer(answer: string)
      requires Valid()
      requires !isShowingAnswer && remainingGuesses > 0 && !Answers(words, currentWord, answer)
      modifies this`isIncorrect, this`remainingGuesses, this`isShowingAnswer, this`scheduled
      ensures Valid()
      ensures State() == Respond(words, old(currentWord), old(choices), answer, old(State()))
    {
      RespondKeepsOk(words, currentWord, choices, answer, State());
      remainingGuesses := remainingGuesses - 1;
      var incorrectIndex := FirstIndex(choices, answer);
      if incorrectIndex >= 0 {
        isIncorrect := isIncorrect[incorrectIndex := true];
        scheduled := scheduled + multiset{ClearIncorrect(incorrectIndex)};
      }
      if remainingGuesses == 0 {
        isShowingAnswer := true;
        scheduled := scheduled + multiset{AdvanceAfterLastMiss};
      }
    }

    /** A press on button `index`: ignored while the `isShowingAnswer` flag
        is up or no guess is left, otherwise the button's translation is checked. */
    method Tap(index: Slot)
      requires Valid()
      modifies this`isCorrect, this`isIncorrect, this`remainingGuesses, this`isShowingAnswer, this`scheduled
      ensures Valid()
      ensures State() == if old(!isShowingAnswer && remainingGuesses > 0)
                         then Respond(words, currentWord, choices, choices[index], old(State()))
                         else old(State())
    {
      if !isShowingAnswer && remainingGuesses > 0 {
        CheckAnswer(choices[index]);
      }
    }

    /** The tail shared by both "next word" callbacks: draw the next word
        (which deals its buttons), deal them a second time, and give the word
        a fresh set of guesses with the `isShowingAnswer` flag down. */
    method NextRound()
      requires ButtonsOk(words, currentWord, choices)
      modifies this`currentWord, this`choices, this`remainingGuesses, this`isShowingAnswer
      ensures ButtonsOk(words, currentWord, choices)
      ensures currentWord in Pool(words, old(currentWord), wordMistakes)
      ensures ChoicesFor(words, currentWord, choices)
      ensures remainingGuesses == MaxGuesses && !isShowingAnswer
    {
      SelectNextWord();
      GenerateChoices(currentWord);
      remainingGuesses := MaxGuesses;
      isShowingAnswer := false;
    }

    /** The callback 0.5 s after a right answer: unlight the slots, move to
        the next word (dealing its buttons a second time, as the source
        does), and give it a fresh set of guesses. */
    method FinishCorrect()
      requires Valid() && AdvanceAfterCorrect in scheduled
      modifies this`isCorrect, this`currentWord, this`choices, this`remainingGuesses, this`isShowingAnswer, this`scheduled
      ensures Valid()
      ensures State() == Advance(old(State()), AdvanceAfterCorrect)
      ensures currentWord in Pool(words, old(currentWord), wordMistakes)
      ensures ChoicesFor(words, currentWord, choices)
    {
      AdvanceKeepsOk(State(), AdvanceAfterCorrect);
      isCorrect := NoFlags;
      NextRound();
      scheduled := scheduled - multiset{AdvanceAfterCorrect};
    }

    /** The callback 0.5 s after a wrong answer: unlight slot `index`. */
    method ClearIncorrectFlag(index: Slot)
      requires Valid() && ClearIncorrect(index) in scheduled
      modifies this`isIncorrect, this`scheduled
      ensures Valid()
      ensures State() == Unflash(old(State()), index)
    {
      UnflashKeepsOk(State(), index);
      isIncorrect := isIncorrect[index := false];
      scheduled := scheduled - multiset{ClearIncorrect(index)};
    }

    /** The callback 2 s after the last guess was spent: move to the next
        word and give it a fresh set of guesses. */
    method FinishLastMiss()
      requires Valid() && AdvanceAfterLastMiss in scheduled
      modifies this`currentWord, this`choices, this`remainingGuesses, this`isShowingAnswer, this`scheduled
      ensures Valid()
      ensures State() == Advance(old(State()), AdvanceAfterLastMiss)
      ensures currentWord in Pool(words, old(currentWord), wordMistakes)
      ensures ChoicesFor(words, currentWord, choices)
    {
      AdvanceKeepsOk(State(), AdvanceAfterLastMiss);
      NextRound();
      scheduled := scheduled - multiset{AdvanceAfterLastMiss};
    }
  }

  /** Three wrong answers to a word spend its guesses, raise the
      `isShowingAnswer` flag and keep the word on show; a further press is
      ignored; the callback after the last guess then moves on to a word from
      the pool with three fresh guesses. */
  method ThreeMissesLockButtons(v: LearningView, wrong: string)
    requires v.Valid() && v.currentWord != "" && v.remainingGuesses == MaxGuesses
    requires !Answers(v.words, v.currentWord, wrong)
    modifies v
    ensures v.Valid()
    ensures v.currentWord in Pool(v.words, old(v.currentWord), v.wordMistakes)
    ensures v.remainingGuesses == MaxGuesses && !v.isShowingAnswer
  {
    var word := v.currentWord;
    v.CheckAnswer(wrong);
    assert v.remainingGuesses == 2 && !v.isShowingAnswer;
    v.CheckAnswer(wrong);
    assert v.remainingGuesses == 1 && !v.isShowingAnswer;
    v.CheckAnswer(wrong);
    assert v.remainingGuesses == 0 && v.isShowingAnswer && v.currentWord == word;
    assert AdvanceAfterLastMiss in v.scheduled;
    var before := v.scheduled;
    v.Tap(0);
    assert v.scheduled == before && v.isShowingAnswer;
    v.FinishLastMiss();
  }
}
