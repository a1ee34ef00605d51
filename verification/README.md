# Top100Words quiz engine in Dafny

Top100Words is a small SwiftUI vocabulary trainer. Its quiz screen,
`LearningView`, shows one word of a word → translation dictionary together
with four answer buttons. One button holds the right translation and the other
three hold different translations drawn at random. The player gets three
guesses per word. A right answer lights its button green, and half a second
later the next word is shown. A wrong answer lights the pressed button red for
half a second and costs a guess. After the third wrong answer the flag
`isShowingAnswer` is raised, which locks the buttons, and two seconds later
the next word is shown. Despite its name, nothing on screen displays the
translation while the flag is up, and no button is lit green. A
one-second timer counts a 60-second session down to zero and then stops
itself.

The model has two modules:

- `QuizRules` (`quiz_rules.dfy`) holds the pure rules:
  - what a well-formed set of buttons is (`ChoicesFor`);
  - locating the pressed translation (`FirstIndex`, Swift's `firstIndex(of:) ?? -1`);
  - the "correct" highlights (`Marks`);
  - the weighted pool the next word is drawn from (`Pool`);
  - the countdown (`Clock`, `NextClock`, `AfterTicks`);
  - the lemmas about all of these.
- `LearningScreen` (`learning_view.dfy`) holds the screen itself. It is the class
  `LearningView`, whose fields are the screen's state, with one method per
  operation of the source:
  - `GenerateChoices` keeps the source's loop, one round per successful draw,
    and its in-place shuffle;
  - `SelectNextWord`, `CheckAnswer` and the button handler `Tap`;
  - the timer, as `StartTimer`, `StopTimer` and `Tick`;
  - one step method per deferred callback: `FinishCorrect`, `ClearIncorrectFlag`
    and `FinishLastMiss`.

Callbacks handed to the main queue are kept in the field `scheduled` until
their step method runs them.

What a step does to the answer-related fields is specified by pure functions
over the value `Feedback`. These are `Respond` for an answer, `Advance` for a
"next word" callback and `Unflash` for unlighting a slot. The methods are
proved to match them, and lemmas prove the invariant `FeedbackOk` for each of
them. In words, the invariant says:

- guesses stay within 0..3;
- the `isShowingAnswer` flag is up exactly when no guess is left;
- no button stays lit and the flag does not stay up without its undoing
  callback still pending.

Random draws are left to the verifier as "any value that fits" (`:|`), so
every property holds for whatever the random source returns. Each draw that
`generateChoices` keeps is any translation not yet on the buttons. The shuffle
is any permutation. The pool draw is any element of the pool.

Two facts about the mistake counts shape the pool:

- `wordMistakes` is declared (`Top100Words/LearningView.swift:93`) and read
  (`:136`), but no statement ever assigns it. The model keeps it as a
  constant empty map.
- The pool is `words.keys + mistakeFrequency` (`:139`), so the current word
  sits in it `mistakes + 2` times: once as a key, plus `mistakes + 1`
  copies. With the counts never written, that is 2 copies. `Pool` and
  `PoolCounts` state this.

## Model

| member | source | states |
|---|---|---|
| QuizRules.FirstIndex | Top100Words/LearningView.swift:175 | The result is -1 exactly when the answer is not among the choices. Otherwise it is an index holding the answer, and no earlier index holds it. |
| QuizRules.MarksAt | Top100Words/LearningView.swift:165 | Slot `i` of the "correct" highlights is lit exactly when choice `i` equals the translation. |
| QuizRules.MarksCount | Top100Words/LearningView.swift:165 | As many slots are lit as the translation occurs among the choices. |
| QuizRules.OneSlotMarked | Top100Words/LearningView.swift:165 | With distinct choices that contain the translation, exactly one slot is lit, and it is the slot at the translation's first index. |
| QuizRules.Pool | Top100Words/LearningView.swift:132-139 | Once the current word is a key or empty, everything in the pool is a key of the dictionary. |
| QuizRules.PoolCounts | Top100Words/LearningView.swift:132-139 | The pool's size is the number of keys, plus the current word's weight when there is a word. Every other key occurs once. The current word occurs once for its key plus `mistakes + 1` more times. |
| QuizRules.FreshValueExists | Top100Words/LearningView.swift:122-127 | While fewer than four translations are on the buttons and the dictionary has at least four different ones, a translation not yet on the buttons exists, so the source's loop, which retries until a draw is new, can progress. |
| QuizRules.DistinctCard | Top100Words/LearningView.swift:124-125 | A sequence has at most as many different elements as entries, and exactly as many when it has no duplicates. |
| QuizRules.FourValuesFixChoices | Top100Words/LearningView.swift:121-129 | With exactly four different translations in the dictionary, the four buttons show all of them. |
| QuizRules.OccursOnce | Top100Words/LearningView.swift:122-128 | In a duplicate-free sequence, an element that occurs occurs exactly once. |
| QuizRules.PermutationKeepsDistinct | Top100Words/LearningView.swift:128 | Shuffling, i.e. any reordering with the same multiset, keeps the choices duplicate-free. |
| QuizRules.StoppedClockStays | Top100Words/LearningView.swift:106-119 | Once the timer is invalidated, further seconds change neither the time nor the stopped state. |
| QuizRules.Countdown | Top100Words/LearningView.swift:106-114 | Started with `t` seconds, the clock reads `t - n` after `n <= t` ticks. From tick `t + 1` on it is stopped at 0. |
| QuizRules.TimeNeverIncreases | Top100Words/LearningView.swift:106-114 | From a non-negative start, the remaining time never goes negative and never increases, whatever the number of ticks. |
| QuizRules.SessionEnds | Top100Words/LearningView.swift:101-114 | A session starting at 60 seconds is stopped at 0 after 61 ticks. |
| LearningScreen.UndoableAfterHit | Top100Words/LearningView.swift:165-166 | Lighting the "correct" slots together with scheduling the next-word callback keeps every highlight undoable. |
| LearningScreen.UndoableAfterFlash | Top100Words/LearningView.swift:177-178 | Lighting slot `k` red together with scheduling its unlighting keeps every highlight undoable. |
| LearningScreen.UndoableAfterLastMiss | Top100Words/LearningView.swift:182-184 | Raising the `isShowingAnswer` flag together with scheduling the next-word callback keeps the flag undoable. |
| LearningScreen.RespondKeepsOk | Top100Words/LearningView.swift:162-192 | Handling an answer while the `isShowingAnswer` flag is down and a guess is left preserves `FeedbackOk`. Guesses stay within 0..3, the flag follows the guess count, and every highlight has its undoing callback pending. |
| LearningScreen.RightAnswerLightsOneSlot | Top100Words/LearningView.swift:164-166 | On well-formed buttons, a right answer lights exactly one slot, the one holding the translation. It costs no guess, and the next-word callback is pending. |
| LearningScreen.WrongAnswerCostsGuess | Top100Words/LearningView.swift:173-185 | A wrong answer costs exactly one guess and lights no "correct" slot. A translation on the buttons is lit red, with its unlighting pending. A translation not on the buttons lights nothing. The last guess raises the `isShowingAnswer` flag, which locks the buttons, with the next-word callback pending. |
| LearningScreen.AdvanceKeepsOk | Top100Words/LearningView.swift:166-189 | Both next-word callbacks preserve `FeedbackOk`, including when other callbacks are still pending. |
| LearningScreen.UnflashKeepsOk | Top100Words/LearningView.swift:178-180 | Unlighting a slot preserves `FeedbackOk`, even when the slot was lit twice and a second unlighting is still pending. |
| LearningScreen.LearningView.constructor | Top100Words/LearningView.swift:92-104 | Initial state: no word yet, 3 guesses, 60 seconds, no timer, nothing lit, nothing pending, four dictionary translations on the buttons, no mistakes. It establishes the invariant. |
| LearningScreen.LearningView.StartTimer | Top100Words/LearningView.swift:106-114 | The repeating timer is scheduled and nothing else changes. |
| LearningScreen.LearningView.StopTimer | Top100Words/LearningView.swift:116-119 | The timer is cancelled and nothing else changes. |
| LearningScreen.LearningView.Tick | Top100Words/LearningView.swift:107-113 | One firing is exactly `NextClock`: it counts down while time is left and otherwise stops the timer. The time stays within 0..60 and never increases. |
| LearningScreen.LearningView.GenerateChoices | Top100Words/LearningView.swift:121-129 | Afterwards the buttons hold four distinct dictionary translations, among them the word's translation, exactly once. The loop invariants carry this through the loop (one round per successful draw) and the shuffle. |
| LearningScreen.LearningView.SelectNextWord | Top100Words/LearningView.swift:131-148 | The new word is drawn from the weighted pool, is a non-empty key of the dictionary, and has well-formed buttons. |
| LearningScreen.LearningView.OnAppear | Top100Words/LearningView.swift:236-241 | On appearing, the timer runs and a word from the pool is on show with well-formed buttons. The invariant is kept. |
| LearningScreen.LearningView.CheckAnswer | Top100Words/LearningView.swift:162-192 | The new answer state is exactly `Respond` of the old one, and the invariant is kept. The word, the buttons and the timer are untouched. |
| LearningScreen.LearningView.AcceptAnswer | Top100Words/LearningView.swift:164-166 | The right-answer branch matches `Respond` and keeps the invariant. |
| LearningScreen.LearningView.RejectAnswer | Top100Words/LearningView.swift:173-190 | The wrong-answer branch matches `Respond` and keeps the invariant. |
| LearningScreen.LearningView.Tap | Top100Words/LearningView.swift:210-213 | A press checks the button's translation only while the `isShowingAnswer` flag is down and a guess is left. Otherwise it changes nothing. |
| LearningScreen.LearningView.NextRound | Top100Words/LearningView.swift:168-171 | A new word comes from the pool with well-formed buttons, dealt twice. Guesses are back at 3 and the `isShowingAnswer` flag is down. |
| LearningScreen.LearningView.FinishCorrect | Top100Words/LearningView.swift:166-172 | The callback after a right answer is consumed and the new state is exactly `Advance`: highlights cleared, 3 guesses, flag down. The new word comes from the pool with well-formed buttons, and the invariant is kept. |
| LearningScreen.LearningView.ClearIncorrectFlag | Top100Words/LearningView.swift:178-180 | The callback after a wrong answer is consumed and the new state is exactly `Unflash`: only that slot is unlit. The invariant is kept. |
| LearningScreen.LearningView.FinishLastMiss | Top100Words/LearningView.swift:184-189 | The callback after the last guess is consumed and the new state is exactly `Advance`: 3 guesses, flag down. The new word comes from the pool with well-formed buttons, and the invariant is kept. |
| LearningScreen.ThreeMissesLockButtons | Top100Words/LearningView.swift:173-213 | Three wrong answers to a shown word, a further press and then the callback after the last guess bring a word from the pool with 3 guesses and the `isShowingAnswer` flag down. The invariant is kept. Along the way the proof checks that the third miss leaves 0 guesses and raises the flag, and that the extra press is ignored. |

## Left out

- The SwiftUI `body` layout, colours, fonts and previews are not modelled. They are presentation only.
- `playSound` is not modelled. It calls into AVFoundation and has no effect on the quiz state.
- Real-time delays are not modelled: 0.5 s, 2 s and the 1 s timer period. Pending callbacks form a multiset and can run in any order, so the model does not capture their timing or relative order.
- The hop through the main queue between `startTimer()` and `selectNextWord()` in `onAppear` is collapsed. `OnAppear` runs both at once.
- The source has no guard against presses during the half second after a right answer. The model allows such presses and claims no guard.
- Real randomness is not modelled. `randomElement`, `shuffled` and `shuffle` become "any value that fits" choices. Draws that hit a translation already shown change nothing, so they are collapsed: each loop round stands for the draw that succeeds.
- The fallback `words.keys.randomElement()!` in `selectNextWord` is not modelled. It runs only for an empty pool, and the pool always holds every key of a non-empty dictionary.
- The concrete 81-entry French dictionary is not modelled. It is a constructor parameter required to have at least four different translations and no empty word. The empty string stands for "no word yet".
- LearningScreen.LearningView.constructor: takes the initial buttons as any four dictionary translations rather than computing `values.shuffled().prefix(4)`. These need not contain any word's translation, and the buttons are well formed only once a word is on show.
- LearningScreen.LearningView.SelectNextWord: the mistake counts are read but never written, as in the source. No increment is modelled because the code has none.
- `Top100Words/ContentView.swift` and `Top100Words/NativeLanguageView.swift` are not part of this model. They hold navigation, pickers and a `UserDefaults` preference only.
- Swift compares `String`s by Unicode canonical equivalence; the model compares `string`s code point by code point. This affects `contains`, `firstIndex(of:)` and the answer check. For a dictionary in a single normalization form without combining marks, such as the one at `Top100Words/LearningView.swift:8-90`, the two agree.
- Integer widths are not modelled. The counters stay within 0..60, far from Swift's `Int` bounds.
