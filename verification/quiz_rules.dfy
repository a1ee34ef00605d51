/** Pure rules behind the quiz screen of Top100Words: what a well-formed set of
    answer buttons is, how the next word is weighted, how the pressed slot is
    located and flagged, and how the session countdown runs down. The screen
    itself, whose fields change step by step, is the class in module
    LearningScreen. */
module QuizRules {

  /** Number of answer buttons on the screen (a 2 x 2 grid). */
  const ChoiceCount := 4
  /** Guesses a word gets before its buttons lock until the next word. */
  const MaxGuesses := 3
  /** Length of a session, in one-second ticks. */
  const SessionSeconds := 60

  /** A position on the 2 x 2 grid of answer buttons. */
  type Slot = i: int | 0 <= i < ChoiceCount

  /** No element occurs twice. */
  predicate Distinct<T(==)>(s: seq<T>) {
    forall i, j :: 0 <= i < j < |s| ==> s[i] != s[j]
  }

  /** The elements of `s`, as a set. */
  function Elements<T>(s: seq<T>): set<T> {
    set x | x in s
  }

  /** The answer buttons are well formed for `word`: four different
      translations taken from the dictionary, one of them the right one. */
  predicate ChoicesFor(words: map<string, string>, word: string, choices: seq<string>) {
    && word in words
    && |choices| == ChoiceCount
    && Distinct(choices)
    && words[word] in choices
    && forall c :: c in choices ==> c in words.Values
  }

  /** `answer` is the translation of `word`; a word missing from the
      dictionary has no translation, so nothing answers it. */
  predicate Answers(words: map<string, string>, word: string, answer: string) {
    word in words && words[word] == answer
  }

  /** The position of the first occurrence of `x` in `s`, or -1 when there is
      none: Swift's `firstIndex(of:) ?? -1`. */
  function FirstIndex<T(==)>(s: seq<T>, x: T): (r: int)
    ensures -1 <= r < |s|
    ensures r == -1 <==> x !in s
    ensures 0 <= r ==> s[r] == x && x !in s[..r]
  {
    if |s| == 0 then -1
    else if s[0] == x then 0
    else
      var k := FirstIndex(s[1..], x);
      if k < 0 then -1
      else
        assert s[..k + 1] == [s[0]] + s[1..][..k];
        k + 1
  }

  /** The "correct" highlight for each slot: a slot is lit when it holds
      `answer`. */
  function Marks(choices: seq<string>, answer: string): (flags: seq<bool>)
    ensures |flags| == |choices|
  {
    if choices == [] then [] else [choices[0] == answer] + Marks(choices[1..], answer)
  }

  /** Slot `i` is lit exactly when it holds `answer`. */
  lemma {:induction false} MarksAt(choices: seq<string>, answer: string, i: int)
    requires 0 <= i < |choices|
    ensures Marks(choices, answer)[i] <==> choices[i] == answer
  {
    if i > 0 {
      MarksAt(choices[1..], answer, i - 1);
    }
  }

  /** All highlights off. */
  const NoFlags: seq<bool> := [false, false, false, false]

  /** How many copies of `word` the selection pool adds on top of its key:
      its mistake count (0 when absent) plus one. */
  function Weight(mistakes: map<string, nat>, word: string): nat {
    (if word in mistakes then mistakes[word] else 0) + 1
  }

  /** The pool the next word is drawn from: every key once, plus
      `Weight(mistakes, current)` copies of the current word when there is
      one (the empty string stands for "no word yet"). */
  function Pool(words: map<string, string>, current: string, mistakes: map<string, nat>): (pool: multiset<string>)
    ensures current == "" || current in words ==> forall w :: w in pool ==> w in words
  {
    multiset(words.Keys) + if current == "" then multiset{} else multiset{}[current := Weight(mistakes, current)]
  }

  /** How often each word sits in the pool: every other key once; the
      current word once for its key plus `Weight` extra copies. */
  lemma PoolCounts(words: map<string, string>, current: string, mistakes: map<string, nat>)
    ensures |Pool(words, current, mistakes)| == |words| + (if current == "" then 0 else Weight(mistakes, current))
    ensures forall w :: w != current ==> Pool(words, current, mistakes)[w] == (if w in words then 1 else 0)
    ensures current != "" ==> Pool(words, current, mistakes)[current] == (if current in words then 1 else 0) + Weight(mistakes, current)
    ensures current == "" ==> Pool(words, current, mistakes)[current] == (if current in words then 1 else 0)
  {
  }

  /** The session countdown: seconds left, and whether the repeating timer is
      still scheduled. */
  datatype Clock = Clock(timeRemaining: int, running: bool)

  /** One firing of the one-second timer. A running timer counts down while
      time is left and otherwise stops itself; a stopped timer never fires. */
  function NextClock(c: Clock): Clock {
    if !c.running then c
    else if c.timeRemaining > 0 then c.(timeRemaining := c.timeRemaining - 1)
    else c.(running := false)
  }

  /** The clock after `n` seconds. */
  function AfterTicks(c: Clock, n: nat): Clock
    decreases n
  {
    if n == 0 then c else AfterTicks(NextClock(c), n - 1)
  }

  lemma {:induction false} DistinctCard<T>(s: seq<T>)
    ensures |Elements(s)| <= |s|
    ensures Distinct(s) ==> |Elements(s)| == |s|
  {
    if s != [] {
      DistinctCard(s[1..]);
      assert Elements(s) == {s[0]} + Elements(s[1..]);
      if Distinct(s) {
        assert Distinct(s[1..]);
        assert s[0] !in Elements(s[1..]);
      }
    }
  }

  /** While fewer than four translations are collected from a dictionary with
      at least four different translations, some translation is still
      missing, so the retry loop of the choice generator can make progress. */
  lemma FreshValueExists(values: set<string>, choices: seq<string>)
    requires |choices| < ChoiceCount <= |values|
    requires forall c :: c in choices ==> c in values
    ensures exists v :: v in values && v !in choices
  {
    DistinctCard(choices);
    var have := Elements(choices);
    assert have <= values;
    assert values == have + (values - have);
    assert |values - have| > 0;
    var v :| v in values - have;
  }

  /** With exactly four different translations in the dictionary, the four
      buttons show all of them. */
  lemma FourValuesFixChoices(words: map<string, string>, word: string, choices: seq<string>)
    requires ChoicesFor(words, word, choices)
    requires |words.Values| == ChoiceCount
    ensures Elements(choices) == words.Values
  {
    DistinctCard(choices);
    var have := Elements(choices);
    assert have <= words.Values;
    assert words.Values == have + (words.Values - have);
    assert |words.Values - have| == 0;
  }

  /** In a sequence without duplicates, an element that occurs occurs once. */
  lemma {:induction false} OccursOnce<T>(s: seq<T>, x: T)
    requires Distinct(s)
    ensures multiset(s)[x] == if x in s then 1 else 0
  {
    if s != [] {
      assert s == [s[0]] + s[1..];
      assert Distinct(s[1..]);
      OccursOnce(s[1..], x);
      assert s[0] !in s[1..];
    }
  }

  /** Two equal entries at different positions make an element occur twice. */
  lemma TwiceCountsTwice<T>(s: seq<T>, i: int, j: int)
    requires 0 <= i < j < |s| && s[i] == s[j]
    ensures multiset(s)[s[i]] >= 2
  {
    assert s == s[..j] + s[j..];
    assert s[i] in s[..j];
    assert s[j] in s[j..];
    assert multiset(s) == multiset(s[..j]) + multiset(s[j..]);
  }

  /** Reordering (shuffling) a sequence keeps it free of duplicates. */
  lemma PermutationKeepsDistinct<T>(s: seq<T>, t: seq<T>)
    requires multiset(s) == multiset(t)
    requires Distinct(s)
    ensures Distinct(t)
  {
    forall i, j | 0 <= i < j < |t|
      ensures t[i] != t[j]
    {
      if t[i] == t[j] {
        TwiceCountsTwice(t, i, j);
        OccursOnce(s, t[i]);
      }
    }
  }

  /** Exactly as many slots are lit as `answer` occurs among the choices. */
  lemma {:induction false} MarksCount(choices: seq<string>, answer: string)
    ensures multiset(Marks(choices, answer))[true] == multiset(choices)[answer]
  {
    if choices != [] {
      MarksCount(choices[1..], answer);
      assert choices == [choices[0]] + choices[1..];
    }
  }

  /** With distinct choices that contain the answer, exactly one slot is lit,
      and it is the slot that holds the answer. */
  lemma OneSlotMarked(choices: seq<string>, answer: string)
    requires Distinct(choices) && answer in choices
    ensures multiset(Marks(choices, answer))[true] == 1
    ensures forall i :: 0 <= i < |choices| ==> (Marks(choices, answer)[i] <==> i == FirstIndex(choices, answer))
  {
    MarksCount(choices, answer);
    OccursOnce(choices, answer);
    forall i | 0 <= i < |choices|
      ensures Marks(choices, answer)[i] <==> i == FirstIndex(choices, answer)
    {
      MarksAt(choices, answer, i);
    }
  }

  /** A stopped timer stays stopped and leaves the time untouched. */
  lemma {:induction false} StoppedClockStays(c: Clock, n: nat)
    requires !c.running
    ensures AfterTicks(c, n) == c
    decreases n
  {
    if n > 0 {
      StoppedClockStays(NextClock(c), n - 1);
    }
  }

  /** Started with `t` seconds, the countdown reads `t - n` after `n <= t`
      ticks and is stopped at 0 from tick `t + 1` on. */
  lemma {:induction false} Countdown(t: nat, n: nat)
    ensures AfterTicks(Clock(t, true), n) == if n <= t then Clock(t - n, true) else Clock(0, false)
  {
    if n > 0 {
      if t > 0 {
        Countdown(t - 1, n - 1);
      } else {
        StoppedClockStays(Clock(0, false), n - 1);
      }
    }
  }

  /** The countdown never goes negative and never increases. */
  lemma {:induction false} TimeNeverIncreases(c: Clock, n: nat)
    requires c.timeRemaining >= 0
    ensures 0 <= AfterTicks(c, n).timeRemaining <= c.timeRemaining
    decreases n
  {
    if n > 0 {
      TimeNeverIncreases(NextClock(c), n - 1);
    }
  }

  /** A session starting at 60 seconds is over (stopped at 0) after 61 ticks. */
  lemma SessionEnds()
    ensures AfterTicks(Clock(SessionSeconds, true), SessionSeconds + 1) == Clock(0, false)
  {
    Countdown(SessionSeconds, SessionSeconds + 1);
  }
}
