/** The card-session controller of the flash-card game as a pure state
    machine. Each React state variable of the component is a field of
    `Session`; each callback is a function from the old state to the new
    one. Timers become `Pending` tags that the caller fires later.
 */
module Session {
  import opened Text
  import opened Deck

  datatype Option<T> = None | Some(value: T)

  /** The controller's state. */
  datatype Session = Session(
    deck: seq<Card>,         // the cards of the current set, in play order
    pos: nat,                // index of the card on screen
    visited: set<nat>,       // indices seen since the deck was last replaced
    played: set<string>,     // words ever presented
    spelling: bool,          // spelling mode on
    result: Option<Feedback>, // feedback of the last spelling attempt
    fading: bool)            // feedback is fading out

  /** Follow-up actions the controller schedules on a timer. */
  datatype Pending =
    | Advance      // after 2000 ms: go to the next card after a correct spelling
    | FadeOut      // after 1500 ms: start fading the feedback after a wrong spelling
    | ClearResult  // after 500 ms more: drop the faded feedback
    | RefreshSet   // after 5000 ms: draw a new set once the deck is completed
    | Prompt       // after 1000 ms: ask for the spelling and stop the fade

  /** A new state together with the timers it starts, in order. */
  datatype Reaction = Reaction(session: Session, later: seq<Pending>)

  /** The feedback line under the card. */
  datatype Feedback =
    | Correct                   // the attempt spelled the word
    | Rejected(spoken: string)  // the attempt, trimmed and lower-cased, did not
    | RecognitionFailed         // the recognizer reported an error

  /** The text shown for each kind of feedback. */
  function Message(f: Feedback): string {
    match f
    case Correct => "Correct!"
    case Rejected(spoken) => "\"" + spoken + "\" is not correct. Try again"
    // Split in two: Dafny cannot index into a string literal this long.
    case RecognitionFailed => "Error in speech recognition." + " Please try again."
  }

  /** The feedback is drawn green exactly when its text starts with
      "Correct", which is exactly the correct-spelling feedback. */
  lemma GreenOnlyWhenCorrect(f: Feedback)
    ensures "Correct" <= Message(f) <==> f == Correct
  {
    match f
    case Correct =>
      assert Message(f)[..7] == "Correct";
    case Rejected(_) =>
      assert Message(f)[0] == '"';
    case RecognitionFailed =>
      assert Message(f)[0] == 'E';
  }

  /** Every index in `visited` is a position of a deck of `n` cards. */
  predicate InDeck(visited: set<nat>, n: nat) {
    forall v :: v in visited ==> v < n
  }

  /** The state invariant the transitions maintain. */
  predicate Valid(s: Session) {
    && |s.deck| > 0
    && s.pos < |s.deck|
    && s.pos in s.visited
    && InDeck(s.visited, |s.deck|)
  }

  /** The state after mount: the catalog in its shuffled order, the first
      card on screen and counted as visited, and the played words and
      spelling mode restored from storage. The first card's word is not
      marked played until a later transition. */
  function Init(catalog: seq<Card>, played: set<string>, spelling: bool): (r: Session)
    ensures |catalog| > 0 ==> Valid(r)
    ensures r.deck == catalog && r.played == played && r.spelling == spelling
    ensures r.pos == 0 && r.visited == {0}
    ensures r.result == None && !r.fading
  {
    Session(catalog, 0, {0}, played, spelling, None, false)
  }

  // ---------------------------------------------------------------------
  // Navigation
  // ---------------------------------------------------------------------

  /** `(i + 1) % n`. Both operands are non-negative, so JavaScript's
      truncating remainder and Dafny's Euclidean one agree. */
  function NextIndex(i: nat, n: nat): (r: nat)
    requires n > 0
    ensures r < n
    ensures i + 1 < n ==> r == i + 1
    ensures i + 1 == n ==> r == 0
  {
    (i + 1) % n
  }

  /** `(i - 1 + n) % n`; the dividend is non-negative because `n >= 1`. */
  function PrevIndex(i: nat, n: nat): (r: nat)
    requires n > 0
    ensures r < n
    ensures 0 < i <= n ==> r == i - 1
    ensures i == 0 ==> r == n - 1
  {
    (i - 1 + n) % n
  }

  /** Next and previous undo each other on every valid index. */
  lemma NextPrevInverse(i: nat, n: nat)
    requires i < n
    ensures PrevIndex(NextIndex(i, n), n) == i
    ensures NextIndex(PrevIndex(i, n), n) == i
  {
  }

  /** Show card `i`: it becomes visited and its word played, and the
      spelling feedback is cleared. */
  function ShowCard(s: Session, i: nat): (r: Session)
    requires i < |s.deck|
  {
    s.(pos := i,
       visited := s.visited + {i},
       played := s.played + {s.deck[i].word},
       result := None,
       fading := false)
  }

  /** `goToNextCard`. */
  function Next(s: Session): (r: Session)
    requires |s.deck| > 0
    ensures r.pos < |s.deck|
    ensures s.pos + 1 < |s.deck| ==> r.pos == s.pos + 1
    ensures s.pos + 1 == |s.deck| ==> r.pos == 0
    ensures r.deck == s.deck && r.spelling == s.spelling
    ensures r.visited == s.visited + {r.pos}
    ensures r.played == s.played + {s.deck[r.pos].word}
    ensures r.result == None && !r.fading
  {
    ShowCard(s, NextIndex(s.pos, |s.deck|))
  }

  /** `goToPreviousCard`. */
  function Previous(s: Session): (r: Session)
    requires |s.deck| > 0
    ensures r.pos < |s.deck|
    ensures 0 < s.pos <= |s.deck| ==> r.pos == s.pos - 1
    ensures s.pos == 0 ==> r.pos == |s.deck| - 1
    ensures r.deck == s.deck && r.spelling == s.spelling
    ensures r.visited == s.visited + {r.pos}
    ensures r.played == s.played + {s.deck[r.pos].word}
    ensures r.result == None && !r.fading
  {
    ShowCard(s, PrevIndex(s.pos, |s.deck|))
  }

  /** Going back after going forward (and forward after going back) is
      back on the same card, with nothing learned or played beyond the
      two cards shown. */
  lemma NextThenPrevious(s: Session)
    requires Valid(s)
    ensures Previous(Next(s)).pos == s.pos
    ensures Next(Previous(s)).pos == s.pos
    ensures Previous(Next(s)).visited == s.visited + {Next(s).pos}
    ensures Next(Previous(s)).visited == s.visited + {Previous(s).pos}
  {
    NextPrevInverse(s.pos, |s.deck|);
  }

  // ---------------------------------------------------------------------
  // Replacing the deck
  // ---------------------------------------------------------------------

  /** The first card of a fresh deck is on screen, the only one visited,
      and its word is played; the feedback is left as it was. */
  function StartDeck(s: Session, deck: seq<Card>): (r: Session)
    requires |deck| > 0
  {
    s.(deck := deck, pos := 0, visited := {0}, played := s.played + {deck[0].word})
  }

  /** `shuffleCards`: unplayed cards, then played ones, put in the order
      `order` (which stands for the random comparator sort). Feedback is
      not cleared. */
  function Shuffle(s: Session, order: seq<nat>): (r: Session)
    requires |s.deck| > 0
    requires IsPermutation(order, |s.deck|)
    ensures multiset(r.deck) == multiset(s.deck)
    ensures |r.deck| == |s.deck|
    ensures r.pos == 0 && r.visited == {0}
    ensures r.played == s.played + {r.deck[0].word}
    ensures r.spelling == s.spelling && r.result == s.result && r.fading == s.fading
  {
    var arranged := Unplayed(s.deck, s.played) + AlreadyPlayed(s.deck, s.played);
    SplitIsRearrangement(s.deck, s.played);
    ReorderKeepsMultiset(arranged, order);
    StartDeck(s, Reorder(arranged, order))
  }

  /** `newSet`: a new deck drawn from the catalog, preferring unplayed
      words; the feedback is cleared. */
  function NewSet(s: Session, catalog: seq<Card>): (r: Session)
    requires |catalog| > 0
    ensures |r.deck| == Min(SetSize, |catalog|)
    ensures multiset(r.deck) <= multiset(catalog)
    ensures r.deck == ChooseSet(catalog, s.played)
    ensures r.pos == 0 && r.visited == {0}
    ensures r.played == s.played + {r.deck[0].word}
    ensures r.spelling == s.spelling && r.result == None && !r.fading
  {
    ChooseSetSize(catalog, s.played);
    StartDeck(s, ChooseSet(catalog, s.played)).(result := None, fading := false)
  }

  // ---------------------------------------------------------------------
  // Spelling mode
  // ---------------------------------------------------------------------

  /** `toggleSpellingMode`. */
  function ToggleSpelling(s: Session): (r: Session)
    ensures r.spelling == !s.spelling
    ensures r.result == None && !r.fading
    ensures r.deck == s.deck && r.pos == s.pos
    ensures r.visited == s.visited && r.played == s.played
  {
    s.(spelling := !s.spelling, result := None, fading := false)
  }

  /** Toggling twice restores the mode and everything but the feedback. */
  lemma ToggleTwice(s: Session)
    ensures ToggleSpelling(ToggleSpelling(s)) == s.(result := None, fading := false)
  {
  }

  /** Whether an utterance spells `word`: the utterance lower-cased, trimmed
      and stripped of all whitespace equals the lower-cased word. */
  predicate Spells(transcript: string, word: string) {
    Squash(Trim(Lower(transcript))) == Lower(word)
  }

  /** The spelling check: whitespace anywhere in the utterance and letter
      case on either side are ignored, and nothing else is. */
  lemma SpellsCharacterised(transcript: string, word: string)
    ensures Spells(transcript, word) <==> Lower(Squash(transcript)) == Lower(word)
  {
    SquashIgnoresTrim(Lower(transcript));
    SquashLowerCommute(transcript);
  }

  /** A word containing whitespace can never be spelled: the utterance
      loses all its whitespace, the word keeps its own. */
  lemma SpacedWordNeverSpelled(transcript: string, word: string, k: nat)
    requires k < |word| && IsSpace(word[k])
    ensures !Spells(transcript, word)
  {
    assert IsSpace(Lower(word)[k]);
  }

  /** The recognition `onresult` handler: compare the utterance with the
      word on screen and set the feedback. */
  function Spell(s: Session, transcript: string): (r: Reaction)
    requires s.pos < |s.deck|
    ensures r.session.result == Some(Correct)
            <==> Lower(Squash(transcript)) == Lower(s.deck[s.pos].word)
    ensures r.session.result != Some(Correct)
            ==> r.session.result == Some(Rejected(Trim(Lower(transcript))))
    ensures r.later == (if r.session.result == Some(Correct) then [Advance] else [FadeOut])
    ensures r.session.(result := s.result) == s
  {
    SpellsCharacterised(transcript, s.deck[s.pos].word);
    if Spells(transcript, s.deck[s.pos].word) then
      Reaction(s.(result := Some(Correct)), [Advance])
    else
      Reaction(s.(result := Some(Rejected(Trim(Lower(transcript))))), [FadeOut])
  }

  /** "  C A T " spells "cat". */
  lemma SpellCatExample(s: Session)
    requires |s.deck| > 0 && s.pos < |s.deck| && s.deck[s.pos].word == "cat"
    ensures Spell(s, "  C A T ").session.result == Some(Correct)
    ensures Spell(s, "  C A T ").later == [Advance]
  {
    CatSquashed();
    CatLowered();
  }

  lemma CatLowered()
    ensures Lower("CAT") == Lower("cat")
  {
    assert Lower("CAT") == "cat";
  }

  lemma CatSquashed()
    ensures Squash("  C A T ") == "CAT"
  {
    var t := "  C A T ";
    assert t[1..] == " C A T ";
    assert t[2..] == "C A T ";
    assert t[3..] == " A T ";
    assert t[4..] == "A T ";
    assert t[5..] == " T ";
    assert t[6..] == "T ";
    assert t[7..] == " ";
    assert t[8..] == [];
  }

  /** The recognition `onerror` handler. */
  function RecognitionError(s: Session): (r: Session)
    ensures r.result == Some(RecognitionFailed)
    ensures r.(result := s.result) == s
  {
    s.(result := Some(RecognitionFailed))
  }

  // ---------------------------------------------------------------------
  // Completion and the event loop
  // ---------------------------------------------------------------------

  /** The completion trigger: as many visited indices as cards. */
  predicate Completed(s: Session) {
    |s.visited| == |s.deck|
  }

  /** The "Words learned" counter. */
  function Learned(s: Session): nat {
    |s.visited|
  }

  /** Everything the user or the recognizer can do. */
  datatype Event =
    | GoNext
    | GoPrevious
    | Reshuffle(order: seq<nat>)
    | DrawNewSet
    | ToggleMode
    | TapCard                 // the card itself or its speak button
    | Heard(transcript: string)
    | HearingFailed

  /** What each event needs of the state for the source not to throw. */
  predicate Enabled(s: Session, catalog: seq<Card>, e: Event) {
    match e
    case GoNext => |s.deck| > 0
    case GoPrevious => |s.deck| > 0
    case Reshuffle(order) => |s.deck| > 0 && IsPermutation(order, |s.deck|)
    case DrawNewSet => |catalog| > 0
    case ToggleMode => true
    case TapCard => s.pos < |s.deck|
    case Heard(_) => s.pos < |s.deck|
    case HearingFailed => true
  }

  /** `handleSpeak`: in spelling mode, speaking a word starts the timer that
      asks for the spelling. */
  function SpeakTimers(spelling: bool): (r: seq<Pending>)
    ensures Prompt in r <==> spelling
    ensures forall q :: q in r ==> q == Prompt
  {
    if spelling then [Prompt] else []
  }

  /** The events whose callback speaks the card on screen. */
  predicate Speaks(e: Event) {
    e.GoNext? || e.GoPrevious? || e.Reshuffle? || e.DrawNewSet? || e.TapCard?
  }

  /** The events after which the completion effect runs again, because one
      of its dependencies changed: every navigation and deck replacement
      stores a new `visited` set and a new `played` set (which makes a new
      `newSet` callback), and toggling the mode makes a new `handleSpeak`
      and so a new `newSet`. Spelling feedback and tapping the card change
      none of them. */
  predicate Rechecks(e: Event) {
    e.GoNext? || e.GoPrevious? || e.Reshuffle? || e.DrawNewSet? || e.ToggleMode?
  }

  /** A state with the timers it started, plus the new-set timer when the
      deck is now completed. */
  function Settle(s: Session, later: seq<Pending>): (r: Reaction)
    ensures r.session == s
    ensures later <= r.later
    ensures RefreshSet in r.later <==> RefreshSet in later || Completed(s)
    ensures forall q :: q in r.later[|later|..] ==> q == RefreshSet
  {
    Reaction(s, later + if Completed(s) then [RefreshSet] else [])
  }

  /** The component after mount: the initial state, with the completion
      effect run once on it. A one-card catalog is completed from the start,
      so a new set is scheduled without any user action. */
  function Start(catalog: seq<Card>, played: set<string>, spelling: bool): (r: Reaction)
    ensures r.session == Init(catalog, played, spelling)
    ensures |catalog| > 0 ==> (RefreshSet in r.later <==> |catalog| == 1)
    ensures Prompt !in r.later
  {
    Settle(Init(catalog, played, spelling), [])
  }

  /** One event handled by the controller, followed by the completion check
      when the event changed what that check depends on. */
  function Step(s: Session, catalog: seq<Card>, e: Event): (r: Reaction)
    requires Enabled(s, catalog, e)
    ensures r.session.played >= s.played
    ensures RefreshSet in r.later <==> Rechecks(e) && Completed(r.session)
    ensures Prompt in r.later <==> Speaks(e) && s.spelling
    ensures e.Heard? ==> r == Spell(s, e.transcript)
    ensures Advance in r.later || FadeOut in r.later ==> e.Heard?
    ensures ClearResult !in r.later
  {
    var h := Handle(s, catalog, e);
    if Rechecks(e) then Settle(h.session, h.later) else h
  }

  /** The callback an event runs, and the timers it starts itself. */
  function Handle(s: Session, catalog: seq<Card>, e: Event): (r: Reaction)
    requires Enabled(s, catalog, e)
    ensures r.session.played >= s.played
    ensures RefreshSet !in r.later
    ensures Prompt in r.later <==> Speaks(e) && s.spelling
    ensures e.TapCard? ==> r.session == s
    ensures e.Heard? ==> r == Spell(s, e.transcript)
    ensures Advance in r.later || FadeOut in r.later ==> e.Heard?
    ensures ClearResult !in r.later
  {
    if e.Heard? then Spell(s, e.transcript)
    else Reaction(Callback(s, catalog, e), if Speaks(e) then SpeakTimers(s.spelling) else [])
  }

  /** The state an event other than a recognition result leaves. */
  function Callback(s: Session, catalog: seq<Card>, e: Event): (r: Session)
    requires Enabled(s, catalog, e) && !e.Heard?
    ensures r.played >= s.played
    ensures e.TapCard? ==> r == s
  {
    match e
    case GoNext => Next(s)
    case GoPrevious => Previous(s)
    case Reshuffle(order) => Shuffle(s, order)
    case DrawNewSet => NewSet(s, catalog)
    case ToggleMode => ToggleSpelling(s)
    case TapCard => s
    case HearingFailed => RecognitionError(s)
  }

  /** What a timer needs of the state for the source not to throw. */
  predicate CanFire(s: Session, catalog: seq<Card>, p: Pending) {
    match p
    case Advance => |s.deck| > 0
    case RefreshSet => |catalog| > 0
    case _ => true
  }

  /** A scheduled follow-up running against the current state. Advance and
      the new-set timer run the Next and New Set callbacks, so they speak
      and re-run the completion check as those events do. */
  function Fire(s: Session, catalog: seq<Card>, p: Pending): (r: Reaction)
    requires CanFire(s, catalog, p)
    ensures r.session.played >= s.played
    ensures p == Advance ==> r.session == Next(s)
    ensures p == RefreshSet ==> r.session == NewSet(s, catalog)
    ensures p == FadeOut ==> r.session == s.(fading := true) && r.later == [ClearResult]
    ensures p == ClearResult ==> r.session == s.(result := None) && r.later == []
    ensures p == Prompt ==> r.session == s.(fading := false) && r.later == []
    ensures RefreshSet in r.later <==> (p == Advance || p == RefreshSet) && Completed(r.session)
    ensures Prompt in r.later <==> (p == Advance || p == RefreshSet) && s.spelling
    ensures p == Advance || p == RefreshSet ==> forall q :: q in r.later ==> q == RefreshSet || q == Prompt
  {
    match p
    case Advance => Settle(Next(s), SpeakTimers(s.spelling))
    case FadeOut => Reaction(s.(fading := true), [ClearResult])
    case ClearResult => Reaction(s.(result := None), [])
    case RefreshSet => Settle(NewSet(s, catalog), SpeakTimers(s.spelling))
    case Prompt => Reaction(s.(fading := false), [])
  }
}
