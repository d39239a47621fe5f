# Flash-card session controller, modelled in Dafny

The flash-card game shows one word/image card at a time. It speaks the
word. In spelling mode it listens for a spoken spelling and checks it. It
also tracks which cards of the current set the user has seen. All of this
logic lives in the React component `FlashCardGame`
(`components/flash-card-game.tsx`), as state hooks and callbacks.

This project restates that controller as a pure state machine:

- `text.dfy` (module `Text`): the normalisation used by the spelling
  check. It covers `toLowerCase`, `trim` and `replace(/\s+/g, '')` over
  `seq<char>`, with the ECMAScript whitespace set.
- `deck.dfy` (module `Deck`): the `Card` record, the played/unplayed
  filters, the New Set selection of up to 10 cards, and reordering a deck
  by a caller-supplied permutation.
- `session.dfy` (module `Session`): the `Session` record (deck, position,
  visited indices, played words, spelling flag, feedback, fade flag) and
  one transition per callback: Next, Previous, Shuffle, New Set, toggle
  spelling mode, the recognition result and error handlers.
  - Timers become `Pending` tags: `Advance` (2000 ms), `FadeOut`
    (1500 ms), `ClearResult` (500 ms), `RefreshSet` (5000 ms) and the
    spelling prompt `Prompt` (1000 ms), which clears the fade flag. `Fire`
    runs a tag against the current state.
  - The feedback string is a `Feedback` value: `Correct`, `Rejected`
    (with the quoted utterance) or `RecognitionFailed`. `Message` gives
    the text the component shows for each.
  - `Step` dispatches one user or recognizer `Event`. The completion
    check runs again only after events that change one of its effect's
    dependencies (line 209). It schedules `RefreshSet` exactly when the
    check runs and the deck is completed.
- `progress.dfy` (module `Progress`): properties of runs. It covers the
  state invariant under every event and timer, the "Words learned"
  counter, the completion trigger, and walking the deck with repeated
  Next steps.

Inputs the component takes from the browser are parameters:

- The catalog is the shuffled `FLASHCARDS` list, passed as a `seq<Card>`.
- The random comparator sort in Shuffle is an index permutation `order`.
- The restored played words and spelling flag are arguments of `Init`.

An empty deck or catalog makes the component throw when it reads `.word`
of an undefined card. The transitions that would do so carry a `requires`
for a non-empty deck or catalog.

## Model

| member | source | states |
|---|---|---|
| `Text.IsSpace` | components/flash-card-game.tsx:115-116 | the whitespace set shared by `trim` and `\s`: ECMAScript WhiteSpace and LineTerminator code points; `LowerChar` keeps it, `Squash` removes it |
| `Text.LowerChar` | components/flash-card-game.tsx:115 | an ASCII upper-case letter becomes the same letter in lower case; every other character is kept, and whitespace stays whitespace |
| `Text.Lower` | components/flash-card-game.tsx:115-117 | `toLowerCase` keeps the length and lower-cases character by character |
| `Text.Trim` | components/flash-card-game.tsx:115 | the trimmed utterance is the input minus an all-whitespace prefix and suffix, and it neither starts nor ends with whitespace |
| `Text.Squash` | components/flash-card-game.tsx:116 | whitespace removal leaves no whitespace and never lengthens the text |
| `Text.SquashAppend` | components/flash-card-game.tsx:116 | whitespace removal works piecewise on concatenated text |
| `Text.SquashIgnoresTrim` | components/flash-card-game.tsx:115-116 | trimming before removing whitespace changes nothing |
| `Text.SquashSurrounded` | components/flash-card-game.tsx:115-116 | whitespace-only text around a piece disappears when whitespace is removed |
| `Text.SquashLowerCommute` | components/flash-card-game.tsx:115-117 | lower-casing and whitespace removal commute |
| `Deck.Unplayed` | components/flash-card-game.tsx:169 | only cards whose word was never played are kept; `KeepMembers` gives the converse and `KeepAppend` the order |
| `Deck.AlreadyPlayed` | components/flash-card-game.tsx:170 | only cards whose word was played are kept; `KeepMembers` gives the converse and `KeepAppend` the order |
| `Deck.Keep` | components/flash-card-game.tsx:169-170 | a filter is never longer than the deck and keeps only cards on the wanted side of the played test |
| `Deck.KeepAppend` | components/flash-card-game.tsx:169-170 | filtering preserves the deck order |
| `Deck.KeepMembers` | components/flash-card-game.tsx:169-170 | a card survives a filter iff it is in the deck and on the wanted side of the played test |
| `Deck.SplitIsRearrangement` | components/flash-card-game.tsx:169-171 | unplayed cards followed by played cards are a rearrangement of the deck, so no card is lost or duplicated |
| `Deck.ChooseSet` | components/flash-card-game.tsx:190-193 | a new set never has more than 10 cards; `ChooseSetSize`, `ChooseSetOrder` and `ChooseSetPrefersUnplayed` pin down exactly which cards it holds |
| `Deck.ChooseSetSize` | components/flash-card-game.tsx:190-193 | a new set has exactly min(10, catalog size) cards, all from the catalog |
| `Deck.ChooseSetOrder` | components/flash-card-game.tsx:190-193 | with 10 or more unplayed cards the set is the first 10 of them; otherwise it is all unplayed cards, then played cards in catalog order |
| `Deck.ChooseSetPrefersUnplayed` | components/flash-card-game.tsx:190-193 | a played card is chosen only when every unplayed card of the catalog is in the set |
| `Deck.Reorder` | components/flash-card-game.tsx:171 | the reordered deck has one card per entry of the order; `ReorderKeepsMultiset` shows it is a rearrangement |
| `Deck.ReorderKeepsMultiset` | components/flash-card-game.tsx:171 | reordering by any permutation keeps every card with its multiplicity |
| `Session.Init` | components/flash-card-game.tsx:53-59 | the starting state shows card 0 with only index 0 visited, keeps the catalog, the restored words and the mode, is valid for a non-empty catalog, and has no feedback |
| `Session.Start` | components/flash-card-game.tsx:203-214 | at mount the completion effect runs on the initial state, so a new set is scheduled exactly when the catalog has one card, and no spelling prompt is started |
| `Session.NextIndex` | components/flash-card-game.tsx:80 | the next index stays in [0, n), steps by one, and wraps from n-1 to 0 |
| `Session.PrevIndex` | components/flash-card-game.tsx:180 | the previous index stays in [0, n), steps back by one, and wraps from 0 to n-1 |
| `Session.NextPrevInverse` | components/flash-card-game.tsx:180 | next and previous index arithmetic undo each other |
| `Session.Next` | components/flash-card-game.tsx:79-87 | Next moves one card on, wrapping at the end; it adds the new index to visited and its word to played, clears feedback and fading, and keeps the deck and mode |
| `Session.Previous` | components/flash-card-game.tsx:179-187 | Previous moves one card back, wrapping at the start, with the same bookkeeping as Next |
| `Session.NextThenPrevious` | components/flash-card-game.tsx:179-187 | Previous after Next (and Next after Previous) returns to the same card |
| `Session.Shuffle` | components/flash-card-game.tsx:168-177 | the shuffled deck is a permutation of the old one; position 0, visited {0}, the first card's word is added to played, and feedback is left alone |
| `Session.NewSet` | components/flash-card-game.tsx:189-201 | the new deck has min(10, catalog size) cards chosen from the catalog; position 0, visited {0}, the first word is added to played, and feedback is cleared |
| `Session.ToggleSpelling` | components/flash-card-game.tsx:216-224 | the mode flips, feedback and fading clear, and deck, position, visited and played are unchanged |
| `Session.ToggleTwice` | components/flash-card-game.tsx:216-224 | toggling twice restores everything except the cleared feedback |
| `Session.Spells` | components/flash-card-game.tsx:115-118 | the match test as written, lower-case, trim, remove whitespace and compare; `SpellsCharacterised` gives its meaning and `SpacedWordNeverSpelled` a consequence |
| `Session.SpellsCharacterised` | components/flash-card-game.tsx:115-118 | an utterance matches iff it equals the word once both are lower-cased and the utterance's whitespace is removed |
| `Session.SpacedWordNeverSpelled` | components/flash-card-game.tsx:116-118 | a card word that contains whitespace can never be matched |
| `Session.Spell` | components/flash-card-game.tsx:114-132 | the feedback is Correct exactly when the utterance without whitespace equals the word, ignoring case, and then Advance is scheduled; otherwise the feedback quotes the lower-cased, trimmed utterance and FadeOut is scheduled; nothing else changes |
| `Session.Message` | components/flash-card-game.tsx:119 | the text of each feedback, as set at lines 119, 126 and 137; `GreenOnlyWhenCorrect` shows which one is drawn green |
| `Session.GreenOnlyWhenCorrect` | components/flash-card-game.tsx:276 | a feedback message starts with "Correct" exactly when it is the correct-spelling feedback, so only that one is drawn green |
| `Session.SpellCatExample` | components/flash-card-game.tsx:115-119 | "  C A T " spells "cat" |
| `Session.RecognitionError` | components/flash-card-game.tsx:135-138 | a recognition error sets the recognition-failed feedback and changes nothing else |
| `Session.Completed` | components/flash-card-game.tsx:204 | the completion trigger; `CompletedIffAllVisited` shows it holds exactly when every card was visited |
| `Session.Learned` | components/flash-card-game.tsx:312 | the "Words learned" counter; `CompletedIffAllVisited` bounds it by the deck size |
| `Session.Settle` | components/flash-card-game.tsx:203-209 | a new-set timer is added exactly when the state is completed, and it is the only timer added |
| `Session.SpeakTimers` | components/flash-card-game.tsx:62-77 | speaking a card starts the spelling prompt exactly in spelling mode, and no other timer |
| `Session.Callback` | components/flash-card-game.tsx:79-224 | no callback forgets a played word, and tapping the card changes nothing |
| `Session.Handle` | components/flash-card-game.tsx:62-75 | no callback forgets a played word or starts the new-set timer itself; tapping the card changes nothing; the spelling prompt is started exactly by the callbacks that speak a card, in spelling mode; a recognition result runs the spelling check, only it starts the Advance or fade timer, and no event starts the clear timer directly |
| `Session.Step` | components/flash-card-game.tsx:203-209 | no event forgets a played word; this step starts a new-set timer exactly when the event changed a dependency of the completion effect (navigation, deck replacement, mode toggle) and the deck is completed; it starts the spelling prompt exactly when it speaks a card in spelling mode; only a recognition result starts the Advance or fade timer, and then the step is the spelling check; no event starts the clear timer directly |
| `Session.Fire` | components/flash-card-game.tsx:122-131 | Advance runs Next and the new-set timer runs New Set, each re-running the completion check and the spelling prompt and starting no other timer; the fade timer sets fading and schedules only the clear; the clear timer drops the feedback; the prompt timer clears fading (line 67); no timer forgets a played word |
| `Progress.CompletedIffAllVisited` | components/flash-card-game.tsx:203-209 | if visited holds only deck indices, the "Words learned" counter is at most the deck size, and the completion trigger holds iff every index was visited |
| `Progress.StepPreservesValid` | components/flash-card-game.tsx:79-224 | every event keeps the position in range and in visited, with visited inside the deck |
| `Progress.FirePreservesValid` | components/flash-card-game.tsx:122-131 | every timer keeps the state invariant |
| `Progress.StepVisited` | components/flash-card-game.tsx:168-201 | between deck replacements the deck is unchanged and visited only grows; Shuffle and New Set reset visited to {0}; played never shrinks |
| `Progress.Walk` | components/flash-card-game.tsx:79-87 | repeated Next steps keep the deck and never shrink visited or played |
| `Progress.WalkPosition` | components/flash-card-game.tsx:80 | after k Next steps (k at most n) the position is k places further round the deck |
| `Progress.WalkRoundTrip` | components/flash-card-game.tsx:80 | n Next steps on a deck of n cards return to the starting card |
| `Progress.WalkVisits` | components/flash-card-game.tsx:82 | every card passed by the Next steps is in visited |
| `Progress.WalkVisitsAll` | components/flash-card-game.tsx:79-87 | n-1 Next steps from a valid state visit every index of a deck of n cards |
| `Progress.WalkCompletes` | components/flash-card-game.tsx:203-209 | from a valid state, n-1 Next steps visit every card, so the completion trigger fires |

## Left out

- Rendering, animation and button wiring are not modelled. The keyboard
  handler is not modelled either. Its effect has an empty dependency
  list, so the arrow keys act on the first render's callbacks.
- Session.Fire: real timers and their delays are not modelled. `Fire`
  runs a pending action against the current state. In the component, the Advance and new-set
  timers call the callbacks captured when they were scheduled. Those
  callbacks can hold an older position or older played words. Only the
  functional updates of visited and played see the latest state.
- Session.Step: the extra re-runs of the completion effect are not
  modelled. In the component, the effect at line 212 and the storage
  reload (line 93) also replace `visited` after a navigation, so the
  effect can run, and start a new-set timer, more than once per event.
  The model starts at most one `RefreshSet` per step.
- Speech output, the spoken prompt text, starting and aborting
  recognition, sounds and confetti are calls into browser APIs and are
  left out. The state change the prompt timer makes, clearing the fade
  flag at line 67, is modelled as `Prompt`.
- `localStorage` persistence is not modelled. Restored played words and the
  spelling flag are `Init` arguments. The restored visited set is not
  modelled: it is never validated and could hold indices outside the deck.
  `CompletedIffAllVisited` therefore assumes that visited holds only deck
  indices.
- The progress percentage is floating point. Only the integer "Words
  learned" counter is modelled.
- `Math.random` comparator sorts are not modelled. The initial catalog
  order is a parameter, and Shuffle's order is a permutation argument.
- `Text.LowerChar`: lower-casing covers ASCII letters only. Other
  characters are kept unchanged, so Unicode case mapping is not modelled.
- `Text.Lower`: as for `LowerChar`, so a lower-cased string always keeps
  its length.
- Session.Init: the effect at line 212-214 adds the current index to
  visited. Init only models its first run, which yields visited {0}. Each
  navigation in the model adds the new index itself, which is what that
  effect's later runs restore.
- Session.Init: a stored spelling mode is not modelled
  at mount. In the component, restoring that mode gives `handleSpeak` and
  `goToNextCard` a new identity, so the load effect (lines 89-146) runs a
  second time. By then the save effects (lines 148-154) have stored the
  empty initial sets, so mount ends with visited and played empty and card
  0 not visited. Init gives visited {0} and the restored words in that
  case too.
- Session.Start: its state is Init's, so it has the same gap when the
  stored mode is spelling.
- The storage reload on re-render is not modelled. The effect declared at
  lines 89-146 lists `cards`, `currentCardIndex` and `goToNextCard` as
  dependencies, so it runs again after every navigation and deck
  replacement. It then reloads the `visited` and `played` sets stored by
  the previous render, overwriting what the callback just set. The model
  gives each callback's own updates only. This affects the members below.
- Session.Next: in the component, the word added to played is lost
  again when the stored set is reloaded.
- Session.Previous: as for Next, the word added to played is lost on reload.
- Session.Shuffle: in the component, visited becomes the reloaded set plus
  index 0 rather than {0}, and the first word may drop out of played.
- Session.NewSet: as for Shuffle, and the reloaded visited set can hold
  indices of the old, longer deck, so `Valid` and the counter bound fail.
- Progress.StepVisited: its reset of visited to {0} after Shuffle and New
  Set, and its growing played set, hold for the callbacks' own updates only.
- The onboarding dialog, the speech and audio helpers, the confetti effect,
  the flash-card data loader and the build configuration are not part of
  this model.
