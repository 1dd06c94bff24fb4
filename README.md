# memo-timeline, modelled in Dafny

memo-timeline is a small React journaling client. It keeps a list of memos: dated entries, each with a
mood and some tags. It shows them on a vertical timeline, grouped by month, with cards alternating left
and right. A full-screen editor writes new memos and edits existing ones. A decorative overlay drifts
quotations from a fixed catalogue across the page. This project models the four components that carry
the application's logic:

- `app.dfy` (module `App`) models the top-level controller from `src/App.jsx`. It is a class holding:
  - the memo list;
  - the four-state page/editor transition machine;
  - the memo being edited;
  - the two pending transition timers.

  Adding, updating and deleting memos are pure list functions. The controller methods are proved
  against them.
- `editor.dfy` (module `Editor`) models the editor from `src/components/MemoEditor.jsx`. It is a class
  with content, mood, tags, tag input and focus area. It covers:
  - the keyboard handler (Escape, Cmd/Ctrl+Enter, Tab and Shift+Tab, the mood arrows);
  - adding and removing tags;
  - mood clicks;
  - saving.

  The mood cycle, the focus cycle and the tag list operations are functions with lemmas about them.
- `quotes.dfy` (module `Quotes`) models `src/components/QuoteOverlay.jsx`. It has two parts:
  - The `splitText` tokenizer: a method with nested loops, proved equal to a recursive
    specification. That specification is shown to concatenate back to the input and to be the only
    well-formed split.
  - The overlay: a class holding the active quotes, the ids being removed, the used catalogue
    indices and the per-quote auto-dismiss timer table. Each timer callback is a method that the
    environment may call.
- `timeline.dfy` (module `Timeline`) models `src/components/Timeline.jsx`. It covers:
  - grouping memos by their `year-month` key (a method with a loop over a dictionary);
  - sorting the keys in descending string order (insertion sort as a function);
  - laying out the cards with a running global index (nested loops).

  The whole render is proved to show every memo exactly once, with groups in descending key order,
  memos in input order within their group, and sides alternating from the left.
- `text.dfy` (module `Text`) holds JavaScript's `String.prototype.trim` and the decimal rendering of
  integers used in the month keys.
- `journal.dfy` (module `Journal`) holds the memo and draft records.
- `lists.dfy` (module `Lists`) holds generic sequence predicates.

Timer callbacks are modelled as methods such as `EditorOpenFires`, `IdleFires`, `ExpiryFires`,
`RemovalFires` and `SpawnFires`. The environment may call them only while the matching timer is
pending. The model takes three values as parameters: the current time, `Date.now()` ids and the
randomly chosen quote depth. The random catalogue index is a nondeterministic choice among the unused
indices.

## Model

| member | source | states |
|---|---|---|
| App.SeedStore | src/App.jsx:9-45 | the seed journal has five memos with ids 1 to 5, all distinct |
| App.InitialMemos | src/App.jsx:48-54 | the memo list at start: the stored list when there is one, else the seed; `SeedStore` states the seed's ids |
| App.NewEntry | src/App.jsx:81 | a new memo keeps the draft's content, mood and tags and gets the fresh id and the current date |
| App.Prepend | src/App.jsx:80-82 | adding puts `NewEntry` of the draft (its content, mood and tags with the fresh id and the current date) first and shifts every old memo by one, unchanged |
| App.PrependKeepsIdsUnique | src/App.jsx:81-82 | adding a memo whose fresh id is not yet used keeps ids distinct |
| App.Replace | src/App.jsx:86-87 | updating keeps length and id order; exactly the memo with the draft's id takes the draft's fields; distinct ids stay distinct |
| App.Remove | src/App.jsx:91 | deleting removes every memo with that id, keeps every other memo with its multiplicity, and keeps order |
| App.RemoveKeepsIdsUnique | src/App.jsx:91 | deleting preserves distinct ids |
| App.RemoveAbsent | src/App.jsx:91 | deleting an id that is not present changes nothing |
| App.IsPageVisible | src/App.jsx:93 | the page shows while idle or transitioning out; `FlagsConsistent` relates the flags |
| App.IsPageLeaving | src/App.jsx:94 | the page is leaving while transitioning out |
| App.IsEditorVisible | src/App.jsx:95 | the editor shows while open or transitioning in |
| App.IsEditorLeaving | src/App.jsx:96 | the editor is leaving while transitioning in |
| App.IsBackgroundPaused | src/App.jsx:100 | the background is paused in every state but idle |
| App.FlagsConsistent | src/App.jsx:93-96 | the page and the editor are never both visible; a leaving view is visible; the background runs exactly while the page is visible and not leaving |
| App.Controller.constructor | src/App.jsx:48-58 | starts idle with no memo being edited and no pending timers, holding the stored memos or else the seed |
| App.Controller.OpenEditor | src/App.jsx:64-69 | records the memo being edited, enters transitioning-out and schedules one open timer; memos unchanged |
| App.Controller.EditorOpenFires | src/App.jsx:68 | a pending open timer moves the app to editor-open |
| App.Controller.CloseEditor | src/App.jsx:71-78 | enters transitioning-in and schedules one close timer |
| App.Controller.IdleFires | src/App.jsx:74-77 | a pending close timer returns the app to idle and clears the memo being edited |
| App.Controller.AddMemo | src/App.jsx:80-84 | the memo list becomes the prepended list and the editor starts closing |
| App.Controller.UpdateMemo | src/App.jsx:86-89 | the memo list becomes the replaced list and the editor starts closing |
| App.Controller.DeleteMemo | src/App.jsx:91 | the memo list becomes the filtered list; app state unchanged |
| App.Controller.Save | src/App.jsx:138 | the editor's save callback updates when a memo is being edited and adds otherwise |
| App.NewEntryRoundTrip | src/App.jsx:64-84 | open, editor-open, save and idle, in that order, return the app to idle with the new memo prepended and no timer pending |
| Text.Trim | src/components/MemoEditor.jsx:108-110 | trim is a slice of the input with only whitespace outside it; it is empty exactly for blank input and otherwise has no whitespace at either end |
| Text.TrimIdempotent | src/components/MemoEditor.jsx:108-110 | trimming twice equals trimming once |
| Editor.FindMoodFrom | src/components/MemoEditor.jsx:25 | finds the first catalogue position at or after the start that holds the mood, or -1 when none does |
| Editor.MoodIndex | src/components/MemoEditor.jsx:25 | the mood's index is -1 exactly when the mood is not in the catalogue, and otherwise points at it |
| Editor.MoodLeft | src/components/MemoEditor.jsx:86-89 | the left arrow always lands on a catalogue mood |
| Editor.MoodRight | src/components/MemoEditor.jsx:90-93 | the right arrow always lands on a catalogue mood |
| Editor.MoodIndexOf | src/components/MemoEditor.jsx:25 | every catalogue mood is found at its own position |
| Editor.MoodArrowsCycle | src/components/MemoEditor.jsx:85-94 | the arrows move one step around the mood catalogue modulo its length |
| Editor.MoodArrowsWrap | src/components/MemoEditor.jsx:88-92 | right from the last mood gives the first, and left from the first gives the last |
| Editor.MoodArrowsInverse | src/components/MemoEditor.jsx:85-94 | left and right undo each other on catalogue moods |
| Editor.MoodArrowsFromUnknown | src/components/MemoEditor.jsx:25-93 | from a mood outside the catalogue, right gives the first mood and left gives the last |
| Editor.ThreeRightsFromPeaceful | src/components/MemoEditor.jsx:16-93 | three right arrows from the default mood reach the first mood |
| Editor.TabForward | src/components/MemoEditor.jsx:70-80 | Tab moves the focus content, mood, tags, content; `TabCycle` states the cycle |
| Editor.TabBackward | src/components/MemoEditor.jsx:58-68 | Shift+Tab moves the focus content, tags, mood, content; `TabCycle` states it undoes Tab |
| Editor.TabCycle | src/components/MemoEditor.jsx:56-82 | Tab always moves focus, returns after three presses, and Shift+Tab undoes it |
| Editor.WithoutTag | src/components/MemoEditor.jsx:269 | removing a tag drops every copy of it, keeps all other tags with their multiplicity, and keeps order |
| Editor.WithoutTagKeepsNoDuplicates | src/components/MemoEditor.jsx:269 | removing a tag keeps a duplicate-free tag list duplicate-free |
| Editor.WithTag | src/components/MemoEditor.jsx:107-112 | adding appends the trimmed input unless it is blank or already present; the old tags stay a prefix; duplicate-freedom is kept |
| Editor.SaveDraft | src/components/MemoEditor.jsx:104 | the saved object carries the typed content, mood and tags, and the edited memo's id and date, or no id and the current time for a new entry |
| Editor.MemoEditor.constructor | src/components/MemoEditor.jsx:14-19 | starts with the memo's content, mood (or the default) and tags, or empty ones for a new memo; tag input empty, content focused |
| Editor.MemoEditor.HandleSave | src/components/MemoEditor.jsx:102-105 | saves nothing exactly when the content is blank; otherwise hands over exactly the `SaveDraft` of the current content, mood and tags |
| Editor.MemoEditor.HandleKeyDown | src/components/MemoEditor.jsx:43-100 | Escape closes; Cmd/Ctrl+Enter with non-blank content saves exactly the `SaveDraft` of the current content, mood and tags; Tab and Shift+Tab cycle focus; arrows change the mood only while the mood area has focus; other keys do nothing |
| Editor.MemoEditor.AddTag | src/components/MemoEditor.jsx:107-113 | Enter on a non-blank tag input adds the trimmed tag and clears the input; any other key changes nothing; no duplicate tag is ever introduced |
| Editor.MemoEditor.RemoveTag | src/components/MemoEditor.jsx:269 | clicking a tag removes it from the tag list |
| Editor.MemoEditor.ClickMood | src/components/MemoEditor.jsx:208-211 | clicking a mood selects it and focuses the mood area |
| Editor.MemoEditor.ClickMoodSelector | src/components/MemoEditor.jsx:117-121 | clicking the mood row focuses the mood area |
| Editor.MemoEditor.FocusContent | src/components/MemoEditor.jsx:34-40 | focusing the textarea, as the initial 800 ms timer does, sets the focus area to content |
| Editor.MemoEditor.FocusTags | src/components/MemoEditor.jsx:116 | focusing the tag input sets the focus area to tags |
| Editor.MemoEditor.EditContent | src/components/MemoEditor.jsx:242 | typing replaces the content |
| Editor.MemoEditor.EditTagInput | src/components/MemoEditor.jsx:280 | typing replaces the tag input |
| Quotes.RunLength | src/components/QuoteOverlay.jsx:24-27 | the word run is the longest prefix of letters and apostrophes |
| Quotes.Tokens | src/components/QuoteOverlay.jsx:17-35 | the token split as a recursive definition (a maximal word run from a letter, else one character); `TokensConcat`, `TokensWellFormed` and `TokensUnique` state its meaning |
| Quotes.SplitText | src/components/QuoteOverlay.jsx:17-35 | the tokenizer loop returns exactly the recursive token specification |
| Quotes.TokensWordStep | src/components/QuoteOverlay.jsx:22-28 | a word starting with a letter and ending before a non-word character is one token |
| Quotes.TokensOtherStep | src/components/QuoteOverlay.jsx:29-31 | a non-letter character is a token by itself |
| Quotes.TokensConcat | src/components/QuoteOverlay.jsx:17-35 | concatenating the tokens gives back the text |
| Quotes.TokensWellFormed | src/components/QuoteOverlay.jsx:17-35 | every token is a maximal word starting with a letter or a single non-letter, and there are at most as many tokens as characters |
| Quotes.TokensUnique | src/components/QuoteOverlay.jsx:17-35 | any well-formed split that concatenates to the text is the token split |
| Quotes.UsedFullIffAll | src/components/QuoteOverlay.jsx:217 | the used set reaches the catalogue size exactly when every index has been used |
| Quotes.UnusedBelow | src/components/QuoteOverlay.jsx:218 | a set of indices below n with fewer than n elements misses one of them |
| Quotes.UnusedIndexExists | src/components/QuoteOverlay.jsx:217-218 | after the reset check an unused catalogue index exists, so the draw loop ends |
| Quotes.KeepNewest | src/components/QuoteOverlay.jsx:222-227 | keeps the last four quotes, in order |
| Quotes.KeepNewestAppend | src/components/QuoteOverlay.jsx:222-227 | a new quote is always shown last; below four nothing is dropped; at four the oldest is dropped |
| Quotes.MarkRemoving | src/components/QuoteOverlay.jsx:230-234 | an id becomes removing exactly when it is active or already removing |
| Quotes.MarkRemovingIdempotent | src/components/QuoteOverlay.jsx:230-232 | starting the removal of the same id twice has the effect of once |
| Quotes.WithoutQuote | src/components/QuoteOverlay.jsx:238 | the filter drops every quote with that id, keeps every other quote with its multiplicity, and keeps their order |
| Quotes.QuoteIds | src/components/QuoteOverlay.jsx:257 | collects exactly the ids of the active quotes |
| Quotes.DeleteEntry | src/components/QuoteOverlay.jsx:275-280 | deleting one timer entry keeps keys unique and removes exactly that key |
| Quotes.QuoteOverlay.constructor | src/components/QuoteOverlay.jsx:200-205 | starts with no quotes, no removals, no used indices and no timers; the spawn timers run exactly when active and not leaving |
| Quotes.QuoteOverlay.ReconcileTimers | src/components/QuoteOverlay.jsx:266-281 | afterwards every active quote that is not removing has a timer, and only active quotes have timers; keys stay unique; surviving timers are kept; new timers get fresh handles |
| Quotes.QuoteOverlay.StartRemoveQuote | src/components/QuoteOverlay.jsx:230-245 | marks an active quote as removing and schedules its removal; unknown or already removing ids change nothing |
| Quotes.QuoteOverlay.ExpiryFires | src/components/QuoteOverlay.jsx:270 | a pending 20 s timer starts removing its quote |
| Quotes.QuoteOverlay.RemovalFires | src/components/QuoteOverlay.jsx:237-244 | the 8 s removal drops the quote, clears its removing mark and retires its timer; the timers of the remaining quotes are kept, and any new timer has a fresh handle |
| Quotes.QuoteOverlay.DrawIndex | src/components/QuoteOverlay.jsx:215-219 | draws an index not used since the last reset, clearing the used set first when the catalogue is exhausted |
| Quotes.QuoteOverlay.SpawnFires | src/components/QuoteOverlay.jsx:215-228 | adds a quote from a freshly drawn index and keeps at most four, the newest last; the timers of the quotes still shown are kept, and new timers have fresh handles |
| Quotes.QuoteOverlay.StartRemovingAll | src/components/QuoteOverlay.jsx:257 | every active quote is marked removing |
| Quotes.QuoteOverlay.SetProps | src/components/QuoteOverlay.jsx:255-264 | becoming inactive or leaving starts removing every quote and clears the used indices; becoming active and not leaving starts the spawn timers and leaves the removing set and the used indices alone; unchanged props do nothing |
| Text.NatToString | src/components/Timeline.jsx:18 | renders a natural number as a non-empty string of digits without a leading zero |
| Text.NatToStringValue | src/components/Timeline.jsx:18 | the digits of the rendering denote the number, read by Horner's rule |
| Text.IntToString | src/components/Timeline.jsx:18 | the rendering starts with a minus sign exactly for negative numbers and is otherwise all digits, with no leading zero on the magnitude (so a month is never zero-padded); `IntToStringValue` gives the number it denotes |
| Text.IntToStringValue | src/components/Timeline.jsx:18 | the digits after any sign denote the absolute value of the number |
| Timeline.KeyOf | src/components/Timeline.jsx:17-18 | the group key: year, a dash, and the 0-based month, unpadded; `SameKeyIffSameMonth` states its meaning |
| Timeline.NatToStringInjective | src/components/Timeline.jsx:18 | different natural numbers render differently |
| Timeline.IntToStringInjective | src/components/Timeline.jsx:18 | different integers render differently |
| Timeline.SameKeyIffSameMonth | src/components/Timeline.jsx:17-18 | two dates have the same group key exactly when they have the same year and month |
| Timeline.WithKey | src/components/Timeline.jsx:19-26 | a group holds exactly the memos with its key |
| Timeline.KeysInOrder | src/components/Timeline.jsx:16-30 | the keys in first-seen order have no duplicates and include every memo's key |
| Timeline.UnseenKeyEmpty | src/components/Timeline.jsx:19 | a key that was never seen has no memos |
| Timeline.WithKeyAppend | src/components/Timeline.jsx:26 | one more memo extends only its own group |
| Timeline.KeysInOrderAppend | src/components/Timeline.jsx:19-25 | one more memo adds its key at the end exactly when the key is new |
| Timeline.JoinedGroup | src/components/Timeline.jsx:19-26 | creating the group when missing, then pushing the memo, gives the group of the longer list |
| Timeline.OtherGroup | src/components/Timeline.jsx:26 | pushing a memo leaves every other group as it was |
| Timeline.GroupStep | src/components/Timeline.jsx:16-28 | one reducer step keeps the dictionary a correct grouping of the memos seen so far |
| Timeline.GroupMemos | src/components/Timeline.jsx:16-28 | the dictionary has exactly the first-seen keys; each group holds its memos in input order, with the year and month of its first memo |
| Timeline.InKeysAll | src/components/Timeline.jsx:16-28 | when every memo's key is listed, selecting the listed keys keeps all memos |
| Timeline.LexIrreflexive | src/components/Timeline.jsx:30 | no key sorts before itself |
| Timeline.LexTransitive | src/components/Timeline.jsx:30 | the key order is transitive |
| Timeline.LexTotal | src/components/Timeline.jsx:30 | of two different keys exactly one sorts first |
| Timeline.Insert | src/components/Timeline.jsx:30 | inserting adds exactly one copy of the key |
| Timeline.InsertDescending | src/components/Timeline.jsx:30 | inserting into a descending list keeps it descending |
| Timeline.SortDesc | src/components/Timeline.jsx:30 | the sorted keys are a permutation of the keys |
| Timeline.SortDescending | src/components/Timeline.jsx:30 | the sorted keys are in descending order |
| Timeline.SortNoDuplicates | src/components/Timeline.jsx:30 | sorting distinct keys gives distinct keys |
| Timeline.DescendingUnique | src/components/Timeline.jsx:30 | two descending permutations of the same keys are equal, so any correct sort gives this order |
| Timeline.AutumnKeys | src/components/Timeline.jsx:17-18 | the keys of October and December 2024 are "2024-9" and "2024-11", month numbers counted from 0 and unpadded |
| Timeline.OctoberBeforeDecember | src/components/Timeline.jsx:18-30 | in the same year October ("2024-9") is listed above December ("2024-11"), since keys compare as strings |
| Timeline.SideAt | src/components/Timeline.jsx:102 | the side of render position n: left for even n, right for odd n |
| Timeline.GroupCards | src/components/Timeline.jsx:101-103 | within a group each card has its memo, its index in the group and the side given by the global counter |
| Timeline.Cards | src/components/Timeline.jsx:67-118 | the cards of the groups in the given order, the running index continuing across groups; `CardsAlternate`, `CardsShowGroups` and `CardsInGroupOrder` state its meaning |
| Timeline.CardsAlternate | src/components/Timeline.jsx:31-103 | card n is on the left exactly when n is even |
| Timeline.CardsShowGroups | src/components/Timeline.jsx:67-101 | the cards show the groups' memos one after another, in group order |
| Timeline.CardsInGroupOrder | src/components/Timeline.jsx:67-118 | each card carries its group's key and its index in the group; indices increase within a group |
| Timeline.Layout | src/components/Timeline.jsx:31-118 | the nested loops with the running global index produce exactly the specified cards |
| Timeline.FlattenKeepsMemos | src/components/Timeline.jsx:16-67 | the groups laid end to end hold, as a multiset, the memos whose keys are listed |
| Timeline.GroupSizesSum | src/components/Timeline.jsx:16-28 | the group sizes add up to the number of memos, and together the groups hold every memo |
| Timeline.SortedKeys | src/components/Timeline.jsx:30 | the sorted keys are the group keys, distinct and descending |
| Timeline.TimelineShowsAll | src/components/Timeline.jsx:16-118 | the timeline has one card per memo and shows every memo exactly as often as it occurs |
| Timeline.TimelineKeysDescend | src/components/Timeline.jsx:30-67 | a card never comes after a card with a smaller key |
| Timeline.TimelineCardsInTheirGroup | src/components/Timeline.jsx:16-108 | each card sits under the key of its memo, at its position within that month's memos |
| Timeline.TimelineKeepsInputOrder | src/components/Timeline.jsx:26-101 | within a month, cards appear in the order the memos are stored |
| Timeline.Render | src/components/Timeline.jsx:16-118 | rendering shows every memo once, months in descending key order, memos in input order within a month, sides alternating from the left |

## Left out

- Persistence: reading and writing `localStorage` as JSON (`src/App.jsx:48-62`) is not modelled. The
  stored list is a constructor parameter (`None` stands for nothing stored). The source calls
  `JSON.parse` without a guard (`src/App.jsx:50`), so a malformed stored value throws during start-up
  instead of falling back to the seed. An `Option` parameter cannot express that throw, and the model
  has no malformed-input case.
- Clocks and randomness are parameters. This covers `Date.now()` ids, `new Date()`, the random quote
  depth and the quote id `Date.now() + Math.random()`. Quote positions (`generatePosition`) are
  dropped. The random catalogue index is a nondeterministic choice among the unused indices.
- Animations, transitions, scroll effects, particles (`handleParticles` and `removeParticles`), the
  `AnimatedText` rendering and the dissipating-particles component are visual only. They are not
  modelled, and neither are the Background, Header and MemoCard components.
- DOM focus and blur calls (`focus()`, `blur()`, `preventDefault`, `stopPropagation`) are not modelled.
  Only the resulting focus-area state is.
- The mood falls back to the third catalogue entry for display when the mood is unknown
  (`src/components/MemoEditor.jsx:24`). That is display only; the index used by the arrows is modelled.
- Group month labels: the source stores a locale month name (`toLocaleDateString('zh-CN')`). The model
  stores the 0-based month number.
- Timeline.LexLess: `localeCompare` is approximated by code-point order. The keys contain only digits
  and `-`, where the two orders are expected to agree, but locale collation is not modelled.
- Text.IsWhitespace: characters are Unicode code points. Surrogate pairs (UTF-16 code units in
  `splitText` and `trim`) are not distinguished.
- React closure staleness is not modelled: the model reads the current state in every handler. In
  the source, the window key handler is re-registered only when content, focus area or mood index
  change (`src/components/MemoEditor.jsx:100`). So Cmd/Ctrl+Enter right after adding or removing a
  tag can save the tags from the previous registration. Likewise, the timer callbacks in the overlay
  (`src/components/QuoteOverlay.jsx:255-270`) see the quote list from when they were scheduled. The
  model always saves the current tags and uses the current quotes.
- Editor.MemoEditor.HandleKeyDown: a key pressed in the tag input reaches both the input's handler
  and the window handler. The model treats them as two separate events (`AddTag`, `HandleKeyDown`).
- App wiring: `src/App.jsx:127` renders the overlay without an `isActive` prop, so in the app as
  written `isActive` keeps its default `false` and no quote is ever spawned. The overlay class takes
  both props as parameters and models every combination.
- Cancelling timers on unmount or prop change (`clearTimeout` and `clearInterval` in effect
  cleanups) is represented only by the `spawning` flag and the timer table. Unmounting a component is
  not modelled.
