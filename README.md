# Time-anomaly journal: the entry store and the temporal utilities

This project models the logic of a browser journal in which the user writes
entries and applies "time anomalies" to them. An anomaly derives a new entry
from an existing one. A *future echo* claims a time in the coming week and has
corrupted words. An *altered past* rewrites the oldest entry, with an ominous
phrase inserted. A *branch* forks a parallel timeline with a new ending.

The model has four modules:

- `Strings` (`strings.dfy`): the JavaScript string built-ins the code uses.
  These are `trim`, `split(' ')`, `join`, character reversal and `repeat`. A
  string is a sequence of Dafny `char`s, which are Unicode scalar values.
- `JournalTypes` (`types.dfy`): an entry, the state snapshot that is written to
  storage, JavaScript truthiness of `string | null`, the fresh-id condition and
  the well-formedness invariant (distinct ids, versions at least 1).
- `Temporal` (`temporal.dfy`): the random instants, the three `distortText`
  modes, `getRandomEntry` and `getOldestEntry`. Every `Math.random()` draw is
  an explicit argument, so each function is deterministic. The per-word draws
  are functions from the word's position. Every shape lemma holds for all
  draws. The future echo and the altered past cut the text with `split(' ')`,
  so consecutive spaces give empty words, and tabs and newlines stay inside
  words. The branch cuts it with `split(/[.!?]+/)`, which the model
  characterises as the unique cut at maximal runs of terminators.
- `JournalStore` (`journal_store.dfy`): the seeding and start-up rules, how an
  anomaly picks its source entry and builds the new entry, and the class
  `Store`. The class holds the four state fields, one method per action, and a
  ghost field `persisted` that stands for the storage slot.

The clock is a parameter `now` (integer milliseconds). A future echo reads the
clock a second time for its apparent time, and that reading is a second
parameter `echoNow`. `generateId` is a
fresh-id oracle: each action that creates an entry takes the new id as an
argument and requires it to be non-empty and unused.

## Model

| member | source | states |
|---|---|---|
| `Strings.Trim` | src/features/journal/journalStore.ts:113-114 | the trimmed text is empty exactly when the input is all whitespace; otherwise it starts and ends with non-whitespace, and only whitespace is cut off on either side |
| `Strings.TrimIdempotent` | src/features/journal/journalStore.ts:113 | trimming twice gives the same text as trimming once |
| `Strings.SplitOn` | src/lib/temporal.ts:44 | `split(' ')` always yields at least one piece (the empty string splits into one empty word) |
| `Strings.SplitHasNoSeparator` | src/lib/temporal.ts:44 | no piece of a split contains the separator |
| `Strings.JoinSplit` | src/lib/temporal.ts:44 | joining the pieces of a split with the separator gives back the original text |
| `Strings.SplitJoin` | src/lib/temporal.ts:70 | splitting a join of space-free words gives back the same words, the same number of them |
| `Strings.Join` | src/lib/temporal.ts:70 | `Array.prototype.join`; `JoinSplit` and `SplitJoin` are its round trips with `SplitOn`, and `OpeningInterleave` and `BranchOpeningSentences` cover the `". "` join of the branch |
| `Strings.Reverse` | src/lib/temporal.ts:55 | the reversed word has the same length, and character i is the original's character at `length - 1 - i` |
| `Strings.Repeat` | src/lib/temporal.ts:58 | `repeat(n)` of one glyph is n copies of that glyph |
| `JournalTypes.Truthy` | src/features/journal/journalStore.ts:171 | JavaScript truthiness of `string \| null` (null and "" are falsy); `JournalStore.SourceEntry` states the source rules through it |
| `JournalTypes.AppendWellFormed` | src/features/journal/journalStore.ts:131 | appending an entry with a fresh id and a version of at least 1 keeps ids distinct and versions positive |
| `Temporal.RandomFutureTime` | src/lib/temporal.ts:8-13 | the instant lies between `now + minHours` and `now + maxHours` hours, both ends included (the float sum can round onto the top), and after `now` when both bounds are positive |
| `Temporal.RandomPastTime` | src/lib/temporal.ts:20-25 | the instant lies between `now - maxHours` and `now - minHours` hours, both ends included, and before `now` when both bounds are positive |
| `Temporal.SpliceMid` | src/lib/temporal.ts:61-62 | the middle character `floor(\|w\|/2)` becomes the glyph and every other character is kept; the length is kept, except that an empty word becomes one glyph |
| `Temporal.FutureEchoWords` | src/lib/temporal.ts:50-66 | the echo edits word by word, so it keeps the number of words |
| `Temporal.EchoWord` | src/lib/temporal.ts:51-65 | the per-word future-echo edit for one draw; `EchoWordIsVariant` states that it gives one of the four forms with no space, and `EchoVariantLength` what that means for the length |
| `Temporal.EchoVariantLength` | src/lib/temporal.ts:53-63 | each of the four word forms keeps a non-empty word's length, and turns an empty word into at most one glyph |
| `Temporal.EchoWordIsVariant` | src/lib/temporal.ts:51-65 | every draw turns a space-free word into one of four forms (unchanged, reversed, one glyph repeated, glyph at the middle), and the result contains no space |
| `Temporal.FutureEchoText` | src/lib/temporal.ts:47-71 | the future echo; `FutureEchoShape` states its shape for every draw and `FutureEchoWords` that it keeps the word count |
| `Temporal.FutureEchoShape` | src/lib/temporal.ts:44-70 | for every draw, the echo ends in a blank line and one corruption phrase; the text before it splits on ' ' into exactly as many words as the input, each a variant of its original |
| `Temporal.InsertAt` | src/lib/temporal.ts:75-79 | the splice adds exactly one word, the phrase, at the insertion point; the words before and after it keep their order |
| `Temporal.CorruptWord` | src/lib/temporal.ts:84-89 | the per-word altered-past edit; `AlterPastShape` states that a word is kept or changed only at its middle to a glyph, and that words of 3 characters or fewer are never changed |
| `Temporal.AlterPastText` | src/lib/temporal.ts:73-93 | the altered past; `AlterPastShape` states its shape for every draw |
| `Temporal.AlterPastWords` | src/lib/temporal.ts:75-90 | the phrase spliced in at `floor(n/2)`, then each word edited; `InsertAt` states the splice and `AlterPastShape` the resulting words |
| `Temporal.AlterPastShape` | src/lib/temporal.ts:73-92 | for every draw, the result is the join of n+1 words: the n input words with one corruption phrase at position `floor(n/2)`, each one kept or changed only at its middle character to a glyph, and words of 3 characters or fewer never changed |
| `Temporal.SplitSentences` | src/lib/temporal.ts:97 | splitting on runs of `.`, `!` and `?` always yields at least one piece |
| `Temporal.SplitSentencesCut` | src/lib/temporal.ts:97 | the pieces of `split(/[.!?]+/)` and the terminator runs between them give back the text; the pieces hold no terminator, every run is non-empty, and every piece between two runs is non-empty, so the runs are maximal |
| `Temporal.SplitSentencesUnique` | src/lib/temporal.ts:97 | any cut of a text at maximal terminator runs is the one the split returns, so the split is fully determined by the text |
| `Temporal.NonBlank` | src/lib/temporal.ts:97 | the `.filter(s => s.trim())` step; every kept piece is non-blank, and `NonBlankCounts` and `NonBlankAppend` pin down the rest |
| `Temporal.NonBlankCounts` | src/lib/temporal.ts:97 | `.filter(s => s.trim())` keeps every non-blank piece exactly as often as it occurs, and keeps nothing that is not in the input |
| `Temporal.NonBlankAppend` | src/lib/temporal.ts:97 | filtering two lists laid end to end gives the two filtered lists laid end to end, so the kept pieces keep their order |
| `Temporal.Sentences` | src/lib/temporal.ts:97 | `split(/[.!?]+/).filter(s => s.trim())`; `SplitSentencesCut` and `SplitSentencesUnique` pin the split, `NonBlankCounts` and `NonBlankAppend` the filter, and `SentencesClean` states that every sentence is non-blank and free of terminators |
| `Temporal.SentencesClean` | src/lib/temporal.ts:97 | every sentence the branch counts is non-blank and holds no terminator |
| `Temporal.BranchOpening` | src/lib/temporal.ts:102 | `slice(0, mid).join('. ') + '.'`; `BranchOpeningSentences` and `BranchKeepsFirstHalf` state that it splits back into exactly the kept sentences |
| `Temporal.BranchText` | src/lib/temporal.ts:95-120 | the branch rewrite; `BranchShape`, `BranchKeepsFirstHalf` and `BranchKeepsOpening` state what it returns |
| `Temporal.BranchShape` | src/lib/temporal.ts:95-119 | for every draw: with at most one sentence (as `SplitSentencesCut`, `SplitSentencesUnique`, `NonBlankCounts` and `NonBlankAppend` pin them down), the result is the text plus the fixed continuation; with k > 1, it is the opening made of the first `floor(k/2)` sentences followed by one of the six divergent endings |
| `Temporal.BranchKeepsFirstHalf` | src/lib/temporal.ts:99-102 | with k > 1 sentences, the kept opening, split and filtered again, gives back exactly `floor(k/2)` sentences: the first unchanged and each later one behind the space of the `". "` join |
| `Temporal.BranchKeepsOpening` | src/lib/temporal.ts:99-119 | the branch text begins with the first sentence, or with the whole original text when there is at most one sentence |
| `Temporal.DistortText` | src/lib/temporal.ts:43-124 | `distortText` dispatching on the mode; its three results are described by `FutureEchoShape`, `AlterPastShape` and `BranchShape` |
| `Temporal.RandomEntry` | src/lib/temporal.ts:130-133 | nothing exactly when the list is empty, otherwise a member of the list |
| `Temporal.OldestIndexIn` | src/lib/temporal.ts:140-142 | the reduce over the first k entries ends on an entry whose `createdAt` is minimal; every entry before it is strictly younger, so ties keep the first |
| `Temporal.OldestIndex` | src/lib/temporal.ts:138-143 | the reduce over the whole list ends on the first entry of minimal `createdAt` |
| `Temporal.OldestEntry` | src/lib/temporal.ts:138-143 | nothing exactly when the list is empty, otherwise a member that no member predates |
| `Temporal.OldestIndexUnique` | src/lib/temporal.ts:140-142 | only one index is both minimal and strictly before-free, so the reduce's choice is fully determined |
| `Temporal.OldestStableUnderAppend` | src/lib/temporal.ts:138-143 | appending an entry no older than the others leaves the oldest entry where it was |
| `JournalStore.AuthoredEntry` | src/features/journal/journalStore.ts:117-128 | an authored first version with no parent, branch or anomaly and the same text as content and original; `SampleEntries` and `Store.AddEntry` state the entries built with it |
| `JournalStore.SampleEntries` | src/features/journal/journalStore.ts:40-69 | two authored first versions (no anomaly, no parent or branch, not rewritten, content equal to original content), the first dated one day before the second, which is dated now; with distinct ids they are well formed |
| `JournalStore.SeedState` | src/features/journal/journalStore.ts:85-92 | the seeded state holds the two samples, selects the first, has intensity 2 and no last anomaly |
| `JournalStore.LoadInitialState` | src/features/journal/journalStore.ts:73-93 | a stored snapshot is adopted as it is exactly when it has at least one entry, else the journal is seeded; either way the journal starts non-empty |
| `JournalStore.FindById` | src/features/journal/journalStore.ts:172 | nothing exactly when no entry has the id; otherwise the first entry with that id |
| `JournalStore.SourceEntry` | src/features/journal/journalStore.ts:164-226 | no source exactly when the journal is empty, or when a truthy selection names no entry in a future echo or branch; a selected source has the selected id; the altered past takes the oldest entry whatever the selection; an unselected branch takes the last entry; any source is a member |
| `JournalStore.DeriveEntry` | src/features/journal/journalStore.ts:177-243 | the new entry is created now with the source's text as its original content; a future echo is the next version, hangs off the source and claims a time 1 to 168 hours, both included, after the second clock reading, so after its own creation when the clock has not gone back; an altered past is the next version, is rewritten, keeps the source's apparent time and hangs off the source's parent (the source when it has none); a branch is version 1 at `now`, hangs off the source and has its own branch id |
| `JournalStore.Derived` | src/features/journal/journalStore.ts:164-245 | the entry `applyTimeAnomaly` appends, or nothing for a no-op; `SourceEntry` states when there is none and which entry is the source, `DeriveEntry` the new entry's fields, and `Store.ApplyTimeAnomaly` that exactly this entry is appended |
| `JournalStore.AnomalyKeepsWellFormed` | src/features/journal/journalStore.ts:247-252 | with fresh ids, an anomaly keeps ids distinct and versions at least 1, and a branch id differs from every existing id and branch id |
| `JournalStore.AlterPastIgnoresSelection` | src/features/journal/journalStore.ts:196-198 | the altered past derives the same entry whatever is selected |
| `JournalStore.RepeatedAlterPastRewritesSameEntry` | src/features/journal/journalStore.ts:196-216 | on a clock that never goes back, a second altered past rewrites the same entry as the first: same parent, version, apparent time and original text |
| `JournalStore.Store.constructor` | src/features/journal/journalStore.ts:95-110 | the state is the one loaded at start-up, never empty; storage is left untouched |
| `JournalStore.Store.AddEntry` | src/features/journal/journalStore.ts:112-136 | blank text changes and writes nothing; otherwise exactly one authored entry with the trimmed text is appended and selected, and the state is written; well-formedness is kept |
| `JournalStore.Store.UpdateEntry` | src/features/journal/journalStore.ts:138-148 | the length is kept; only entries with the id get the trimmed text (possibly empty) as content, with all their other fields kept; an unknown id leaves the entries identical; the state is written either way |
| `JournalStore.Store.SelectEntry` | src/features/journal/journalStore.ts:150-153 | the selection becomes the argument without any existence check; the rest is kept; the state is written |
| `JournalStore.Store.SetAnomalyIntensity` | src/features/journal/journalStore.ts:155-158 | the intensity becomes the level; the rest is kept; the state is written |
| `JournalStore.Store.ApplyTimeAnomaly` | src/features/journal/journalStore.ts:160-256 | with no source, nothing changes and nothing is written; otherwise exactly the derived entry is appended after the unchanged old entries, it is selected, the last anomaly is now, and the state is written; well-formedness is kept |
| `JournalStore.Store.ResetJournal` | src/features/journal/journalStore.ts:258-268 | the state is exactly the seeded one (two samples, first selected, intensity 2, no last anomaly), it is well formed, and storage holds it |

## Left out

- `generateId` (RFC 4122 section 4.4 version-4 ids from `crypto.randomUUID` or `Math.random`) is a fresh-id oracle. Callers pass a non-empty id that names no entry and no branch. The two sample ids are distinct.
- The probabilities are not modelled: the 20% and 15% word draws, the 30/30/40 choice between the three word edits, and the glyph, phrase and ending picks. Every draw is an argument, and each shape lemma holds for all draws.
- Floating point and dates: `Math.random()` arithmetic, `Date` and ISO-8601 strings are left out. Timestamps are integer milliseconds. An hour offset is any whole number of milliseconds between the two bounds, both included, which covers every instant the rounded float sum and the truncating `Date` can produce. The model allows more offsets than the doubles can reach, since between the bounds it does not restrict the offset to the values doubles can express. `OffsetInRange` also covers equal and swapped bounds.
- `src/lib/storage.ts`: JSON serialisation and `localStorage` are left out. The slot is the ghost field `persisted`, and writes always succeed, so a quota error that leaves the slot stale is not modelled. `storage.load()` enters as the constructor's argument, with `None` for an empty or unreadable slot.
- A stored snapshot is typed (`Snapshot`). Stored data that `load` accepts but whose fields have the wrong JSON types cannot be represented. An example is an intensity outside 0..3.
- `lastAnomalyAt || null` at load time (journalStore.ts:81) only matters for an empty string. With integer timestamps it is the identity.
- Text is modelled as a sequence of Unicode scalar values, not of UTF-16 code units. A lone surrogate, which a JavaScript string can hold, cannot be represented. A character outside the Basic Multilingual Plane, such as an emoji, is one `char` here and two code units in JavaScript. For text holding such characters the model does not cover how `split('')` splits them before reversing (temporal.ts:55), the code-unit `length` (temporal.ts:58, 84-87) or the middle index. Every glyph and phrase the code inserts is in the Basic Multilingual Plane.
- The `alter_past` branch calls `splice` on its local word array, which `split` has just created. This is modelled as a sequence insertion (`InsertAt`). No alias can observe the difference.
- The `default` branch of `distortText` (temporal.ts:122-123) is unreachable: the mode is the closed datatype `AnomalyMode`.
- zustand's change notification and the React components that render the state are left out.
- `src/features/settings/uiSettingsStore.ts` is left out: it holds display settings that never touch entry data.
- `deleteEntry`, `triggerRewrite` and `createBranch`, declared in src/types/index.ts:39-47, are never implemented, so they are not modelled.
- No lemma says `version` grows along a `parentId` chain, because the code does not keep it so. An altered past of a branch entry hangs off the branch's parent with version 2, which is below that parent's version when the parent is itself a later version. A branch entry is the oldest only in loaded data or after the clock went back: with a clock that never goes back every appended entry is no older than the rest, so the oldest entry stays where it is (`Temporal.OldestStableUnderAppend`).
