# Verified model of Momus Review

This project models the algorithms and small state machines of Momus Review, a code review tool
written in Rust with Python evaluation scripts, and proves what they guarantee. Run
`dafny verify dfyconfig.toml` (Dafny 4.11) in this directory.

Code that loops and updates variables is a method here, proved equal to a specification function or
to a new state; the laws are lemmas about those functions. The modules whose names end in `Laws` say
what the functions return in terms of the inputs themselves: lines, names, bytes and times.

- **Diff algebra** (`Patch`, `HunkSplit`, `HunkLaws`, `Reparse`, `SplitLaws`, `HunkApply`,
  `BaseLines`, `Candidates`, `NewFile`, with `HeaderLaws`, `PieceLaws` and `CandidateLaws`). Hunks
  are parsed, split with recomputed headers, mapped to base lines, chosen as evidence and
  synthesised for new files. A hunk has a meaning: an edit of old lines into new ones, each line
  with or without its newline. Zero-length ranges name the line before, as in POSIX.1-2017, `diff`,
  "Diff -u or -U Output Format". The heart is that splitting a hunk anywhere changes the result of
  no patch on any file. A body is read as *units* (removals, the kept line after them, its
  no-newline markers), and splitting is grouping units.
- **Calendar** (`Calendar`, `Timestamps`). Two separately written era algorithms are inverses, and
  both agree with counting days by years and months (RFC 3339 sections 5.6 and 5.7, Appendix C).
- **Adaptive limiter and call budget** (`Limiter`, `LimiterRuns`, `LimiterLaws`, `Budget`). The
  critical sections are class methods; the protocols are state machines over any interleaving of any
  number of tasks or threads. A waiter registers, checks the gate, then parks with or without a
  timer; `notify_waiters` marks every registered or parked waiter. Relaxed atomic loads may be
  stale.
- **Lexer and attribute parser** (`Utf8`, `Utf8Laws`, `Lexer`, `LexerLaws`, `Cfg`, `CfgLaws`).
  The scanner overwrites a byte buffer; well-formed UTF-8 is the table of RFC 3629 section 4.
- **Comment planning** (`Markers`, `MarkerLaws`, `Review`, `ReviewLaws`, `PlanLaws`). The state is
  the list of comments on the pull request; a run appends the bodies of its inline comments, or
  demotes them all. The two marker expressions are modelled as scans.
- **Chronological join and scoring** (`Outcomes`, `OutcomeLaws`, `ExportLaws`, `EvidenceLaws`,
  `Scorer`).
- **Import indexes, batch parser, PEM machine** (`Imports`, `ImportLaws`, `ImportGraph`, `Paths`,
  `PathLaws`, `Stems`, `StrictEdges`, `EdgeLaws`, `Batch`, `Pem`, `PemLaws`), with `Text`,
  `TextLaws`, `Arith` and `Sorting` beneath them. Paths are lists of components, as `std::path`
  reads them on Unix.

Two documented claims do not hold of the code as written. The model keeps the code, gives an input
that fails, and proves exactly when the claim holds:

- `acquire` is documented as safe against lost wake-ups. It reads the clock twice in one critical
  section (`src/review/limiter.rs:43`, `src/review/limiter.rs:47`). If the cooldown ends between the
  two readings while there is capacity, the waiter parks without a timer though nobody is due to
  notify it (`LimiterRuns.LostWakeUp`). No wake-up is lost if and only if no critical section
  straddles the end of the cooldown in that way (`LimiterRuns.RunKeepsWakeUps`), so none is with a
  single reading.
- `lexical_code` is documented as preserving newlines. A character literal whose payload is a raw
  newline loses it (`Lexer.NewlineLost`); newlines stay if and only if no character literal has one
  (`Lexer.NewlinesStay`).

## Model

| member | source | states |
|---|---|---|
| Patch.ParseHunks | src/domain/patch.rs:42-75 | the loop that flushes and opens hunks returns the hunks of the grouped lines: each hunk is a header with the lines up to the next header, numbered in order, starting at the `+` token (1 if unreadable); lines before the first header belong to none |
| Patch.HeaderRoundTrip | src/domain/patch.rs:259-274 | every header that is printed from bounded ranges reads back as those four numbers, and as that start line |
| Patch.HeaderIsOneLine | src/domain/patch.rs:148-160 | a printed header is one line and is recognised as a header |
| Patch.FirstAddedLine | src/domain/patch.rs:87-98 | the scan returns the new-file line of the first added line, the hunk's start if there is none |
| CandidateLaws.AnchorsOnAdded | src/domain/patch.rs:87-98 | that line is the new-file line which the first `+` line of the body is |
| CandidateLaws.AnchorsOnStart | src/domain/patch.rs:87-98 | a hunk without a `+` line anchors on its start |
| HeaderLaws.HeaderReads | src/domain/patch.rs:258-274 | every header with its two counts written or omitted, and any text after the ranges, reads as the numbers it shows, an omitted count as 1; it is not read when a number exceeds 64 bits |
| HeaderLaws.HeaderLacksRange | src/domain/patch.rs:259-274 | a header without an old or a new range is not read, and without a new one its hunk starts at line 1 |
| Reparse.GroupsOfFlat | src/domain/patch.rs:57-72 | grouping lines at headers undoes laying groups end to end |
| Reparse.SplitOfPrinted | src/domain/patch.rs:57-72 | joining printed groups and splitting at newlines gives back their lines |
| Reparse.ParsePrinted | src/domain/patch.rs:42-75 | parsing any printed groups gives exactly those groups as hunks |
| HunkSplit.ReadLine | src/domain/patch.rs:168-207 | one turn of the loop (removal, kept line, marker, anything else) keeps the counters, the waiting removals and the finished pieces in step with the units read so far |
| HunkSplit.ReadPieces | src/domain/patch.rs:160-213 | the loop yields the split bodies, each piece starting where the one before ends |
| HunkSplit.SplitHunk | src/domain/patch.rs:131-216 | on every hunk: returns the pieces that the set of cuts determines, whatever the order or repetition of the cuts; the hunk itself when the header cannot be read or nothing is split; nothing when a subtraction underflows |
| HunkSplit.PrintableExactly | src/domain/patch.rs:148-156 | printing the pieces of a real split takes one from line 0 if and only if the old range starts at line 0 and the first piece has no old line |
| PieceLaws.UnderflowsExactly | src/domain/patch.rs:131-216 | `split_hunk` underflows exactly when the header puts a nonempty old range at line 0, some cut lies inside the new range and the first piece holds no removed or context line |
| PieceLaws.RemovalsStay | src/domain/patch.rs:168-207 | removed lines stay with the lines that follow them: every piece but the last ends in an added or a context line and its no-newline markers |
| SplitLaws.LineZeroUnderflows | src/domain/patch.rs:152-153 | such hunks exist: any added line before any kept one, under a header `-0,1 +1,2`, cut at line 2 |
| HunkLaws.UnitsStandAlone | src/domain/patch.rs:168-207 | the units of a body (removals, kept line, markers) are each read the same on their own |
| HunkLaws.UnitsAppend | src/domain/patch.rs:168-207 | bodies laid end to end have the units of both, unless the second begins with a marker |
| HunkLaws.UnitsKeepLines | src/domain/patch.rs:196-207 | units and the waiting tail hold the marked lines of the body in order: only unmarked lines are dropped |
| HunkLaws.OneUnitPerNewLine | src/domain/patch.rs:176-195 | there is one unit for each new-side line, and none in the tail |
| HunkLaws.FlatGrouped | src/domain/patch.rs:131-216 | grouping loses and reorders no unit |
| HunkLaws.GroupTwice | src/domain/patch.rs:131-216 | grouping units at one set of cuts and each group at another is grouping at the union |
| HunkLaws.SplitKeepsBody | src/domain/patch.rs:131-216 | the bodies of the pieces put end to end are the marked lines of the original body |
| SplitLaws.SplitBodiesTwice | src/domain/patch.rs:131-216 | splitting a body at A and each part at B, from the line it starts at, is splitting at A union B |
| SplitLaws.PieceReads | src/domain/patch.rs:148-160 | a printed piece reads back as its body, its ranges and its start line |
| SplitLaws.PieceHunksAppend | src/domain/patch.rs:160-213 | bodies laid end to end print as the pieces of the first, then those of the second from where it ends |
| SplitLaws.SplitPiece | src/domain/patch.rs:131-216 | splitting a printed piece is printing its split body from the same lines |
| SplitLaws.SplitTwice | src/domain/patch.rs:131-216 | splitting a hunk at A and then every piece at B equals splitting it at A union B, header text included |
| SplitLaws.SplitIsContiguous | src/domain/patch.rs:131-216 | after a real split the bodies concatenate to the original marked body, every header's counts are its body's, and old and new ranges follow each other without gap or overlap from the hunk's own starts |
| SplitLaws.BodyStarts | src/domain/patch.rs:131-216 | the parts of a body start, increasing, at its first new line and exactly the cuts strictly inside its new lines, and every part has a new line |
| SplitLaws.PieceStarts | src/domain/patch.rs:131-216 | a hunk is really split exactly when a cut lies strictly inside its new range; the pieces then start at the hunk's first new line and at exactly those cuts |
| SplitLaws.SplitReparses | src/domain/patch.rs:42-75 | after a real split, parsing the joined pieces gives the same pieces, numbered |
| HunkApply.SideAppend | src/domain/patch.rs:131-216 | the old or new lines of two bodies end to end are those of both, marker lines taking off the newline before them |
| HunkApply.ApplyJoined | src/domain/patch.rs:131-216 | two adjoining edits act on every old file as the one edit of their lines |
| HunkApply.ApplyBodies | src/domain/patch.rs:131-216 | the edits of consecutive bodies act as the edit of all their lines, before any further edits |
| HunkApply.SplitApplies | src/domain/patch.rs:131-216 | for every old file, cut set and surrounding hunks, replacing a hunk by its pieces changes neither whether the patch applies nor the new file it gives |
| BaseLines.BaseLine | src/domain/patch.rs:231-256 | the loop over headers computes the line map of the ranges that can be read |
| BaseLines.MapLineIsExact | src/domain/patch.rs:231-256 | for edits that apply: an old line with the same text outside every hunk, a line of the old range inside a hunk that has one |
| BaseLines.MapLineIsMonotone | src/domain/patch.rs:231-256 | later new lines never map to earlier old lines |
| BaseLines.ReadsHunkRanges | src/domain/patch.rs:231-241 | the headers `base_line` reads through `str::lines` are those of the parsed hunks, carriage returns included |
| BaseLines.BaseLineIsExact | src/domain/patch.rs:231-256 | for every patch text that takes an old file to a new one, `base_line` is exact outside all hunks, within the old range inside a hunk that has one, and nondecreasing |
| BaseLines.LeadingContextIsExact | src/domain/patch.rs:244-249 | for every patch text that takes an old file to a new one: each context line before the first change of a hunk maps to its own old line, the one at the same offset in the old range, with the same text |
| Candidates.CommentableLines | src/domain/github_review.rs:135-151 | the nested loop collects exactly the new-side lines of the parsed hunks |
| CandidateLaws.CommentableExactly | src/domain/github_review.rs:135-151 | a line can carry a comment if and only if it is the line of the new file which some `+` or context line of a hunk is |
| Candidates.AddLines | src/domain/github_review.rs:138-148 | the kept lines of a body stand for an interval that begins at the hunk's start line |
| Candidates.CutsOf | src/review/judgments.rs:292-300 | the region starts become cuts relative to the hunk, the first region aside |
| Candidates.HunkCandidates | src/review/judgments.rs:280-301 | a hunk of at most 80 new-side lines is kept whole, a larger one is split at the region starts; nothing when that split underflows |
| Candidates.CandidateHunks | src/review/judgments.rs:278-304 | for every patch, the loop and the renumbering give the candidates of all hunks, numbered in order, unless the split of some hunk underflows |
| CandidateLaws.NewSideExactly | src/review/judgments.rs:281-287 | the text whose regions are asked for is that of the added and context lines in order, each without its first character |
| CandidateLaws.SmallHunkStays | src/review/judgments.rs:288-291 | a hunk of up to eighty new lines is a candidate as it is |
| CandidateLaws.LargeHunkStarts | src/review/judgments.rs:292-300 | the candidates of a larger hunk start, increasing, at its first new line and exactly at the later regions that begin inside it; with none of those it is a candidate as it is |
| Candidates.SoundCanSplit | src/review/judgments.rs:278-304 | which none does when every nonempty range starts at line 1 or later |
| Candidates.CandidatesCover | src/review/judgments.rs:278-304 | whatever the regions, the candidates of a sound patch stand for exactly its commentable lines |
| Candidates.CandidateIdsDiffer | src/review/judgments.rs:301-303 | no two candidates share an id |
| Candidates.CandidateAnchors | src/domain/patch.rs:87-98 | every candidate with an added line anchors on a commentable line |
| Candidates.CandidatesApply | src/review/judgments.rs:278-304 | the candidates apply to every old file as the patch does |
| NewFile.PatchForNewFile | src/domain/patch.rs:284-300 | the chunk loop prints one hunk of at most 80 added lines after another |
| NewFile.ParsesToChunks | src/domain/patch.rs:284-300 | parsing the patch gives the chunks with the headers that were printed |
| NewFile.NewFileRoundTrip | src/domain/patch.rs:284-300 | for every source text the hunks start 80 lines apart from 1, their stripped added lines rejoin to the text, the commentable lines are 1..n, and the patch takes the empty file to the text's lines |
| Calendar.EpochDaysCounts | src/adapters/approval.rs:81-86 | the era-based day count equals counting days year by year and month by month |
| Calendar.YearOfEraIs | src/adapters/report_store.rs:234-236 | the closed form for the year of an era is right for every century, four-year cycle and day |
| Calendar.CivilOfDays | src/adapters/report_store.rs:230-241 | the date named for a day number is a valid date that `timestamp` counts as that day number |
| Calendar.DatesInOrder | src/adapters/approval.rs:81-86 | earlier dates have smaller day numbers and conversely |
| Calendar.DaysOfCivil | src/adapters/report_store.rs:230-241 | every valid date since 1970 is recovered from its day number |
| Timestamps.PadValue | src/adapters/report_store.rs:227 | a zero-padded field of width w has w characters and reads as its number |
| Timestamps.PadOfDigits | src/adapters/approval.rs:41-51 | every string of digits is the padding of the number it reads as |
| Timestamps.TimestampIsExact | src/adapters/approval.rs:28-87 | a text reads as an instant's second exactly when it is the rendering of a calendar instant of 1970 to 9999; every other text reads as zero |
| Timestamps.InstantOfSeconds | src/adapters/report_store.rs:222-228 | the fields computed from a second are a valid instant of that second, up to the end of 9999 |
| Timestamps.SecondsOfInstant | src/adapters/report_store.rs:222-228 | every instant is recovered from its second |
| Timestamps.WriteThenRead | src/adapters/report_store.rs:222-228 | reading what was written gives the second back exactly for 0..253402300799 |
| Timestamps.ReadThenWrite | src/adapters/approval.rs:28-87 | every text that reads as other than zero reads as a positive second, and writing that second gives the text back |
| Limiter.AdaptiveLimiter.constructor | src/review/limiter.rs:22-33 | starts with a positive cap, up to three slots, nothing in flight |
| Limiter.AdaptiveLimiter.TryAcquire | src/review/limiter.rs:41-48 | the critical section grants a slot exactly when the cooldown has passed at the first clock reading and there is capacity, and otherwise refuses with the delay left at the second reading |
| Limiter.AdaptiveLimiter.Healthy | src/review/limiter.rs:57-63 | the new state is the recovered state; bounds are kept |
| Limiter.AdaptiveLimiter.Throttled | src/review/limiter.rs:68-74 | the new state is the slowed state; bounds are kept |
| Limiter.AdaptiveLimiter.Release | src/review/limiter.rs:81-83 | one slot fewer is active |
| Limiter.HealthyRamp | src/review/limiter.rs:57-63 | n healthy responses raise the limit by (h + n) / 8, up to the cap |
| Limiter.ThrottleHalves | src/review/limiter.rs:68-74 | k throttles divide the limit by 2 to the k, leaving at least one slot, and shut the gate for at most five minutes |
| LimiterLaws.GrantedExactly | src/review/limiter.rs:41-74 | after a throttle a test is granted if and only if any earlier cooldown and the pause, counted up to 300 seconds, are over and either no slot is taken or fewer than half the former ones |
| LimiterLaws.RefusedWaits | src/review/limiter.rs:41-54 | a refused test changes nothing but its task, which sleeps to the end of the cooldown if that is still ahead at the second clock reading and otherwise until a notification |
| LimiterLaws.NoGrantDuringPause | src/review/limiter.rs:68-74 | in every run after a throttle no permit is granted before the pause, up to 300 seconds, or before an earlier cooldown, is over, whatever happens meanwhile |
| LimiterLaws.SlotsTakeEight | src/review/limiter.rs:57-74 | in every run after a throttle, each slot above half the former limit takes eight healthy responses that came after it |
| LimiterLaws.RampExactly | src/review/limiter.rs:22-63 | in every run without a throttle the limit is three, or the cap if less, and one more for every eight healthy responses, up to the cap |
| LimiterLaws.NotifiedWakes | src/review/limiter.rs:37-54 | a notification reaches every task that had registered: if its test is refused it can wake at once |
| LimiterLaws.PendingCounts | src/review/limiter.rs:57-87 | in every run exactly one notification is due for each change of the gate that has not been followed by one |
| LimiterRuns.StepIsSafe | src/review/limiter.rs:35-87 | every step keeps 1 <= limit <= cap, active equal to the live permits and at most cap, healthy below 8, the cooldown within five minutes; a permit is granted only below the limit and after the cooldown; release never underflows |
| LimiterRuns.NoUnderflow | src/review/limiter.rs:79-84 | a live permit is counted |
| LimiterRuns.StepKeepsWakeUps | src/review/limiter.rs:35-55 | a step keeps "an unnotified waiter parked without a timer implies a full gate or a pending notification" if and only if it is not a critical section whose two clock readings straddle the end of the cooldown while there is capacity and nobody is about to notify |
| LimiterRuns.RunKeepsWakeUps | src/review/limiter.rs:35-55 | over a whole run, no wake-up is lost if and only if no step is such a section |
| LimiterRuns.OneReadingLosesNothing | src/review/limiter.rs:43-47 | with one clock reading per critical section no step is |
| LimiterRuns.EveryRunIsSafe | src/review/limiter.rs:22-87 | the bounds and the five-minute bound on the cooldown hold after every interleaving from the start, for any number of tasks, and the wake-up property with one reading per section |
| LimiterRuns.CanBeServed | src/review/limiter.rs:35-55 | while no wake-up is lost, every task can still be granted a permit by dropping live permits, due notifications and time alone |
| LimiterRuns.LostWakeUp | src/review/limiter.rs:35-55 | a concrete run in which the two readings straddle the cooldown leaves a waiter parked with capacity to spare, and no continuation without a further outside call ever moves it |
| Budget.CallBudget.Reserve | src/review/budget.rs:77-93 | without interference the compare-and-swap loop reserves one attempt below the ceiling, and otherwise counts one deferral |
| Budget.CallBudget.CompareAndSwap | src/review/budget.rs:78-86 | writes exactly when the counter holds the expected value |
| Budget.StepIsSound | src/review/budget.rs:77-93 | every step of any thread, stale loads included, keeps: reserved equals successes, deferred equals recorded rejections, the ceiling holds, and a rejection only ever happens at the ceiling |
| Budget.EveryRunIsExact | src/review/budget.rs:77-93 | in every interleaving the ceiling holds, and once all n calls have returned exactly min(limit, n) succeeded and the rest are deferred |
| Utf8.Utf8Append | src/review/docs_drift.rs:607-609 | well-formed texts concatenate to well-formed text |
| Utf8.Utf8Cut | src/review/docs_drift.rs:607-609 | well-formed text may be cut next to any ASCII byte |
| Utf8Laws.WellFormedExactly | src/review/docs_drift.rs:607-609 | a text is well-formed if and only if it is the encoding of some Unicode scalar values |
| Lexer.SkipLine | src/review/docs_drift.rs:534-537 | finds the newline or the end: exactly the text up to the newline is blanked (`LexerLaws.LineComment`) |
| Lexer.SkipBlock | src/review/docs_drift.rs:538-551 | finds the end of the nested comment or of the text |
| Lexer.SkipString | src/review/docs_drift.rs:552-577 | finds the closing quote, with its hashes for a raw string, or the end |
| Lexer.BlankRange | src/review/docs_drift.rs:601-605 | blanks a range of the buffer, newlines aside, and nothing else |
| Lexer.ScanToken | src/review/docs_drift.rs:532-605 | one turn of the loop overwrites exactly its token |
| Lexer.LexicalCode | src/review/docs_drift.rs:528-610 | the buffer ends as the cleaned text, of the same length |
| LexerLaws.OnlyCode | src/review/docs_drift.rs:597-600 | a text in which no quote, `//`, `/*` or character literal stands is left as it is |
| LexerLaws.LineComment | src/review/docs_drift.rs:534-537 | code, then `//` and text without a newline, then a newline and more: the code and the newline are kept, the comment is blanked, and the rest is cleaned as a text of its own |
| LexerLaws.LastLineComment | src/review/docs_drift.rs:534-537 | without a newline the comment runs to the end |
| LexerLaws.BlockComment | src/review/docs_drift.rs:538-551 | a block comment is blanked up to the first point where its closers balance its openers, its own newlines kept, and the rest is cleaned as a text of its own |
| LexerLaws.OpenBlockComment | src/review/docs_drift.rs:538-551 | one that never balances runs to the end |
| LexerLaws.EveryTextReads | src/review/docs_drift.rs:541-551 | every text can be read as such openers, closers and single bytes |
| LexerLaws.StringLiteral | src/review/docs_drift.rs:552-585 | a string not preceded by `r` and hashes becomes a `0` and blanks up to its first quote that is not escaped, and the rest is cleaned as a text of its own |
| LexerLaws.OpenString | src/review/docs_drift.rs:562-585 | one without such a quote runs to the end, a last lone backslash included |
| LexerLaws.RawLiteral | src/review/docs_drift.rs:553-585 | a string preceded by `r` and n hashes becomes a `0` and blanks up to its first quote followed by n hashes, and the rest is cleaned as a text of its own |
| LexerLaws.OpenRawString | src/review/docs_drift.rs:562-585 | one without such a quote runs to the end |
| LexerLaws.CharLiteral | src/review/docs_drift.rs:586-591 | a character literal of any one byte becomes a `0` and two blanks |
| LexerLaws.EscapeLiteral | src/review/docs_drift.rs:592-596 | an escaped one becomes a `0` and three blanks |
| Lexer.NothingOpens | src/review/docs_drift.rs:528-610 | no comment, string or character literal begins anywhere in the cleaned text |
| Lexer.CleanIsFixed | src/review/docs_drift.rs:528-610 | each byte is kept or becomes a space or `0`; no quote, `//` or `/*` is left; cleaning again changes nothing |
| Lexer.CleanIsUtf8 | src/review/docs_drift.rs:607-609 | well-formed UTF-8 stays well-formed, so the final `expect` cannot fail |
| Lexer.NewlinesStay | src/review/docs_drift.rs:526-527 | newlines keep their positions if and only if no character literal holds a newline as its payload |
| Lexer.NewlineLost | src/review/docs_drift.rs:586-596 | the documented claim fails for a character literal holding a newline |
| Cfg.SplitParts | src/review/docs_drift.rs:489-509 | the comma loop returns the parts at bracket depth zero, or nothing when brackets do not balance |
| Cfg.CfgMetaMayDisable | src/review/docs_drift.rs:468-524 | the recursive parser, terminating on every string, computes the decision |
| Cfg.AnyPayload | src/review/docs_drift.rs:513-521 | yes when every payload is blank or some payload may disable |
| Cfg.PartsOfJoin | src/review/docs_drift.rs:489-509 | flat texts joined by commas split back into themselves |
| Cfg.DisablesExactly | src/review/docs_drift.rs:468-524 | on the printed form of every well-formed attribute, white space and trailing commas included, the answer is yes if and only if a `cfg` is reachable through `cfg_attr` payloads or they nest past the bound |
| Cfg.NeverMisses | src/review/docs_drift.rs:468-524 | a reachable `cfg` is never missed, and the answer is exact below nesting 32 |
| CfgLaws.NameDecides | src/review/docs_drift.rs:472-486 | on any text the first word decides: `cfg` may disable, any word but `cfg_attr` may not, and `cfg_attr` may when its text was cut short |
| CfgLaws.PartsExactly | src/review/docs_drift.rs:492-514 | the arguments are split into parts if and only if no bracket closes before one is open and none is left open |
| CfgLaws.UnreadableDisables | src/review/docs_drift.rs:487-514 | `cfg_attr` without arguments in parentheses, or with unbalanced ones, may disable |
| CfgLaws.PartsDecide | src/review/docs_drift.rs:514-523 | otherwise it may disable if and only if it has a single part, a blank condition or only blank payloads, or some payload may |
| Markers.ScanIsExact | src/domain/github_review.rs:33-49 | the non-overlapping scan finds exactly the nonempty hex fingerprints whose marker stands somewhere in the text |
| Markers.FingerprintsAre | src/domain/github_review.rs:43-49 | the posted fingerprints are those found in some body |
| Markers.TopicMarkerMatches | src/domain/github_review.rs:51-72 | a well-formed topic marker is matched and reads back its topic |
| MarkerLaws.FingerprintsExactly | src/domain/github_review.rs:33-49 | the posted fingerprints are exactly the nonempty words over `0`-`9` and `a`-`f` that stand in a marker somewhere in a comment |
| MarkerLaws.FirstTopicExactly | src/domain/github_review.rs:51-53 | a comment has the topic of the first topic marker that stands in it, and none without one |
| MarkerLaws.TopicsExactly | src/domain/github_review.rs:84-100 | the posted topics are those of the comments that still have a line, on their file and at that line |
| Sorting.SortInOrder | src/domain/github_review.rs:239-240 | the stable sort puts the list in order |
| Review.MakePlan | src/domain/github_review.rs:224-278 | the loop fills the plan that the fix-first order, the posted comments and the cap determine |
| Review.IndexFiles | src/domain/github_review.rs:230-237 | the map holds the commentable lines of each file with a patch, a later entry replacing an earlier one |
| Review.ReviewPlan.DemoteInline | src/domain/github_review.rs:205-209 | every inline comment becomes a rejected summary entry |
| ReviewLaws.PlanIsSound | src/domain/github_review.rs:220-278 | every finding lands in exactly one of inline, summary and already posted; inline is the first `max_inline` postable findings in fix-first order, anchored on commentable lines, with no posted or repeated fingerprint; every summary entry has the reason that applies to it |
| ReviewLaws.SummaryIsExplained | src/domain/github_review.rs:250-265 | a finding is listed for the first reason that holds, and as over the cap only when the cap is reached |
| PlanLaws.CapKeepsBest | src/domain/github_review.rs:213-265 | no finding left over the cap has a smaller rank, or an equal rank and a greater severity, than an inline one; a missing rank comes last |
| PlanLaws.FixFirstIsStable | src/domain/github_review.rs:239-240 | findings of equal rank and severity keep the order of the report |
| PlanLaws.ListedExactly | src/domain/github_review.rs:250-265 | a listed finding has the reason that the mode, a posted topic of its concern at most twenty lines away, the lines of the diff and the cap give it, and no other |
| PlanLaws.InlineExactly | src/domain/github_review.rs:266-276 | an inline comment stands on the right side of its finding's file and line, on a line of the diff, away from posted topics of its concern, and begins with the finding's text |
| PlanLaws.SkippedExactly | src/domain/github_review.rs:246-249 | as many findings are skipped as have a nonempty fingerprint that is posted or that an earlier finding has |
| PlanLaws.LastPatchCounts | src/domain/github_review.rs:230-237 | the lines of a file are those of its last entry with a patch |
| ReviewLaws.DemotedIsSound | src/domain/github_review.rs:205-278 | a run whose comments are all rejected posts nothing inline, and every finding is still listed in the summary or skipped as posted, once |
| ReviewLaws.BodyCarriesFingerprint | src/domain/github_review.rs:469-499 | a comment is recognised by its fingerprint if and only if that is nonempty lower-case hex |
| ReviewLaws.NeverPostedTwice | src/domain/github_review.rs:107-122 | over any sequence of runs, each published whole or demoted, no nonempty hex fingerprint is posted inline twice |
| ReviewLaws.NeverRepostsOld | src/domain/github_review.rs:107-112 | nor is one that a comment already carried before the first run |
| ReviewLaws.OnlyHexIsRecognised | src/domain/github_review.rs:33-49 | a fingerprint that is not hex is never held back as posted |
| ReviewLaws.BodyCarriesTopic | src/domain/github_review.rs:486-498 | the first topic in a comment is its finding's own, unless its visible text holds one |
| ReviewLaws.NeverPostedNearby | src/domain/github_review.rs:113-121 | a later run posts nothing inline within twenty lines of the same concern in the same file |
| Outcomes.IndexCaptures | eval/outcomes/collect.py:236-245 | the loop accepts exactly the admissible captures with distinct pull requests and heads, and indexes them |
| Outcomes.IndexMerges | eval/outcomes/collect.py:246-262 | the loop accepts exactly the admissible merges with distinct pull requests, heads and commits, and indexes them |
| Outcomes.IndexObservations | eval/outcomes/collect.py:263-301 | the loop accepts exactly the admissible observations with distinct pull request and kind, and indexes them |
| Outcomes.LabelMerge | eval/outcomes/collect.py:327-345 | each kind is missing, withheld for the reason that applies at its boundary, or exported |
| Outcomes.JoinMerges | eval/outcomes/collect.py:310-347 | the loop joins every merge to its capture, or fails on a score for another revision or not from before the merge (`ExportLaws.ScoreIsFrozen`, `ExportLaws.LateScoreFails`) |
| Outcomes.ExportHistory | eval/outcomes/collect.py:228-352 | the method computes the export, or nothing when any evidence is inadmissible (`EvidenceLaws.AcceptsExactly`) |
| EvidenceLaws.AcceptsExactly | eval/outcomes/collect.py:228-320 | there is an export if and only if the protocol was registered before its cutoff with distinct definitions, every capture, merge and observation is sound in itself and against the merges, none is ambiguous, and every score of an available merge was frozen for it |
| ExportLaws.ScoreIsFrozen | eval/outcomes/collect.py:317-322 | every exported score is that of a capture of the revision that merged, recorded, captured and received strictly before it did |
| ExportLaws.LateScoreFails | eval/outcomes/collect.py:317-320 | one available merge whose capture is of another revision, or not strictly earlier in all three times, makes the export fail |
| ExportLaws.RecordsExactly | eval/outcomes/collect.py:310-347 | the records are exactly those of the available merges with a capture: its head and time, the capture's score, and for each outcome the observation that was available and mature when it is judged, if there is one |
| ExportLaws.ExclusionsExactly | eval/outcomes/collect.py:313-316 | the excluded merges are exactly those without a capture, for that reason, and those with one that were not available |
| ExportLaws.AuditExactly | eval/outcomes/collect.py:323-347 | the audit has an entry for exactly the recorded merges, each label exported, or withheld for the first of availability and maturity that failed, or missing |
| ExportLaws.UnmergedExactly | eval/outcomes/collect.py:349-351 | the unmerged captures are exactly those whose pull request has no merge |
| ExportLaws.ListsInOrder | eval/outcomes/collect.py:310-351 | the audit, the excluded merges and the unmerged captures are in order of pull request |
| OutcomeLaws.EveryMergeLandsOnce | eval/outcomes/collect.py:310-347 | every merge is in exactly one of the records and the excluded merges |
| OutcomeLaws.NoLookAhead | eval/outcomes/collect.py:318-345 | every record's score precedes its merge, and every exported label comes from an observation of that merge and kind, available and mature by the training cutoff (earlier merges) or by `asOf` |
| OutcomeLaws.NothingInTimeIsWithheld | eval/outcomes/collect.py:334-345 | conversely, every observation of a recorded merge that was available and mature by its boundary is exported as its label |
| OutcomeLaws.LabelIgnoresLater | eval/outcomes/collect.py:334-345 | a label judged by t does not depend on observations available after t |
| OutcomeLaws.LaterObservationsDoNotMatter | eval/outcomes/collect.py:228-352 | deleting every observation available after t keeps the export valid and changes no record judged by t: with the cutoff, no training record; with `asOf`, none |
| OutcomeLaws.LabelsAreStable | eval/outcomes/collect.py:228-352 | a record exported once is exported at every later `asOf`, over inputs that only grew, with its score and every label it had |
| OutcomeLaws.RecordsAreChronological | eval/outcomes/collect.py:348 | the records are in order of merge time, then head |
| Batch.TakeBlob | src/adapters/git.rs:1018-1047 | one turn of the loop: each failure has its own error, in the order of the checks |
| Batch.ReadBlobBatch | src/adapters/git.rs:1015-1053 | the cursor loop computes the parse without indexing out of range |
| Batch.AcceptsExactly | src/adapters/git.rs:1015-1058 | a byte string is accepted if and only if it is the concatenation of header, newline, content and newline for the requested blobs, with one-line names and NUL-free UTF-8 of the stated sizes; the contents returned are those |
| Batch.HeaderReads | src/adapters/git.rs:1024 | a header is the object's name, ` blob ` and the size in decimal |
| Batch.NoHeader | src/adapters/git.rs:1018-1022 | without a further newline the header is missing |
| Batch.WrongHeader | src/adapters/git.rs:1023-1027 | a first line that is not text, or not the header asked for, fails as such |
| Batch.WrongSize | src/adapters/git.rs:1028-1035 | a size that overflows, or is more than the bytes left, fails as such |
| Batch.ContentAnswers | src/adapters/git.rs:1036-1047 | content that is not text, or holds a zero byte, or is not followed by a newline fails as such, in that order, and is returned otherwise |
| Pem.RedactLine | src/domain/redact.rs:364-404 | one line through the machine: what it leaves, what it takes, and the match it completes (which lines those are: `PemLaws.BlockIsRedacted` and the laws beside it) |
| Pem.RedactPem | src/domain/redact.rs:350-411 | the loop computes the redacted lines and the matches (`PemLaws.BlockIsRedacted`, `PemLaws.LineIsCopied`) |
| PemLaws.BlockIsRedacted | src/domain/redact.rs:373-394 | a private key over several lines: where BEGIN matches, END does not match the rest and the rest looks like body, then body lines, then a line with END: the opening line leaves its head and the placeholder, each body line its marker, the last its marker and tail; one match is the text taken from all of them, and the lines after are redacted afresh |
| PemLaws.BlockIsCut | src/domain/redact.rs:398-403 | a line that is neither END nor body ends the block: it is copied, what the block held is one match, and the lines after are redacted afresh |
| PemLaws.BlockRunsOut | src/domain/redact.rs:407-409 | a block still open at the end is one match of what it holds |
| PemLaws.BlockOnOneLine | src/domain/redact.rs:367-372 | with BEGIN and END on one line the placeholder stands for both and what is between them, which is the match |
| PemLaws.LineIsCopied | src/domain/redact.rs:365-383 | outside blocks a line without BEGIN, or with BEGIN followed by what is neither END nor body, is copied and records nothing |
| PemLaws.ClosedAppend | src/domain/redact.rs:357-410 | lines that leave no block open are redacted without regard to what follows, and the rest without regard to them |
| Pem.EachLine | src/domain/redact.rs:364-404 | lines outside blocks are copied; a body line leaves at most its one diff marker; a closing line leaves its marker and the text after END; on an opening or one-line block a placeholder replaces one stretch of the line |
| Pem.BlockHasOpening | src/domain/redact.rs:364-404 | an open block goes back over body lines to one opening line |
| Pem.OneMatchPerPlaceholder | src/domain/redact.rs:350-411 | exactly one match is recorded for each placeholder |
| Pem.MatchesHoldTheSecrets | src/domain/redact.rs:350-411 | the matches in order hold all the text taken from the lines, and nothing else |
| Pem.TakenIsGone | src/domain/redact.rs:364-404 | whatever the role of a line, the output leaves out one stretch of it, and what is taken lies within that stretch |
| Pem.LinesStay | src/domain/redact.rs:359-405 | the output splits at newlines into exactly the redacted lines, and the input into exactly the lines read, with an empty last part on both sides just when the input is empty or ends in a newline |
| Scorer.ScoreFindings | eval/momus/evaluate.py:710-743 | the loop tallies every finding under the role its judgments give it |
| Scorer.RoleIs | eval/momus/evaluate.py:721-743 | what the loop decides from the issues and indices it remembers is the role by the judgments alone |
| Scorer.RolesExactly | eval/momus/evaluate.py:721-743 | each role in terms of the judgments, findings and issues alone: a false alarm is judged, not advisory and right about no issue; credited or withheld is the first match right about its issue, in a finished case or not; a duplicate is right but not first |
| Scorer.TallyLists | eval/momus/evaluate.py:710-743 | each list of a case holds, in increasing order, exactly the findings of its role, and the invalid matches are the false alarms that claimed an issue |
| Scorer.CompleteIs | eval/momus/evaluate.py:691-701 | a case is complete if and only if its review was and each of its findings is judged |
| Scorer.FindingsArePartitioned | eval/momus/evaluate.py:696-749 | credited, withheld, duplicate, false alarm, advisory and unadjudicated findings add up to all findings, and each caught issue is credited to exactly one finding |
| Scorer.CaughtExactly | eval/momus/evaluate.py:728-739 | in a finished case the caught issues are exactly those with a judgment that matches them to a finding with evidence, in the issue's file, dimension and lines, and is correct against the source; otherwise none is caught |
| Scorer.ValidHasMatch | eval/momus/evaluate.py:571-574 | the first valid finding for an issue is a match, not a duplicate |
| Scorer.ScoreCases | eval/momus/evaluate.py:678-758 | each total is the sum over the cases of its own count: issues, findings, finished cases, the findings of each role, and the caught issues; missed ones are the rest; they add up, and a fully complete selection leaves nothing withheld or unadjudicated |
| Scorer.TotalsBalance | eval/momus/evaluate.py:696-758 | over any cases the findings of the six roles add up to all findings, and the credited ones are as many as the caught issues |
| Imports.NewResolver | src/adapters/imports.rs:186-201 | the loop indexes every file under its last segment, in order |
| Imports.IndexIsComplete | src/adapters/imports.rs:238-250 | `suffix_matches` returns exactly what a full scan of the inventory would |
| Imports.Resolve | src/adapters/imports.rs:209-227 | resolution through the index is resolution by scanning |
| Imports.ScanHasBest | src/adapters/imports.rs:218-236 | the result is a match that no other match beats on importer, depth and path |
| ImportLaws.ResolvedExactly | src/adapters/imports.rs:209-250 | an import resolves to a file whose segments end in its names, such that no other such file is below the importer's directory when it is not, or as near and with more segments, or equal in both and earlier in the order of paths; in Rust, when no file ends in them, the same without the last name; else to nothing |
| ImportLaws.FileReads | src/adapters/imports.rs:128-178 | a path of names is read as its directories and its file's name up to the last dot, a `mod` or `index` file as its directories alone, and an import of such names likewise |
| ImportLaws.NoiseIsDropped | src/adapters/imports.rs:129-162 | empty parts and `.` anywhere do not count, nor does `..` in an import |
| Imports.ResolvedIgnoresOrder | src/adapters/imports.rs:209-236 | permuting the inventory resolves every import to the same file |
| ImportGraph.BuildGraph | src/adapters/imports.rs:441-469 | the adjacency lists hold every resolved import at both its ends |
| ImportGraph.Neighbors | src/adapters/imports.rs:478-490 | the neighbours are listed sorted, once each, without the file itself |
| ImportGraph.NeighborsAre | src/adapters/imports.rs:426-490 | a neighbour is another file that imports this one or is imported by it; the relation is symmetric and irreflexive |
| ImportGraph.NeighborsIgnoreOrder | src/adapters/imports.rs:426-490 | permuting the inventory changes no neighbour list |
| Paths.JoinedIs | src/adapters/imports.rs:339-378 | joining two texts as paths joins their components: an absolute second path replaces the first, a leading dot of the second is dropped |
| Paths.ResolveParts | src/adapters/imports.rs:379-392 | the component loop, which goes on after it has failed, computes the resolution of `.` and `..` |
| Paths.ResolvedExactly | src/adapters/imports.rs:379-395 | a path is accepted if and only if it has no root and at none of its components lies above the start; the number of its parts is how far below the start it ends |
| Paths.ResolvedAppend | src/adapters/imports.rs:381-392 | resolving in two legs is resolving the second from where the first ended |
| Paths.UpCancels | src/adapters/imports.rs:384-390 | a name and a `..` right after it cancel, anywhere in a path |
| Paths.RelativePath | src/adapters/imports.rs:356-395 | from a directory, k times `..` and then names lead below all but its last k parts, and nowhere when k exceeds its depth |
| Paths.ReadsBackExactly | src/adapters/imports.rs:396 | parts joined by slashes read back as those parts if and only if each is a name: nonempty, neither `.` nor `..`, without a slash |
| PathLaws.StepsRead | src/adapters/imports.rs:379-396 | names and `..` between slashes are read one by one |
| PathLaws.RootedRead | src/adapters/imports.rs:379-396 | a leading slash is the root, which no module path may have |
| PathLaws.DottedRead | src/adapters/imports.rs:379-396 | a leading `.` is read as the current directory, and only there |
| PathLaws.NoiseIsSkipped | src/adapters/imports.rs:379-396 | after the first part of a path, empty parts and `.` are not read |
| PathLaws.ExtensionReads | src/adapters/imports.rs:253-258 | the extension is what follows the last dot of a name, unless nothing precedes that dot |
| PathLaws.NoExtension | src/adapters/imports.rs:253-258 | a name without a dot has none |
| Stems.FindStem | src/adapters/imports.rs:333-399 | anchor, join, component loop and stripped extension give the stem that a candidate names, or nothing where the source skips it |
| Stems.StemExactly | src/adapters/imports.rs:356-399 | a candidate has a stem if and only if its anchor is known and its path never climbs above the root; the parts are as many as its depth, and are names without `.` and `..`, but for a script whose extension leaves only dots |
| Stems.SrcRootIs | src/adapters/imports.rs:357-363 | `use crate::` starts from the last `src` directory of the importing path |
| Stems.SuperIs | src/adapters/imports.rs:333-372 | `use super::` starts from the directory of an ordinary file, and from its parent for `main.rs`, `lib.rs` and `mod.rs` |
| PathLaws.ModulesLive | src/adapters/imports.rs:333-341 | the submodules of a Rust file live in its directory if it is `main.rs`, `lib.rs` or `mod.rs`, and otherwise in the directory of its stem |
| PathLaws.LanguageReads | src/domain/language.rs:285-298 | the language of a path is told by what follows its last dot, without regard to case |
| PathLaws.NoLanguage | src/domain/language.rs:285-298 | a path without a dot has none |
| EdgeLaws.RustAnchor | src/adapters/imports.rs:355-377 | where the imports of a line of a Rust file start: `crate` at the last `src`, `super` at or above its directory and nowhere when repeated, all others at its submodules |
| EdgeLaws.ScriptAnchor | src/adapters/imports.rs:377-379 | the imports of a script start at its directory |
| Stems.RelativeStem | src/adapters/imports.rs:356-399 | what a relative candidate names depends on the importing path: k `..` take off k of its anchor's parts, and too many reject it |
| StrictEdges.NewStrictResolver | src/adapters/imports.rs:269-290 | the loop indexes Rust files by path and script files by stem, duplicates retained |
| StrictEdges.MatchesAreFitting | src/adapters/imports.rs:292-312 | `matching_paths` returns exactly what a full scan would, counting duplicates |
| StrictEdges.StrictEdgesOf | src/adapters/imports.rs:317-424 | the line loop returns the edges of the import lines outside all braces, or none when braces close too early or stay open |
| StrictEdges.EvidencedEdges | src/adapters/imports.rs:448-468 | the edges are sorted, without repeats, and those of all files |
| StrictEdges.EdgesExactly | src/adapters/imports.rs:343-423 | an edge is evidenced if and only if some line of its file, outside all braces of a file whose braces balance, is an import line with a candidate whose path stays inside the inventory and fits exactly one file there, another one; for a Rust `use` that fits none, its path without the last part |
| StrictEdges.RustEdgeLeadsTo | src/adapters/imports.rs:292-305 | the target of a Rust edge is a file of the inventory, spelled by names alone: all the parts of the stem, or all but the last, with `.rs` or `/mod.rs` |
| EdgeLaws.RustFits | src/adapters/imports.rs:292-305 | a Rust module path of names fits exactly the file of that name and the `mod.rs` in the directory of that name |
| EdgeLaws.ScriptFits | src/adapters/imports.rs:305-312 | a script's module path of names fits exactly the files of that name, and those called `index` in the directory of that name, with one of the eight extensions |
| EdgeLaws.ScriptStem | src/adapters/imports.rs:396-399 | a script candidate written with one of the eight extensions names the module without it |
| EdgeLaws.OpaqueExactly | src/adapters/imports.rs:319-330 | a file is read if and only if its language is known and it holds no block comment, template string, raw string or path or cfg attribute |
| EdgeLaws.ActiveExactly | src/adapters/imports.rs:347-352 | an import line begins with one of five words |
| EdgeLaws.DepthExactly | src/adapters/imports.rs:343-414 | each line adds its opening braces to the depth and takes off its closing ones, unless it is a comment |
| EdgeLaws.UnbalancedHasNoEdges | src/adapters/imports.rs:414-423 | a file whose braces close too early, or are left open, evidences nothing |
| EdgeLaws.BalancedHasEdges | src/adapters/imports.rs:343-423 | in a file that is read and whose braces balance, a line has the edges of its candidates if and only if it is an import line outside all braces |
| TextLaws.FirstLine | src/adapters/imports.rs:343 | a line ends at its newline and loses one carriage return before it |
| StrictEdges.EdgesIgnoreOrder | src/adapters/imports.rs:268-424 | permuting the inventory changes no evidenced edge |

## Left out

- HunkSplit.SplitHunk: an underflowing subtraction is reported as no result; the source panics or wraps there, depending on how it is built.
- SplitLaws.SplitTwice: requires that line numbers stay within `usize`; the model's line numbers are unbounded, so wrap-around beyond that is not modelled.
- HunkApply.SplitApplies: requires a readable header whose counts are those of the body; without it a hunk has no meaning to preserve.
- NewFile.NewFileRoundTrip: requires that the number of lines fit in `usize`.
- BaseLines.BaseLine: line arithmetic is unbounded; headers near the limits of `usize` or `i64` are not modelled.
- Candidates.CandidateHunks: the region finder is a parameter that gives positive line numbers.
- Batch.AcceptsExactly: requires that the buffer's length fit in `usize`, as a real buffer's does.
- Limiter.AdaptiveLimiter.TryAcquire: the awaiting around it is a step of `LimiterRuns`, and a poisoned lock is an ordinary lock, as in the source.
- Budget.CallBudget.Reserve: a single caller; calls that interfere with each other are the steps of `Budget.StepIsSound`.
- Budget.EveryRunIsExact: counters are unbounded; wrap-around after 2^64 reservations or deferrals is not modelled.
- Cfg.DisablesExactly: Unicode's table of letters and digits beyond ASCII is a parameter that holds no white space.
- Review.MakePlan: severities are reals rather than floating-point numbers, and the visible text of a comment, after redaction, is a field of the finding.
- Outcomes.IndexCaptures: the digests, authorities and reconstruction of a capture are one boolean on it.
- Outcomes.IndexMerges: the envelope, digest and identity of a merge are one boolean on it.
- Outcomes.IndexObservations: the envelope, digest and attribution of an observation are one boolean on it.
- Outcomes.ExportHistory: JSON shapes, digests, receipts' authorities, canonical identities and the reconstruction of a capture are one boolean on each piece of evidence; error messages are not distinguished.
- Scorer.ScoreFindings: requires judgments that the validation admits; evidence text is a boolean, and explanation quality counters are not modelled.
- Scorer.ScoreCases: whether a run is complete, apart from its adjudication, is a boolean of the case; abstention and clean-case totals and the rates are not modelled.
- Pem.RedactPem: the three regular expressions are arbitrary functions.
- ImportGraph.BuildGraph: the extraction of import candidates is a parameter.
- StrictEdges.EvidencedEdges: the candidates of a line are a parameter, since regular expressions find them; paths are Unix paths, and the paths of the inventory do not end in a slash.
- Timestamps.WriteThenRead: the clock's value is a count of seconds since the epoch; earlier clocks are clamped to it before the modelled code.
- Git subprocesses, file reads and writes, caches, the dashboard server, the command line and the GitHub client: input and output without a property of their own.
- The token expressions, entropy rule and benign-value guards of the redactor, and glob exclusion: they rest on libraries.
- The text of summaries, titles, vocabularies, rubrics and prompts.
- Context budgets, feedback logs, threshold tuning, hotspots, release policies and SARIF output: they would only add easy members.
- Hashing, JSON parsing and floating-point scores.
