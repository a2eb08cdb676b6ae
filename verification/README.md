# CountNet game logic in Dafny

CountNet is a TCP counting game. Players connect and type the next number of a shared
count. The server refuses a number from whoever made the last accepted move, and it refuses
any number that is not the next one. Text commands show help, the move log (`history`), the
requester's score and rank (`score`), the ten best scores (`top`), who is online (`online`)
and the requester's own identity (`who`). A 15-second timer saves the state to disk whenever
it has changed.

This project models the server's per-line handler as a pure function:

    Step(state, saved, ip, line, now, online) -> Outcome(state', saved', replies, broadcast)

`replies` holds the lines written back to the sender. `broadcast` is the message sent to
every connection, if there is one. The timer body is modelled as the function `Tick`.

Modules:

- `Wrappers`: `Option`.
- `JsNumber`: the global `parseInt(text)` with no radix, as section 19.2.5 of ECMA-262
  defines it (leading StrWhiteSpaceChar skipped, optional sign, a `0x`/`0X` prefix switching
  to radix 16, the longest run of digits, NaN when there is none), and the decimal rendering
  of an integral Number.
- `JsText`: `split` on one character, `join`, and `padStart`.
- `JsArray`: `slice`, with its relative (negative) indices clamped to the array.
- `Game`: the state record (`num`, `by`, the history log, the score table), an accepted
  move, and the invariant that accepted moves keep. The score table is a sequence of
  `(ip, count)` pairs in insertion order, which is the order `Object.entries` lists them in.
- `History`: the pages of `history [page]` and the text of the command.
- `Ranking`: the stable descending sort behind `score` and `top`, the score window around
  the requester, and the text of both commands.
- `Server`: command classification, `Step`, the save tick, runs of several lines, and a
  two-player scenario.

The JavaScript field `by` is called `lastBy` in the model, because `by` is a Dafny keyword.

Two behaviours of the code are easy to miss:

- **End of history.** The closing line says "You've reached the end!" only when
  `(page + 1) * 100 > length` (node.ts:104). When the log holds exactly `100 * (k + 1)`
  entries, page `k` ends by naming page `k + 1`, and that page is empty
  (`History.HintCanNameEmptyPage`).
- **Rank on a tie.** The ranking is a stable sort, so players with equal scores keep table
  order. In the two-player example, A and B hold one point each. A scored first and stays
  ahead, so B's `score` reports rank #2 (`Server.ScenarioBHeading`).

## Model

| member | source | states |
|---|---|---|
| Server.Classify | node.ts:69-149 | No contract of its own. `ClassifyCommandText`, `ClassifyHistoryText`, `ClassifyNumberPrefix` and `FirstWordDecides` pin down which command a line is. |
| Server.WordCommand | node.ts:88-149 | No contract of its own: the dispatch on the first word. `FirstWordDecides` and `SameFirstWord` show that only the first word matters, except for the page of `history`. |
| Server.Run | node.ts:68-150 | No contract of its own: lines handled one after another. `QuietRunChangesNothing` and `RunKeepsInvariant` state what a run keeps. |
| Server.Accepted | node.ts:71-74 | No contract of its own: the line reads as `num + 1` and its sender is not `by`. `Step`'s contract says a line broadcasts exactly when it is accepted. |
| Server.Step | node.ts:68-150 | The line broadcasts exactly when it is an accepted move: it reads as `num + 1` and comes from someone other than `by`. An accepted move performs `Accept`, clears the saved flag, writes nothing back and broadcasts "The count is now N!". Every other line leaves the state and the flag untouched and writes at least one line back. |
| Server.Reply | node.ts:88-149 | Every command other than a number writes at least one line back. |
| Server.NonNumberReplies | node.ts:69-149 | A line that `parseInt` reads as NaN is no move. The step answers it with the reply of the command the line names and changes neither the state nor the flag. |
| Server.SpeakTwiceRefused | node.ts:71-73 | A numeric line from the last mover gets only "You can't speak twice in a row", whatever its value, and nothing changes. |
| Server.WrongNumberRefused | node.ts:85-87 | Any other number from another player gets only "`n` is the wrong number!", and nothing changes. |
| Server.StepPreservesValid | node.ts:68-150 | Every step, accepted or not, keeps the state invariant `Game.Valid`. |
| Server.ClassifyCommandText | node.ts:69-70 | Classifying the typed text of any command gives that command back: a rendered number is a move, `history N` asks for page N, and each command word is that command. |
| Server.ClassifyHistoryText | node.ts:90-92 | `history ` followed by a rendered page number asks for exactly that page. |
| Server.ClassifyHistoryLine | node.ts:90-92 | The page of `history` is its second word as `parseInt` reads it, or 0 when that word is missing or NaN. `history` and `history abc` ask for page 0, `history 2abc` for page 2, and anything after the second word is ignored. |
| Server.ClassifyByWords | node.ts:69-70 | A line that is no number is classified by the pieces of its `split(" ")`. |
| Server.FirstWordDecides | node.ts:69-149 | For a line that is not a number, only the first space-separated word is looked at. Take a word with no space that is not `history`, where neither the word nor the whole line reads as a number. The line is then classified as that word alone, whatever follows the first space. |
| Server.LetterWordDecides | node.ts:69-149 | A space-free word other than `history` whose first character is not white space, a sign or a decimal digit (so any letter, upper or lower case) meets those conditions for any text after it. |
| Server.ClassifyNumberPrefix | node.ts:69-71 | A number followed by text that cannot continue it, after any leading white space, is still a move of that number (`12abc` moves 12). |
| Server.PlainWord | node.ts:69-70 | A space-free word starting with a lower-case letter is NaN for `parseInt`, and `split(" ")` returns it whole. |
| Server.Tick | node.ts:22-27 | A tick writes exactly when the flag is clear, and what it writes is the current state. It always leaves the flag set. |
| Server.FirstTickWrites | node.ts:21-27 | The flag starts clear, so the first tick after start-up writes. |
| Server.MoveIsSavedNextTick | node.ts:82 | After an accepted move, the next tick writes the new state. |
| Server.QuietRunChangesNothing | node.ts:68-150 | A run of lines none of which is an accepted move changes neither the state nor the flag. |
| Server.TicksBetweenMovesWriteOnce | node.ts:21-27 | Two ticks with no accepted move between them write at most once: the second one finds the flag set. |
| Server.RunKeepsInvariant | node.ts:74-80 | Over any run of lines the invariant holds at the end, the old log is a prefix of the new one, and the count grows by the number of appended entries. |
| Server.ScenarioAMoves | node.ts:74-84 | From the initial state, A's "1" is accepted. The state becomes count 1, by A, log `[1, A, t]`, scores `{A: 1}`, and the broadcast is "The count is now 1!". |
| Server.ScenarioARepeats | node.ts:72-73 | A's "2" straight after their own move is refused, and nothing changes. |
| Server.ScenarioBMoves | node.ts:74-84 | B's "2" is accepted next. The scores become `{A: 1, B: 1}` in that order. |
| Server.ScenarioBScore | node.ts:113-128 | B's `score` leaves the state alone and writes the score report for B. |
| Server.ScenarioBHeading | node.ts:114-121 | In that report B has score 1 and rank #2: the stable sort keeps A first on the tie. |
| JsNumber.ParseInt | node.ts:69 | No contract of its own: `parseInt` with no radix. `ParseIntRoundTrip`, `ParseIntOfRendered`, `ParseIntSkipsSpace` and `ParseIntOfWord` pin down its results. |
| JsNumber.IntToString | node.ts:84-142 | `${n}` for an integer, never empty. `ParseIntRoundTrip` makes it the inverse of `parseInt`, and `IntToStringHasNoSpace` keeps it one word. |
| JsNumber.ParseIntRoundTrip | node.ts:69 | `parseInt` of a rendered integer is that integer. |
| JsNumber.ParseIntOfRendered | node.ts:69 | `parseInt` reads a rendered integer followed by any text that cannot continue it as that integer. After a lone `0`, an `x` or `X` would start a hexadecimal prefix instead. |
| JsNumber.ParseIntSkipsSpace | node.ts:69 | Leading white space never changes what `parseInt` reads. |
| JsNumber.ParseIntOfWord | node.ts:69-71 | A line starting with anything other than white space, a sign or a decimal digit is NaN. |
| JsNumber.ParseIntWithoutSpace | node.ts:69 | With no leading white space, `parseInt` goes straight to the sign. |
| JsNumber.TrimSpaces | node.ts:69 | Removing leading white space ignores any prefix made only of white space. |
| JsNumber.ValueOfNatToString | node.ts:86 | Reading back the decimal digits of a rendered natural number gives the number. |
| JsNumber.IntToStringHasNoSpace | node.ts:108-110 | A rendered integer has no space in it. |
| JsText.Join | node.ts:131 | No contract of its own: `join(sep)`. `Split` and `SplitJoin` make it the inverse of `split`. |
| JsText.Split | node.ts:70 | `split(" ")` returns at least one piece. No piece holds a space, and joining the pieces with spaces rebuilds the line. |
| JsText.SplitJoin | node.ts:70 | Splitting a space-joined list of space-free pieces gives the pieces back. |
| JsText.SplitFirst | node.ts:70 | The first piece of `split(" ")` is the text before the first space. |
| JsText.PadStart | node.ts:140 | `padStart(w, f)` is as long as the larger of `w` and the length of `s`, ends with `s`, and is `f` before that. |
| JsArray.Slice | node.ts:95-99 | `slice(start, end)` is the block of the array from the resolved start up to the resolved end, where an `undefined` end means the array's end. It is empty when the end does not lie after the start. |
| JsArray.SliceInRange | node.ts:95-99 | On indices inside the array, `slice` is the plain subsequence. |
| Game.Lookup | node.ts:79-80 | No contract of its own: `state.scores[ip]`, absent as None. `BumpLookup` and `Ranking.LookupFound` state what it returns. |
| Game.ScoreOf | node.ts:118 | No contract of its own: `state.scores[ip] ?? 0`. `BumpLookup` and `RankedIffScored` relate it to the table and the ranking. |
| Game.Bump | node.ts:79-80 | A present identity keeps the table's length. An absent one is appended as `(ip, 1)`. Every position keeps its identity, and the other entries are unchanged. |
| Game.BumpLookup | node.ts:79-80 | After the increment, the mover's score is one more than before, counting an absent score as 0, and every other identity's score is unchanged. |
| Game.BumpSum | node.ts:79-80 | The increment adds exactly one to the sum of all scores. |
| Game.BumpKeepsDistinct | node.ts:79 | The increment never creates a second entry for an identity. |
| Game.OccurrencesAppend | node.ts:77 | Appending a log entry adds one to its mover's number of entries and nothing to anyone else's. |
| Game.Valid | node.ts:74-80 | No contract of its own: the state invariant. `InitialValid`, `AcceptPreservesValid`, `StepPreservesValid` and `RunKeepsInvariant` show that every move keeps it. |
| Game.Accept | node.ts:74-80 | An accepted move raises `num` by one, sets `by` to the mover, appends `[num + 1, ip, now]` to the log, adds one to the mover's score, and changes no other score. |
| Game.AcceptPreservesValid | node.ts:74-80 | An accepted move keeps the invariant: one log entry per count, numbered 1, 2, …, the last entry's mover is `by`, distinct identities in the table, a score sum equal to `num`, and each identity's score equal to its number of log entries. |
| Game.InitialValid | node.ts:8-13 | The fresh state satisfies the invariant. |
| History.Page | node.ts:95-99 | No contract of its own: the page slice. `PageBounds` gives its bounds, and `NegativePage` covers negative pages. |
| History.PageBounds | node.ts:95-99 | Page `k >= 0` is the block of the log between `max(0, L - 100(k+1))` and `max(0, L - 100k)`. |
| History.NewestPage | node.ts:95-99 | Page 0 is the last `min(100, L)` entries, in log order. |
| History.PageSizeBound | node.ts:95-111 | A page holds at most 100 entries. A page `k > 0` with `100k >= L` is empty, and its closing line says the end was reached. |
| History.PagesAdjacent | node.ts:95-99 | Page `k + 1` ends where page `k` begins, and together they form one block of the log. |
| History.PagesCoverTail | node.ts:95-99 | Pages `k`, …, 1, 0, put together, are exactly the log from page `k`'s start. |
| History.PagesPartitionLog | node.ts:95-99 | Once a page reaches back to the first entry, pages `k`, …, 0 together are the whole log. |
| History.NegativePage | node.ts:91-99 | A negative page `-j` is the `j`-th block of 100 entries counted from the oldest one. |
| History.HistoryReplies | node.ts:94-112 | `history` writes the heading `History (page N)`, then one line per entry of the page in order, then the closing line. |
| History.EntryLine | node.ts:101 | No contract of its own: `${mover}: ${value}` and CRLF. `HistoryLine` places it in the reply. |
| History.HistoryLine | node.ts:100-102 | Line `k + 1` of the `history` reply is `mover: value` for the page's `k`-th entry. |
| History.AtEnd | node.ts:104 | No contract of its own: the test `(page + 1) * 100 > length`. `EndMeansNextPageEmpty` and `HintCanNameEmptyPage` relate it to the next page. |
| History.EndLine | node.ts:104-111 | No contract of its own: the closing line chosen by `AtEnd`. `HintCanNameEmptyPage` says when it names an empty page. |
| History.EndMeansNextPageEmpty | node.ts:104-105 | When the closing line says the end was reached, the next page is empty. |
| History.HintCanNameEmptyPage | node.ts:98-111 | The closing line of page `k` names page `k + 1` and that page is empty exactly when the log holds `100 * (k + 1)` entries. Page `k` then holds a full 100. |
| Ranking.Rank | node.ts:114 | The ranking is a permutation of the table and sorted by descending count. Within each count, the entries keep their table order. |
| Ranking.RankUnique | node.ts:114 | Any sequence that is sorted by descending count and keeps each count's table order is the ranking. The sort is pinned down by those two properties. |
| Ranking.InsertPermutes | node.ts:114 | One step of the sort keeps the entries. |
| Ranking.InsertSorted | node.ts:114 | One step of the sort keeps the sequence sorted. |
| Ranking.InsertBelow | node.ts:114 | Inserting keeps every count under a common bound. |
| Ranking.InsertStable | node.ts:114 | One step of the sort puts the new entry ahead of the equal counts that follow it. |
| Ranking.SortedStableEqual | node.ts:114 | Two sequences that are sorted descending, with the same entries per count in the same order, are equal. |
| Ranking.FindIndex | node.ts:115 | `findIndex` gives the first position holding the identity, or -1 when no position holds it. |
| Ranking.RankText | node.ts:118-119 | No contract of its own: `(index + 1) \|\| "?"`. `RankedIffScored` shows that it reads "?" exactly for an identity with no entry. |
| Ranking.LookupFound | node.ts:118 | `state.scores[ip]` is present exactly when some table entry has identity `ip`. With distinct identities, it is that entry's count. |
| Ranking.RankedIffScored | node.ts:115-121 | The requester has a position in the ranking exactly when the table has an entry for them, so the rank reads "?" exactly for an identity that never scored. Their ranking entry holds the score the heading reports. |
| Ranking.ScoreReplies | node.ts:117-128 | `score` writes `Your score is S. Rank #R` with the table score (0 when absent), then one line per window entry. |
| Ranking.ScoreLine | node.ts:122-127 | Line `k + 1` of the `score` reply is the window's `k`-th entry, written with its marker. |
| Ranking.WindowLine | node.ts:125-126 | No contract of its own: the marker, then `${place + 1}. ${ip}: ${count}` and CRLF. `MarkerOnOwnLine` and `ScoreLine` state its marker and its place in the reply. |
| Ranking.Window | node.ts:122 | No contract of its own: the slice of the placed ranking. `WindowShape` gives its bounds. |
| Ranking.WindowShape | node.ts:122 | The window is the placed ranking from `max(index - 5, 0)` up to `min(index + 5, n)`. So it never holds more than 10 entries, and an absent requester gets the first four. |
| Ranking.WindowHasRequester | node.ts:115-122 | The window holds the requester's own entry exactly when the requester is ranked. |
| Ranking.RankedInWindow | node.ts:115-122 | A ranked requester's own entry lies inside their window, at its offset from the window's start. |
| Ranking.WindowEntryRanked | node.ts:122 | Each window entry carries the identity of the ranking entry at its place. |
| Ranking.MarkerOnOwnLine | node.ts:124-126 | A window line starts with `-> ` exactly when it is the requester's own. |
| Ranking.RequesterMarked | node.ts:113-128 | Some line of the `score` report carries the `-> ` marker exactly when the requester has an entry in the table. |
| Ranking.Placements | node.ts:122 | Every ranking entry is paired with its 0-based place in the full ranking. |
| Ranking.TopLine | node.ts:139-141 | No contract of its own: one `top` line with the place padded to two characters. `JsText.PadStart` states the padding. |
| Ranking.TopReplies | node.ts:134-144 | No contract of its own: `top` on the score table is `TopList` of the ranking. `TopReport` states its contents. |
| Ranking.TopList | node.ts:135-144 | No contract of its own: the whole `top` reply. `TopListShape` and `TopReport` state its contents. |
| Ranking.TopListShape | node.ts:135-144 | `top` writes its heading, then the first `min(10, n)` ranking entries in order, numbered 1, 2, … consecutively. |
| Ranking.TopReport | node.ts:134-144 | `top` on the score table lists the first `min(10, n)` ranking entries, numbered from 1. Every listed count is at least every unlisted one. |

## Left out

- Sockets, `readline` line splitting, `conn.write`, `conn.end` and `server.listen` (node.ts:3-4, 45-67, 160). A step returns the lines it would write instead of writing them.
- The connection list and the delivery of `broadcast` (node.ts:39-43, 54-56, 155). `Step` returns the broadcast message. The identities online are an input sequence, which `online` joins with spaces.
- The missing-remote-address refusal and the welcome lines (node.ts:47-52, 59-65). They run once per connection, not per line.
- Reading and writing `state.json` and `JSON.parse`/`JSON.stringify` (node.ts:14-19, 25). `Tick` returns the state it would write. A loaded state is any `GameState`, so the invariant is stated as preserved, not as always true.
- `setInterval` timing, `+new Date()` and `console.log` (node.ts:22, 27, 59, 77, 152). The clock reading is a parameter of `Step`.
- The outer `try`/`catch` (node.ts:46, 151-157). Nothing in the modelled handler throws on the inputs the model admits.
- JavaScript's double-precision numbers: numbers are unbounded integers. `parseInt` results beyond 2^53, their exponent rendering, `-0`, and non-integral or `NaN` values inside a loaded state are not modelled.
- The JavaScript order of integer-like object keys: `Object.entries` lists keys such as `"7"` first, in numeric order. The model keeps insertion order throughout, which matches for the remote addresses the server uses as keys.
- Strings are sequences of Unicode scalar values rather than UTF-16 code units, so characters outside the Basic Multilingual Plane count once, not twice.
- Ranking.ScoreReplies: the two writes of each window line, the marker and the rest (node.ts:125-126), form one element of `replies`. The text on the wire is the same.
- The JavaScript engine's sort algorithm: the model sorts by stable insertion, and `Ranking.RankUnique` shows that any stable descending sort gives the same ranking.
- The reset in `if (!state.scores[ip]) state.scores[ip] = 0` (node.ts:79): it only changes a stored 0 into 0, so the model adds 1 to any present entry.
