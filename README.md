# Team spirit builder: roster, lucky draw and grouping engines

A Dafny model of the three engines inside the team-spirit-builder HR utility:

- **The roster panel** (`components/InputSection.tsx`) manages an ordered list of participants (`{id, name}`). It does four things:
  - appends names typed one per line, names taken from the first column of an uploaded file, and names returned by the demo-name generator;
  - counts names under the key `trim().toLowerCase()` and flags duplicates;
  - removes duplicates, keeping the first entry of every key;
  - removes one entry by id, and clears the whole list.
- **The lucky draw** (`components/PrizeDraw.tsx`) builds a pool of eligible candidates: the whole roster, or, when repeat winners are off, everyone whose id has not won yet. A draw then:
  - spins a slot-machine display on a slowing timer;
  - commits a winner to the front of the history;
  - numbers history entries from the newest down to 1.
  The history can be reset.
- **The grouping panel** (`components/Grouping.tsx`) does four things:
  - shuffles a copy of the roster in place (Fisher–Yates);
  - cuts it into consecutive groups of the chosen size, numbered from 1; the group size is clamped to at least 1, and "Expected Groups" shows `ceil(n / size)`;
  - writes the groups as a CSV file, quoting names as section 2 of RFC 4180 describes for fields that hold a comma or a double quote;
  - writes them as clipboard text.

The modules, and what each one models:
- `Types` holds the records of `types.ts`.
- `Seqs` models the order-preserving `filter` and `map`.
- `Text` models the JavaScript string built-ins the panels use:
  - `trim`, with the exact ECMAScript whitespace set;
  - `toLowerCase`, for ASCII letters only;
  - `split`, on one character and on `/\r\n|\n/`;
  - `join`;
  - decimal rendering.
- `Roster`, `PrizeDraw`, `Grouping` and `GroupExport` model the three panels.

The two pieces of component state that change step by step are classes:
- `PrizeDraw.DrawEngine`: its fields are `allowRepeats`, `history`, `isSpinning` and `currentDisplay`, plus the variables the draw's closures share: the pool captured at start, `speed` and `elapsed`.
- `Grouping.GroupingPanel`: its fields are `groupSize`, `groups` and `isGenerated`.

Loops in the source stay loops in the model:
- the shuffle, done in place on an `array`;
- the chunking loop;
- the nested CSV loops;
- the duplicate-removal loop;
- the name-count loop.
Each is proved against a specification function.

The environment's inputs become parameters:
- Every `Math.random()` index is a parameter that must lie in range: `displayPick` and `winnerPick` inside the pool, and `picks[i] <= i` for the shuffle.
- `Date.now()` is `now`.
- `crypto.randomUUID()` is a supply `freshId: nat -> string`. Lemmas that need fresh ids require them to be distinct.
- `window.confirm` is a `confirmed` flag.
- `parseInt` of the group-size input is an `Option<int>`.
- An uploaded file is an `Option<string>`: its content, or nothing.

Two choices of the code that the model keeps:
- The last name shown by the spin and the committed winner are two independent random picks, so the name on display just before the commit need not be the winner's. `DrawEngine.Tick` and `DrawEngine.Draw` prove only that the display shows the recorded winner after the commit.
- An empty pool is not reported as a failure: `startDraw` simply returns. `DrawEngine.StartDraw` models that: `started` is false and nothing changes.

## Model

| member | source | states |
|---|---|---|
| Types.WithoutId | components/InputSection.tsx:108 | The result is a subsequence of the roster and holds exactly the entries whose id differs from `id`. |
| Types.FilterKeepsUniqueIds | components/InputSection.tsx:107-109 | Any filter of a roster with unique ids keeps the ids unique. |
| Types.WithoutPresentId | components/InputSection.tsx:107-109 | In a roster with unique ids, removing an id that occurs takes out exactly one entry. |
| Types.WithoutAbsentId | components/InputSection.tsx:107-109 | Removing an id that does not occur leaves the roster unchanged. |
| Seqs.Filter | components/InputSection.tsx:34 | `filter` keeps exactly the elements that pass, in order. The result is a subsequence, no longer than the input, and holds an element exactly when the input does and it passes. |
| Seqs.FilterCounts | components/InputSection.tsx:34 | Each element occurs in the filtered list as often as in the input when it passes, and not at all otherwise. |
| Seqs.FilterFilter | components/PrizeDraw.tsx:22 | Two filters in a row equal one filter by the conjunction. |
| Seqs.Map | components/InputSection.tsx:33 | `s.map(f)`: the same length, with `f` applied at every position; Seqs.MapSnoc states how it grows with the input. The same `map` is used at components/InputSection.tsx:55 and components/Grouping.tsx:46. |
| Text.Trim | components/InputSection.tsx:33 | `trim` returns the slice of its input between a leading and a trailing run of whitespace, with no whitespace at either edge of the slice. The result is empty exactly when the input is all whitespace. |
| Text.TrimIdempotent | components/InputSection.tsx:20 | Trimming twice is trimming once. |
| Text.ToLower | components/InputSection.tsx:20 | `toLowerCase` keeps the length, maps each character through the ASCII case map, and leaves no upper-case ASCII letter. |
| Text.Split | components/InputSection.tsx:32 | `split(c)` yields at least one piece. No piece holds `c`, and joining the pieces with `c` gives back the input. |
| Text.SplitJoin | components/InputSection.tsx:32 | Splitting a join of pieces without the separator gives back the pieces. |
| Text.Join | components/Grouping.tsx:46 | `parts.join(sep)`: an empty list gives the empty string, one part gives itself, and more parts are separated by `sep`. Text.SplitJoin proves that splitting the join of separator-free parts gives them back, and Text.JoinAppend that joining two lists joins their joins. |
| Text.SplitFirst | components/InputSection.tsx:57-58 | `parts[0]` is the text before the first separator. |
| Text.SplitLines | components/InputSection.tsx:52 | Splitting at `\r\n` or `\n` yields as many lines as `split('\n')`, and no line holds a line break. Each piece but the last loses its final character exactly when that character is `\r`, and is otherwise unchanged. The last piece is never changed. |
| Text.JoinAllWhitespace | components/InputSection.tsx:29-34 | A text is all whitespace exactly when each of its lines is. |
| Text.NatToString | components/Grouping.tsx:61 | The template-literal rendering of a natural number: at least one character, decimal digits only, and `ParseDecimal` reads back the number. |
| Text.IntToString | components/Grouping.tsx:46 | `${g.id}` of an integer: a minus sign before the digits of a negative value. GroupExport.RowLineParses proves that a non-negative id reads back from its row. |
| Roster.NameKey | components/InputSection.tsx:20 | The key `trim().toLowerCase()` is the lower-cased slice of the name between its leading and trailing whitespace, so it is no longer than the name. The same key is used at lines 97 and 212; Roster.NameKeyShape and Roster.NameKeyEdges state its shape. |
| Roster.NameKeyShape | components/InputSection.tsx:20 | The key `trim().toLowerCase()` is empty exactly for a blank name, and it never holds an upper-case ASCII letter. |
| Roster.NameKeyEdges | components/InputSection.tsx:20 | A non-empty key has no whitespace at either edge. |
| Roster.CountKey | components/InputSection.tsx:21 | The count of a key is at most the roster length. It is positive exactly when the key occurs. |
| Roster.CountTableSnoc | components/InputSection.tsx:19-22 | One step of the counting loop: bumping the new entry's key keeps the map a correct count table. |
| Roster.NameCounts | components/InputSection.tsx:17-24 | The loop builds a map whose keys are exactly the roster's keys, and each count is the number of entries with that key. |
| Roster.CountsSumToLength | components/InputSection.tsx:17-24 | The counts, summed over the distinct keys, add up to the roster length. |
| Roster.HasDuplicates | components/InputSection.tsx:26 | `hasDuplicates` is "some count exceeds 1". Roster.HasDuplicatesIff proves it holds exactly when two entries share a key. |
| Roster.IsFlagged | components/InputSection.tsx:212 | `isDuplicate` is "the entry's key is counted more than once". A flagged entry implies `hasDuplicates`; Roster.FlaggedIff proves an entry is flagged exactly when another entry shares its key. |
| Roster.CountAtLeastTwo | components/InputSection.tsx:26 | A key is counted at least twice exactly when it occurs at two different positions. |
| Roster.HasDuplicatesIff | components/InputSection.tsx:26 | `hasDuplicates` holds exactly when two entries share a key (both directions). |
| Roster.FlaggedIff | components/InputSection.tsx:212 | An entry is flagged exactly when another entry shares its key. |
| Roster.KeepFirst | components/InputSection.tsx:91-102 | The deduplicated roster is a subsequence of the input. Its keys are pairwise distinct, every input key survives, and the first entry of each key is kept. |
| Roster.KeepFirstSnoc | components/InputSection.tsx:96-101 | One more entry is kept exactly when its key has not been seen. |
| Roster.KeepFirstStep | components/InputSection.tsx:96-101 | The loop step at index `i`: the entry is kept exactly when its key is not among the keys of the entries before it. Its key is seen from then on. |
| Roster.RemoveDuplicatesBy | components/InputSection.tsx:92-102 | The loop over `seen` and `uniquePeople` computes exactly the first-occurrence selection. |
| Roster.RemoveDuplicates | components/InputSection.tsx:91-105 | `handleRemoveDuplicates` yields a subsequence with pairwise distinct keys and the same set of keys as the input. |
| Roster.KeepFirstOfDistinct | components/InputSection.tsx:91-105 | A roster whose keys are already distinct comes back unchanged. |
| Roster.KeepFirstIdempotent | components/InputSection.tsx:91-105 | Removing duplicates twice is removing them once. |
| Roster.NoDuplicatesAfterRemoval | components/InputSection.tsx:26 | After duplicate removal, the counts of the new roster show no duplicate. Flagging and removal use the same key. |
| Roster.AppendNames | components/InputSection.tsx:36-41 | The existing entries stay first and unchanged. One entry per name follows, in name order, with a fresh id each. |
| Roster.AppendKeepsUniqueIds | components/InputSection.tsx:36-41 | If the new ids are distinct and unused, ids stay unique after appending. |
| Roster.TrimEach | components/InputSection.tsx:33 | Every line is trimmed, and the count of lines is kept. |
| Roster.TrimmedLinesAreClean | components/InputSection.tsx:31-34 | The non-empty trimmed lines are non-empty, single-line, and have no whitespace at either edge. |
| Roster.TextNames | components/InputSection.tsx:31-34 | Every name taken from the text box is clean. |
| Roster.LineNamesMembers | components/InputSection.tsx:31-34 | The names of a list of lines are, in line order, exactly the trimmed lines that are not empty. |
| Roster.TextNamesMembers | components/InputSection.tsx:31-34 | The names of a text are, in order, exactly the non-empty trimmed pieces of `split('\n')`. |
| Roster.TextNamesEmptyIff | components/InputSection.tsx:29-34 | A text yields no names exactly when it is all whitespace. |
| Roster.AddFromText | components/InputSection.tsx:28-43 | A text that trims to nothing changes neither the roster nor the box. Otherwise its names are appended, the roster grows, and the box is cleared. |
| Roster.FirstCell | components/InputSection.tsx:57-58 | The cell is the trimmed text before the first comma, so it holds no comma. A line without a comma gives its trimmed self. |
| Roster.FirstCells | components/InputSection.tsx:55-59 | There is one first cell per line. |
| Roster.FirstCellsOneLine | components/InputSection.tsx:52-58 | The first cells of `\r\n`/`\n`-split lines hold neither a comma nor a line break. |
| Roster.IsNameCell | components/InputSection.tsx:60 | The header filter keeps a cell that is non-empty and is not `name` in any ASCII case. Roster.CellNamesMembers and Roster.NameCellsKeepShape state what the filter keeps. |
| Roster.NameCellsKeepShape | components/InputSection.tsx:60 | The cells kept by the header filter are non-empty, are not `name` in any ASCII case, and hold no comma and no line break. |
| Roster.FileNames | components/InputSection.tsx:52-60 | The names of a file are non-empty, are not `name` in any ASCII case, and hold no comma and no line break. |
| Roster.CellNamesMembers | components/InputSection.tsx:54-60 | The kept cells are, in line order, exactly the first cells that are non-empty and not a `name` header. |
| Roster.FileNamesMembers | components/InputSection.tsx:52-60 | The names of a file are, in line order, exactly the first cells of its lines that are non-empty and not a `name` header. |
| Roster.FileUpload | components/InputSection.tsx:45-67 | No file changes nothing. Otherwise the file's names are appended with fresh ids. |
| Roster.RemovePerson | components/InputSection.tsx:107-109 | The result is a subsequence holding exactly the entries with another id. An absent id changes nothing. With unique ids, a present id removes exactly one entry and the ids stay unique. |
| Roster.ClearList | components/InputSection.tsx:85-89 | Once confirmed, the roster is empty. Otherwise it is unchanged. |
| PrizeDraw.Eligible | components/PrizeDraw.tsx:20-22 | With repeats allowed, the pool is the roster. Otherwise it is the roster's subsequence of exactly those people whose id has not won. |
| PrizeDraw.HasWon | components/PrizeDraw.tsx:22 | `history.some(h => h.winner.id === p.id)`: some entry was won by that id. PrizeDraw.HasWonCons and PrizeDraw.EligibleAfterWin state how it grows with the history. |
| PrizeDraw.HasWonCons | components/PrizeDraw.tsx:22 | After a prepend, an id has won exactly when it won the new entry or an older one. |
| PrizeDraw.EligibleAfterWin | components/PrizeDraw.tsx:22 | With repeats off, committing a winner removes exactly that winner's id from the pool. |
| PrizeDraw.DrawShrinksPool | components/PrizeDraw.tsx:20-22 | With unique ids and repeats off, drawing someone from the pool shrinks the pool by exactly one. |
| PrizeDraw.RemainingAfterDraws | components/PrizeDraw.tsx:20-22 | Each draw without repeats takes a new id from a roster with unique ids. Then there are at most `n` draws, and the pool holds `n` minus the number of draws. |
| PrizeDraw.PoolExhausted | components/PrizeDraw.tsx:20-25 | After `n` draws without repeats from `n` people, the pool is empty, so the next draw is refused. |
| PrizeDraw.NextSpeed | components/PrizeDraw.tsx:42 | The delay stays or grows by 10. It grows exactly when `elapsed > 3000 - 1000`. |
| PrizeDraw.TicksLeft | components/PrizeDraw.tsx:34-47 | The cycle runs out, so the timer chain terminates. At least one more name is shown, and exactly one when this tick reaches 3000 ms. |
| PrizeDraw.FinalTicks | components/PrizeDraw.tsx:38-45 | From 2450 ms at a 110 ms delay, five names remain. |
| PrizeDraw.SlowdownTicks | components/PrizeDraw.tsx:38-45 | From 2000 ms at a 50 ms delay, eleven names remain. |
| PrizeDraw.SteadyPhase | components/PrizeDraw.tsx:38-45 | Before the slowdown window, each tick advances 50 ms at an unchanged delay. |
| PrizeDraw.SpinLength | components/PrizeDraw.tsx:29-47 | A spin from 0 ms at a 50 ms delay shows exactly 51 names. |
| PrizeDraw.EntryNumber | components/PrizeDraw.tsx:179 | The number on entry `idx` lies between 1 and the history length. |
| PrizeDraw.EntryNumbersAfterDraw | components/PrizeDraw.tsx:179 | A new entry at the front is numbered one more than the length of the old history, and every older entry keeps its number. |
| PrizeDraw.EntryNumbersDistinct | components/PrizeDraw.tsx:179 | Numbers strictly decrease down the list. |
| PrizeDraw.DrawEngine.constructor | components/PrizeDraw.tsx:10-13 | Repeats are off, the history is empty, no spin runs, and the display reads "Ready to Draw". |
| PrizeDraw.DrawEngine.SetAllowRepeats | components/PrizeDraw.tsx:145 | Sets the flag and changes nothing else. |
| PrizeDraw.DrawEngine.CycleNames | components/PrizeDraw.tsx:34-47 | Shows `pool[displayPick]` and adds `speed` to `elapsed`. The spin ends exactly when `elapsed >= 3000`, which is exactly the 51st name. Otherwise the delay follows `NextSpeed`. |
| PrizeDraw.DrawEngine.StartDraw | components/PrizeDraw.tsx:24-50 | A draw starts exactly when the pool is non-empty and no spin runs; otherwise nothing changes. A started spin fixes the pool at the current candidates and has shown its first name. |
| PrizeDraw.DrawEngine.Begin | components/PrizeDraw.tsx:28-36 | Sets `isSpinning`, the 50 ms delay, and the first cycled name. |
| PrizeDraw.DrawEngine.FinishDraw | components/PrizeDraw.tsx:52-66 | Prepends `DrawHistoryItem(now, pool[winnerPick])` and keeps the rest of the history. The display equals the recorded winner's name, and the spin stops. |
| PrizeDraw.DrawEngine.Tick | components/PrizeDraw.tsx:34-47 | One timer callback. Before the end it cycles a name. On the 51st tick it commits the winner instead. |
| PrizeDraw.DrawEngine.Spin | components/PrizeDraw.tsx:33-49 | Driving the timer chain to its end commits `pool[winnerPick]` at the front of the history and shows its name. |
| PrizeDraw.DrawEngine.Draw | components/PrizeDraw.tsx:24-66 | A whole draw. It happens exactly when the pool is non-empty and no spin runs. The winner is in the pool of the moment the draw started, it is prepended to the history, and the display shows it. With repeats off, no winner ever repeats. |
| PrizeDraw.DrawEngine.ResetHistory | components/PrizeDraw.tsx:75-80 | Once confirmed, the history is empty and the display reads "Ready to Draw". Otherwise nothing changes. |
| GroupExport.EscapeField | components/Grouping.tsx:58-60 | A name with no comma and no double quote is written as it is. Any other name is enclosed in double quotes, and inside them every double quote is one of an adjacent pair, as section 2, rule 7 of RFC 4180 asks; undoubling the interior gives back the name. |
| GroupExport.DoubleQuotes | components/Grouping.tsx:59 | `replace(/"/g, '""')` leaves every double quote in an adjacent pair. GroupExport.DoubleQuotesKeeps and GroupExport.UndoubleDoubleQuotes state what else it keeps and that undoubling inverts it. |
| GroupExport.DoubleQuotesKeeps | components/Grouping.tsx:59 | `replace(/"/g, '""')` adds and removes no other character. |
| GroupExport.UndoubleDoubleQuotes | components/Grouping.tsx:59 | Undoubling the quotes undoes the doubling. |
| GroupExport.EscapeRoundTrip | components/Grouping.tsx:58-60 | Unescaping an escaped name gives back the name. |
| GroupExport.EscapeKeepsLineBreaks | components/Grouping.tsx:58-60 | Escaping neither adds nor removes a line break. |
| GroupExport.MemberEntriesSnoc | components/Grouping.tsx:56-62 | The inner `forEach` step: one member's row follows the rows of the members before it. |
| GroupExport.EntriesSnoc | components/Grouping.tsx:55-63 | The outer `forEach` step: one group's rows follow the rows of all groups before it. |
| GroupExport.CsvRow | components/Grouping.tsx:61 | The row `${group.id},${safeName}\n`. GroupExport.RowLineParses proves it reads back as its id and name; GroupExport.RowLineOneLine proves it is one line for a name without a line break. |
| GroupExport.RowsTextSnoc | components/Grouping.tsx:61 | Appending one row appends `${id},${safeName}\n` to the text. |
| GroupExport.RowStep | components/Grouping.tsx:56-62 | One `csvContent +=` of the inner loop extends the text by exactly that member's row. |
| GroupExport.RowLineParses | components/Grouping.tsx:61 | A row of a non-negative group id reads back as its group id and name. |
| GroupExport.RowLineOneLine | components/Grouping.tsx:61 | The row of a name without a line break is a single line. |
| GroupExport.CsvLines | components/Grouping.tsx:53-63 | The header, then one-line rows each ended by a line break, split back into the header, the rows and an empty last line. |
| GroupExport.CsvRoundTrip | components/Grouping.tsx:51-63 | The file reads back as one row per member, in group order. This needs non-negative ids and names without line breaks. |
| GroupExport.LineBreakNameBreaksRow | components/Grouping.tsx:58-61 | A name with a line break but no comma or quote is written unquoted. In a one-member file its row falls into two lines, so that file no longer reads back. |
| GroupExport.GroupBlock | components/Grouping.tsx:46 | One group's block: `Group ${g.id}:`, a line break, and the `- name` lines joined by line breaks. GroupExport.BlockAsJoin states it as a join of lines. |
| GroupExport.CopyText | components/Grouping.tsx:46 | The blocks joined by blank lines. GroupExport.CopyTextLines proves which lines the clipboard text holds. |
| GroupExport.BlockAsJoin | components/Grouping.tsx:46 | A group's block is its heading line and its `- name` lines joined by line breaks. |
| GroupExport.BlockLinesOneLine | components/Grouping.tsx:46 | A block's lines hold no line break when its names hold none. |
| GroupExport.CopyTextLines | components/Grouping.tsx:46 | The clipboard text, split at its line breaks, gives each group's `Group k:` line followed by one `- name` line per member. An empty line separates consecutive groups. |
| Grouping.ClampGroupSize | components/Grouping.tsx:92 | The result is at least 1. A parsed value of 1 or more is kept. An unparsable input (`NaN`), 0, or a negative value gives 1. |
| Grouping.CeilDiv | components/Grouping.tsx:96 | Returns the least `k` with `k * g >= n`. |
| Grouping.ExpectedGroups | components/Grouping.tsx:96 | The hint is 0 for an empty roster, and otherwise the least `k >= 1` with `n <= k * groupSize`. |
| Grouping.Swap | components/Grouping.tsx:27 | The destructuring swap exchanges positions `i` and `j` and leaves every other position alone. |
| Grouping.SwapPermutes | components/Grouping.tsx:27 | A swap keeps the multiset. |
| Grouping.ShuffleStepsPermutes | components/Grouping.tsx:24-28 | Any run of shuffle steps keeps the length and the multiset. |
| Grouping.ShuffledPermutes | components/Grouping.tsx:24-28 | The whole shuffle is a permutation of the roster: same length, same multiset. |
| Grouping.ShuffleInPlace | components/Grouping.tsx:24-28 | The in-place loop over `i = n-1 .. 1` leaves the array holding exactly `Shuffled(old contents, picks)`. |
| Grouping.Chunks | components/Grouping.tsx:33-37 | The consecutive windows `slice(i, i + groupSize)`, numbered upward. Grouping.ChunksFlatten, ChunksCount, ChunksIds and ChunksSizes state what they hold. |
| Grouping.ChunksFlatten | components/Grouping.tsx:30-39 | The groups' members, concatenated in order, give back exactly the shuffled sequence. |
| Grouping.ChunksCount | components/Grouping.tsx:30-39 | There are `ceil(n / groupSize)` groups. |
| Grouping.ChunksIds | components/Grouping.tsx:31-36 | The groups are numbered `firstId`, `firstId + 1`, and so on, in the order produced. |
| Grouping.ChunksSizes | components/Grouping.tsx:33-34 | Every group but the last has exactly `groupSize` members. The last has between 1 and `groupSize`. |
| Grouping.ChunksStep | components/Grouping.tsx:33-37 | One turn of the loop: the window `slice(i, i + groupSize)` comes first, and the windows from `i + groupSize` on follow. |
| Grouping.Partition | components/Grouping.tsx:30-39 | The chunking loop produces exactly the consecutive windows, numbered from 1. |
| Grouping.GroupsOfRoster | components/Grouping.tsx:20-39 | After the shuffle and the partition, everyone is in the groups as a multiset. The number of groups equals the "Expected Groups" hint, and the ids run 1..k. |
| Grouping.FiveInPairs | components/Grouping.tsx:30-39 | Five people in groups of two give three groups, of sizes 2, 2 and 1. |
| Grouping.GroupingPanel.constructor | components/Grouping.tsx:10-12 | The group size starts at 4, with no groups and nothing generated. |
| Grouping.GroupingPanel.SetGroupSize | components/Grouping.tsx:92 | The group size becomes the clamped input. The groups stay as they are. |
| Grouping.GroupingPanel.HandleGroup | components/Grouping.tsx:20-42 | An empty roster changes nothing. Otherwise the groups become the windows of the shuffled copy and `isGenerated` is set. |
| Grouping.GroupingPanel.DownloadCsv | components/Grouping.tsx:51-63 | The nested loops build exactly the header line followed by every member's row, in group order. |

## Left out

- Rendering, the colours of group headers, animation delays, the `alert` after copying, and the download through `Blob`, `URL` and a hidden link: the model ends at the text they are given.
- Timer scheduling: `setTimeout` becomes one `DrawEngine.Tick` call per callback. The unmount cleanup that clears a pending timer is not modelled; the model has no concurrency.
- The uniformity of `Math.random()` and the floating-point `Math.floor(Math.random() * n)`: every random index is a parameter requiring only that it is in range. Nothing is claimed about probabilities.
- `App.tsx` (tab switching) and `services/geminiService.ts` (a network call) are not part of this model. The names the generator returns are an arbitrary `seq<string>`, appended by `Roster.AppendNames` as `handleGenerateAI` appends them.
- `FileReader`, input-element reset, clipboard and `window.confirm` are browser calls. The file content, or its absence, and the confirmation are parameters.
- Roster.NameKeyShape: `toLowerCase` is modelled for ASCII letters only. Other Unicode case mappings are not modelled.
- Grouping.ClampGroupSize: `parseInt` is not modelled; its result enters as an `Option<int>`, with `None` for `NaN`.
- PrizeDraw.DrawEngine.Draw: does not claim that the last cycled name equals the winner, because the code picks them independently.
- Roster.NameCounts: the count table is a map from keys to numbers. The source's `counts` is a plain object literal `{}` that inherits from `Object.prototype`, so for the key `constructor` the `(counts[key] || 0) + 1` step stores a string, not a number, and for the key `__proto__` it stores nothing. The model counts those keys like any other.
- Roster.CountsSumToLength: the sum over keys holds of the map of the model. In the source, entries keyed `constructor` or `__proto__` are not counted as numbers, so the source's counts need not add up to the roster length.
- Roster.HasDuplicatesIff: in the source, two entries keyed `constructor` (for example "Constructor" and "constructor") or `__proto__` do not make `hasDuplicates` true. The model says they do.
- Roster.FlaggedIff: in the source, entries keyed `constructor` or `__proto__` are never flagged. The model flags them when another entry shares the key.
- GroupExport.CsvRoundTrip: requires names without line breaks and non-negative group ids (`Partition` numbers from 1). Names taken from the text box or from a file never hold one, but names from the generator (`handleGenerateAI`) are appended as they come and may; GroupExport.LineBreakNameBreaksRow shows that such a name breaks the file.
- GroupExport.CopyTextLines: requires at least one group and names without line breaks. The clipboard text has no escaping, so names with line breaks cannot be told apart from separate lines.
- The eligible-count text on the draw panel and the `disabled` states of the buttons are rendering. The guards they mirror are modelled in `DrawEngine.StartDraw` and `GroupingPanel.HandleGroup`.
