# Deployment dashboard and dev tooling — a Dafny model

This project models the deterministic core of a repository made of two parts.

**Python developer tooling**
- `dev/tool/insert.py`: the anchor splice tool. `Insert.forward` finds the block running from a start anchor to the nearest end anchor after it. It replaces that block (and every identical copy, as `str.replace` does) with `start\ncontent\nend`, or appends that text after a blank line when no block exists. A backup is written first. `Insert.insert_multiple` folds the same splice over a list of insertions, skipping entries without both anchors.
- `dev/dev.py`: the `@/name param` command scanner of `Dev.preprocess`, which splices a command's result back into the query. Also the normalisation of extracted `<FN::name>…</FN::name>` calls in `Dev.postprocess`: lower-cased names, and parameters that are either named (lower-cased keys, stripped values, last value wins) or a single stripped `value`.

**React dashboard components** (`src/app/app/components`)
- `DeploymentStats`: counts, a success rate rounded like `Math.round`, the rating, and the bar widths.
- `DeploymentChart`: the canvas drawing as a list of draw commands.
- `DeploymentList`: the rolling feed of at most ten records, the random record made on each tick, the class mappings, and the relative-time buckets.
- `NotificationBell`: the read/unread state.
- `FilterBar`: the filter record and its callback.
- `DeploymentDetails`: the expand flag, the header, the log and the actions.

Each component's state becomes a class whose methods change its fields. Each is proved against the pure functions that specify it, and lemmas relate those functions.

In `Details`, text colours are the datatype `Tone` and log lines carry a `Message`. `Tone.ClassName` and `Message.Text` give the exact class names and texts the component renders.

Modules: `Wrappers` (Option), `Strings` (Python's `split`, `join`, `replace`, `lower`, `strip` and decimal formatting on `seq<char>`), `Insert`, `Dev`, `Deployments` (the shared record and status counts), `Stats`, `Chart`, `LiveFeed`, `Bell`, `Filtering`, `Details`.

Behaviour worth noting:
- A status outside `success`/`in_progress`/`failed` is shown as a failure. The label, dot and header say "Failed" in red. Only the badge classes are empty, and the Retry button is absent (`Details.UnknownStatusFailedWithoutRetry`, `LiveFeed.CardAgrees`). Records may carry any status string.
- The feed's bound of ten holds after a tick, not before. The initial list is kept whole until the first tick (`LiveFeed.DeploymentList.constructor`, `LiveFeed.TicksKeepNewestTen`).
- The success bar uses the rounded rate, while the in-progress and failed bars use exact shares. The three bars can together be wider than 100%, by at most half a percent (`Stats.BarWidthsCanOverfill`, `Stats.BarWidthsAtMostHalfOver`).
- The list is never filtered or sorted. The filter bar only records and reports the selection.
- `Dev.preprocess` rebuilds the text from the original words for every command. Only the last command's `--> result` survives (`Dev.Preprocess`).
- The splice is not idempotent merely because the content holds neither anchor. `Insert.AnchorFreeContentCanSpliceAgain` exhibits a case.
- After a replacement, splicing again changes nothing when the end anchor occurs in the written block only at its end (`Insert.EndOnlyAtTail`, `Insert.SpliceIdempotentAfterReplace`).
- After an append, that condition is not enough. The appended start anchor must also be the first start anchor in the text (`Insert.SpliceIdempotentAfterAppend`). Otherwise an earlier start anchor with no end anchor after it begins the next block, and the second splice swallows the text in between (`Insert.StrayStartSwallowsText`).

## Model

| member | source | states |
|---|---|---|
| Strings.FindFrom | dev/tool/insert.py:103-104 | the result is the first index at or after `from` where the pattern occurs, and `None` exactly when no such index exists |
| Strings.Interleave | dev/tool/insert.py:108-111 | `str.replace` with an empty pattern gives a text of length `|s|·(|sep|+1)+|sep|` |
| Strings.InterleaveChar | dev/tool/insert.py:108-111 | with an empty pattern, the `k`-th character of the text sits right after the `k`-th copy of the replacement |
| Strings.InterleaveSep | dev/tool/insert.py:108-111 | with an empty pattern, a copy of the replacement stands before every character and at the end |
| Strings.Replace | dev/tool/insert.py:108-111 | replacing a non-empty pattern by a text of the same length keeps the length |
| Strings.ReplaceSelf | dev/tool/insert.py:108-111 | replacing a pattern by itself leaves the text unchanged |
| Strings.ReplaceAbsent | dev/tool/insert.py:108-111 | a text with no occurrence of a non-empty pattern is left unchanged by `str.replace` |
| Strings.ReplaceSkip | dev/tool/insert.py:108-111 | text before the first occurrence is copied unchanged and the replacement continues on the rest |
| Strings.ReplaceFront | dev/tool/insert.py:108-111 | an occurrence at the front is replaced and the scan resumes after it, with no overlap |
| Strings.NatToStringRoundTrip | dev/tool/insert.py:250 | the decimal text of a count reads back as that count |
| Strings.NatToStringInjective | dev/tool/insert.py:250 | distinct counts render as distinct texts |
| Strings.Lower | dev/dev.py:183 | `str.lower` keeps the length, maps each upper-case letter to its lower-case one (code + 32), leaves every other character alone, and is the identity on lower-case text |
| Strings.Strip | dev/dev.py:177 | `str.strip` gives a slice starting and ending with non-whitespace, with only whitespace cut from either end |
| Strings.Split | dev/dev.py:100 | `split(' ')` gives at least one word and no word contains a space |
| Strings.JoinSplit | dev/dev.py:100 | joining the split words with a space restores the text |
| Strings.SplitJoin | dev/dev.py:122 | splitting a space-join of space-free words gives the words back |
| Insert.FindBlock | dev/tool/insert.py:103-104 | the block found is exactly the regex's match: leftmost start anchor, then the nearest end anchor after it; `None` exactly when the pattern matches nowhere |
| Insert.FirstMatchUnique | dev/tool/insert.py:103-104 | the regex has at most one first match |
| Insert.FindBlockOfFirstMatch | dev/tool/insert.py:103-104 | whenever the regex matches, the search reports that match |
| Insert.NotBlockStart | dev/tool/insert.py:103-104 | the start anchor does not occur before the block found |
| Insert.Splice | dev/tool/insert.py:103-118 | with no block the new text is the old one, a blank line and `start\ncontent\nend`; with a block and some non-empty anchor, the text before the block is kept, the block becomes `start\ncontent\nend`, and only copies after it are replaced |
| Insert.SpliceAppendsWhenNoBlock | dev/tool/insert.py:114-118 | without a match the new text is the old text, a blank line, then `start\ncontent\nend` |
| Insert.SpliceReplacesFirstBlock | dev/tool/insert.py:106-111 | with a match, the text before it is kept, the block becomes `start\ncontent\nend`, and later identical copies of the block are replaced too |
| Insert.BlockOccurrenceIsMatch | dev/tool/insert.py:108-111 | every copy of the matched block is itself a match of the pattern |
| Insert.SpliceKeepsPrefix | dev/tool/insert.py:106-111 | everything before the first start anchor survives the splice |
| Insert.FirstMatchAtReplacement | dev/tool/insert.py:103-111 | in a text holding the written block at its first start anchor, the search finds exactly that block |
| Insert.SpliceFixedAtReplacement | dev/tool/insert.py:106-111 | such a text is a fixed point of the splice |
| Insert.NoStartBeforeReplacedBlock | dev/tool/insert.py:106-111 | after a replacement the start anchor still first occurs where the block began |
| Insert.SpliceIdempotentAfterReplace | dev/tool/insert.py:103-111 | once a block was replaced, splicing again changes nothing, provided the end anchor occurs in the written block only at its end |
| Insert.SpliceIdempotentAfterAppend | dev/tool/insert.py:114-118 | after an append, splicing again changes nothing, under the same condition and with the appended start anchor the first one |
| Insert.AnchorFreeContentCanSpliceAgain | dev/tool/insert.py:103-118 | content free of both anchors does not make a repeated splice harmless: a concrete text changes on the second splice |
| Insert.StrayStartSwallowsText | dev/tool/insert.py:103-118 | with the end anchor only at the block's end, an append after a stray start anchor is still undone by a second splice: `S` with content `x` becomes `S\n\nS\nx\nE`, then `S\nx\nE` |
| Insert.Forward | dev/tool/insert.py:59-131 | a missing file is refused (nothing written) or created holding the block alone; an existing file gets its backup (when asked) with the old text, then the splice of its text; no other file changes; result fields and messages per case |
| Insert.CountWithAnchors | dev/tool/insert.py:206-236 | the count of applied entries never exceeds the number of entries |
| Insert.WithAnchors | dev/tool/insert.py:213-216 | the entries kept all have both anchors |
| Insert.Blocks | dev/tool/insert.py:169-176 | a missing file is built from one block per entry, skipped or not |
| Insert.InsertMultiple | dev/tool/insert.py:155-251 | a missing file is refused or created from all blocks joined by blank lines; an existing file is backed up, then holds the entries' splices in order; the counts, the success flag (some entry anchored) and the message follow |
| Insert.ApplyInsertionsAppend | dev/tool/insert.py:208-236 | applying two lists in turn equals applying their concatenation |
| Insert.SkippedEntriesChangeNothing | dev/tool/insert.py:213-216 | entries missing an anchor change nothing, and the applied entries are exactly the ones counted |
| Insert.SuccessIffSomeAnchored | dev/tool/insert.py:245 | `success` holds exactly when some entry has both anchors |
| Insert.SingleInsertionIsSplice | dev/tool/insert.py:219-227 | one anchored entry performs the same splice as `forward` |
| Dev.FnName | dev/dev.py:107-110 | the function path has the `@/` prefix removed and contains a `/`; a leading `/` is added exactly when the rest has none |
| Dev.CallIndices | dev/dev.py:103-116 | the command indices are exactly the command words below the bound, strictly increasing |
| Dev.ScanCalls | dev/dev.py:98-116 | the loop's commands are exactly the specified commands of the words |
| Dev.ScanOpens | dev/dev.py:107-112 | a `@/` word with no command waiting opens a command with no parameters, inserted at index `i + 2` |
| Dev.ScanTakesParameter | dev/dev.py:113-116 | the word after a command word becomes that command's parameter, whatever it is |
| Dev.ScanSkips | dev/dev.py:113-116 | any other word changes nothing |
| Dev.ParameterNeverCalls | dev/dev.py:107-116 | the word after a command word never opens a command, and it is that command's only parameter |
| Dev.CommandRunAlternates | dev/dev.py:107-116 | in a run of `@/` words, every other word opens a command, starting with the first |
| Dev.NoCommandWordNoCalls | dev/dev.py:107 | a query with no `@/` word has no commands, so by `Dev.Preprocess` it comes back unchanged |
| Dev.SplicedText | dev/dev.py:122 | the spliced text is the words before the clamped index joined by spaces, then `--> result`, then the remaining words, with one space at each seam |
| Dev.SplicedWords | dev/dev.py:122 | the spliced text splits into the original words with `-->` and the result inserted at the clamped index; removing those two words gives back the words |
| Dev.Preprocess | dev/dev.py:97-123 | the commands are those of the split text; with none the text comes back unchanged; otherwise only the last command's result is spliced into the original words |
| Dev.Keys | dev/dev.py:177 | a dictionary's keys are its entries' keys, in insertion order |
| Dev.Lookup | dev/dev.py:177 | a lookup fails exactly when the key is absent |
| Dev.Put | dev/dev.py:177 | `d[key] = value` keeps an existing key's position, appends a new key, and changes no other entry |
| Dev.PutLookup | dev/dev.py:177 | after a put the keys stay unique, the key maps to the value, and other keys keep their values |
| Dev.NamedParamsLastWins | dev/dev.py:174-177 | the named parameters form a dictionary whose value for each key is the stripped value of the last match with that lower-cased name |
| Dev.NamedParamsNormalised | dev/dev.py:174-177 | every key is lower-case and every entry is a lower-cased name with a stripped value taken from some match |
| Dev.SimpleBodySingleValue | dev/dev.py:178-180 | a body without both `<` and `>` gives one parameter `value` holding the stripped body |
| Dev.Normalise | dev/dev.py:182-185 | the recorded name is `Strings.Lower` of the call name: lower-case and of the same length; the parameters are chosen by the body's form |
| Dev.Postprocess | dev/dev.py:155-185 | the output is echoed into `text` unchanged; there is one record per extracted call, in order, each the normalised call |
| Dev.CollectParams | dev/dev.py:171-180 | the parameters built for one call are the named matches, lower-cased and stripped, when the body holds both `<` and `>`, and otherwise the stripped body under `value` |
| Deployments.Count | src/app/app/components/DeploymentStats.js:7-9 | a status count is at most the number of records |
| Deployments.CountExtremes | src/app/app/components/DeploymentStats.js:7-9 | a status count is 0 exactly when no record has the status, and equals the number of records exactly when every record has it |
| Deployments.CountsCoverKnownStatuses | src/app/app/components/DeploymentChart.js:38-42 | the three counts sum to at most the number of records, and to exactly that number when every status is known |
| Deployments.StatusLabel | src/app/app/components/DeploymentList.js:97-98 | "Successful" exactly for `success`, "In Progress" exactly for `in_progress`, "Failed" for everything else |
| Stats.SuccessRate | src/app/app/components/DeploymentStats.js:11-13 | the rate is 0 without records, otherwise the integer nearest to `100·s/t` with halves rounded up, and never above 100 |
| Stats.RateExtremes | src/app/app/components/DeploymentStats.js:11-13 | all successes give 100 and none give 0 |
| Stats.ComputeFigures | src/app/app/components/DeploymentStats.js:6-13 | the total is the record count, the three counts fit within it, and the rate is a percentage |
| Stats.Rating | src/app/app/components/DeploymentStats.js:33 | the rating is "Excellent" exactly from a rate of 80, otherwise "Needs improvement" |
| Stats.RatingClass | src/app/app/components/DeploymentStats.js:32 | the class is green exactly with the "Excellent" rating, otherwise yellow |
| Stats.ExcellentThreshold | src/app/app/components/DeploymentStats.js:32-33 | "Excellent" exactly when there are records and at least 159 in 200 succeeded; the green class exactly with "Excellent" |
| Stats.RateAtLeast80 | src/app/app/components/DeploymentStats.js:32-33 | a rounded rate of at least 80 means exactly that at least 79.5% succeeded |
| Stats.SuccessWidth | src/app/app/components/DeploymentStats.js:37 | the success bar is the rounded rate: a whole percent from 0 to 100, 0 without records, and otherwise the whole percent `w` nearest to the exact share, `2·w·t <= 200·s + t < 2·w·t + 2·t` |
| Stats.InProgressWidth | src/app/app/components/DeploymentStats.js:48 | the in-progress bar is undefined exactly without records; otherwise its width `w` satisfies `w·t = 100·(in-progress count)` |
| Stats.FailedWidth | src/app/app/components/DeploymentStats.js:59 | the failed bar is undefined exactly without records; otherwise its width `w` satisfies `w·t = 100·(failed count)` |
| Stats.BarWidthsCanOverfill | src/app/app/components/DeploymentStats.js:37-59 | two successes and one build in progress give bars of 67% and 33.3…%, together more than 100% |
| Stats.BarWidthsAtMostHalfOver | src/app/app/components/DeploymentStats.js:37-59 | with records, the three bars together are at most 100.5% wide |
| Stats.SharesAtMostHalfOver | src/app/app/components/DeploymentStats.js:11-13 | for counts that fit within a non-zero total, the rounded rate plus the two exact shares is at most 100.5 |
| Stats.ShareWidth | src/app/app/components/DeploymentStats.js:48 | a bar width is not a number without records; otherwise it is a percentage `w` with `w·t = 100·c` |
| Stats.BarWidthsShares | src/app/app/components/DeploymentStats.js:48-59 | the in-progress and failed widths are undefined exactly for an empty list; otherwise together they are at most 100% |
| Stats.ShareWidthsAdd | src/app/app/components/DeploymentStats.js:48-59 | two shares of the same total add up to at most 100% |
| Stats.SampleRecordsRate | src/app/app/page.js:19-70 | the five landing-page records give a rate of 60%, "Needs improvement" |
| Chart.Ratio | src/app/app/components/DeploymentChart.js:43-45 | a share lies between 0 and 1; it is 0 when nothing is counted and 1 when one status has everything |
| Chart.Render | src/app/app/components/DeploymentChart.js:9-82 | nothing is drawn without a canvas or records; otherwise the canvas is cleared and filled, then five grid lines are drawn in a loop, then the bars, names and counts in order |
| Chart.Bars | src/app/app/components/DeploymentChart.js:47-65 | three filled rectangles, green, amber and red, each 60 wide and standing on `height - 30` |
| Chart.Names | src/app/app/components/DeploymentChart.js:67-74 | three texts "Success", "In Progress", "Failed", 10 above the canvas bottom and 100 apart |
| Chart.Values | src/app/app/components/DeploymentChart.js:76-82 | three texts, each the count of its bar, 10 above that bar's top |
| Chart.FlatBarsWithoutTotal | src/app/app/components/DeploymentChart.js:43-65 | with nothing counted every bar is flat |
| Chart.BarHeightsFillPlot | src/app/app/components/DeploymentChart.js:42-65 | with something counted the three bar heights sum to the plot height `height - 60` |
| Chart.BarsInsidePlot | src/app/app/components/DeploymentChart.js:54-65 | every bar is 60 wide and stands on `height - 30`; on a canvas at least 60 high it stays within the plot |
| Chart.BarsCentredApart | src/app/app/components/DeploymentChart.js:48-65 | the bars are 40 apart and the group is centred horizontally |
| Chart.GridLinesEvenlySpaced | src/app/app/components/DeploymentChart.js:29-35 | the grid lines run from x 40 to `width - 20`, start at 30, end at `height - 30`, and are evenly spaced |
| Chart.LabelsCentredOnBars | src/app/app/components/DeploymentChart.js:72-82 | each count is centred on its bar 10 above its top; each name is centred on it 20 below its bottom |
| LiveFeed.Prepend | src/app/app/components/DeploymentList.js:32 | a tick puts the new record first, keeps the survivors in order, and gives length `min(old + 1, 10)` |
| LiveFeed.DeploymentList.constructor | src/app/app/components/DeploymentList.js:8 | the feed starts as the records it is given |
| LiveFeed.DeploymentList.Tick | src/app/app/components/DeploymentList.js:32 | the new feed is the prepend of the old one, at most 10 long, headed by the new record |
| LiveFeed.TicksKeepNewestTen | src/app/app/components/DeploymentList.js:32 | after any non-empty run of ticks the feed is the new records newest first, then the initial ones, cut at 10 |
| LiveFeed.RandomIndex | src/app/app/components/DeploymentList.js:15-29 | `Math.floor(Math.random() * n)` is a valid index below `n` |
| LiveFeed.Pick | src/app/app/components/DeploymentList.js:15-28 | a draw from an option list is one of the options |
| LiveFeed.Generate | src/app/app/components/DeploymentList.js:13-30 | a generated record has the clock's id and time; its name, project and environment come from the lists; its status is known; its duration is `"{m}m {s}s"` with m < 5 and s < 60; its portrait is `men` or `women` by the draw, numbered below 100 |
| LiveFeed.DurationInjective | src/app/app/components/DeploymentList.js:29 | the duration text determines its minutes and seconds |
| LiveFeed.StatusClass | src/app/app/components/DeploymentList.js:38-45 | the class is empty exactly for a status outside the three; otherwise it starts with `status-` |
| LiveFeed.EnvironmentClass | src/app/app/components/DeploymentList.js:47-54 | the class is empty exactly for an environment outside the three; otherwise it starts with `environment-` |
| LiveFeed.ClassesDistinguish | src/app/app/components/DeploymentList.js:38-54 | distinct statuses, and distinct environments, get distinct non-empty classes |
| LiveFeed.Bucket | src/app/app/components/DeploymentList.js:59-64 | below 60 s the unit is seconds with the exact count; below an hour, whole minutes; below a day, whole hours; otherwise whole days; each count is bracketed by its unit |
| LiveFeed.BucketMonotone | src/app/app/components/DeploymentList.js:59-64 | as time passes the unit never shrinks, and within a unit the count never decreases |
| LiveFeed.FormatTimeUnits | src/app/app/components/DeploymentList.js:56-65 | below a minute the text counts whole seconds; then whole minutes, hours or days of the milliseconds, since rounding down twice equals rounding down once |
| LiveFeed.CardOf | src/app/app/components/DeploymentList.js:84-108 | a progress bar exactly for `in_progress`; an empty status class exactly for an unknown status and an empty environment class exactly for an unknown environment; the relative time of the record |
| LiveFeed.DotClass | src/app/app/components/DeploymentList.js:84-87 | the dot is green exactly for `success`, yellow exactly for `in_progress`, and red exactly for every other status |
| LiveFeed.CardAgrees | src/app/app/components/DeploymentList.js:84-108 | the dot colour and the label split the statuses the same three ways; only in-progress records get a progress bar; an unknown status is labelled "Failed" with no status class |
| Bell.UnreadCount | src/app/app/components/NotificationBell.js:26 | the unread count is at most the list length and 0 exactly when all are read |
| Bell.MarkRead | src/app/app/components/NotificationBell.js:32-36 | exactly the notifications with the id become read; length, order, ids, messages and times are unchanged |
| Bell.MarkAllRead | src/app/app/components/NotificationBell.js:38-40 | every notification becomes read, with its id, message and time unchanged |
| Bell.MarkReadLowersUnread | src/app/app/components/NotificationBell.js:26-36 | marking never raises the unread count, and lowers it when an unread notification has the id |
| Bell.MarkUnknownIdChangesNothing | src/app/app/components/NotificationBell.js:33-35 | an id no notification has changes nothing |
| Bell.MarkReadIdempotent | src/app/app/components/NotificationBell.js:33-35 | marking the same id twice is marking it once |
| Bell.MarkAllClearsUnread | src/app/app/components/NotificationBell.js:26-40 | after marking all, nothing is unread |
| Bell.InitialUnread | src/app/app/components/NotificationBell.js:4-26 | the bell starts with three notifications, two unread |
| Bell.NotificationBell.constructor | src/app/app/components/NotificationBell.js:4-24 | the bell starts closed, with the initial notifications, two unread |
| Bell.NotificationBell.Badge | src/app/app/components/NotificationBell.js:52-56 | the badge is shown exactly when some notification is unread, and shows the unread count |
| Bell.NotificationBell.ToggleNotifications | src/app/app/components/NotificationBell.js:28-30 | the open flag flips and the notifications are unchanged |
| Bell.ToggleTwice | src/app/app/components/NotificationBell.js:28-30 | toggling twice restores the bell |
| Bell.NotificationBell.MarkAsRead | src/app/app/components/NotificationBell.js:32-36 | the list becomes its marked copy, the open flag is kept, and the unread count does not rise |
| Bell.NotificationBell.MarkAllAsRead | src/app/app/components/NotificationBell.js:38-40 | the list becomes all read; afterwards neither the badge nor the "Mark all as read" button shows |
| Filtering.InitialFilters | src/app/app/components/FilterBar.js:4-7 | the filters start with status and environment on "all" and no sort key |
| Filtering.ChangeFilter | src/app/app/components/FilterBar.js:10 | only the chosen key changes, to the chosen value; it is added if it was absent; every other key keeps its value |
| Filtering.FilterBar.constructor | src/app/app/components/FilterBar.js:4-7 | the bar starts with the initial filters |
| Filtering.FilterBar.HandleFilterChange | src/app/app/components/FilterBar.js:9-15 | the record becomes the changed copy; the callback, when present, receives exactly that copy, and otherwise nothing is reported |
| Filtering.SelectionsKeepWellFormed | src/app/app/components/FilterBar.js:26-56 | the initial filters are well formed, and every offered selection keeps the record well formed |
| Filtering.ChangeIdempotent | src/app/app/components/FilterBar.js:10 | making the same selection twice is making it once |
| Filtering.LastChoiceWins | src/app/app/components/FilterBar.js:9-15 | after a run of selections each key holds its last choice, and keys never chosen, such as an earlier sort key, are carried along |
| Details.DeploymentDetails.constructor | src/app/app/components/DeploymentDetails.js:4 | the panel starts collapsed |
| Details.DeploymentDetails.ToggleExpand | src/app/app/components/DeploymentDetails.js:8 | the expanded flag flips |
| Details.ToggleTwice | src/app/app/components/DeploymentDetails.js:8 | toggling twice restores the panel |
| Details.Actions | src/app/app/components/DeploymentDetails.js:108-120 | "View Full Logs" comes first and "Compare with Previous" last; "Retry Deployment" is present exactly for status `failed` |
| Details.Render | src/app/app/components/DeploymentDetails.js:6-37 | an absent record renders nothing; a present one renders a panel whose body is shown and chevron turned exactly when expanded |
| Details.HeaderColor | src/app/app/components/DeploymentDetails.js:23 | green exactly with the "Successful" label, yellow exactly with "In Progress", red exactly with "Failed" |
| Details.Logs | src/app/app/components/DeploymentDetails.js:69-101 | every log opens with the starting line, in green exactly for a successful record; its last line is yellow exactly for `in_progress` and red exactly for a record labelled "Failed" |
| Details.HeaderAgrees | src/app/app/components/DeploymentDetails.js:23-24 | the header label and its colour split the statuses the same three ways: Successful/green, In Progress/yellow, Failed/red |
| Details.LogAgrees | src/app/app/components/DeploymentDetails.js:69-101 | the log has 11, 5 or 7 lines, and the 11- and 7-line logs go exactly with the "Successful" and "Failed" labels |
| Details.UnknownStatusFailedWithoutRetry | src/app/app/components/DeploymentDetails.js:23-116 | an unknown status is labelled "Failed" in red and shows the failure log, yet gets no Retry button |

## Left out

- File reading that fails on an existing file (`get_text` returning `None`, dev/tool/insert.py:84-92 and 186-194) is not modelled: the file system is a map, and an existing path always has its text.
- Insert.Forward and Insert.InsertMultiple model calls with `verbose=False`. The default is `verbose=True` (dev/tool/insert.py:39, 138). Then each `print(..., color=...)` goes to Python's built-in `print`, which rejects the `color` keyword with a `TypeError`. The call raises at its first message. That can be before anything is written (64-65), after the new file was written (74-76, 176-178), after the backup was written (98-100, 200-202), or before the target is written (112-117, 214-234). These exceptions and the partial writes they leave are not modelled.
- `abspath` comes from a `utils` module that is not part of this model, and the model does not apply it. `Insert.Forward` uses the path as given (`res.filePath == filePath`). So two spellings of one file are two keys of the file map, and the reported `file_path` is not made absolute.
- The cache directory made by `Insert.__init__` is not modelled. The backup path is the given path with `.bak` appended. The file system is a map passed in and returned, not the real disk.
- Dev.Postprocess: the regex extraction (`<FN::name>…</FN::\1>` with its backreference, and `<name>…</name>` inside the body) is not modelled. The matches are given as input, and the model normalises them. The `input()` prompt and the dispatch through `c.module` that follow (dev/dev.py:192-197) are not modelled either.
- Dev.Preprocess: running the commands (`c.fn`) and the model call in `Dev.forward` are not modelled. Command results are given as input, one per command.
- Strings.Lower and Strings.Strip cover the ASCII range only. Unicode case mapping and Unicode whitespace are not modelled.
- Arithmetic is exact: rates use integers, and widths and canvas coordinates use rationals. IEEE floating-point rounding is not modelled. `Math.round` is taken as rounding halves up.
- Stats.BarWidthsShares: the exact equation `width · total = 100 · count` is stated on `Stats.ShareWidth`. The lemma about both bars states only the bound.
- Timers (`setInterval`/`clearInterval`), `Math.random` and `Date` are parameters. The random draws are reals in `[0, 1)`, the clock is an id and an ISO text, and ages are whole milliseconds. `toLocaleString` is given as text. The random progress-bar width is not modelled.
- The feed's interval callback is modelled as one `Tick` per call. Component mounting and unmounting are not modelled.
- React markup beyond what the components compute (layout, CSS classes of containers, SVG icons) is not modelled. Neither are the `Header`, `SearchBar`, layout and page components, the `pages` entry, `toolbox.py`, `summarize.py` and `examples.py`.
- Filtering and sorting of the list are not modelled: the code records and reports the selection but never applies it.
