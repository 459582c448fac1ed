# Reconstructing per-round records from questionnaire rows and event logs

This project is a Dafny model of the data-reconciliation core of a
human-robot interaction experiment analysis (`notebook.py`). Each
participant answered a questionnaire with one row per participant: a few
demographic columns, then four Likert questions repeated once per round.
They also produced an event-log document of named marker streams. The
model reconstructs, for every participant not on the exclusion list, one
record per round. Each record holds:

- the round number;
- the latency applied in that round, read from the `condition_advance|…`
  markers of the `LatencyMarkers` stream;
- the number of blocks moved, counted between the box-block start and stop
  sentinels of the `ExpMarkers` stream;
- the four answers, read from that round's columns. Repeated columns carry
  the suffix `.1`, `.2`, … after the first round.

Modules, following the stages of the script:

- `Types`: the entities (`Stream`, `AnswerRound`, `Demographics`, `Row`,
  `Participant`), the error kinds, and a `Result` type with early return.
- `Text`: the Python string operations the script relies on. These are
  `str.startswith`, `str.split`, `str.replace("ms", "")`, base-10 `int()`
  (white space, sign, underscores between digits) and `str()` of an integer.
- `Streams`: the lookup of the first stream with a given name.
- `Latency`: the latency extractor. Each token is classified as skipped,
  read or rejected, and the readings are then accumulated. A loop method
  written like the script is proved equal to the function.
- `Segmenter`: the start/stop state machine that counts `block_moved`
  events per round, and the zero-padding. A loop method with the script's
  two variables (`in_boxblock`, `current_round_blocks`) is proved equal to
  the state machine.
- `Reconciler`: the column-key convention and the per-round records. Series
  indices past the end default to 0, and a missing column is an error.
- `Assembler`: the round count taken from the header, the pipeline for one
  participant, and the pass over all rows with the exclusion list.

Behaviour worth knowing, all proved:

- A second stream with the same name is never consulted (`break` / `next`).
- `boxblock_start` inside an open segment flushes its count. Its practice
  variant discards the count instead.
- A segment still open at the end of the stream is dropped.
- Series longer than the round count are never truncated. Their excess is
  simply not read.

Malformed latency tokens are not skipped, and a duration without the `ms`
suffix is not dropped:

- A third field that `int()` rejects raises a `ValueError` that nothing
  catches. The whole pass over the questionnaire ends there and no
  participant list is produced (`MalformedLatency`).
- A third field without `ms` (`200`) is read as 200: `replace` deletes the
  unit where it occurs and never requires it.

Only tokens without the `condition_advance|` prefix, or with fewer than
three `|`-separated fields, are skipped.

## Model

| member | source | states |
|---|---|---|
| Text.StartsWith | notebook.py:119 | a text starting with a prefix is at least as long as it; `Text.StartsWithPointwise` and `Text.StartsWithConcat` give the full meaning |
| Text.StartsWithPointwise | notebook.py:119 | `startswith` holds exactly when the prefix is no longer than the text and agrees with it character by character |
| Text.StartsWithConcat | notebook.py:119 | a text built as prefix plus rest starts with that prefix |
| Text.Split | notebook.py:120 | `split` yields one more field than there are separators, and no field contains the separator |
| Text.SplitThenJoin | notebook.py:120 | joining the fields of a split with the separator gives back the original token |
| Text.JoinThenSplit | notebook.py:120 | splitting separator-free fields joined by the separator gives back exactly those fields |
| Text.SplitField | notebook.py:120-122 | a separator-free field followed by the separator is split off as exactly one field |
| Text.SplitPrefix | notebook.py:120 | a separator-free prefix is glued onto the first field of the rest |
| Text.SplitThreeFields | notebook.py:120-122 | three separator-free fields, each followed by the separator, are split off as the first three fields, in order |
| Text.RemoveMs | notebook.py:123 | deleting "ms" shortens the text by exactly two characters per position where "ms" starts, and leaves text without an 'm' unchanged |
| Text.RemoveMsDeletesUnit | notebook.py:123 | "ms" after a prefix without 'm' is deleted and the prefix kept: the unit of `200ms` goes, the digits stay |
| Text.RemoveMsSinglePass | notebook.py:123 | the deletion is one left-to-right pass: "mmss" becomes "ms", not the empty text |
| Text.RemoveMsKeepsPrefix | notebook.py:123 | a prefix without 'm' survives the deletion verbatim in front of the processed rest |
| Text.RemoveMsChars | notebook.py:123 | the deletion introduces no character that the input lacks |
| Text.Strip | notebook.py:123 | the trimming `int()` applies to its argument: the result is a slice of the input with only white space outside it, and it neither starts nor ends with white space, so the outer white space, and only it, is removed. White space here is what `int()` skips: ASCII tab, line feed, vertical tab, form feed, carriage return and space, and the non-ASCII Unicode white space; U+001C to U+001F are kept |
| Text.StripAround | notebook.py:123 | white space, in `int()`'s sense, around a core that neither starts nor ends with it is stripped to exactly that core |
| Text.StripNoSpace | notebook.py:123 | text that neither starts nor ends with white space is left as is |
| Text.ParseLiteral | notebook.py:123 | a stripped text is accepted only as an optional sign and a digit group, as that literal's value |
| Text.ParseLiteralOf | notebook.py:123 | every optional sign followed by a digit group (single underscores between digits) is read as its value |
| Text.ParseInt | notebook.py:123 | `int()` raises on text containing no digit; an accepted text's core, with `int()`'s white space trimmed, is a signed literal of the result |
| Text.ParseIntSound | notebook.py:123 | whatever `int()` accepts is white space, a signed literal of the parsed value, and white space, white space being the characters `int()` skips (U+001C to U+001F are not among them) |
| Text.SeparatorNotSkipped | notebook.py:123 | a digit group behind one of U+001C to U+001F is rejected: `int()` does not skip those characters, although `str.strip()` would |
| Text.ParseIntAccepts | notebook.py:123 | white space in `int()`'s sense, a signed literal and such white space again is accepted as the literal's value |
| Text.ParseDigitGroup | notebook.py:123 | a bare digit group parses to its value |
| Text.ParseNegatedDigitGroup | notebook.py:123 | a minus sign before a digit group parses to the negated value |
| Text.IntToString | notebook.py:115 | the rendering of an integer is digits only, with a leading '-' exactly for negative values |
| Text.IntToStringRoundTrip | notebook.py:123 | `int(str(n)) == n` for every integer `n`, negative ones included |
| Text.NatToString | notebook.py:174 | the rendering of a round index is a non-empty run of digits that starts with '0' only for 0 |
| Text.NatToStringValue | notebook.py:174 | reading back a rendered round index gives the index |
| Text.NatToStringInjective | notebook.py:174 | distinct round indices render to distinct suffixes |
| Streams.FindStream | notebook.py:100-112 | the lookup succeeds exactly when some stream has the name; it returns a stream of that name with no stream of that name before it, and otherwise fails with `MissingStream` for that name |
| Streams.LaterStreamsIgnored | notebook.py:127-133 | streams appended after the first match never change the lookup |
| Streams.FirstMatchWins | notebook.py:129-133 | a stream preceded by no stream of its name is the one found, whatever follows it |
| Latency.ReadToken | notebook.py:118-124 | a token is skipped exactly when it lacks the condition-advance prefix or has fewer than three pipe-separated fields; a read or rejected token has the prefix; a read one has at least three fields; a rejected one carries the token itself |
| Latency.TwoFieldTokenSkipped | notebook.py:119-121 | a condition-advance token with only two fields is skipped: it neither yields a latency nor aborts |
| Latency.Gather | notebook.py:116-124 | the accumulation succeeds exactly when no reading is rejected, and then equals the latencies read in order; otherwise it aborts with the first rejected token |
| Latency.ExtractLatencies | notebook.py:116-124 | extraction succeeds exactly when `int()` accepts every condition-advance third field; its values are the readings in stream order; failure names the first rejected token |
| Latency.GatherConcat | notebook.py:117-124 | accumulating over a concatenation gives the first part's failure, else the second part's failure, else the two value series joined |
| Latency.ExtractConcat | notebook.py:117-124 | the same decomposition for extraction over concatenated marker sequences |
| Latency.ExtractPair | notebook.py:117-124 | two markers yielding one latency each yield both, in stream order |
| Latency.ExtractSingle | notebook.py:118-124 | one marker contributes nothing when skipped, its value when read, and aborts with itself when rejected |
| Latency.SplitConditionAdvance | notebook.py:119-122 | a condition-advance token built from a rep label, a pipe-free field and a condition label has the prefix and splits with that field third |
| Latency.ReadConditionAdvance | notebook.py:119-123 | the reading of such a token is decided by `int()` of its third field with "ms" deleted |
| Latency.WellFormedTokenYieldsLatency | notebook.py:115-124 | the condition-advance token written with `<n>ms` as its third field yields exactly `n`, for every integer `n` |
| Latency.UnitlessFieldAccepted | notebook.py:123 | the same token without the "ms" unit still yields `n` |
| Latency.NonNumericFieldAborts | notebook.py:123 | a third field with no digit aborts the extraction with that token rather than being skipped |
| Latency.ExtractSnoc | notebook.py:117-124 | one more marker after a successful prefix appends its value, or leaves the values unchanged when skipped |
| Latency.ExtractAbortsAt | notebook.py:123 | a rejected marker right after a successful prefix aborts the whole extraction with that marker |
| Latency.ExtractLatenciesLoop | notebook.py:116-124 | the script's loop, with its early abort, computes exactly the extraction |
| Segmenter.Step | notebook.py:147-163 | a transition emits at most one count, which is the open segment's count, and does so exactly on `boxblock_start` or a stop sentinel inside a segment; afterwards a segment is open exactly after a start, or inside when the token is not a stop; a start always opens a segment with count 0; inside, `block_moved` adds one |
| Segmenter.Run | notebook.py:143-163 | the loop emits at most one count per token; `Segmenter.RunBounds` and `Segmenter.RunConcat` give what it emits |
| Segmenter.RunBounds | notebook.py:143-163 | only sentinels emit, and no count exceeds the `block_moved` events seen plus the starting count |
| Segmenter.Segment | notebook.py:139-163 | the block counts number at most the emitting sentinels, and each is at most the stream's `block_moved` total |
| Segmenter.RunConcat | notebook.py:143-163 | running over a concatenation runs over the parts in turn and joins their emissions |
| Segmenter.GapIsIgnored | notebook.py:153-163 | tokens without a start, seen outside a segment, emit nothing and open nothing |
| Segmenter.InsideCounts | notebook.py:162-163 | sentinel-free tokens inside a segment emit nothing and add their `block_moved` events to the count |
| Segmenter.OpenSegment | notebook.py:147-152 | a start outside a segment opens an empty one and emits nothing |
| Segmenter.CloseSegment | notebook.py:153-161 | a stop inside a segment emits its count and leaves the segment |
| Segmenter.Bracket | notebook.py:147-163 | start, sentinel-free body, stop emits exactly the body's `block_moved` count |
| Segmenter.UnterminatedSegmentDropped | notebook.py:143-163 | a stream ending inside a segment emits nothing for it |
| Segmenter.Restart | notebook.py:147-152 | `boxblock_start` inside a segment flushes the running count; `practice_boxblock_start` discards it |
| Segmenter.OneRound | notebook.py:143-163 | one well-formed round, after any tokens that open nothing, emits exactly its body's count |
| Segmenter.WellFormedStreamSegments | notebook.py:139-163 | N properly bracketed rounds yield exactly N counts, each its own bracket's `block_moved` count |
| Segmenter.SegmentCountsStream | notebook.py:139-163 | segmenting the stream written for some counts gives those counts back |
| Segmenter.CountBlocksMoved | notebook.py:139-163 | the script's two-variable loop computes exactly the state machine's counts |
| Segmenter.PadWithZeros | notebook.py:165-167 | padding reaches the round count when short, keeps every existing entry in place, and adds only zeros |
| Segmenter.PadLoop | notebook.py:165-167 | the script's `while` loop computes exactly the padding |
| Reconciler.ColumnKey | notebook.py:172-174 | the first round's column is exactly as long as the question text and every later one is longer than the text plus the dot; `Reconciler.ColumnKeyShape`, `Reconciler.ColumnKeyRoundTrip` and `Reconciler.RoundOfColumnSound` characterize it |
| Reconciler.ColumnKeyShape | notebook.py:172-174 | every round's column begins with the question text, and it is the bare text exactly for the first round |
| Reconciler.At | notebook.py:178-183 | the entry at a round index inside the series, and 0 at or past its end |
| Reconciler.Answer | notebook.py:184-187 | the answer is found exactly when the round's column is in the row, and is that cell; otherwise the error names the missing column |
| Reconciler.NatToStringCanonical | notebook.py:174 | the suffix rendering of a round index is a canonical numeral |
| Reconciler.CanonicalRoundTrip | notebook.py:172-174 | rendering the value of a canonical numeral gives the numeral back |
| Reconciler.ColumnKeyRoundTrip | notebook.py:172-174 | every round's column name decodes back to that round: the bare question for round 0, `.i` for round i |
| Reconciler.RoundOfColumnSound | notebook.py:172-174 | every column name that decodes as a round is that round's column name |
| Reconciler.ColumnKeyInjective | notebook.py:172-174 | distinct rounds read distinct columns |
| Reconciler.BuildRound | notebook.py:176-188 | a round is built exactly when its four columns are present; it is numbered i+1, takes series entry i or 0 past the end, and holds the four answers; otherwise it fails with its first missing column in question order |
| Reconciler.BuildRounds | notebook.py:170-189 | rounds from `from` on are built in order, each matching its index; the build succeeds exactly when all their columns are present, and otherwise fails with the first missing column of the first incomplete round |
| Reconciler.Reconcile | notebook.py:170-189 | exactly `numRounds` records, record i matching round i; it succeeds exactly when the row has every answer column, and otherwise fails with the first missing one, rounds in order and questions in order within a round |
| Reconciler.ReconcileReadsPrefixOnly | notebook.py:178-183 | series that agree (with the 0 default) below the round count reconcile alike |
| Reconciler.ExcessEntriesUnused | notebook.py:178-183 | entries past the round count are neither truncated nor rejected, and change nothing |
| Assembler.RepeatingColumns | notebook.py:80-82 | a column is repeating exactly when it is in the header and not static |
| Assembler.NumRounds | notebook.py:83 | the round count is the largest n with 4n repeating columns at most |
| Assembler.RepeatingColumnsConcat | notebook.py:82 | the filter distributes over concatenated headers |
| Assembler.RepeatingColumnsDrops | notebook.py:82 | a header of static columns has no repeating ones |
| Assembler.RepeatingColumnsKeeps | notebook.py:82 | a header without static columns is kept whole |
| Assembler.NumRoundsOfLayout | notebook.py:60-83 | static columns followed by answer columns give answer columns divided by four rounds |
| Assembler.TwelveAnswerColumnsMakeThreeRounds | notebook.py:60-83 | 8 static and 12 answer columns make 3 rounds |
| Assembler.ProcessParticipant | notebook.py:99-189 | the steps fail in order: a missing `LatencyMarkers` stream, then the first rejected latency, then a missing `ExpMarkers` stream, then, when the row lacks an answer column, the first one missing (rounds in order, questions in order within a round); it succeeds exactly when both streams exist, every latency field parses and the row answers every round, and then record i holds round i+1's extracted latency and segment block count (0 past either series' end) and the row's four answers, with the row's number and demographics |
| Assembler.RecordsOfSeries | notebook.py:170-189 | a document whose streams yield given latency and block series reconstructs records carrying exactly those series |
| Assembler.PaddingUnobservable | notebook.py:165-183 | zero-padding the block counts never changes the reconciled records |
| Assembler.DuplicateStreamsIgnored | notebook.py:126-136 | appended duplicate streams give the same participant as the document without them |
| Assembler.TwoRoundLatencies | notebook.py:115-124 | the condition-advance markers written for rep_1 with `200ms` and rep_2 with `0ms` yield latencies 200 and 0 |
| Assembler.TwoRoundSession | notebook.py:99-189 | latencies 200 ms and 0 ms with 2 and 0 blocks moved reconcile to rounds (1, 200, 2) and (2, 0, 0) |
| Assembler.KeptRows | notebook.py:90-93 | the kept rows are exactly the rows whose number is not excluded |
| Assembler.KeptRowsConcat | notebook.py:90-93 | the exclusion filter distributes over concatenated rows, so kept rows stay in row order, each kept once |
| Assembler.ProcessRow | notebook.py:90-97 | a participant without a document fails with `DocumentNotFound`, otherwise the row's outcome is the participant pipeline's on its document; it succeeds exactly when the document exists and admits a reconstruction, and then the result reconstructs the row from that document |
| Assembler.AssembleWith | notebook.py:88-203 | the output lines up with the kept rows, each entry being that row's reconstruction; a failure is that of the first failing kept row, every earlier kept row having succeeded |
| Assembler.AssembleWithSucceedsIff | notebook.py:88-203 | the pass succeeds exactly when every row that is not excluded reconstructs |
| Assembler.AssembleWithAgrees | notebook.py:90-97 | reconstructions that agree on the rows that are not excluded give the same outcome |
| Assembler.Assemble | notebook.py:88-203 | it succeeds exactly when every row that is not excluded has a document admitting a reconstruction; then one participant per kept row, in row order, each the reconstruction of its row from its own document; a failure is the first failing kept row's |
| Assembler.AssembleExcludes | notebook.py:90-93 | no excluded participant number appears in the output |
| Assembler.AssembledRoundCounts | notebook.py:170-189 | every assembled participant has one record per round |
| Assembler.ExcludedDocumentsIrrelevant | notebook.py:90-97 | excluded participants' documents are never consulted, present or not |
| Assembler.ProcessQuestionnaire | notebook.py:50-93 | it succeeds exactly when every row other than participant 4's has a document admitting a reconstruction with the header's round count; participant 4 never appears; every participant has the header's number of rounds and reconstructs its kept row; a failure is the first failing kept row's |

## Left out

- Reading the CSV (`;`-separated) and parsing the JSON event logs are left out. Rows are given as `Row` values, and documents as a map from participant number to the streams a document holds. A missing or unparseable file is a number absent from that map.
- The document path built from the zero-padded participant number (notebook.py:95) is left out: it only names the file.
- Pydantic validation and type coercion of the demographic cells (notebook.py:38-47, 191-202) are left out. Demographics arrive typed, and `answer_time_ms` is a `real`.
- Text.ParseInt: the four Likert cells are already integers in the model, so `int()` of a cell (notebook.py:184-187) is not modelled. A missing column is still an error. For latency fields, `int()` accepts only ASCII digits, not the other Unicode decimal digits Python also accepts.
- Streams.FindStream: only a stream's name and its markers' first slots (the tokens) are kept. Timestamps and the other marker slots are never read.
- The error for a missing `LatencyMarkers` stream omits the participant number that the script's message interpolates.
- The participant-number cell is converted with `int(row["Participant number"])` (notebook.py:91) before the exclusion check. In the model the number arrives as an integer, so a non-integer cell, which would end the pass there, is not modelled.
- Text.ParseInt: Python 3.11 and later refuse to convert texts of more than 4300 digits (`sys.set_int_max_str_digits`). The model accepts a digit group of any length.
- Text.IntToStringRoundTrip: it is proved for every integer. In Python `str()` raises beyond 4300 digits, so there the round trip holds only below that limit.
- The construction of the final `Participant` record (notebook.py:192-202), which coerces the demographic cells and can fail, is not modelled beyond carrying the row's demographics (see the validation line above).
- Printing of the round count and the participant list (notebook.py:85, 206) is left out, since it is output only.
