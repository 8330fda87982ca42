# Picking stream processor — a Dafny model

The picking stream processor reads a stream of pick requests, one JSON
document per line. Reading stops after `maxEvents` non-empty lines or when a
time limit runs out. The processor writes one summary per picker:

- only picks of articles in the ambient temperature zone are kept;
- the picks are grouped by picker;
- the pickers are ordered by the time they became active, then by id;
- each picker's picks are ordered by timestamp;
- each pick becomes an upper-cased article name with its timestamp.

This project models three pieces of that system and proves what they promise.

- **The aggregation** of `PickingStreamProcessor.process`
  (`PickingStreamProcessor.dfy`, with `Grouping.dfy`, `Sorting.dfy` and
  `JavaStrings.dfy`). It is a pure function from `seq<PickRequest>` to
  `seq<PickerWithPicks>`, built with the same stages as the stream pipeline:
  - the filter on the temperature zone;
  - `groupingBy` into a `HashMap`, modelled as a fold that applies
    `computeIfAbsent` once per pick;
  - the stable sort of the map entries by `(activeSince, id)`;
  - the stable sort of each entry's picks by timestamp;
  - the mapping to responses.
- **Picker identity** (`Model.dfy`). `equals` and `hashCode` look at the id
  alone. Grouping is keyed on that id, and what the aggregation proves
  rests on this.
- **The bounded reading loops** (`Accumulation.dfy`, `Reader.dfy`,
  `ReaderThread.dfy`).
  - `SourceReader.accumulateLines` is a `while` loop in a method. It appends
    the parsed pick of every non-empty line to a list.
  - `SourceReaderThread.run` is a `while` loop that puts every non-empty line
    on a queue. The queue is a class whose `seq<string>` field the loop
    updates.
  - Both loops are proved against one specification function, `Consumed`:
    the first `maxEvents` non-empty lines of the input.

Dates (`ZonedDateTime`) are instants on one integer time line. Ids and names
are Dafny strings, whose characters are Unicode scalar values. For characters
of the Basic Multilingual Plane a character is also the one UTF-16 code unit
Java stores, and there `String.compareTo` and `String.hashCode` agree with
Java: ids are ordered lexicographically ("10" comes before "9").

The JSON parser is a function-typed field of `SourceReader`, `toPickRequest`.
It returns `None` when a line does not parse. Nothing is assumed about it.
The input stream is the finite sequence of lines that arrive before the
reader is stopped. Its end stands for the time limit: at the end of a stream
the source waits until it is cancelled, and the lines accumulated by then are
the result.

`Examples.dfy` follows two scenarios of the processor's tests through the
model: the ordering of pickers, and the dropping of chilled picks.

## Model

| member | source | states |
|---|---|---|
| JavaStrings.Wrap32 | src/main/java/tech/picnic/assignment/model/Picker.java:28 | Java int arithmetic: the result is a 32-bit value congruent to the input modulo 2^32, and equal to it when it already fits |
| JavaStrings.HashCode | src/main/java/tech/picnic/assignment/model/Picker.java:28 | String.hashCode (the polynomial in 31 over the characters, in int arithmetic) always yields a 32-bit int |
| JavaStrings.CompareTo | src/main/java/tech/picnic/assignment/impl/PickingStreamProcessor.java:47 | String.compareTo is zero exactly when the strings are equal; when the first characters differ its sign is the order of those characters |
| JavaStrings.CompareToFirstDifference | src/main/java/tech/picnic/assignment/impl/PickingStreamProcessor.java:47 | for strings that agree up to index k and differ at k, compareTo is negative exactly when the character at k is smaller, and positive exactly when it is larger |
| JavaStrings.CompareToProperPrefix | src/main/java/tech/picnic/assignment/impl/PickingStreamProcessor.java:47 | a proper prefix compares below the longer string, and the longer string above it |
| JavaStrings.CompareToAntisymmetric | src/main/java/tech/picnic/assignment/impl/PickingStreamProcessor.java:47 | swapping the strings negates compareTo |
| JavaStrings.CompareToTransitive | src/main/java/tech/picnic/assignment/impl/PickingStreamProcessor.java:47 | "less than" by compareTo is transitive, so ordering by id is a strict order |
| JavaStrings.LexicographicNotNumeric | src/main/java/tech/picnic/assignment/impl/PickingStreamProcessor.java:47 | ids are ordered as text: "10" precedes "9" and "1" precedes "10" |
| JavaStrings.ToUpperCase | src/main/java/tech/picnic/assignment/impl/PickingStreamProcessor.java:76 | the upper case has the same length, contains no a-z, turns each a-z into the matching A-Z and keeps every other character |
| JavaStrings.ToUpperCaseIdempotent | src/main/java/tech/picnic/assignment/impl/PickingStreamProcessor.java:76 | upper-casing twice is upper-casing once |
| JavaStrings.ToUpperCaseFixesUpper | src/main/java/tech/picnic/assignment/impl/PickingStreamProcessor.java:76 | a name without a-z is its own upper case |
| Model.Picker.Equals | src/main/java/tech/picnic/assignment/model/Picker.java:19-24 | equals is true for the picker itself, false for null, and true only for a picker with the same id |
| Model.Picker.HashCode | src/main/java/tech/picnic/assignment/model/Picker.java:27-29 | Objects.hash(id) is 31 + id.hashCode() in int arithmetic, a 32-bit value computed from the id alone |
| Model.KeyEquivalenceIsEquals | src/main/java/tech/picnic/assignment/model/Picker.java:19-24 | two pickers are equal exactly when their grouping keys (ids) are equal |
| Model.EqualsIgnoresNameAndActiveSince | src/main/java/tech/picnic/assignment/model/Picker.java:19-24 | a picker equals any picker with its id, whatever the name and activeSince |
| Model.EqualsNull | src/main/java/tech/picnic/assignment/model/Picker.java:21 | no picker equals null |
| Model.EqualsIsEquivalence | src/main/java/tech/picnic/assignment/model/Picker.java:20-23 | equals is reflexive, symmetric and transitive |
| Model.HashCodeConsistentWithEquals | src/main/java/tech/picnic/assignment/model/Picker.java:19-29 | equal pickers have equal hash codes |
| Model.DifferentIdsAreDifferentPickers | src/main/java/tech/picnic/assignment/model/Picker.java:23 | pickers with different ids are unequal in both directions, even with the same name and activeSince |
| Grouping.PicksOf | src/main/java/tech/picnic/assignment/impl/PickingStreamProcessor.java:44 | the picks of one picker id are exactly the picks of the input with that id |
| Grouping.FindGroup | src/main/java/tech/picnic/assignment/impl/PickingStreamProcessor.java:44 | the map lookup returns the first entry whose key equals the picker, and no earlier entry's key equals it |
| Grouping.AddPick | src/main/java/tech/picnic/assignment/impl/PickingStreamProcessor.java:44 | computeIfAbsent-and-add grows the map by at most one entry, keeps the key of every existing entry, makes a new entry hold just the pick under its picker, and adds exactly one pick overall |
| Grouping.GroupByPicker | src/main/java/tech/picnic/assignment/impl/PickingStreamProcessor.java:44 | groupingBy has no more entries than picks and holds every pick exactly once overall |
| Grouping.AddPickGroups | src/main/java/tech/picnic/assignment/impl/PickingStreamProcessor.java:44 | one computeIfAbsent-and-add preserves the grouping invariant for the input extended by that pick |
| Grouping.GroupByPickerGroups | src/main/java/tech/picnic/assignment/impl/PickingStreamProcessor.java:44 | groupingBy yields entries with pairwise distinct ids, one per picker id of the input; each entry holds exactly that picker's picks, in input order, keyed by the picker of the first of them; no pick is lost |
| Grouping.PicksOfCount | src/main/java/tech/picnic/assignment/impl/PickingStreamProcessor.java:44 | a pick occurs in its picker's list as often as in the input, and in no other picker's list |
| Grouping.DistinctKeysCount | src/main/java/tech/picnic/assignment/impl/PickingStreamProcessor.java:44 | with distinct keys there are exactly as many entries as distinct ids |
| Sorting.InsertByTimestamp | src/main/java/tech/picnic/assignment/impl/PickingStreamProcessor.java:63 | inserting a pick adds exactly that pick to the multiset |
| Sorting.SortByTimestamp | src/main/java/tech/picnic/assignment/impl/PickingStreamProcessor.java:63 | the sort of the picks is a permutation of them |
| Sorting.InsertByTimestampSorted | src/main/java/tech/picnic/assignment/impl/PickingStreamProcessor.java:63 | inserting into a list ordered by timestamp keeps it ordered |
| Sorting.InsertByTimestampStable | src/main/java/tech/picnic/assignment/impl/PickingStreamProcessor.java:63 | the inserted pick goes ahead of every pick with an equal timestamp, so picks that share a timestamp keep their order |
| Sorting.SortByTimestampCorrect | src/main/java/tech/picnic/assignment/impl/PickingStreamProcessor.java:60-65 | sorted(comparing(getTimestamp)) has the same length and multiset, is non-decreasing by timestamp, and is stable: for every timestamp, the picks carrying it keep their input order |
| Sorting.ComparePickers | src/main/java/tech/picnic/assignment/impl/PickingStreamProcessor.java:47 | the entry comparator is zero exactly when both activeSince and id agree |
| Sorting.PickerBeforeMeaning | src/main/java/tech/picnic/assignment/impl/PickingStreamProcessor.java:47 | one picker sorts before another exactly when it became active earlier, or at the same instant with a smaller id by compareTo |
| Sorting.PickerBeforeAsymmetric | src/main/java/tech/picnic/assignment/impl/PickingStreamProcessor.java:47 | the entry order is asymmetric |
| Sorting.PickerBeforeTransitive | src/main/java/tech/picnic/assignment/impl/PickingStreamProcessor.java:47 | the entry order is transitive |
| Sorting.PickerBeforeTotal | src/main/java/tech/picnic/assignment/impl/PickingStreamProcessor.java:47 | pickers with different ids are always ordered one way or the other |
| Sorting.InsertGroup | src/main/java/tech/picnic/assignment/impl/PickingStreamProcessor.java:47 | inserting an entry adds exactly that entry to the multiset |
| Sorting.SortGroups | src/main/java/tech/picnic/assignment/impl/PickingStreamProcessor.java:47 | the sort of the entries is a permutation of them |
| Sorting.SortGroupsCorrect | src/main/java/tech/picnic/assignment/impl/PickingStreamProcessor.java:45-47 | the sorted entries of a map with distinct keys are a permutation, strictly ascending by (activeSince, id), still with distinct keys and the same picks overall |
| Sorting.SortGroupsOrderIndependent | src/main/java/tech/picnic/assignment/impl/PickingStreamProcessor.java:44-47 | sorting gives the same list whatever order the map yields its entries in |
| PickingStreamProcessor.RequiredArticles | src/main/java/tech/picnic/assignment/impl/PickingStreamProcessor.java:54-56 | a pick is required exactly when its article is in the ambient zone; a chilled pick never is |
| PickingStreamProcessor.FilterRequired | src/main/java/tech/picnic/assignment/impl/PickingStreamProcessor.java:43 | the filter keeps exactly the input picks whose article is in the ambient zone |
| PickingStreamProcessor.FilterRequiredCount | src/main/java/tech/picnic/assignment/impl/PickingStreamProcessor.java:43 | an ambient pick survives the filter as often as it occurs; a chilled pick never survives |
| PickingStreamProcessor.FilterRequiredNone | src/main/java/tech/picnic/assignment/impl/PickingStreamProcessor.java:43 | without ambient picks the filter leaves nothing |
| PickingStreamProcessor.FilterRequiredAll | src/main/java/tech/picnic/assignment/impl/PickingStreamProcessor.java:43 | when every pick is ambient the filter keeps the input unchanged, order included |
| PickingStreamProcessor.ToPickResponses | src/main/java/tech/picnic/assignment/impl/PickingStreamProcessor.java:64 | mapping to responses keeps the number of picks |
| PickingStreamProcessor.ToPickResponse | src/main/java/tech/picnic/assignment/impl/PickingStreamProcessor.java:74-79 | a response carries its pick's timestamp unchanged and the upper case of its article's name: same length, no a-z, each character upper-cased |
| PickingStreamProcessor.ToPickerWithPicks | src/main/java/tech/picnic/assignment/impl/PickingStreamProcessor.java:58-72 | a summary takes its name and activeSince from the entry's key, has one response per pick of the entry, non-decreasing by timestamp, and a response for every one of those picks |
| PickingStreamProcessor.Entries | src/main/java/tech/picnic/assignment/impl/PickingStreamProcessor.java:43-47 | the sorted entries of the grouped ambient picks: no more entries than ambient picks, and every ambient pick held exactly once overall |
| PickingStreamProcessor.Process | src/main/java/tech/picnic/assignment/impl/PickingStreamProcessor.java:48-49 | one summary per sorted map entry |
| PickingStreamProcessor.EntriesGroupRequired | src/main/java/tech/picnic/assignment/impl/PickingStreamProcessor.java:43-47 | the sorted entries have distinct, strictly ascending keys; each holds exactly its picker's ambient picks, in input order; every ambient picker id has an entry; no ambient pick is lost |
| PickingStreamProcessor.ProcessWithoutRequiredIsEmpty | src/main/java/tech/picnic/assignment/impl/PickingStreamProcessor.java:39-49 | input without ambient picks, the empty input included, yields the empty list |
| PickingStreamProcessor.ProcessOneEntryPerPicker | src/main/java/tech/picnic/assignment/impl/PickingStreamProcessor.java:43-48 | there are exactly as many summaries as picker ids among the ambient picks; every summary belongs to such an id, every such id has one, and no id has two |
| PickingStreamProcessor.ProcessEntriesAscending | src/main/java/tech/picnic/assignment/impl/PickingStreamProcessor.java:47 | the summaries are strictly ascending by activeSince, with ties ordered by ascending id |
| PickingStreamProcessor.ProcessEntryFromFirstPick | src/main/java/tech/picnic/assignment/impl/PickingStreamProcessor.java:66-68 | a summary's name and activeSince come from the picker of the first ambient pick, in input order, with that picker's id |
| PickingStreamProcessor.ProcessEntryPicks | src/main/java/tech/picnic/assignment/impl/PickingStreamProcessor.java:60-65 | a summary's responses are those of its picker's ambient picks, sorted: a permutation of those picks, non-decreasing by timestamp, equal timestamps in input order |
| PickingStreamProcessor.ProcessPicksAscending | src/main/java/tech/picnic/assignment/impl/PickingStreamProcessor.java:63 | within a summary the response timestamps never decrease |
| PickingStreamProcessor.ProcessOnlyRequired | src/main/java/tech/picnic/assignment/impl/PickingStreamProcessor.java:43 | every response is the response of an ambient input pick of that summary's picker, so no chilled pick reaches the output |
| PickingStreamProcessor.EntryOfRequiredPick | src/main/java/tech/picnic/assignment/impl/PickingStreamProcessor.java:44 | every ambient pick's picker has an entry, and that entry holds the picker's ambient picks |
| PickingStreamProcessor.EntryHoldsOnlyItsPicker | src/main/java/tech/picnic/assignment/impl/PickingStreamProcessor.java:44 | an entry holds no pick of another picker |
| PickingStreamProcessor.ResponseOfMember | src/main/java/tech/picnic/assignment/impl/PickingStreamProcessor.java:60-65 | every pick of an entry has its response in that entry's summary |
| PickingStreamProcessor.ProcessEachRequiredPickOnce | src/main/java/tech/picnic/assignment/impl/PickingStreamProcessor.java:43-49 | every ambient input pick is in its own picker's summary, as many times as it occurs in the input, and in no other summary |
| PickingStreamProcessor.ProcessGroupsEqualPickers | src/main/java/tech/picnic/assignment/impl/PickingStreamProcessor.java:44 | ambient picks of equal pickers land in the same summary |
| PickingStreamProcessor.ProcessTotalResponses | src/main/java/tech/picnic/assignment/impl/PickingStreamProcessor.java:43-65 | the number of responses over all summaries equals the number of ambient input picks |
| ProcessorExamples.PickerSortScenario | src/test/java/tech/picnic/assignment/impl/PickingStreamProcessorTest.java:116-130 | picks by john (id "1"), dave (id "3") and the earlier burt yield the summaries burt, john, dave in that order |
| ProcessorExamples.FilterChilledScenario | src/test/java/tech/picnic/assignment/impl/PickingStreamProcessorTest.java:64-80 | noodle, sprite, chilled cheese and potato picked by john yield one summary with NOODLE, SPRITE, POTATO |
| Accumulation.Consumed | src/main/java/tech/picnic/assignment/impl/SourceReader.java:65-77 | the lines handed on contain no empty line, are no more than the input, at most maxEvents, and none when maxEvents is not positive |
| Accumulation.NonEmptyLines | src/main/java/tech/picnic/assignment/impl/SourceReader.java:71 | the reference list of non-empty lines holds exactly the lines other than "" |
| Accumulation.Successes | src/main/java/tech/picnic/assignment/impl/SourceReader.java:73-74 | the parsed values are no more than the lines |
| Accumulation.SuccessesAreParsed | src/main/java/tech/picnic/assignment/impl/SourceReader.java:73-74 | every value in the result is what the parser made of one of the lines |
| Accumulation.ConsumedIsNonEmptyPrefix | src/main/java/tech/picnic/assignment/impl/SourceReader.java:65-77 | the loop hands on exactly the first maxEvents non-empty lines, in order, or all of them when there are fewer |
| Accumulation.ConsumedCount | src/main/java/tech/picnic/assignment/impl/SourceReader.java:65-76 | the number of lines handed on is the smaller of maxEvents and the number of non-empty lines, and zero when maxEvents is not positive |
| Accumulation.ConsumedSkipsEmptyLine | src/main/java/tech/picnic/assignment/impl/SourceReader.java:71 | an empty line anywhere in the input changes nothing, and so does not count toward maxEvents |
| Accumulation.ConsumedTakesOtherLine | src/main/java/tech/picnic/assignment/impl/SourceReader.java:71-75 | any other line, one of blanks only included, is handed on and uses up one unit of maxEvents |
| Accumulation.ConsumedIgnoresLaterLines | src/main/java/tech/picnic/assignment/impl/SourceReader.java:66 | once maxEvents non-empty lines have arrived, nothing arriving later is read |
| Accumulation.RejectedLineCounts | src/main/java/tech/picnic/assignment/impl/SourceReader.java:73-75 | a non-empty line the parser rejects adds nothing to the result but still uses up one unit of maxEvents |
| Accumulation.ResultSizeWhenAllParse | src/test/java/tech/picnic/assignment/impl/SourceReaderTest.java:31-39 | when every non-empty line parses, the result has min(maxEvents, non-empty lines) picks |
| Accumulation.MaxEventsOfTwoHundred | src/test/java/tech/picnic/assignment/impl/SourceReaderTest.java:31-39 | 200 newline-terminated copies of one valid pick line joined by newlines (so an empty line between each pair) read with maxEvents 100 give exactly 100 picks, each the pick of that line |
| Reader.SourceReader.constructor | src/main/java/tech/picnic/assignment/impl/SourceReader.java:33-39 | the reader keeps its maxEvents and its parser |
| Reader.SourceReader.AccumulateLines | src/main/java/tech/picnic/assignment/impl/SourceReader.java:63-84 | the list gains at its tail, in line order, exactly the parsed picks of the lines handed on; counter is the number of non-empty lines read and never exceeds maxEvents |
| Reader.SourceReader.ReadLines | src/main/java/tech/picnic/assignment/impl/SourceReader.java:41-61 | the picks returned are the parsed picks of the first maxEvents non-empty lines that arrived: at most maxEvents of them, none when maxEvents is not positive |
| ReaderThread.LineQueue.Put | src/main/java/tech/picnic/assignment/impl/SourceReaderThread.java:37 | put appends the line at the tail of the queue and changes nothing else |
| ReaderThread.SourceReaderThread.constructor | src/main/java/tech/picnic/assignment/impl/SourceReaderThread.java:22-26 | the thread keeps its maxEvents, its source and its queue |
| ReaderThread.SourceReaderThread.Run | src/main/java/tech/picnic/assignment/impl/SourceReaderThread.java:29-47 | the queue ends as it was followed by the first maxEvents non-empty lines of the stream, verbatim and in order: no empty line, no sentinel, nothing else; unchanged when maxEvents is not positive |

## Left out

- The executor, the `Future.get` time limit, `cancel(true)` and `shutdownNow` in `readLines` are concurrency and wall-clock timing. The time limit is the end of the input sequence.
- The `ready()`/`sleep(100)` polling, `BufferedReader` and UTF-8 decoding are I/O. The `line != null` test is part of this: in the model a line is always present until the input ends.
- Jackson parsing and writing (`toPickRequest`, `OBJECT_MAPPER.writeValue`, the JSON field mappings, `Utilities.java`) is a foreign library. Parsing is a parameter of the reader, and the JSON output is not modelled.
- The list shared between the reader thread and the caller is an unsynchronised `LinkedList`. How the two threads interleave on it is concurrency and is not modelled.
- `LinesUnmarshallerThread.java` and its poison-pill shutdown are concurrency around a Jackson call. `PickingEventProcessorFactory.java` is wiring. Neither is used by the path modelled here, so neither is modelled.
- `ReaderThread.SourceReaderThread.Run`: consumers taking lines from the queue while the producer runs are not modelled. The queue is assumed to have the default, unbounded capacity. A bounded queue, on which `put` blocks when full and can be interrupted, is not modelled.
- `JavaStrings.CompareTo`: Java compares UTF-16 code units, and the model compares Unicode scalar values. They agree on the Basic Multilingual Plane. A character outside it is one scalar value but two surrogate code units in Java, so strings containing one can be ordered differently.
- `JavaStrings.HashCode`: Java hashes UTF-16 code units, so a string with a character outside the Basic Multilingual Plane hashes differently in Java. A Java string holding an unpaired surrogate has no Dafny counterpart.
- `Reader.SourceReader.AccumulateLines`: a line that is the JSON document `null` makes Jackson return null, and `Optional.of` then throws a `NullPointerException` (`SourceReader.java:88`). The exception escapes the loop, which catches only I/O and interruption (`SourceReader.java:78-83`). `readLines` then returns the picks read so far (`SourceReader.java:53-60`). The model's parser yields a pick or `None` and never stops the loop, so for the input `["null", L]` the model returns the pick of `L` where the code returns nothing.
- `JavaStrings.ToUpperCase`: maps only ASCII a-z. Java's locale-sensitive Unicode case mapping, under which a string can change length, is not modelled.
- `ZonedDateTime` values are instants. The secondary comparison of equal instants by local time and zone is not modelled.
- `PickingStreamProcessor.Process`: its input is the list of parsed picks. The re-parse of that list at lines 41-42 is skipped; it does not type-check against what `readLines` returns.
- Null fields of pick requests, pickers and articles are not modelled.
- The `HashMap` entry order depends on hash codes. The model yields entries in first-appearance order. `Sorting.SortGroupsOrderIndependent` shows the sorted output is the same for every order.
- `Model.Picker.Equals`: `None` stands for both null and an object of another class, which are treated the same way (never equal). During grouping every key is a picker, so the other-class branch never arises.
- The performance and timing tests, as well as the test expecting one result from the non-JSON line `"line"`, give no property of the model (`SourceReaderTest.java:82-86` contradicts the parse-and-drop at `SourceReader.java:73-74`).
- The counters are Java ints. They never exceed `maxEvents`, which is itself an int, so they cannot wrap, and they are modelled as unbounded integers.

### Behaviour of the code worth noting

- `SourceReaderThread.run` pushes no end-of-input marker on the queue when it stops. `Run` proves the queue gains only the consumed lines.
- The sort of a picker's picks by timestamp allows equal timestamps, which keep their input order. The picks are non-decreasing by timestamp, not strictly ascending.
- `SourceReader` parses each line itself, in the reading loop; no separate consumer is involved on this path.
- Only the exact empty string is skipped. A line of blanks counts toward `maxEvents`, and is then dropped when it does not parse.
