# Hourly access histogram of the web-log analyser

This project models the hourly access histogram of `LogAnalyzer`, a small
web-server log analyser, and proves what it computes.

- `LogAnalyzer` owns `hourCounts`, an array of 24 access counters, one per
  hour of the day.
- Both constructors allocate that array zeroed and open a `LogfileReader` on
  the log.
- `analyzeHourlyData` drains the reader once. For every entry it increments
  the counter of that entry's hour.
- `numberOfAccesses` adds up the 24 counters.

The reader is a collaborator whose code is not part of this model. It is
abstracted as the sequence of the log entries' hours, in file order, with a
cursor that only moves forward. `hasNext` holds while the cursor is before
the end. `next` hands out the hour under the cursor and advances it. So the
log can be read only once, as the `while (reader.hasNext())` loop implies.

Files:

- `histogram.dfy`, module `Histogram`: the specification functions.
  `CountOf(s, h)` counts how often hour `h` occurs in `s`. `Sum(a)` adds up
  a table of counts. `Tally(s)` is the 24-slot table that the hours `s`
  should produce from zero. The lemmas relate these three.
- `log_analyzer.dfy`, module `LogAnalysis`: the classes `LogfileReader` and
  `LogAnalyzer`, and the client method `AnalyzeLog`.

The object invariant `LogAnalyzer.Valid()` states that the table has 24
slots and is exactly `Tally` of the hours the reader has handed out since
construction. The constructor establishes it and `AnalyzeHourlyData`
preserves it. From it, `NumberOfAccesses` returns the number of entries
read so far.

`LogAnalyzer` keeps only the hourly table. It has no day, month or year
counters and no extremum, window or average queries.

## Model

| member | source | states |
|---|---|---|
| `Histogram.CountOfSplit` | LogAnalyzer.java:49-53 | Counting hour `h` over two stretches of the log, one after the other, gives the count over the whole log; this is why counts from earlier reads plus the counts of one pass are the counts of everything read. |
| `Histogram.CountOfIsMultiplicity` | LogAnalyzer.java:49-53 | The number of entries with hour `h` equals the multiplicity of `h` in the multiset of the entry hours, so the counters depend only on which hours were read, not on their order. |
| `Histogram.SumUpdate` | LogAnalyzer.java:52 | Incrementing one counter by `d` raises the sum of the table by exactly `d`. |
| `Histogram.SumOfZeros` | LogAnalyzer.java:24 | A freshly allocated table of zeros sums to 0. |
| `Histogram.TallyEmpty` | LogAnalyzer.java:24 | The table for no entries read is 24 zeros, the state `new int[24]` creates. |
| `Histogram.TallyStep` | LogAnalyzer.java:50-52 | Reading one more entry whose hour is in 0..23 increments exactly that hour's slot and leaves the other 23 unchanged. |
| `Histogram.SumOfTally` | LogAnalyzer.java:49-53 | When every hour read is in 0..23, the 24 counts sum to the number of entries read: each entry lands in exactly one slot. |
| `LogAnalysis.LogfileReader.constructor` | LogAnalyzer.java:26 | A new reader holds the log's entry hours in file order and has read none of them. |
| `LogAnalysis.LogfileReader.HasNext` | LogAnalyzer.java:49 | True exactly when some entry is still unread. |
| `LogAnalysis.LogfileReader.Next` | LogAnalyzer.java:50-51 | Returns the hour of the first unread entry; that entry moves from the unread part to the end of the read part. |
| `LogAnalysis.LogAnalyzer.constructor` | LogAnalyzer.java:20-42 | Either constructor gives a fresh table of length 24 with every slot 0, and a fresh reader at the start of the log; the object invariant holds. |
| `LogAnalysis.LogAnalyzer.AnalyzeHourlyData` | LogAnalyzer.java:47-54 | Requires every unread hour to be in 0..23, since it indexes the array. Afterwards the reader is exhausted. Each `hourCounts[h]` has grown by exactly the number of consumed entries with hour `h`, and this covers all 24 slots. Every slot stays non-negative and never decreases. The length stays 24 and the table is still the tally of everything read. On an already exhausted reader the table is unchanged. |
| `LogAnalysis.LogAnalyzer.NumberOfAccesses` | LogAnalyzer.java:61-72 | Returns the sum of all 24 slots, which equals the number of entries read since construction. It has no `modifies` clause, so it changes nothing and two calls in a row return the same value. |
| `LogAnalysis.AnalyzeLog` | LogAnalyzer.java:20-72 | From a fresh analyser, one full pass followed by `numberOfAccesses` returns the number of log entries. A second pass over the exhausted reader followed by a second query returns the same total. |

## Left out

- `printHourlyCounts` and `printData` (LogAnalyzer.java:79-93) only write to the console. Their output is not modelled.
- The file name: the two Java constructors differ only in which file the reader opens (the default or a supplied name). The model takes the log's contents as the constructor's parameter, so both Java constructors become one Dafny constructor.
- `LogfileReader` and `LogEntry` are not part of this model. File reading and log-line parsing are left out. An entry is reduced to its hour.
- `LogAnalysis.LogfileReader.Next` requires an unread entry. What the real reader does when it is exhausted is not modelled, because the analyser only calls `next` after `hasNext` returned true.
- `LogAnalysis.LogAnalyzer.AnalyzeHourlyData` requires every unread hour to be in 0..23. The Java code would throw an out-of-bounds exception part-way through the pass for any other hour; that failure path is not modelled.
- Java `int` overflow: counters and the total are unbounded integers. The wrap of `total` past 2^31-1 entries, and of a slot past 2^31-1 entries in one hour, is not modelled.
