/**
 * The hourly access analyser of a web-server log: a 24-slot table of access
 * counts that one pass over the log's entries fills in, and the total of
 * that table.
 */
module LogAnalysis {
  import opened Histogram

  /** The reader of the log file, reduced to what the analyser uses of it:
      the hours of the log's entries in file order and a cursor that only
      moves forward, so the entries can be read once. */
  class LogfileReader {
    const entries: seq<int>
    var pos: nat

    ghost predicate Valid()
      reads this
    {
      pos <= |entries|
    }

    /** The hours of the entries handed out so far. */
    ghost function Consumed(): seq<int>
      reads this
      requires Valid()
    {
      entries[..pos]
    }

    /** The hours of the entries not yet handed out. */
    ghost function Remaining(): seq<int>
      reads this
      requires Valid()
    {
      entries[pos..]
    }

    constructor (entries: seq<int>)
      ensures Valid() && this.entries == entries && pos == 0
    {
      this.entries := entries;
      pos := 0;
    }

    /** Whether another entry is left to read. */
    method HasNext() returns (more: bool)
      requires Valid()
      ensures more <==> Remaining() != []
    {
      more := pos < |entries|;
    }

    /** Hands out the next entry's hour and moves past it. */
    method Next() returns (hour: int)
      requires Valid() && Remaining() != []
      modifies this
      ensures Valid()
      ensures hour == old(Remaining())[0]
      ensures Consumed() == old(Consumed()) + [hour]
      ensures Remaining() == old(Remaining())[1..]
    {
      hour := entries[pos];
      assert entries[..pos + 1] == entries[..pos] + [hour];
      pos := pos + 1;
    }
  }

  class LogAnalyzer {
    /** Access counts per hour of the day. */
    var hourCounts: array<int>
    /** Source of the log entries. */
    var reader: LogfileReader

    /** The table has 24 slots and holds exactly the tally of the entries
        the reader has handed out since construction. */
    ghost predicate Valid()
      reads this, reader, hourCounts
    {
      && reader.Valid()
      && hourCounts.Length == HOURS
      && AllHours(reader.Consumed())
      && hourCounts[..] == Tally(reader.Consumed())
    }

    /** Creates the analyser over a log whose entry hours are `log`: a zeroed
        24-slot table and a reader positioned at the first entry. */
    constructor (log: seq<int>)
      ensures Valid() && fresh(hourCounts) && fresh(reader)
      ensures forall h :: 0 <= h < HOURS ==> hourCounts[h] == 0
      ensures reader.entries == log && reader.pos == 0
    {
      hourCounts := new int[HOURS](_ => 0);
      reader := new LogfileReader(log);
      new;
      TallyEmpty();
    }

    /** Drains the reader and counts every entry in the slot of its hour.
        The hour indexes the table, so each remaining hour must be 0..23. */
    method AnalyzeHourlyData()
      requires Valid()
      requires AllHours(reader.Remaining())
      modifies hourCounts, reader
      ensures Valid()
      ensures reader.Remaining() == []
      ensures forall h :: 0 <= h < HOURS ==>
                hourCounts[h] == old(hourCounts[h]) + CountOf(old(reader.Remaining()), h)
      ensures forall h :: 0 <= h < HOURS ==> 0 <= old(hourCounts[h]) <= hourCounts[h]
      ensures old(reader.Remaining()) == [] ==> hourCounts[..] == old(hourCounts[..])
    {
      var more := reader.HasNext();
      while more
        invariant Valid()
        invariant more <==> reader.Remaining() != []
        invariant AllHours(reader.Remaining())
        decreases |reader.entries| - reader.pos
      {
        var hour := reader.Next();
        TallyStep(reader.entries[..reader.pos - 1], hour);
        hourCounts[hour] := hourCounts[hour] + 1;
        more := reader.HasNext();
      }
      assert reader.Consumed() == old(reader.Consumed()) + old(reader.Remaining());
      forall h | 0 <= h < HOURS
        ensures hourCounts[h] == old(hourCounts[h]) + CountOf(old(reader.Remaining()), h)
      {
        CountOfSplit(old(reader.Consumed()), old(reader.Remaining()), h);
      }
    }

    /** Total number of accesses: the sum of the 24 hourly counts, which is
        the number of entries read so far. */
    method NumberOfAccesses() returns (total: int)
      requires Valid()
      ensures total == Sum(hourCounts[..])
      ensures total == |reader.Consumed()|
    {
      total := 0;
      for i := 0 to hourCounts.Length
        invariant total == Sum(hourCounts[..i])
      {
        assert hourCounts[..i + 1][..i] == hourCounts[..i];
        total := total + hourCounts[i];
      }
      assert hourCounts[..hourCounts.Length] == hourCounts[..];
      SumOfTally(reader.Consumed());
    }
  }

  /** One analysis of a whole log from a fresh analyser, as a caller runs
      it: the total equals the number of log entries, and a second pass over
      the exhausted reader followed by a second query changes nothing. */
  method AnalyzeLog(log: seq<int>) returns (total: int, again: int)
    requires AllHours(log)
    ensures total == |log|
    ensures again == total
  {
    var analyzer := new LogAnalyzer(log);
    analyzer.AnalyzeHourlyData();
    total := analyzer.NumberOfAccesses();
    analyzer.AnalyzeHourlyData();
    again := analyzer.NumberOfAccesses();
  }
}
