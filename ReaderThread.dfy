/**
 * SourceReaderThread: the producer that reads raw lines from an input
 * stream and puts every non-empty one, up to maxEvents of them, on a
 * queue shared with the consumers.
 */
module ReaderThread {
  import opened Accumulation

  /** The LinkedBlockingQueue of lines; put appends at the tail. */
  class LineQueue {
    var items: seq<string>

    constructor ()
      ensures items == []
    {
      items := [];
    }

    method Put(line: string)
      modifies this
      ensures items == old(items) + [line]
    {
      items := items + [line];
    }
  }

  class SourceReaderThread {
    const maxEvents: int
    /** The lines that arrive on the stream before the thread is interrupted. */
    const source: seq<string>
    const lines: LineQueue

    constructor (maxEvents: int, source: seq<string>, lines: LineQueue)
      ensures this.maxEvents == maxEvents && this.source == source && this.lines == lines
    {
      this.maxEvents := maxEvents;
      this.source := source;
      this.lines := lines;
    }

    /**
     * run: the queue gains, at its tail and in input order, the first
     * maxEvents non-empty lines of the stream; nothing else changes.
     */
    method Run()
      modifies lines
      ensures lines.items == old(lines.items) + Consumed(source, maxEvents)
    {
      var counter := 0;
      var i := 0;
      ghost var taken: seq<string> := [];
      while counter < maxEvents && i < |source|
        invariant 0 <= i <= |source|
        invariant counter == |taken| && (counter == 0 || counter <= maxEvents)
        invariant taken + Consumed(source[i..], maxEvents - counter) == Consumed(source, maxEvents)
        invariant lines.items == old(lines.items) + taken
      {
        var line := source[i];
        ConsumedStep(source, i, maxEvents - counter, taken, Consumed(source, maxEvents));
        if line != EmptyLine {
          lines.Put(line);
          counter := counter + 1;
          taken := taken + [line];
        }
        i := i + 1;
      }
      if i == |source| {
        assert source[i..] == [];
      }
      assert taken + [] == taken;
    }
  }
}
