/**
 * SourceReader: reads pick requests from an input stream, one JSON
 * document per line, until maxEvents non-empty lines have been read or the
 * time allowed runs out.
 */
module Reader {
  import opened Model
  import opened Accumulation

  class SourceReader {
    /** The most non-empty lines to read. */
    const maxEvents: int
    /** toPickRequest: the JSON parser, None when the line does not parse. */
    const toPickRequest: string -> Option<PickRequest>

    constructor (maxEvents: int, toPickRequest: string -> Option<PickRequest>)
      ensures this.maxEvents == maxEvents && this.toPickRequest == toPickRequest
    {
      this.maxEvents := maxEvents;
      this.toPickRequest := toPickRequest;
    }

    /**
     * accumulateLines: appends to `lines` the parsed pick of every
     * non-empty line it reads, counting every non-empty line, parsed or
     * not, against maxEvents. `source` holds the lines that arrive before
     * the reader is stopped.
     */
    method AccumulateLines(source: seq<string>, lines0: seq<PickRequest>) returns (lines: seq<PickRequest>)
      ensures lines == lines0 + Successes(toPickRequest, Consumed(source, maxEvents))
    {
      lines := lines0;
      var counter := 0;
      var i := 0;
      ghost var taken: seq<string> := [];
      while counter < maxEvents && i < |source|
        invariant 0 <= i <= |source|
        invariant counter == |taken| && (counter == 0 || counter <= maxEvents)
        invariant taken + Consumed(source[i..], maxEvents - counter) == Consumed(source, maxEvents)
        invariant lines == lines0 + Successes(toPickRequest, taken)
      {
        var line := source[i];
        ConsumedStep(source, i, maxEvents - counter, taken, Consumed(source, maxEvents));
        if line != EmptyLine {
          var pick := toPickRequest(line);
          if pick.Some? {
            lines := lines + [pick.value];
          }
          SuccessesSnoc(toPickRequest, taken, line);
          counter := counter + 1;
          taken := taken + [line];
        }
        i := i + 1;
      }
      if i == |source| {
        assert source[i..] == [];
      }
      assert taken + [] == taken;
    }

    /**
     * readLines: the picks read before the reader stops, in the order of
     * their lines. The time limit is the end of `source`.
     */
    method ReadLines(source: seq<string>) returns (lines: seq<PickRequest>)
      ensures lines == Successes(toPickRequest, Consumed(source, maxEvents))
      ensures 0 <= maxEvents ==> |lines| <= maxEvents
      ensures maxEvents <= 0 ==> lines == []
    {
      lines := AccumulateLines(source, []);
    }
  }
}
