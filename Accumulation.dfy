/**
 * What the bounded reading loops take from their input. Both loops read
 * lines one at a time, skip every line that is exactly the empty string,
 * and stop once they have handed on maxEvents lines. The input is the
 * sequence of lines that arrive before the loop is stopped from outside.
 */
module Accumulation {
  import opened Model

  /** EMPTY_LINE: only this exact line is skipped. */
  const EmptyLine: string := ""

  /** The lines a loop hands on, in order, when it reads `source` with budget maxEvents. */
  function Consumed(source: seq<string>, maxEvents: int): (r: seq<string>)
    ensures |r| <= |source|
    ensures forall k :: 0 <= k < |r| ==> r[k] != EmptyLine
    ensures maxEvents <= 0 ==> r == []
    ensures 0 <= maxEvents ==> |r| <= maxEvents
  {
    if maxEvents <= 0 || source == [] then []
    else if source[0] == EmptyLine then Consumed(source[1..], maxEvents)
    else [source[0]] + Consumed(source[1..], maxEvents - 1)
  }

  /** The lines of s other than the empty line, in order (a reference definition). */
  function NonEmptyLines(s: seq<string>): (r: seq<string>)
    ensures |r| <= |s|
    ensures forall line :: line in r <==> line in s && line != EmptyLine
  {
    if s == [] then []
    else (if s[0] == EmptyLine then [] else [s[0]]) + NonEmptyLines(s[1..])
  }

  /** The parsed values of the lines the parser accepts, in line order. */
  function Successes(parse: string -> Option<PickRequest>, lines: seq<string>): (r: seq<PickRequest>)
    ensures |r| <= |lines|
  {
    if lines == [] then []
    else
      var init, last := lines[..|lines| - 1], lines[|lines| - 1];
      Successes(parse, init) + (match parse(last) case Some(x) => [x] case None => [])
  }

  function Min(a: int, b: int): int {
    if a <= b then a else b
  }

  // ---------------------------------------------------------------------
  // Lemmas

  /**
   * The loop hands on exactly the first maxEvents non-empty lines of its
   * input, or all of them when there are fewer.
   */
  lemma {:induction false} ConsumedIsNonEmptyPrefix(source: seq<string>, maxEvents: int)
    ensures var ne := NonEmptyLines(source);
      Consumed(source, maxEvents) == ne[..if maxEvents <= 0 then 0 else Min(maxEvents, |ne|)]
  {
    if maxEvents > 0 && source != [] {
      ConsumedIsNonEmptyPrefix(source[1..], if source[0] == EmptyLine then maxEvents else maxEvents - 1);
    }
  }

  /** How many lines are handed on: maxEvents, unless the input has fewer non-empty lines. */
  lemma ConsumedCount(source: seq<string>, maxEvents: int)
    ensures |Consumed(source, maxEvents)| == if maxEvents <= 0 then 0 else Min(maxEvents, |NonEmptyLines(source)|)
  {
    ConsumedIsNonEmptyPrefix(source, maxEvents);
  }

  /** An empty line anywhere is skipped without using up the budget. */
  lemma {:induction false} ConsumedSkipsEmptyLine(a: seq<string>, b: seq<string>, maxEvents: int)
    ensures Consumed(a + [EmptyLine] + b, maxEvents) == Consumed(a + b, maxEvents)
  {
    if maxEvents > 0 {
      if a == [] {
        assert a + [EmptyLine] + b == [EmptyLine] + b && a + b == b;
        assert ([EmptyLine] + b)[0] == EmptyLine && ([EmptyLine] + b)[1..] == b;
      } else {
        assert (a + [EmptyLine] + b)[1..] == a[1..] + [EmptyLine] + b;
        assert (a + b)[1..] == a[1..] + b;
        ConsumedSkipsEmptyLine(a[1..], b, if a[0] == EmptyLine then maxEvents else maxEvents - 1);
      }
    }
  }

  /**
   * Any other line, one of blanks only included, is handed on and uses up
   * one unit of the budget.
   */
  lemma ConsumedTakesOtherLine(line: string, rest: seq<string>, maxEvents: int)
    requires line != EmptyLine && maxEvents > 0
    ensures Consumed([line] + rest, maxEvents) == [line] + Consumed(rest, maxEvents - 1)
  {
    assert ([line] + rest)[1..] == rest;
  }

  /**
   * One step of the reading loop at position i of the input, with `taken`
   * handed on so far and `budget` lines still to go: an empty line leaves
   * both as they are, any other line is handed on and uses up one unit.
   */
  lemma ConsumedStep(source: seq<string>, i: nat, budget: int, taken: seq<string>, total: seq<string>)
    requires i < |source| && budget > 0 && taken + Consumed(source[i..], budget) == total
    ensures source[i] == EmptyLine ==> taken + Consumed(source[i + 1..], budget) == total
    ensures source[i] != EmptyLine ==> (taken + [source[i]]) + Consumed(source[i + 1..], budget - 1) == total
  {
    assert source[i..][0] == source[i] && source[i..][1..] == source[i + 1..];
  }

  /** Handing on one more line adds its parsed value, if any, at the end. */
  lemma SuccessesSnoc(parse: string -> Option<PickRequest>, lines: seq<string>, line: string)
    ensures Successes(parse, lines + [line]) ==
      Successes(parse, lines) + (match parse(line) case Some(x) => [x] case None => [])
  {
    assert (lines + [line])[..|lines|] == lines;
  }

  lemma {:induction false} NonEmptyLinesConcat(a: seq<string>, b: seq<string>)
    ensures NonEmptyLines(a + b) == NonEmptyLines(a) + NonEmptyLines(b)
  {
    if a == [] {
      assert a + b == b;
    } else {
      assert (a + b)[1..] == a[1..] + b;
      NonEmptyLinesConcat(a[1..], b);
    }
  }

  /**
   * Once maxEvents non-empty lines have arrived, nothing that arrives
   * afterwards is read.
   */
  lemma ConsumedIgnoresLaterLines(a: seq<string>, b: seq<string>, maxEvents: int)
    requires |NonEmptyLines(a)| >= maxEvents
    ensures Consumed(a + b, maxEvents) == Consumed(a, maxEvents)
  {
    NonEmptyLinesConcat(a, b);
    ConsumedIsNonEmptyPrefix(a + b, maxEvents);
    ConsumedIsNonEmptyPrefix(a, maxEvents);
    var ne, m := NonEmptyLines(a), if maxEvents <= 0 then 0 else maxEvents;
    assert (ne + NonEmptyLines(b))[..m] == ne[..m];
  }

  lemma {:induction false} SuccessesConcat(parse: string -> Option<PickRequest>, a: seq<string>, b: seq<string>)
    ensures Successes(parse, a + b) == Successes(parse, a) + Successes(parse, b)
  {
    if b == [] {
      assert a + b == a;
    } else {
      var init := b[..|b| - 1];
      assert (a + b)[..|a + b| - 1] == a + init;
      assert (a + b)[|a + b| - 1] == b[|b| - 1];
      SuccessesConcat(parse, a, init);
    }
  }

  /** Every value in the result is what the parser made of one of the lines. */
  lemma {:induction false} SuccessesAreParsed(parse: string -> Option<PickRequest>, lines: seq<string>, x: PickRequest)
    requires x in Successes(parse, lines)
    ensures exists line :: line in lines && parse(line) == Some(x)
  {
    var init, last := lines[..|lines| - 1], lines[|lines| - 1];
    if x in Successes(parse, init) {
      SuccessesAreParsed(parse, init, x);
      var line :| line in init && parse(line) == Some(x);
      assert line in lines;
    } else {
      assert last in lines;
    }
  }

  /** When the parser accepts every line, every line yields a value. */
  lemma {:induction false} SuccessesAllParsed(parse: string -> Option<PickRequest>, lines: seq<string>)
    requires forall line :: line in lines ==> parse(line).Some?
    ensures |Successes(parse, lines)| == |lines|
  {
    if lines != [] {
      var init := lines[..|lines| - 1];
      assert forall line :: line in init ==> line in lines;
      assert lines[|lines| - 1] in lines;
      SuccessesAllParsed(parse, init);
    }
  }

  /**
   * A line the parser rejects is dropped from the result but still uses up
   * one unit of the budget.
   */
  lemma RejectedLineCounts(parse: string -> Option<PickRequest>, line: string, rest: seq<string>, maxEvents: int)
    requires line != EmptyLine && parse(line) == None && maxEvents > 0
    ensures Successes(parse, Consumed([line] + rest, maxEvents)) == Successes(parse, Consumed(rest, maxEvents - 1))
  {
    ConsumedTakesOtherLine(line, rest, maxEvents);
    SuccessesConcat(parse, [line], Consumed(rest, maxEvents - 1));
    assert [line][..0] == [];
  }

  /**
   * With a parser that accepts every non-empty line, the result has
   * maxEvents values, or one per non-empty line when there are fewer.
   */
  lemma ResultSizeWhenAllParse(parse: string -> Option<PickRequest>, source: seq<string>, maxEvents: int)
    requires forall line :: line in source && line != EmptyLine ==> parse(line).Some?
    ensures |Successes(parse, Consumed(source, maxEvents))| ==
      if maxEvents <= 0 then 0 else Min(maxEvents, |NonEmptyLines(source)|)
  {
    ConsumedIsNonEmptyPrefix(source, maxEvents);
    var c := Consumed(source, maxEvents);
    forall line | line in c ensures parse(line).Some? {
      var k :| 0 <= k < |c| && c[k] == line;
      assert line in NonEmptyLines(source);
    }
    SuccessesAllParsed(parse, c);
  }

  /**
   * The lines of n copies of a newline-terminated line joined by newlines:
   * each copy but the last is followed by an empty line.
   */
  function JoinedCopies(line: string, n: nat): (r: seq<string>)
    ensures n > 0 ==> |r| == 2 * n - 1
  {
    if n == 0 then []
    else if n == 1 then [line]
    else [line, EmptyLine] + JoinedCopies(line, n - 1)
  }

  lemma {:induction false} NonEmptyLinesOfJoinedCopies(line: string, n: nat)
    requires line != EmptyLine
    ensures NonEmptyLines(JoinedCopies(line, n)) == seq(n, _ => line)
  {
    if n == 1 {
      assert [line][1..] == [];
    } else if n > 1 {
      NonEmptyLinesOfJoinedCopies(line, n - 1);
      NonEmptyLinesConcat([line, EmptyLine], JoinedCopies(line, n - 1));
      assert [line, EmptyLine][1..] == [EmptyLine] && [EmptyLine][1..] == [];
      assert [line] + seq(n - 1, _ => line) == seq(n, _ => line);
    }
  }

  /**
   * Two hundred newline-terminated copies of one valid pick line, joined
   * by newlines and read with maxEvents 100, give exactly 100 picks, all
   * of them that line's pick: the empty lines between them are skipped.
   */
  lemma MaxEventsOfTwoHundred(parse: string -> Option<PickRequest>, line: string)
    requires line != EmptyLine && parse(line).Some?
    ensures var r := Successes(parse, Consumed(JoinedCopies(line, 200), 100));
      |r| == 100 && forall x :: x in r ==> parse(line) == Some(x)
  {
    var source := JoinedCopies(line, 200);
    NonEmptyLinesOfJoinedCopies(line, 200);
    forall l | l in source && l != EmptyLine ensures l == line {
      assert l in NonEmptyLines(source);
    }
    ResultSizeWhenAllParse(parse, source, 100);
    forall x | x in Successes(parse, Consumed(source, 100)) ensures parse(line) == Some(x) {
      SuccessesAreParsed(parse, Consumed(source, 100), x);
      var l :| l in Consumed(source, 100) && parse(l) == Some(x);
      ConsumedIsNonEmptyPrefix(source, 100);
      assert l in NonEmptyLines(source);
    }
  }
}
