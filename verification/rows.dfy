/**
  How a tokenizer event stream divides into rows: the completed rows (each
  closed by a record boundary) and the fields of the row still open.
 */
module Rows {
  import opened Shapefile
  import opened Translator

  /** The completed rows, in order, and the fields of the trailing open row. */
  datatype Table = Table(rows: seq<seq<string>>, pending: seq<string>)

  function Split(events: seq<Event>): (t: Table)
    ensures |t.rows| + |t.pending| <= |events|
    ensures |t.rows| == CountEnds(events)
    decreases |events|
  {
    if |events| == 0 then Table([], [])
    else
      var t := Split(events[..|events| - 1]);
      match events[|events| - 1]
      case Field(v) => Table(t.rows, t.pending + [v])
      case RecordEnd => Table(t.rows + [t.pending], [])
  }

  /** The number of record boundaries in the stream. */
  function CountEnds(events: seq<Event>): nat
    decreases |events|
  {
    if |events| == 0 then 0
    else CountEnds(events[..|events| - 1]) + (if events[|events| - 1].RecordEnd? then 1 else 0)
  }

  /** The values of the field events, in stream order. */
  function FieldValues(events: seq<Event>): (vs: seq<string>)
    ensures |vs| <= |events|
    decreases |events|
  {
    if |events| == 0 then []
    else
      match events[|events| - 1]
      case Field(v) => FieldValues(events[..|events| - 1]) + [v]
      case RecordEnd => FieldValues(events[..|events| - 1])
  }

  /** The number of point operations in a log. */
  function CountPoints(log: seq<Op>): nat
    decreases |log|
  {
    if |log| == 0 then 0
    else CountPoints(log[..|log| - 1]) + (if log[|log| - 1].AppendPoint? then 1 else 0)
  }

  lemma {:induction false} CountPointsAppend(log: seq<Op>, more: seq<Op>)
    ensures CountPoints(log + more) == CountPoints(log) + CountPoints(more)
    decreases |more|
  {
    if |more| == 0 {
      assert log + more == log;
    } else {
      var init := more[..|more| - 1];
      assert (log + more)[..|log + more| - 1] == log + init;
      CountPointsAppend(log, init);
    }
  }
}
