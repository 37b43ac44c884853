/**
  An independent description of what the converter writes for a table: one string
  column per header field; for data row r (r >= 1) its fields as attributes of
  attribute row r-1 and then one point made of its first two fields. The main
  theorem says that a run completes exactly when the table is convertible, and
  that it then writes exactly this log.
 */
module ReferenceLog {
  import opened Wrappers
  import opened UInt32
  import opened Shapefile
  import opened Translator
  import opened Rows

  /** The coordinate a field denotes; only consulted where the field parses. */
  function CoordOf(env: Env, v: string): Double
  {
    match env.parse(CString(v))
    case Some(c) => c
    case None => Finite(0.0)
  }

  /** The operations for the fields `fs` of row `r`, in order. */
  function FieldOps(r: nat, fs: seq<string>): (ops: seq<Op>)
    ensures |ops| == |fs|
    decreases |fs|
  {
    if |fs| == 0 then [] else FieldOps(r, fs[..|fs| - 1]) + [FieldOp(r, |fs| - 1, fs[|fs| - 1])]
  }

  /** The operations for completed row `r`: its fields, then a point unless it is the header. */
  function RowOps(env: Env, r: nat, fs: seq<string>): seq<Op>
    requires r > 0 ==> |fs| >= 2
  {
    FieldOps(r, fs) + (if r == 0 then [] else [AppendPoint(CoordOf(env, fs[0]), CoordOf(env, fs[1]))])
  }

  /** Fields 0 and 1 of a data row must be numbers. */
  predicate CoordsParse(env: Env, r: nat, fs: seq<string>)
  {
    r > 0 ==> (|fs| > 0 ==> env.parse(CString(fs[0])).Some?) && (|fs| > 1 ==> env.parse(CString(fs[1])).Some?)
  }

  /** A completed row is translatable when its coordinates parse and, if it is a data row, it has both. */
  predicate RowComplete(env: Env, r: nat, fs: seq<string>)
  {
    CoordsParse(env, r, fs) && (r > 0 ==> |fs| >= 2)
  }

  predicate RowsComplete(env: Env, rows: seq<seq<string>>)
  {
    forall r | 0 <= r < |rows| :: RowComplete(env, r, rows[r])
  }

  /** The operations for the completed rows, in order. */
  function RowsLog(env: Env, rows: seq<seq<string>>): seq<Op>
    requires RowsComplete(env, rows)
    decreases |rows|
  {
    if |rows| == 0 then []
    else RowsLog(env, rows[..|rows| - 1]) + RowOps(env, |rows| - 1, rows[|rows| - 1])
  }

  /** Everything written for a table: its completed rows, then the fields of its open row. */
  function ExpectedLog(env: Env, t: Table): seq<Op>
    requires RowsComplete(env, t.rows)
  {
    RowsLog(env, t.rows) + FieldOps(|t.rows|, t.pending)
  }

  /** The writer capability accepts each operation of `log` after the ones before it. */
  predicate Accepted(env: Env, log: seq<Op>)
  {
    forall i | 0 <= i < |log| :: env.accepts(log[..i], log[i])
  }

  /** A table the converter translates without failing. */
  predicate Convertible(env: Env, t: Table)
  {
    && RowsComplete(env, t.rows)
    && CoordsParse(env, |t.rows|, t.pending)
    && Accepted(env, ExpectedLog(env, t))
  }

  lemma AcceptedSnoc(env: Env, log: seq<Op>, op: Op)
    ensures Accepted(env, log + [op]) <==> Accepted(env, log) && env.accepts(log, op)
  {
    var l := log + [op];
    assert l[..|log|] == log;
    if Accepted(env, log) && env.accepts(log, op) {
      forall i | 0 <= i < |l|
        ensures env.accepts(l[..i], l[i])
      {
        if i < |log| {
          assert l[..i] == log[..i];
        }
      }
    }
    if Accepted(env, l) {
      forall i | 0 <= i < |log|
        ensures env.accepts(log[..i], log[i])
      {
        assert l[..i] == log[..i];
        assert env.accepts(l[..i], l[i]);
      }
    }
  }

  /** The state a successful run is in after `events`, described by the table they form. */
  predicate Tracks(env: Env, s: State, t: Table)
  {
    && s.record == |t.rows|
    && s.field == |t.pending|
    && (|t.rows| > 0 && |t.pending| > 0 ==> s.x == CoordOf(env, t.pending[0]))
    && (|t.rows| > 0 && |t.pending| > 1 ==> s.y == CoordOf(env, t.pending[1]))
  }

  /** A field event extends the expected log by that field's operation. */
  lemma ExpectedAfterField(env: Env, t: Table, v: string)
    requires RowsComplete(env, t.rows)
    ensures ExpectedLog(env, Table(t.rows, t.pending + [v])) ==
            ExpectedLog(env, t) + [FieldOp(|t.rows|, |t.pending|, v)]
  {
    assert (t.pending + [v])[..|t.pending|] == t.pending;
  }

  /** A record boundary closes the open row, extending the expected log by its point, if any. */
  lemma ExpectedAfterEnd(env: Env, t: Table)
    requires RowsComplete(env, t.rows)
    requires RowComplete(env, |t.rows|, t.pending)
    ensures RowsComplete(env, t.rows + [t.pending])
    ensures ExpectedLog(env, Table(t.rows + [t.pending], [])) ==
            ExpectedLog(env, t) +
            (if |t.rows| == 0 then [] else [AppendPoint(CoordOf(env, t.pending[0]), CoordOf(env, t.pending[1]))])
  {
    var rows := t.rows + [t.pending];
    assert rows[..|t.rows|] == t.rows;
    assert forall r | 0 <= r < |t.rows| :: rows[r] == t.rows[r];
  }

  lemma RowsCompleteInit(env: Env, t: Table)
    requires RowsComplete(env, t.rows + [t.pending])
    ensures RowsComplete(env, t.rows) && RowComplete(env, |t.rows|, t.pending)
  {
    var rows := t.rows + [t.pending];
    assert rows[|t.rows|] == t.pending;
    assert forall r | 0 <= r < |t.rows| :: rows[r] == t.rows[r];
  }

  /** One field event: the run and the reference agree after it if they did before it. */
  lemma {:induction false} FieldStepAgrees(env: Env, s: State, t: Table, v: string)
    requires |t.rows| + |t.pending| + 1 < LIMIT
    requires Convertible(env, t)
    requires Tracks(env, s, t)
    ensures var r := FieldStep(s, ExpectedLog(env, t), v, env);
            var t' := Table(t.rows, t.pending + [v]);
            && (r.Ok? <==> Convertible(env, t'))
            && (r.Ok? ==> r.value.state.field == s.field + 1)
            && (r.Ok? ==> Tracks(env, r.value.state, t') && ExpectedLog(env, t) + r.value.ops == ExpectedLog(env, t'))
  {
    var log := ExpectedLog(env, t);
    var t' := Table(t.rows, t.pending + [v]);
    var op := FieldOp(|t.rows|, |t.pending|, v);
    ExpectedAfterField(env, t, v);
    AcceptedSnoc(env, log, op);
    assert CoordsParse(env, |t.rows|, t'.pending) <==>
           (|t.rows| > 0 && |t.pending| <= 1 ==> env.parse(CString(v)).Some?);
  }

  /** One record boundary: the run and the reference agree after it if they did before it. */
  lemma {:induction false} RecordStepAgrees(env: Env, s: State, t: Table)
    requires |t.rows| + 1 < LIMIT
    requires Convertible(env, t)
    requires Tracks(env, s, t)
    ensures var r := RecordStep(s, ExpectedLog(env, t), env);
            var t' := Table(t.rows + [t.pending], []);
            && (r.Ok? <==> Convertible(env, t'))
            && (r.Ok? ==> Tracks(env, r.value.state, t') && ExpectedLog(env, t) + r.value.ops == ExpectedLog(env, t'))
  {
    var log := ExpectedLog(env, t);
    var t' := Table(t.rows + [t.pending], []);
    var r := RecordStep(s, log, env);
    if RowComplete(env, |t.rows|, t.pending) {
      ExpectedAfterEnd(env, t);
      if |t.rows| > 0 {
        AcceptedSnoc(env, log, AppendPoint(s.x, s.y));
      } else {
        assert log + [] == log;
      }
    } else {
      if Convertible(env, t') {
        RowsCompleteInit(env, t');
        assert false;
      }
    }
  }

  /** A prefix of a convertible table is convertible. */
  lemma ConvertibleInit(env: Env, t: Table, e: Event)
    requires RowsComplete(env, t.rows)
    ensures e.Field? ==> Convertible(env, Table(t.rows, t.pending + [e.value])) ==> Convertible(env, t)
    ensures e.RecordEnd? ==> Convertible(env, Table(t.rows + [t.pending], [])) ==> Convertible(env, t)
  {
    var log := ExpectedLog(env, t);
    if e.Field? {
      ExpectedAfterField(env, t, e.value);
      AcceptedSnoc(env, log, FieldOp(|t.rows|, |t.pending|, e.value));
      assert (t.pending + [e.value])[..|t.pending|] == t.pending;
    } else if Convertible(env, Table(t.rows + [t.pending], [])) {
      RowsCompleteInit(env, Table(t.rows, t.pending));
      ExpectedAfterEnd(env, t);
      if |t.rows| > 0 {
        AcceptedSnoc(env, log, AppendPoint(CoordOf(env, t.pending[0]), CoordOf(env, t.pending[1])));
      } else {
        assert log + [] == log;
      }
    }
  }

  /**
    For a stream of fewer than 2^32 events (so neither counter wraps): the run
    completes exactly when the table the events form is convertible, and then it has
    written exactly the expected log and its counters are the table's row and field counts.
   */
  lemma {:induction false} RunMatchesReference(events: seq<Event>, env: Env)
    requires |events| < LIMIT
    ensures Run(events, env).Completed? <==> Convertible(env, Split(events))
    ensures Run(events, env).Completed? ==>
              && Run(events, env).log == ExpectedLog(env, Split(events))
              && Tracks(env, Run(events, env).state, Split(events))
    decreases |events|
  {
    if |events| == 0 {
      assert Accepted(env, []);
    } else {
      var init := events[..|events| - 1];
      var last := events[|events| - 1];
      RunMatchesReference(init, env);
      var t := Split(init);
      var o := Run(init, env);
      if o.Completed? {
        match last
        case Field(v) => FieldStepAgrees(env, o.state, t, v);
        case RecordEnd => RecordStepAgrees(env, o.state, t);
      } else if RowsComplete(env, t.rows) {
        ConvertibleInit(env, t, last);
      } else {
        if last.RecordEnd? && RowsComplete(env, t.rows + [t.pending]) {
          RowsCompleteInit(env, t);
        }
      }
    }
  }
}
