/**
  Properties of whole event streams: what the counters hold, how many points are
  written, what a header-only stream writes, and the fail-fast behaviour.
 */
module StreamProperties {
  import opened Wrappers
  import opened UInt32
  import opened Shapefile
  import opened Translator
  import opened Rows

  /** Incrementing a counter that holds `a` modulo 2^32 gives `a + 1` modulo 2^32. */
  lemma IncMod(a: nat)
    ensures Inc(a % LIMIT) == (a + 1) % LIMIT
  {
    var q, r := a / LIMIT, a % LIMIT;
    assert a == q * LIMIT + r;
    if r < LIMIT - 1 {
      assert a + 1 == q * LIMIT + (r + 1);
    } else {
      assert a + 1 == (q + 1) * LIMIT;
    }
  }

  /**
    After a successful run the record ordinal is the number of record boundaries seen
    and the field ordinal is the number of fields of the open row, both modulo 2^32
    (the counters are `unsigned int`).
   */
  lemma {:induction false} CountersTrackStream(events: seq<Event>, env: Env)
    requires Run(events, env).Completed?
    ensures Run(events, env).state.record == CountEnds(events) % LIMIT
    ensures Run(events, env).state.field == |Split(events).pending| % LIMIT
    decreases |events|
  {
    if |events| > 0 {
      var init := events[..|events| - 1];
      CountersTrackStream(init, env);
      var t := Split(init);
      match events[|events| - 1]
      case Field(v) =>
        IncMod(|t.pending|);
      case RecordEnd =>
        IncMod(CountEnds(init));
    }
  }

  /**
    The number of data rows among the first `n` completed rows: every row whose
    ordinal is not 0 modulo 2^32 (the record counter wraps, so one row in 2^32 is
    taken as a header again).
   */
  function DataRows(n: nat): nat
  {
    if n == 0 then 0 else DataRows(n - 1) + (if (n - 1) % LIMIT != 0 then 1 else 0)
  }

  /** Without wrap-around, every completed row but the header is a data row. */
  lemma {:induction false} DataRowsBelowWrap(n: nat)
    requires 1 <= n <= LIMIT
    ensures DataRows(n) == n - 1
  {
    if n > 1 {
      DataRowsBelowWrap(n - 1);
    }
  }

  /** One event writes a point exactly when it closes a data row. */
  lemma StepPoints(s: State, written: seq<Op>, e: Event, env: Env)
    requires Step(s, written, e, env).Ok?
    ensures CountPoints(Step(s, written, e, env).value.ops) == if e.RecordEnd? && s.record > 0 then 1 else 0
  {
    var ops := Step(s, written, e, env).value.ops;
    if ops != [] {
      assert ops[..0] == [];
    }
  }

  /** A successful run writes exactly one point per completed data row. */
  lemma {:induction false} OnePointPerDataRow(events: seq<Event>, env: Env)
    requires Run(events, env).Completed?
    ensures CountPoints(Run(events, env).log) == DataRows(CountEnds(events))
    decreases |events|
  {
    if |events| > 0 {
      var init := events[..|events| - 1];
      var last := events[|events| - 1];
      OnePointPerDataRow(init, env);
      CountersTrackStream(init, env);
      var o := Run(init, env);
      StepPoints(o.state, o.log, last, env);
      CountPointsAppend(o.log, Step(o.state, o.log, last, env).value.ops);
    }
  }

  /** A stream with fewer than 2^32 record boundaries writes one point fewer than it has completed rows. */
  lemma PointsBelowWrap(events: seq<Event>, env: Env)
    requires Run(events, env).Completed?
    requires 1 <= CountEnds(events) <= LIMIT
    ensures CountPoints(Run(events, env).log) == CountEnds(events) - 1
  {
    OnePointPerDataRow(events, env);
    DataRowsBelowWrap(CountEnds(events));
  }

  /**
    Each field event of a successful run writes exactly one operation, placed by the
    counters: a column declaration while the record ordinal is 0 (modulo 2^32), and
    otherwise the attribute at row record-1, column field.
   */
  lemma FieldWritesAtCounters(events: seq<Event>, v: string, env: Env)
    requires Run(events + [Field(v)], env).Completed?
    ensures Run(events, env).Completed?
    ensures Run(events + [Field(v)], env).log ==
            Run(events, env).log + [FieldOp(CountEnds(events) % LIMIT, |Split(events).pending| % LIMIT, v)]
  {
    assert (events + [Field(v)])[..|events|] == events;
    CountersTrackStream(events, env);
  }

  /**
    Once 2^32 rows have been completed the record counter is back at 0, so the next
    field is declared as a column rather than stored as an attribute.
   */
  lemma HeaderReenteredAfterWrap(events: seq<Event>, v: string, env: Env)
    requires Run(events + [Field(v)], env).Completed?
    requires CountEnds(events) == LIMIT
    ensures Run(events + [Field(v)], env).log == Run(events, env).log + [AddField(StringColumn(CString(v)))]
  {
    FieldWritesAtCounters(events, v, env);
  }

  /** A stream whose only record boundary, if any, is its last event: the header row alone. */
  predicate HeaderOnly(events: seq<Event>)
  {
    forall i | 0 <= i < |events| - 1 :: events[i].Field?
  }

  /** A header-only stream declares one string column per field, named by its C-string text, in order, and writes nothing else. */
  lemma {:induction false} HeaderOnlyDeclaresColumns(events: seq<Event>, env: Env)
    requires HeaderOnly(events)
    requires Run(events, env).Completed?
    ensures |Run(events, env).log| == |FieldValues(events)|
    ensures forall i | 0 <= i < |Run(events, env).log| ::
              Run(events, env).log[i] == AddField(StringColumn(CString(FieldValues(events)[i])))
    ensures (forall i | 0 <= i < |events| :: events[i].Field?) ==> Run(events, env).state.record == 0
    decreases |events|
  {
    if |events| > 0 {
      var init := events[..|events| - 1];
      assert HeaderOnly(init) by {
        forall i | 0 <= i < |init| - 1
          ensures init[i].Field?
        {
          assert init[i] == events[i];
        }
      }
      assert forall i | 0 <= i < |init| :: init[i].Field? by {
        forall i | 0 <= i < |init|
          ensures init[i].Field?
        {
          assert init[i] == events[i];
        }
      }
      HeaderOnlyDeclaresColumns(init, env);
    }
  }

  /** Once a run has stopped, further events change nothing: no output follows a failure. */
  lemma {:induction false} AbortIsFinal(events: seq<Event>, more: seq<Event>, env: Env)
    requires Run(events, env).Aborted?
    ensures Run(events + more, env) == Run(events, env)
    decreases |more|
  {
    if |more| == 0 {
      assert events + more == events;
    } else {
      var init := more[..|more| - 1];
      AbortIsFinal(events, init, env);
      assert (events + more)[..|events + more| - 1] == events + init;
    }
  }

  /**
    A stopped run stopped at the first failing event: everything before it was
    processed successfully, its log is exactly what was written, and the event at
    `at` failed with the reported failure.
   */
  lemma {:induction false} AbortPinpointsEvent(events: seq<Event>, env: Env)
    requires Run(events, env).Aborted?
    ensures Run(events[..Run(events, env).at], env).Completed?
    ensures Run(events[..Run(events, env).at], env).log == Run(events, env).log
    ensures var before := Run(events[..Run(events, env).at], env);
            Step(before.state, before.log, events[Run(events, env).at], env) == Err(Run(events, env).failure)
    decreases |events|
  {
    var init := events[..|events| - 1];
    if Run(init, env).Aborted? {
      AbortPinpointsEvent(init, env);
      var at := Run(init, env).at;
      assert init[..at] == events[..at];
    } else {
      assert events[..|events| - 1] == init;
    }
  }

  /** The writers are append-only: every prefix of a successful stream wrote a prefix of its log. */
  lemma {:induction false} LogIsAppendOnly(events: seq<Event>, k: nat, env: Env)
    requires k <= |events|
    requires Run(events, env).Completed?
    ensures Run(events[..k], env).Completed?
    ensures Run(events[..k], env).log <= Run(events, env).log
    decreases |events|
  {
    if k == |events| {
      assert events[..k] == events;
    } else {
      var init := events[..|events| - 1];
      LogIsAppendOnly(init, k, env);
      assert init[..k] == events[..k];
    }
  }
}
