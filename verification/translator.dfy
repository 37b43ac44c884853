/**
  The row-to-schema/record translator of csv2shp: the field and record callbacks
  of the CSV tokenizer and the cursor state they share, as a pure state machine
  over tokenizer events. Every fatal exit of the program is an `Err`.
 */
module Translator {
  import opened Wrappers
  import opened UInt32
  import opened Shapefile

  /** What the CSV tokenizer delivers: one field of the current row, or the end of the row. */
  datatype Event = Field(value: string) | RecordEnd

  /**
    The cursor state shared by the callbacks: the pending coordinates of the row
    being read, the field ordinal within the row and the record ordinal
    (record 0 is the header row).
   */
  datatype State = State(x: Double, y: Double, field: u32, record: u32)

  /** The zero-filled state the program starts from. */
  const Initial: State := State(Finite(0.0), Finite(0.0), 0, 0)

  /** Why a run stopped. Each alternative is one `exit(EXIT_FAILURE)` of the program. */
  datatype Failure =
    | CoordinateParse(field: u32, record: u32)    // field 0 or 1 of a data row is not a number
    | SchemaWrite(field: u32)                     // the column declaration was rejected
    | AttributeWrite(field: u32, record: u32)     // the attribute write was rejected
    | IncompleteRecord(record: u32, fields: u32)  // a data row ended with fewer than 2 fields
    | GeometryWrite(record: u32)                  // the point could not be built or written
    | MalformedInput                              // the tokenizer rejected the input
    | InputReadError                              // reading the input file failed

  /**
    The foreign collaborators, as parameters: `parse` is the numeric conversion of a
    field's text (None when it finds no number), and `accepts(written, op)` tells whether the
    writer capability accepts `op` after the operations `written`.
   */
  datatype Env = Env(parse: string -> Option<Double>, accepts: (seq<Op>, Op) -> bool)

  /** The new state after one event and the operations it sent to the writers. */
  datatype Effect = Effect(state: State, ops: seq<Op>)

  /**
    The text a field's bytes stand for once copied into a zero-filled buffer and used
    as a C string: everything before the first NUL.
   */
  function CString(v: string): (c: string)
    ensures c <= v
    ensures '\0' !in c
    ensures |c| < |v| ==> v[|c|] == '\0'
    ensures '\0' !in v ==> c == v
    decreases |v|
  {
    if |v| == 0 || v[0] == '\0' then [] else [v[0]] + CString(v[1..])
  }

  /** The operation a field at (`field`, `record`) is sent as; the writers see its C-string text. */
  function FieldOp(record: nat, field: nat, value: string): (op: Op)
    ensures record == 0 ==> op.AddField? && op.column == StringColumn(CString(value))
    ensures record > 0 ==> op.WriteAttr? && op.row + 1 == record && op.col == field && op.value == CString(value)
  {
    var text := CString(value);
    if record == 0 then AddField(StringColumn(text)) else WriteAttr(record - 1, field, text)
  }

  /** The field callback. The field is read, parsed and written as a C string. */
  function FieldStep(s: State, written: seq<Op>, value: string, env: Env): (r: Result<Effect, Failure>)
    // the cursor advances by one; the record ordinal stays
    ensures r.Ok? ==> r.value.state.field == Inc(s.field) && r.value.state.record == s.record
    // header row: exactly one string column named after the field, coordinates untouched
    ensures s.record == 0 ==> (r.Ok? <==> env.accepts(written, AddField(StringColumn(CString(value)))))
    ensures s.record == 0 && r.Ok? ==>
              r.value.ops == [AddField(StringColumn(CString(value)))] && r.value.state.x == s.x && r.value.state.y == s.y
    ensures s.record == 0 && r.Err? ==> r.error == SchemaWrite(s.field)
    // data row: exactly one attribute write at row record-1, column field
    ensures s.record > 0 && r.Ok? ==> r.value.ops == [WriteAttr(s.record - 1, s.field, CString(value))]
    ensures s.record > 0 ==>
              (r.Ok? <==> (s.field <= 1 ==> env.parse(CString(value)).Some?)
                          && env.accepts(written, WriteAttr(s.record - 1, s.field, CString(value))))
    ensures s.record > 0 && s.field <= 1 && env.parse(CString(value)).None? ==> r == Err(CoordinateParse(s.field, s.record))
    // only field 0 sets x, only field 1 sets y
    ensures r.Ok? && s.record > 0 && s.field == 0 ==> Some(r.value.state.x) == env.parse(CString(value))
    ensures r.Ok? && s.record > 0 && s.field == 1 ==> Some(r.value.state.y) == env.parse(CString(value))
    ensures r.Ok? && !(s.record > 0 && s.field == 0) ==> r.value.state.x == s.x
    ensures r.Ok? && !(s.record > 0 && s.field == 1) ==> r.value.state.y == s.y
  {
    var text := CString(value);
    var op := FieldOp(s.record, s.field, value);
    if s.record > 0 then
      if s.field <= 1 && env.parse(text).None? then
        Err(CoordinateParse(s.field, s.record))
      else
        var s' :=
          if s.field == 0 then s.(x := env.parse(text).value)
          else if s.field == 1 then s.(y := env.parse(text).value)
          else s;
        if env.accepts(written, op) then Ok(Effect(s'.(field := Inc(s.field)), [op]))
        else Err(AttributeWrite(s.field, s.record))
    else
      if env.accepts(written, op) then Ok(Effect(s.(field := Inc(s.field)), [op]))
      else Err(SchemaWrite(s.field))
  }

  /** The record callback. */
  function RecordStep(s: State, written: seq<Op>, env: Env): (r: Result<Effect, Failure>)
    // the cursor is reset, the record ordinal advances, the coordinates stay
    ensures r.Ok? ==> r.value.state == s.(field := 0, record := Inc(s.record))
    // the header row never yields a point, whatever its field count
    ensures s.record == 0 ==> r.Ok? && r.value.ops == []
    // a data row needs x and y
    ensures s.record > 0 && s.field < 2 ==> r == Err(IncompleteRecord(s.record, s.field))
    ensures s.record > 0 && s.field >= 2 ==> (r.Ok? <==> env.accepts(written, AppendPoint(s.x, s.y)))
    ensures s.record > 0 && r.Ok? ==> r.value.ops == [AppendPoint(s.x, s.y)]
    ensures s.record > 0 && s.field >= 2 && r.Err? ==> r.error == GeometryWrite(s.record)
  {
    var next := s.(field := 0, record := Inc(s.record));
    if s.record > 0 then
      if s.field < 2 then Err(IncompleteRecord(s.record, s.field))
      else if env.accepts(written, AppendPoint(s.x, s.y)) then Ok(Effect(next, [AppendPoint(s.x, s.y)]))
      else Err(GeometryWrite(s.record))
    else
      Ok(Effect(next, []))
  }

  /** One tokenizer event, dispatched to its callback. */
  function Step(s: State, written: seq<Op>, e: Event, env: Env): (r: Result<Effect, Failure>)
    ensures r.Ok? ==> |r.value.ops| <= 1
    ensures r.Ok? && e.Field? ==> |r.value.ops| == 1
  {
    match e
    case Field(v) => FieldStep(s, written, v, env)
    case RecordEnd => RecordStep(s, written, env)
  }

  /**
    The result of feeding a stream of events: either all were consumed, or the run
    stopped at event `at` with `log` being what had been written before it.
   */
  datatype Outcome =
    | Completed(state: State, log: seq<Op>)
    | Aborted(failure: Failure, at: nat, log: seq<Op>)

  /** Feeds the events in order, starting from the initial state, and stops at the first failure. */
  function Run(events: seq<Event>, env: Env): (o: Outcome)
    ensures o.Aborted? ==> o.at < |events|
    ensures |o.log| <= |events|
    decreases |events|
  {
    if |events| == 0 then Completed(Initial, [])
    else
      match Run(events[..|events| - 1], env)
      case Aborted(f, at, log) => Aborted(f, at, log)
      case Completed(s, log) =>
        match Step(s, log, events[|events| - 1], env)
        case Err(f) => Aborted(f, |events| - 1, log)
        case Ok(eff) => Completed(eff.state, log + eff.ops)
  }

  /** How the tokenizer's input ended: cleanly, on a grammar error, or on a read error. */
  datatype FeedEnd = Finished | Malformed | ReadFailed

  /**
    The driver loop: the events the tokenizer delivered (through its final flush),
    then the tokenizer's or the reader's own verdict.
   */
  function Convert(events: seq<Event>, end: FeedEnd, env: Env): (o: Outcome)
    ensures o.Completed? <==> Run(events, env).Completed? && end == Finished
    ensures o.log == Run(events, env).log
    ensures Run(events, env).Completed? && end == Malformed ==> o.failure == MalformedInput
    ensures Run(events, env).Completed? && end == ReadFailed ==> o.failure == InputReadError
  {
    match Run(events, env)
    case Aborted(f, at, log) => Aborted(f, at, log)
    case Completed(s, log) =>
      match end
      case Finished => Completed(s, log)
      case Malformed => Aborted(MalformedInput, |events|, log)
      case ReadFailed => Aborted(InputReadError, |events|, log)
  }
}
