/**
 * The records the dashboard decodes from each line, and the trace and span
 * entries the event pass builds from them.
 */
module Events {
  import opened Wrappers
  import opened JsValues

  /** The `trace` object of a `trace_start` record. */
  datatype TraceDesc = TraceDesc(id: Value, workflowName: Value, groupId: Value, metadata: Value)

  /** The fields a span carries that a `span_end` record may overwrite. */
  datatype Payload = Payload(prompt: Value, completion: Value, input: Value, output: Value,
                             tool: Value, error: Value)

  /** The `span` object of a `span_start` record. `spanType` is the value of
      `span_data?.type`: `Undefined` when `span_data` is missing or has no
      `type`. `fields` are the span's own payload fields (its `error`, and any
      of the others it happens to carry). */
  datatype SpanDesc = SpanDesc(id: Value, traceId: Value, parentId: Value, spanData: Value,
                               spanType: Value, fields: Payload)

  /** One decoded line. `kind` is the record's `event` discriminant; a record
      of one kind leaves the fields of the other kinds `Undefined` (or, for the
      nested objects, unused). `timestamp` is in milliseconds. `spanId`,
      `spanType` and `payload` are the `span_end` fields `span_id`,
      `span_type`, and prompt, completion, input, output, tool, error. */
  datatype Record = Record(kind: Value, timestamp: int, trace: TraceDesc, span: SpanDesc,
                           spanId: Value, spanType: Value, payload: Payload)

  const TraceStartKind: Value := Str("trace_start")
  const SpanStartKind: Value := Str("span_start")
  const SpanEndKind: Value := Str("span_end")

  /** A trace entry: its descriptor and the `trace_start` timestamp. */
  datatype Trace = Trace(desc: TraceDesc, startTime: int)

  datatype Status = Running | Completed | Error

  /** A span entry: its descriptor (with end-event fields merged in), the
      `span_start` timestamp, and what its matching `span_end` set. */
  datatype Span = Span(desc: SpanDesc, startTime: int, endTime: Option<int>,
                       duration: Option<int>, status: Status)

  /** The entry a `span_start` record creates: `running`, no duration yet. */
  function Started(d: SpanDesc, timestamp: int): (s: Span)
    ensures s.desc == d && s.startTime == timestamp
    ensures s.status == Running && s.duration == None && s.endTime == None
  {
    Span(d, timestamp, None, None, Running)
  }

  /** Overwrite a field only with a truthy value from the end event. */
  function MergeField(prior: Value, incoming: Value): Value
  {
    if Truthy(incoming) then incoming else prior
  }

  /** The derived fields a matched `span_end` record sets on its span: end
      time, signed duration, terminal status and the merged payload. */
  function Ended(s: Span, e: Record): Span
  {
    var f := s.desc.fields;
    var p := e.payload;
    var error := if Truthy(p.error) || Truthy(f.error)
                 then (if Truthy(p.error) then p.error else f.error)
                 else f.error;
    var merged := Payload(MergeField(f.prompt, p.prompt), MergeField(f.completion, p.completion),
                          MergeField(f.input, p.input), MergeField(f.output, p.output),
                          MergeField(f.tool, p.tool), error);
    Span(s.desc.(fields := merged), s.startTime, Some(e.timestamp),
         Some(e.timestamp - s.startTime), if Truthy(p.error) then Error else Completed)
  }

  /** What ending a span changes, field by field: the end time and the signed,
      unclamped duration come from the event; the status is `error` exactly
      when the event's error is truthy (a prior error on the span does not
      count); each payload field takes the event's value only when that value
      is truthy; the identity, parent and start time are untouched. */
  lemma EndedFields(s: Span, e: Record)
    ensures Ended(s, e).endTime == Some(e.timestamp)
    ensures Ended(s, e).duration == Some(e.timestamp - s.startTime)
    ensures Ended(s, e).status == Error <==> Truthy(e.payload.error)
    ensures Ended(s, e).status != Running
    ensures var f, p, g := s.desc.fields, e.payload, Ended(s, e).desc.fields;
      && (g.prompt == if Truthy(p.prompt) then p.prompt else f.prompt)
      && (g.completion == if Truthy(p.completion) then p.completion else f.completion)
      && (g.input == if Truthy(p.input) then p.input else f.input)
      && (g.output == if Truthy(p.output) then p.output else f.output)
      && (g.tool == if Truthy(p.tool) then p.tool else f.tool)
      && (g.error == if Truthy(p.error) then p.error else f.error)
    ensures Ended(s, e).desc.(fields := s.desc.fields) == s.desc
    ensures Ended(s, e).startTime == s.startTime
  {
  }
}
