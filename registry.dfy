/**
 * The specification of the event pass: the trace and span registries as
 * insertion-ordered maps, what each record does to them, and what the whole
 * pass leaves behind.
 */
module Registry {
  import opened Wrappers
  import opened JsValues
  import opened OrderedMap
  import opened Events

  /** The two `Map`s the event pass fills: traces and spans, keyed by id. */
  datatype Registry = Registry(traces: OMap<Value, Trace>, spans: OMap<Value, Span>)
  {
    ghost predicate Valid()
    {
      traces.Valid() && spans.Valid()
    }
  }

  function EmptyRegistry(): (r: Registry)
    ensures r.Valid()
  {
    Registry(Empty(), Empty())
  }

  /** A span the type-based fallback may pick: its `span_data?.type` is
      `===` to the event's `span_type` and it is still running. */
  predicate Qualifies(s: Span, spanType: Value)
  {
    StrictEquals(s.desc.spanType, spanType) && s.status == Running
  }

  predicate AllIn(order: seq<Value>, entries: map<Value, Span>)
  {
    forall i :: 0 <= i < |order| ==> order[i] in entries
  }

  /** The position of the first span in `order` that qualifies for the
      fallback, or `None` when none does. */
  function FirstRunning(order: seq<Value>, entries: map<Value, Span>, spanType: Value): (r: Option<nat>)
    requires AllIn(order, entries)
    ensures r.Some? ==> r.value < |order| && Qualifies(entries[order[r.value]], spanType)
    ensures r.Some? ==> forall j :: 0 <= j < r.value ==> !Qualifies(entries[order[j]], spanType)
    ensures r.None? ==> forall j :: 0 <= j < |order| ==> !Qualifies(entries[order[j]], spanType)
  {
    if |order| == 0 then None
    else if Qualifies(entries[order[0]], spanType) then Some(0)
    else match FirstRunning(order[1..], entries, spanType)
      case None => None
      case Some(i) => Some(i + 1)
  }

  /** The span a `span_end` record completes: with a truthy `span_id`, that
      id if it is registered and nothing otherwise; without one, the first
      running span of the record's `span_type` in insertion order. */
  function EndTarget(spans: OMap<Value, Span>, e: Record): Option<Value>
    requires spans.Valid()
  {
    if Truthy(e.spanId) then
      if spans.Get(e.spanId).Some? then Some(e.spanId) else None
    else
      match FirstRunning(spans.order, spans.entries, e.spanType)
      case None => None
      case Some(i) => Some(spans.order[i])
  }

  /** One step of the event pass. */
  function Step(r: Registry, e: Record): (r': Registry)
    requires r.Valid()
    ensures r'.Valid()
  {
    if e.kind == TraceStartKind then
      r.(traces := r.traces.Set(e.trace.id, Trace(e.trace, e.timestamp)))
    else if e.kind == SpanStartKind then
      r.(spans := r.spans.Set(e.span.id, Started(e.span, e.timestamp)))
    else if e.kind == SpanEndKind then
      match EndTarget(r.spans, e)
      case None => r
      case Some(k) => r.(spans := r.spans.Set(k, Ended(r.spans.entries[k], e)))
    else r
  }

  /** The event pass over `events`, in order, starting from `r`. */
  function Fold(r: Registry, events: seq<Record>): (r': Registry)
    requires r.Valid()
    ensures r'.Valid()
  {
    if |events| == 0 then r else Step(Fold(r, events[..|events| - 1]), events[|events| - 1])
  }

  /** The ids carried by the records of one kind, in record order: trace ids
      of `trace_start` records, span ids of `span_start` records. */
  function StartedIds(events: seq<Record>, kind: Value): seq<Value>
  {
    if |events| == 0 then []
    else
      var e := events[|events| - 1];
      var init := StartedIds(events[..|events| - 1], kind);
      if e.kind != kind then init
      else init + [if kind == TraceStartKind then e.trace.id else e.span.id]
  }

  /** The distinct elements of `s`, each where it first occurs. */
  function FirstOccurrences(s: seq<Value>): (r: seq<Value>)
    ensures NoDuplicates(r)
    ensures forall x :: x in r <==> x in s
  {
    if |s| == 0 then []
    else
      var init := FirstOccurrences(s[..|s| - 1]);
      assert forall x :: x in s <==> x in s[..|s| - 1] || x == s[|s| - 1];
      if s[|s| - 1] in init then init else init + [s[|s| - 1]]
  }

  /** After the pass, the span registry holds exactly one entry per distinct
      id of a `span_start` record, iterated in the order each id was first
      started (a later start with the same id keeps the first position); the
      same holds of the trace registry and `trace_start` records. */
  lemma {:induction false} RegistryKeys(events: seq<Record>)
    ensures var r := Fold(EmptyRegistry(), events);
      && r.spans.order == FirstOccurrences(StartedIds(events, SpanStartKind))
      && r.traces.order == FirstOccurrences(StartedIds(events, TraceStartKind))
      && (forall k :: k in r.spans.entries <==> k in StartedIds(events, SpanStartKind))
      && (forall k :: k in r.traces.entries <==> k in StartedIds(events, TraceStartKind))
  {
    SpanKeys(events);
    TraceKeys(events);
  }

  /** The span half of `RegistryKeys`. */
  lemma {:induction false} SpanKeys(events: seq<Record>)
    ensures var r := Fold(EmptyRegistry(), events);
      && r.spans.order == FirstOccurrences(StartedIds(events, SpanStartKind))
      && (forall k :: k in r.spans.entries <==> k in StartedIds(events, SpanStartKind))
  {
    if |events| > 0 {
      var init := events[..|events| - 1];
      SpanKeys(init);
      var e := events[|events| - 1];
      var r := Fold(EmptyRegistry(), init);
      if e.kind == SpanEndKind {
        match EndTarget(r.spans, e)
        case None =>
        case Some(k) => assert k in r.spans.entries;
      }
    }
  }

  /** The trace half of `RegistryKeys`. */
  lemma {:induction false} TraceKeys(events: seq<Record>)
    ensures var r := Fold(EmptyRegistry(), events);
      && r.traces.order == FirstOccurrences(StartedIds(events, TraceStartKind))
      && (forall k :: k in r.traces.entries <==> k in StartedIds(events, TraceStartKind))
  {
    if |events| > 0 {
      TraceKeys(events[..|events| - 1]);
    }
  }

  /** A `span_start` record (re)places its span as running, with no end time
      and no duration, started at the record's timestamp; every other span and
      every trace is unchanged; a new id goes last, a known id keeps its place. */
  lemma SpanStartEffect(r: Registry, e: Record)
    requires r.Valid() && e.kind == SpanStartKind
    ensures var r' := Step(r, e); var s := r'.spans.entries[e.span.id];
      && s.desc == e.span && s.startTime == e.timestamp
      && s.status == Running && s.duration == None && s.endTime == None
      && (forall k :: k != e.span.id ==> (k in r'.spans.entries <==> k in r.spans.entries))
      && (forall k :: k != e.span.id && k in r.spans.entries ==> r'.spans.entries[k] == r.spans.entries[k])
      && r'.spans.order == (if e.span.id in r.spans.entries then r.spans.order else r.spans.order + [e.span.id])
      && r'.traces == r.traces
  {
  }

  /** A `trace_start` record (re)places its trace, stamped with the record's
      timestamp, and touches nothing else. */
  lemma TraceStartEffect(r: Registry, e: Record)
    requires r.Valid() && e.kind == TraceStartKind
    ensures var r' := Step(r, e);
      && r'.traces.entries == r.traces.entries[e.trace.id := Trace(e.trace, e.timestamp)]
      && r'.traces.order == (if e.trace.id in r.traces.entries then r.traces.order else r.traces.order + [e.trace.id])
      && r'.spans == r.spans
  {
  }

  /** Records of any kind other than trace_start, span_start and span_end
      (trace_end among them) change nothing. */
  lemma OtherKindsIgnored(r: Registry, e: Record)
    requires r.Valid()
    requires e.kind != TraceStartKind && e.kind != SpanStartKind && e.kind != SpanEndKind
    ensures Step(r, e) == r
  {
  }

  /** A `span_end` record with a truthy `span_id` can only end the span with
      that id, even when other running spans of its type exist; when that id
      is not registered the record has no effect at all. */
  lemma ExplicitIdEnd(r: Registry, e: Record)
    requires r.Valid() && e.kind == SpanEndKind && Truthy(e.spanId)
    ensures var r' := Step(r, e);
      && r'.traces == r.traces && r'.spans.order == r.spans.order
      && (e.spanId !in r.spans.entries ==> r' == r)
      && (e.spanId in r.spans.entries ==>
            r'.spans.entries == r.spans.entries[e.spanId := Ended(r.spans.entries[e.spanId], e)])
  {
  }

  /** A `span_end` record without a truthy `span_id` ends the first span, in
      insertion order, of the record's `span_type` that is still running, and
      no other; when no span qualifies it has no effect. */
  lemma FallbackEnd(r: Registry, e: Record)
    requires r.Valid() && e.kind == SpanEndKind && !Truthy(e.spanId)
    ensures var r', order, entries := Step(r, e), r.spans.order, r.spans.entries;
      && r'.traces == r.traces && r'.spans.order == order
      && ((forall i :: 0 <= i < |order| ==> !Qualifies(entries[order[i]], e.spanType)) ==> r' == r)
      && (forall i :: (0 <= i < |order| && Qualifies(entries[order[i]], e.spanType)
                        && (forall j :: 0 <= j < i ==> !Qualifies(entries[order[j]], e.spanType))) ==>
             r'.spans.entries == entries[order[i] := Ended(entries[order[i]], e)])
  {
    var order, entries := r.spans.order, r.spans.entries;
    var found := FirstRunning(order, entries, e.spanType);
    forall i | 0 <= i < |order| && Qualifies(entries[order[i]], e.spanType)
             && (forall j :: 0 <= j < i ==> !Qualifies(entries[order[j]], e.spanType))
      ensures found == Some(i)
    {
    }
  }

  /** The span that a `span_end` record ends, and only that one: its end time,
      duration, status and payload are set as `Ended` says. */
  lemma MatchedEndEffect(r: Registry, e: Record, k: Value)
    requires r.Valid() && e.kind == SpanEndKind && EndTarget(r.spans, e) == Some(k)
    ensures k in r.spans.entries
    ensures var r', s := Step(r, e), r.spans.entries[k];
      && r'.spans.entries == r.spans.entries[k := Ended(s, e)]
      && r'.spans.entries[k].endTime == Some(e.timestamp)
      && r'.spans.entries[k].duration == Some(e.timestamp - s.startTime)
      && (r'.spans.entries[k].status == Error <==> Truthy(e.payload.error))
  {
    EndedFields(r.spans.entries[k], e);
  }

  /** Duration correctness across a start and the end that names it: a span
      started at `T0` and ended at `T1` by a `span_end` carrying its id has
      duration `T1 - T0` and is no longer running. */
  lemma StartThenEnd(start: Record, end: Record)
    requires start.kind == SpanStartKind && end.kind == SpanEndKind
    requires end.spanId == start.span.id && Truthy(start.span.id)
    ensures var r := Fold(EmptyRegistry(), [start, end]);
      && start.span.id in r.spans.entries
      && r.spans.entries[start.span.id].startTime == start.timestamp
      && r.spans.entries[start.span.id].duration == Some(end.timestamp - start.timestamp)
      && r.spans.entries[start.span.id].status != Running
  {
    var r1 := Step(EmptyRegistry(), start);
    assert [start, end][..1] == [start] && [start][..0] == [];
    assert Fold(EmptyRegistry(), [start]) == r1;
    SpanStartEffect(EmptyRegistry(), start);
    MatchedEndEffect(r1, end, start.span.id);
    EndedFields(r1.spans.entries[start.span.id], end);
  }

  /** A span stays running unless a `span_end` record matched it: every span
      that is not running after the pass was the target of some `span_end`. */
  lemma {:induction false} RunningUntilMatched(events: seq<Record>, k: Value)
    requires k in Fold(EmptyRegistry(), events).spans.entries
    requires Fold(EmptyRegistry(), events).spans.entries[k].status != Running
    ensures exists j :: 0 <= j < |events| && events[j].kind == SpanEndKind
                        && EndTarget(Fold(EmptyRegistry(), events[..j]).spans, events[j]) == Some(k)
  {
    var n := |events| - 1;
    var init := events[..n];
    var e := events[n];
    var r := Fold(EmptyRegistry(), init);
    assert Fold(EmptyRegistry(), events) == Step(r, e);
    if e.kind == SpanEndKind && EndTarget(r.spans, e) == Some(k) {
      assert events[..n] == init;
    } else {
      if e.kind == SpanEndKind {
        match EndTarget(r.spans, e)
        case None =>
        case Some(k') => assert k' in r.spans.entries;
      }
      assert k in r.spans.entries && r.spans.entries[k] == Step(r, e).spans.entries[k];
      RunningUntilMatched(init, k);
      var j :| 0 <= j < |init| && init[j].kind == SpanEndKind
               && EndTarget(Fold(EmptyRegistry(), init[..j]).spans, init[j]) == Some(k);
      assert init[..j] == events[..j];
    }
  }
}
