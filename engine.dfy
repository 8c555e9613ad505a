/**
 * The trace reconstruction as the dashboard runs it: one forward pass over the
 * decoded records that fills two insertion-ordered maps and updates spans in
 * place, then one pass over the span map that links spans to their parents.
 * The expansion set of the tree view and its toggle are here too.
 */
module Engine {
  import opened Wrappers
  import opened JsValues
  import opened OrderedMap
  import opened Events
  import opened Registry
  import opened Hierarchy

  /** The reconstruction's result: the traces in insertion order, the root
      span ids, each span's children list (present only for spans that have
      children) and the span registry those ids refer to. */
  datatype Output = Output(traces: seq<Trace>, roots: seq<Value>,
                           children: map<Value, seq<Value>>, spans: OMap<Value, Span>)

  /** What the reconstruction yields for `events`. */
  function Reconstruct(events: seq<Record>): Output
  {
    if |events| == 0 then Output([], [], map[], Empty())
    else
      var r := Fold(EmptyRegistry(), events);
      Output(r.traces.Values(), RootsOf(r.spans.order, r.spans.entries),
             ChildMap(r.spans.order, r.spans.entries), r.spans)
  }

  /** The `traces` and `spans` maps of one reconstruction. */
  class Reconstruction {
    var traces: OMap<Value, Trace>
    var spans: OMap<Value, Span>

    ghost predicate Valid()
      reads this
    {
      traces.Valid() && spans.Valid()
    }

    /** The registries as the specification sees them. */
    function State(): Registry
      reads this
    {
      Registry(traces, spans)
    }

    constructor ()
      ensures Valid() && State() == EmptyRegistry()
    {
      traces := Empty();
      spans := Empty();
    }

    /** The fallback search: the first entry, in insertion order, whose type
        is the given one and that is still running. */
    method FindFirstRunning(spanType: Value) returns (target: Option<Value>)
      requires Valid()
      ensures target.Some? ==> target.value in spans.entries && Qualifies(spans.entries[target.value], spanType)
      ensures target.None? ==> forall k :: k in spans.entries ==> !Qualifies(spans.entries[k], spanType)
      ensures target == match FirstRunning(spans.order, spans.entries, spanType)
                        case None => None
                        case Some(i) => Some(spans.order[i])
    {
      target := None;
      var i := 0;
      while i < |spans.order|
        invariant 0 <= i <= |spans.order|
        invariant target.None?
        invariant forall j :: 0 <= j < i ==> !Qualifies(spans.entries[spans.order[j]], spanType)
      {
        var id := spans.order[i];
        if Qualifies(spans.entries[id], spanType) {
          target := Some(id);
          break;
        }
        i := i + 1;
      }
      if target.None? {
        forall k | k in spans.entries ensures !Qualifies(spans.entries[k], spanType) {
          var j :| 0 <= j < |spans.order| && spans.order[j] == k;
        }
      }
    }

    /** `trace_start`: `traces.set(trace.id, ...)`. */
    method HandleTraceStart(e: Record)
      requires Valid() && e.kind == TraceStartKind
      modifies this
      ensures Valid() && State() == Step(old(State()), e)
    {
      traces := traces.Set(e.trace.id, Trace(e.trace, e.timestamp));
    }

    /** `span_start`: `spans.set(span.id, ...)` with a running, duration-less span. */
    method HandleSpanStart(e: Record)
      requires Valid() && e.kind == SpanStartKind
      modifies this
      ensures Valid() && State() == Step(old(State()), e)
    {
      spans := spans.Set(e.span.id, Started(e.span, e.timestamp));
    }

    /** `span_end`: find the target by explicit id or by the fallback search,
        then update it in place. */
    method HandleSpanEnd(e: Record)
      requires Valid() && e.kind == SpanEndKind
      modifies this
      ensures Valid() && State() == Step(old(State()), e)
    {
      var target: Option<Value> := None;
      if Truthy(e.spanId) {
        var found := spans.Get(e.spanId);
        if found.Some? {
          target := Some(e.spanId);
        }
      } else {
        target := FindFirstRunning(e.spanType);
      }
      if target.Some? {
        var id := target.value;
        spans := spans.Set(id, Ended(spans.entries[id], e));
      }
    }

    /** One record of the `forEach`: dispatch on its `event` field. */
    method Handle(e: Record)
      requires Valid()
      modifies this
      ensures Valid() && State() == Step(old(State()), e)
    {
      if e.kind == TraceStartKind {
        HandleTraceStart(e);
      } else if e.kind == SpanStartKind {
        HandleSpanStart(e);
      } else if e.kind == SpanEndKind {
        HandleSpanEnd(e);
      }
    }

    /** `traceData.forEach(...)`: every record, in order. */
    method HandleAll(events: seq<Record>)
      requires Valid()
      modifies this
      ensures Valid() && State() == Fold(old(State()), events)
    {
      for i := 0 to |events|
        invariant Valid() && State() == Fold(old(State()), events[..i])
      {
        Handle(events[i]);
        assert events[..i + 1][..i] == events[..i];
      }
      assert events[..|events|] == events;
    }

    /** The hierarchy build: one pass over the span map in insertion order,
        pushing each span onto `rootSpans` or onto its parent's lazily created
        `children` list. */
    method BuildHierarchy() returns (roots: seq<Value>, children: map<Value, seq<Value>>)
      requires Valid()
      ensures roots == RootsOf(spans.order, spans.entries)
      ensures children == ChildMap(spans.order, spans.entries)
    {
      var order, entries := spans.order, spans.entries;
      roots, children := [], map[];
      for i := 0 to |order|
        invariant roots == RootsOf(order[..i], entries)
        invariant children == ChildMap(order[..i], entries)
      {
        var id := order[i];
        var span := entries[id];
        assert order[..i + 1] == order[..i] + [id];
        ChildMapSnoc(order[..i], entries, id);
        if !Truthy(span.desc.parentId) {
          roots := roots + [id];
        } else {
          var parent := spans.Get(span.desc.parentId);
          if parent.Some? {
            var p := span.desc.parentId;
            var siblings := if p in children then children[p] else [];
            children := children[p := siblings + [id]];
          }
        }
      }
      assert order[..|order|] == order;
    }
  }

  /** `processedData`: no records give no traces and no spans; otherwise the
      event pass, then the hierarchy build. */
  method ProcessedData(events: seq<Record>) returns (out: Output)
    ensures out == Reconstruct(events)
    ensures |events| == 0 ==> out.traces == [] && out.roots == []
    ensures forall k :: k in out.roots ==> k in out.spans.entries && IsRoot(out.spans.entries[k])
  {
    if |events| == 0 {
      return Output([], [], map[], Empty());
    }
    var r := new Reconstruction();
    r.HandleAll(events);
    var roots, children := r.BuildHierarchy();
    out := Output(r.traces.Values(), roots, children, r.spans);
  }

  /** The expansion set after toggling `id`: removed if present, added if not. */
  function Toggled(expanded: set<Value>, id: Value): (r: set<Value>)
    ensures id in r <==> id !in expanded
    ensures forall x :: x != id ==> (x in r <==> x in expanded)
  {
    if id in expanded then expanded - {id} else expanded + {id}
  }

  /** `toggleExpanded`: copy the set, then delete or add `id` in the copy. */
  method ToggleExpanded(expanded: set<Value>, id: Value) returns (newExpanded: set<Value>)
    ensures newExpanded == Toggled(expanded, id)
  {
    newExpanded := expanded;
    if id in newExpanded {
      newExpanded := newExpanded - {id};
    } else {
      newExpanded := newExpanded + {id};
    }
  }

  /** Toggling the same id twice restores the set. */
  lemma ToggleTwice(expanded: set<Value>, id: Value)
    ensures Toggled(Toggled(expanded, id), id) == expanded
  {
  }
}
