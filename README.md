# Agent trace reconstruction, modelled in Dafny

This project models the trace reconstruction core of the Agent Tracing
dashboard. The dashboard reads a JSON Lines log of an AI agent's run. The log
holds `trace_start`, `span_start`, `span_end` and `trace_end` records. From
them the dashboard rebuilds the tree of spans (agent steps, model generations,
tool calls), with timing, status and payload.

The model follows the source's structure:

- `Text` has the two string built-ins the decoder uses: `trim` (with the
  ECMAScript whitespace set) and `split` on one character.
- `Jsonl` is the line decoder `parseJsonl`, an indexed loop. It also holds the
  loaders' rule that zero decoded records is the error "No valid JSON objects
  found in the file". `JSON.parse` is not modelled: it is a parameter
  `decode: string -> Option<Record>`.
- `JsValues` holds the decoded JavaScript values, with JavaScript truthiness
  and `===`. Every truthiness test in the source (`if (event.span_id)`,
  `if (!span.parent_id)`, `if (event.prompt)`, ...) goes through `Truthy`.
- `OrderedMap` models a JavaScript `Map`. `set` on a key that is already
  present keeps that key's first insertion position.
- `Events` holds the records, trace and span entries, and the fields that a
  matched `span_end` sets (`Ended`).
- `Registry` is the specification of the event pass. It defines one step per
  record, the fold over all records, and end-matching: an explicit `span_id`
  first, otherwise the first running span of the given type in insertion
  order.
- `Hierarchy` is the specification of the hierarchy build: roots, children
  lists, and dropped orphans.
- `Engine` is the imperative side. Class `Reconstruction` holds the two maps.
  It has one method per record kind, the fallback search loop with its early
  `break`, the `forEach` over the records, and the hierarchy loop. Every
  method is proved against the specification functions. `ProcessedData` runs
  the whole reconstruction. `ToggleExpanded` is the tree view's expansion
  toggle.

Timestamps are integers in milliseconds. The forest is returned as root ids
plus a map from a span id to its children's ids, not as shared objects.

The model follows what the code does at these points, which are easy to misread:

- A span whose truthy `parent_id` names no registered span is dropped, not
  promoted to a root (`Hierarchy.OrphanDropped`).
- A matched span's status is `error` only when the end record's own `error`
  is truthy. An error the span already carried does not make it `error`
  (`Events.EndedFields`).
- The hierarchy build has no cycle guard, and it does not need one: it is a
  single pass. A span that names itself as its parent becomes its own child
  (`Hierarchy.PlacedOnce`).
- `trace_end` records change nothing (`Registry.OtherKindsIgnored`).
- The source comment calls the fallback "the most recent span of this type".
  The loop actually picks the first one in insertion order
  (`Registry.FallbackEnd`).

## Model

| member | source | states |
|---|---|---|
| `Text.TrimStartSpec` | src/App.js:17-20 | leading trim drops exactly the longest all-whitespace prefix |
| `Text.TrimEndSpec` | src/App.js:17-20 | trailing trim drops exactly the longest all-whitespace suffix |
| `Text.TrimIsSlice` | src/App.js:20-22 | `trim` keeps a contiguous slice with no whitespace at either end, and a line is blank after trimming exactly when it is all whitespace |
| `Text.TrimIdempotent` | src/App.js:17-20 | trimming an already trimmed line changes nothing |
| `Text.JoinSplit` | src/App.js:17 | joining the pieces of `split('\n')` with '\n' gives the text back |
| `Text.SplitJoin` | src/App.js:17 | splitting a '\n'-join of newline-free pieces gives those pieces back |
| `Jsonl.ParseJsonl` | src/App.js:15-37 | the indexed loop returns exactly the records of the non-blank trimmed lines that decode, in line order, and the 1-based numbers of the lines it warns about; records plus warnings never outnumber the lines |
| `Jsonl.FailedLinesContents` | src/App.js:23-28 | a line number is warned about exactly when that line is non-blank after trimming and fails to decode; warnings come in increasing line order, so every line is exactly one of blank, decoded or warned |
| `Jsonl.DecodeLinesAppend` | src/App.js:20-31 | the records of earlier lines come before those of later lines, so the input order is kept |
| `Jsonl.DecodeLinesContents` | src/App.js:20-31 | a record is returned exactly when some non-blank trimmed line decodes to it; output length is at most the line count |
| `Jsonl.DecodeLinesEmpty` | src/App.js:20-31 | the result is empty exactly when every line is blank or fails to decode |
| `Jsonl.LoadRecords` | src/App.js:56-60 | loading fails with "no valid JSON objects" exactly when no line decodes; otherwise it yields the non-empty decoded records |
| `OrderedMap.OMap.Set` | src/App.js:158 | `Map.set` replaces the value; a new key goes last and a known key keeps its position |
| `OrderedMap.GetAfterSet` | src/App.js:158-171 | `get` after `set` reads the new value for the key just set and the old reading for every other key |
| `OrderedMap.ValuesAfterSet` | src/App.js:158-212 | after `set`, `Array.from(map.values())` gains the new value at the end for a new key, and for a known key at position i has only position i replaced |
| `Events.EndedFields` | src/App.js:182-193 | on a match: end time is the record's timestamp; duration is end minus start, signed; status is `error` exactly when the record's error is truthy, else `completed`; each payload field and the error change only to a truthy record value |
| `Registry.FirstRunning` | src/App.js:174-179 | the fallback position is the first entry of the requested type still running, with every earlier entry not qualifying; or none when no entry qualifies |
| `Registry.RegistryKeys` | src/App.js:157-165 | after the pass there is one span entry per distinct `span_start` id, ordered by each id's first start, and likewise one trace entry per distinct `trace_start` id |
| `Registry.SpanStartEffect` | src/App.js:159-165 | a `span_start` replaces its id's entry by a fresh running span; every other span and every trace is untouched; the id keeps its place or goes last |
| `Registry.TraceStartEffect` | src/App.js:157-158 | a `trace_start` replaces its id's trace entry with the record's timestamp; the span registry is untouched |
| `Registry.OtherKindsIgnored` | src/App.js:156-196 | records of any other kind, `trace_end` included, change nothing |
| `Registry.ExplicitIdEnd` | src/App.js:170-171 | with a truthy `span_id`, only that span can change, even when other running spans of that type exist; an unknown id changes nothing, with no fallback to type matching |
| `Registry.FallbackEnd` | src/App.js:172-180 | without a truthy `span_id`, only the first running span of the record's type in insertion order is ended; when none qualifies nothing changes |
| `Registry.MatchedEndEffect` | src/App.js:182-193 | the matched span alone is replaced by its ended form, with the record's end time, the signed duration and an error status exactly for a truthy record error |
| `Registry.StartThenEnd` | src/App.js:160-184 | a span started at T0 and ended at T1 by a `span_end` naming its id has start time T0, duration T1 - T0 and is no longer running |
| `Registry.RunningUntilMatched` | src/App.js:164 | a span that is not running after the pass was the target of some `span_end` record |
| `Hierarchy.ChildMapSnoc` | src/App.js:204-208 | visiting one more span appends it to its registered parent's children list (creating the list if needed) and changes no other list |
| `Hierarchy.PlacedOnce` | src/App.js:199-210 | a span with a falsy `parent_id` is a root exactly once; a span with truthy parent `p` is in `p`'s children exactly once and in no other list; a registered parent always has its children list |
| `Hierarchy.OrphanDropped` | src/App.js:203-209 | a span whose truthy `parent_id` is not registered is neither a root nor anyone's child |
| `Engine.Reconstruction.constructor` | src/App.js:153-154 | the two maps start empty |
| `Engine.Reconstruction.FindFirstRunning` | src/App.js:174-179 | the loop with `break` returns a registered running span of the type, the one at the first qualifying position, or none when no span qualifies |
| `Engine.Reconstruction.HandleTraceStart` | src/App.js:157-158 | updates the trace map as one specification step |
| `Engine.Reconstruction.HandleSpanStart` | src/App.js:159-165 | updates the span map as one specification step |
| `Engine.Reconstruction.HandleSpanEnd` | src/App.js:166-194 | resolves the target and updates it in place as one specification step |
| `Engine.Reconstruction.Handle` | src/App.js:156-196 | dispatches one record on its `event` field as one specification step |
| `Engine.Reconstruction.HandleAll` | src/App.js:156-196 | the `forEach` leaves the maps equal to the specification fold over all records |
| `Engine.Reconstruction.BuildHierarchy` | src/App.js:198-210 | the loop produces exactly the registry-order roots and the children lists of the hierarchy specification |
| `Engine.ProcessedData` | src/App.js:148-212 | the reconstruction equals `Reconstruct`; no records give no traces and no root spans; every root is a registered span with a falsy parent |
| `Engine.Toggled` | src/App.js:245-253 | toggling flips membership of exactly the given id and leaves every other id as it was |
| `Engine.ToggleExpanded` | src/App.js:245-253 | the copy-and-mutate toggle yields the toggled set |
| `Engine.ToggleTwice` | src/App.js:245-253 | toggling the same id twice restores the set |

## Left out

- File acquisition is not modelled: `file.text()`, the `.jsonl` extension check, and the drag-and-drop and state-setter plumbing (src/App.js:40-117). It is I/O and React state. Only the zero-records rule is kept (`Jsonl.LoadRecords`).
- The `console.warn` call itself is I/O: the model returns the warned line numbers instead, and does not carry the parser's error object.
- `JSON.parse` is a parameter, and so is the parsing of timestamps by `new Date(...)`: timestamps are given as integers in milliseconds. An unparsable timestamp, whose duration would be `NaN`, is not modelled.
- A line that decodes to `null` is not modelled. Neither is a `trace_start` without a `trace` object or a `span_start` without a `span` object. In the source these throw a `TypeError` inside the event pass. The decoder abstraction always supplies these objects, and a non-object record is modelled as having an `Undefined` kind, which the pass ignores.
- The outer `try`/`catch` of `parseJsonl` is not modelled. It can only fire when the content is not a string.
- Spread fields are not modelled. Only the fields the core reads or writes are kept (`id`, `trace_id`, `parent_id`, `span_data` and its `type`, and the payload fields). A trace entry's `spans: []` is left out because nothing ever fills it. A descriptor that already carries its own `children` field is not modelled.
- Object identity is not modelled. The source's forest shares span objects between the map, `rootSpans` and `children`. The model gives root ids and a children map over the registry, and map keys compare objects and arrays by their tag, not by identity.
- Numbers are integers: `NaN` and `-0` are not modelled.
- Rendering, icons, colours and the tree and timeline layout are presentation and are not modelled. So are `formatDuration` (floating point), clipboard copy with its `setTimeout`, and the demonstration dataset.
