/**
 * The specification of the hierarchy build: which registered spans become
 * roots, which become children of which parent, and which are dropped.
 */
module Hierarchy {
  import opened JsValues
  import opened OrderedMap
  import opened Events
  import opened Registry

  /** The ids in `order` whose span satisfies `keep`, in order. */
  function Select(order: seq<Value>, entries: map<Value, Span>, keep: Span -> bool): (r: seq<Value>)
    requires AllIn(order, entries)
    ensures |r| <= |order|
    ensures forall x :: x in r ==> x in order && keep(entries[x])
  {
    if |order| == 0 then []
    else
      var init := Select(order[..|order| - 1], entries, keep);
      var k := order[|order| - 1];
      if keep(entries[k]) then init + [k] else init
  }

  /** A span with a falsy `parent_id` is a root. */
  predicate IsRoot(s: Span)
  {
    !Truthy(s.desc.parentId)
  }

  /** A span whose truthy `parent_id` is `p`. */
  predicate ChildOf(s: Span, p: Value)
  {
    Truthy(s.desc.parentId) && s.desc.parentId == p
  }

  /** `rootSpans`: the roots, in registry order. */
  function RootsOf(order: seq<Value>, entries: map<Value, Span>): seq<Value>
    requires AllIn(order, entries)
  {
    Select(order, entries, s => IsRoot(s))
  }

  /** The `children` list of span `p`, in registry order. */
  function ChildrenOf(order: seq<Value>, entries: map<Value, Span>, p: Value): seq<Value>
    requires AllIn(order, entries)
  {
    Select(order, entries, s => ChildOf(s, p))
  }

  /** The `children` lists that exist after the build: a registered span has
      one exactly when some span names it as its parent. */
  function ChildMap(order: seq<Value>, entries: map<Value, Span>): map<Value, seq<Value>>
    requires AllIn(order, entries)
  {
    map p | p in entries && ChildrenOf(order, entries, p) != [] :: ChildrenOf(order, entries, p)
  }

  /** Visiting one more span extends the children list of its parent, when
      its `parent_id` is truthy and registered, and changes no other list. */
  lemma ChildMapSnoc(order: seq<Value>, entries: map<Value, Span>, id: Value)
    requires AllIn(order, entries) && id in entries
    ensures AllIn(order + [id], entries)
    ensures var s, before := entries[id], ChildMap(order, entries);
      ChildMap(order + [id], entries) ==
        if IsRoot(s) || s.desc.parentId !in entries then before
        else before[s.desc.parentId := (if s.desc.parentId in before then before[s.desc.parentId] else []) + [id]]
  {
    var s := entries[id];
    var order' := order + [id];
    assert order'[..|order'| - 1] == order;
    forall q | q in entries
      ensures ChildrenOf(order', entries, q) == ChildrenOf(order, entries, q) + (if ChildOf(s, q) then [id] else [])
    {
    }
  }

  /** Over distinct ids, a selected id occurs once and any other id not at all. */
  lemma {:induction false} SelectCount(order: seq<Value>, entries: map<Value, Span>, keep: Span -> bool, k: Value)
    requires AllIn(order, entries) && NoDuplicates(order)
    ensures multiset(Select(order, entries, keep))[k] == if k in order && keep(entries[k]) then 1 else 0
  {
    if |order| > 0 {
      var init := order[..|order| - 1];
      assert NoDuplicates(init);
      SelectCount(init, entries, keep, k);
      assert order == init + [order[|order| - 1]];
      assert k in order <==> k in init || k == order[|order| - 1];
    }
  }

  /** Every registered span is placed at most once by the build: it is a root
      exactly once when its `parent_id` is falsy; it is in the children of `p`
      exactly once when its `parent_id` is the truthy `p`, and in no other
      list. When its parent is registered, that parent has a children list,
      so the span is placed exactly once; a span that names itself as parent
      is its own child. */
  lemma PlacedOnce(order: seq<Value>, entries: map<Value, Span>, k: Value)
    requires AllIn(order, entries) && NoDuplicates(order) && k in order
    ensures var s := entries[k];
      && multiset(RootsOf(order, entries))[k] == (if IsRoot(s) then 1 else 0)
      && (forall p :: p in ChildMap(order, entries) ==>
            multiset(ChildMap(order, entries)[p])[k] == if ChildOf(s, p) then 1 else 0)
      && (!IsRoot(s) && s.desc.parentId in entries ==> s.desc.parentId in ChildMap(order, entries))
  {
    var s := entries[k];
    SelectCount(order, entries, s => IsRoot(s), k);
    forall p | p in ChildMap(order, entries)
      ensures multiset(ChildMap(order, entries)[p])[k] == if ChildOf(s, p) then 1 else 0
    {
      SelectCount(order, entries, s => ChildOf(s, p), k);
    }
    if !IsRoot(s) && s.desc.parentId in entries {
      var p := s.desc.parentId;
      SelectCount(order, entries, s => ChildOf(s, p), k);
      assert k in ChildrenOf(order, entries, p);
    }
  }

  /** A span whose truthy `parent_id` names no registered span is dropped: it
      is neither a root nor anyone's child. */
  lemma OrphanDropped(order: seq<Value>, entries: map<Value, Span>, k: Value)
    requires AllIn(order, entries) && NoDuplicates(order) && k in order
    requires !IsRoot(entries[k]) && entries[k].desc.parentId !in entries
    ensures k !in RootsOf(order, entries)
    ensures forall p :: p in ChildMap(order, entries) ==> k !in ChildMap(order, entries)[p]
  {
    PlacedOnce(order, entries, k);
  }
}
