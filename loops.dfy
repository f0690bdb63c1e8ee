/** The loop extractor (`_extract_loop`) and the per-record instancing of
    a loop's leaves (`_get_all_keys_in_list_of_dicts` and the leaf loop of
    `_find_subtags_in_loop`).

    A loop is written in the template as the paragraphs from the one whose
    text holds `<` to the one whose text holds `>`, among the siblings that
    follow the section anchor. Each record of the section becomes one copy
    of those paragraphs, with the markers stripped and every `[key]` filled
    with the record's value for `key`. */
module Loops {
  import opened Base
  import opened Text
  import opened Document

  predicate IsMarked(t: string)
  {
    '<' in t || '>' in t
  }

  /** No leaf of `ls[i..j]` holds a loop marker. */
  predicate NoMarkers(ls: seq<SibLeaf>, i: nat, j: nat)
    requires i <= j <= |ls|
  {
    forall k :: i <= k < j ==> !IsMarked(ls[k].text)
  }

  /** The index of the first leaf from `i` on that holds a loop marker. */
  function FirstMarker(ls: seq<SibLeaf>, i: nat): (r: Option<nat>)
    requires i <= |ls|
    ensures r.Some? ==> i <= r.value < |ls| && IsMarked(ls[r.value].text) && NoMarkers(ls, i, r.value)
    ensures r.None? ==> NoMarkers(ls, i, |ls|)
    decreases |ls| - i
  {
    if i == |ls| then None
    else if IsMarked(ls[i].text) then Some(i)
    else FirstMarker(ls, i + 1)
  }

  /** The leaves `ls[s..e]` of the loop among the sibling leaves: the
      loop opens at the first marked leaf, which must hold `<`, and closes
      at the next marked leaf (the same one when it also holds `>`), which
      must not hold a second `<`; with no closing leaf it runs to the end. */
  function LoopSpan(ls: seq<SibLeaf>): (r: Result<(nat, nat)>)
    ensures r.Ok? ==> r.value.0 < r.value.1 <= |ls|
  {
    match FirstMarker(ls, 0)
    case None => Err(NoLoopStart)
    case Some(s) =>
      if '<' !in ls[s].text then Err(LoopEndBeforeStart)
      else if '>' in ls[s].text then Ok((s, s + 1))
      else match FirstMarker(ls, s + 1)
        case None => Ok((s, |ls|))
        case Some(e) => if '<' in ls[e].text then Err(NestedLoop) else Ok((s, e + 1))
  }

  predicate Increasing(r: seq<nat>)
  {
    forall i, j :: 0 <= i < j < |r| ==> r[i] < r[j]
  }

  /** The body positions of the paragraphs holding the leaves `ls[s..i]`,
      each listed once: a leaf's paragraph is added unless it is the one
      listed last. */
  function ParasBetween(ls: seq<SibLeaf>, s: nat, i: nat): seq<nat>
    requires s <= i <= |ls|
    decreases i
  {
    if i == s then []
    else
      var d := ParasBetween(ls, s, i - 1);
      if d != [] && d[|d| - 1] == ls[i - 1].para then d else d + [ls[i - 1].para]
  }

  /** Over leaves in document order the list is increasing, and runs from
      the first leaf's paragraph to the last one's. */
  lemma {:induction false} ParasOrdered(ls: seq<SibLeaf>, s: nat, i: nat)
    requires Ascending(ls) && s <= i <= |ls|
    ensures var d := ParasBetween(ls, s, i);
      Increasing(d) && (d == [] <==> s == i) &&
      (s < i ==> d[0] == ls[s].para && d[|d| - 1] == ls[i - 1].para)
    decreases i
  {
    if s < i {
      ParasOrdered(ls, s, i - 1);
      var d := ParasBetween(ls, s, i - 1);
      if d != [] {
        assert ls[i - 2].para <= ls[i - 1].para;
      }
    }
  }

  /** A paragraph is listed exactly when it holds one of the leaves. */
  lemma {:induction false} ParasMembers(ls: seq<SibLeaf>, s: nat, i: nat, p: nat)
    requires s <= i <= |ls|
    ensures p in ParasBetween(ls, s, i) <==> exists j :: s <= j < i && ls[j].para == p
    decreases i
  {
    if s < i {
      ParasMembers(ls, s, i - 1, p);
      var d := ParasBetween(ls, s, i - 1);
      if exists j :: s <= j < i && ls[j].para == p {
        var j :| s <= j < i && ls[j].para == p;
        if j < i - 1 {
          assert p in d;
        }
      }
    }
  }

  lemma {:induction false} ParasBounds(ls: seq<SibLeaf>, base: nat, n: nat, s: nat, i: nat)
    requires Grouped(ls, base, n) && s <= i <= |ls|
    ensures forall k :: 0 <= k < |ParasBetween(ls, s, i)| ==> base <= ParasBetween(ls, s, i)[k] < n
    decreases i
  {
    if s < i {
      ParasBounds(ls, base, n, s, i - 1);
    }
  }

  /** A strictly increasing sequence of naturals spans at least its length. */
  lemma {:induction false} IncreasingSpan(r: seq<nat>)
    requires r != [] && Increasing(r)
    ensures r[|r| - 1] - r[0] >= |r| - 1
  {
    if |r| > 1 {
      IncreasingSpan(r[..|r| - 1]);
    }
  }

  /** One more sibling leaf: its paragraph is listed unless it is the last
      one listed, and then it lies past the current end of the copied tree,
      so that `loop_tree.insert` appends it. */
  lemma ParasStep(ls: seq<SibLeaf>, base: nat, n: nat, s: nat, i: nat)
    requires Grouped(ls, base, n) && s <= i < |ls|
    ensures var d := ParasBetween(ls, s, i);
      var isNew := d == [] || d[|d| - 1] != ls[i].para;
      ParasBetween(ls, s, i + 1) == (if isNew then d + [ls[i].para] else d) &&
      (isNew ==> |d| <= ls[i].group)
  {
    var d := ParasBetween(ls, s, i);
    if d != [] {
      ParasOrdered(ls, s, i);
      IncreasingSpan(d);
      assert ls[i - 1].para <= ls[i].para;
    }
  }

  function Copies(body: seq<Para>, ps: seq<nat>): (r: seq<Para>)
    requires forall k :: 0 <= k < |ps| ==> ps[k] < |body|
    ensures |r| == |ps| && forall k :: 0 <= k < |ps| ==> r[k] == body[ps[k]]
  {
    seq(|ps|, k requires 0 <= k < |ps| => body[ps[k]])
  }

  lemma CopiesSnoc(body: seq<Para>, ps: seq<nat>, p: nat)
    requires p < |body| && forall k :: 0 <= k < |ps| ==> ps[k] < |body|
    ensures Copies(body, ps + [p]) == Copies(body, ps) + [body[p]]
  {
  }

  /** What `_extract_loop` returns: the body position of the loop-start
      paragraph, the copied loop paragraphs, and the body positions of the
      originals. */
  datatype Loop = Loop(start: nat, fragment: seq<Para>, originals: seq<nat>)

  /** The loop found among the sibling leaves `ls` of paragraphs `base..`. */
  function LoopOf(body: seq<Para>, base: nat, ls: seq<SibLeaf>): Result<Loop>
    requires Grouped(ls, base, |body|)
  {
    match LoopSpan(ls)
    case Err(e) => Err(e)
    case Ok((s, e)) =>
      Ok(Loop(ls[s].para, Fragment(body, base, ls, s, e), ParasBetween(ls, s, e)))
  }

  /** `_extract_loop` for the anchor paragraph at body position `a`. */
  function ExtractSpec(body: seq<Para>, a: nat): Result<Loop>
    requires a < |body|
  {
    LoopOf(body, SiblingBase(body, a), SiblingLeaves(body, a))
  }

  /** `loop_tree.insert(index, p)`: past the end it appends. */
  function InsertAt(tree: seq<Para>, index: nat, p: Para): seq<Para>
  {
    if index >= |tree| then tree + [p] else tree[..index] + [p] + tree[index..]
  }

  lemma FirstMarkerIs(ls: seq<SibLeaf>, i: nat, s: nat)
    requires i <= s < |ls| && NoMarkers(ls, i, s) && IsMarked(ls[s].text)
    ensures FirstMarker(ls, i) == Some(s)
  {
  }

  /** The loop opens and closes in leaf `s`. */
  lemma ClosedAtStart(body: seq<Para>, base: nat, ls: seq<SibLeaf>, s: nat)
    requires Grouped(ls, base, |body|) && s < |ls|
    requires NoMarkers(ls, 0, s) && '<' in ls[s].text && '>' in ls[s].text
    ensures LoopOf(body, base, ls) ==
      Ok(Loop(ls[s].para, Fragment(body, base, ls, s, s + 1), ParasBetween(ls, s, s + 1)))
  {
    FirstMarkerIs(ls, 0, s);
    assert LoopSpan(ls) == Ok((s, s + 1));
  }

  /** The loop opens in leaf `s` and closes in leaf `e`. */
  lemma ClosedLater(body: seq<Para>, base: nat, ls: seq<SibLeaf>, s: nat, e: nat)
    requires Grouped(ls, base, |body|) && s < e < |ls|
    requires NoMarkers(ls, 0, s) && '<' in ls[s].text && '>' !in ls[s].text
    requires NoMarkers(ls, s + 1, e) && '>' in ls[e].text && '<' !in ls[e].text
    ensures LoopOf(body, base, ls) ==
      Ok(Loop(ls[s].para, Fragment(body, base, ls, s, e + 1), ParasBetween(ls, s, e + 1)))
  {
    FirstMarkerIs(ls, 0, s);
    FirstMarkerIs(ls, s + 1, e);
    assert LoopSpan(ls) == Ok((s, e + 1));
  }

  /** The loop opens in leaf `s` and never closes: it runs to the end. */
  lemma Unclosed(body: seq<Para>, base: nat, ls: seq<SibLeaf>, s: nat)
    requires Grouped(ls, base, |body|) && s < |ls|
    requires NoMarkers(ls, 0, s) && '<' in ls[s].text && '>' !in ls[s].text
    requires NoMarkers(ls, s + 1, |ls|)
    ensures LoopOf(body, base, ls) ==
      Ok(Loop(ls[s].para, Fragment(body, base, ls, s, |ls|), ParasBetween(ls, s, |ls|)))
  {
    FirstMarkerIs(ls, 0, s);
    assert FirstMarker(ls, s + 1).None?;
    assert LoopSpan(ls) == Ok((s, |ls|));
  }

  /** A `>` met before any `<` is an error. */
  lemma EndBeforeStart(ls: seq<SibLeaf>, j: nat)
    requires j < |ls| && '>' in ls[j].text && '<' !in ls[j].text
    requires forall k :: 0 <= k < j ==> '<' !in ls[k].text
    ensures LoopSpan(ls) == Err(LoopEndBeforeStart)
  {
    var m := FirstMarker(ls, 0);
    assert m.Some? && m.value <= j;
  }

  /** A second `<` before the loop closes is an error. */
  lemma NestedStart(ls: seq<SibLeaf>, s: nat, j: nat)
    requires s < j < |ls| && NoMarkers(ls, 0, s) && '<' in ls[s].text
    requires forall k :: s <= k < j ==> '>' !in ls[k].text
    requires '<' in ls[j].text
    ensures LoopSpan(ls) == Err(NestedLoop)
  {
    FirstMarkerIs(ls, 0, s);
    var e := FirstMarker(ls, s + 1);
    assert e.Some? && e.value <= j;
  }

  lemma SpanErr(body: seq<Para>, base: nat, ls: seq<SibLeaf>)
    requires Grouped(ls, base, |body|) && LoopSpan(ls).Err?
    ensures LoopOf(body, base, ls) == Err(LoopSpan(ls).error)
  {
  }

  /** Copies of the paragraphs holding the leaves `ls[s..i]`. */
  function Fragment(body: seq<Para>, base: nat, ls: seq<SibLeaf>, s: nat, i: nat): seq<Para>
    requires Grouped(ls, base, |body|) && s <= i <= |ls|
  {
    ParasBounds(ls, base, |body|, s, i);
    Copies(body, ParasBetween(ls, s, i))
  }

  lemma FragmentCopies(body: seq<Para>, base: nat, ls: seq<SibLeaf>, s: nat, i: nat)
    requires Grouped(ls, base, |body|) && s <= i <= |ls|
    ensures var d := ParasBetween(ls, s, i);
      |Fragment(body, base, ls, s, i)| == |d| &&
      forall k :: 0 <= k < |d| ==> base <= d[k] < |body| && Fragment(body, base, ls, s, i)[k] == body[d[k]]
  {
    ParasBounds(ls, base, |body|, s, i);
  }

  /** The inner branch of the scan for one leaf inside the loop: the leaf's
      paragraph is copied unless it was the previous one. */
  method Collect(body: seq<Para>, base: nat, ls: seq<SibLeaf>, ghost s: nat, i: nat,
                 nodes: seq<nat>, tree: seq<Para>, prev: Option<nat>)
    returns (nodes': seq<nat>, tree': seq<Para>, prev': Option<nat>)
    requires Grouped(ls, base, |body|) && s <= i < |ls|
    requires nodes == ParasBetween(ls, s, i) && tree == Fragment(body, base, ls, s, i)
    requires prev == if nodes == [] then None else Some(nodes[|nodes| - 1])
    ensures nodes' == ParasBetween(ls, s, i + 1) && tree' == Fragment(body, base, ls, s, i + 1)
    ensures nodes' != [] && prev' == Some(nodes'[|nodes'| - 1])
  {
    var leaf := ls[i];
    ParasStep(ls, base, |body|, s, i);
    ParasBounds(ls, base, |body|, s, i);
    nodes', tree', prev' := nodes, tree, prev;
    if prev != Some(leaf.para) {
      tree' := InsertAt(tree, leaf.group, body[leaf.para]);
      prev' := Some(leaf.para);
      CopiesSnoc(body, nodes, leaf.para);
      nodes' := nodes + [leaf.para];
    }
  }

  /** The scan state after the leaves `ls[..i]`: outside the loop no marker
      was seen; inside it the loop opened at leaf `s`, has not closed, and
      the originals and copies so far are those of `ls[s..i]`. */
  ghost predicate Walked(body: seq<Para>, base: nat, ls: seq<SibLeaf>, i: nat, inside: bool, s: nat,
                         start: nat, tree: seq<Para>, prev: Option<nat>, nodes: seq<nat>)
    requires Grouped(ls, base, |body|) && i <= |ls|
  {
    if !inside then NoMarkers(ls, 0, i) && tree == [] && nodes == [] && prev == None
    else
      s < i && NoMarkers(ls, 0, s) && '<' in ls[s].text && '>' !in ls[s].text &&
      NoMarkers(ls, s + 1, i) && start == ls[s].para &&
      nodes == ParasBetween(ls, s, i) && nodes != [] &&
      prev == Some(nodes[|nodes| - 1]) && tree == Fragment(body, base, ls, s, i)
  }

  /** The loop of `_extract_loop`, over the sibling leaves. */
  method ScanSiblings(body: seq<Para>, base: nat, ls: seq<SibLeaf>) returns (r: Result<Loop>)
    requires Grouped(ls, base, |body|)
    ensures r == LoopOf(body, base, ls)
  {
    var inside := false;          // inside_loop
    var start: nat := 0;          // loop_start_node, as a body position
    var tree: seq<Para> := [];    // loop_tree
    var prev: Option<nat> := None;  // prev_paragraph
    var nodes: seq<nat> := [];    // list_of_all_loop_nodes
    ghost var s: nat := 0;
    var i := 0;
    while i < |ls|
      invariant 0 <= i <= |ls|
      invariant Walked(body, base, ls, i, inside, s, start, tree, prev, nodes)
    {
      var outcome;
      outcome, inside, s, start, tree, prev, nodes := VisitLeaf(body, base, ls, i, inside, s, start, tree, prev, nodes);
      if outcome.Some? {
        return outcome.value;
      }
      i := i + 1;
    }
    if !inside {
      assert FirstMarker(ls, 0).None?;
      SpanErr(body, base, ls);
      return Err(NoLoopStart);
    }
    Unclosed(body, base, ls, s);
    return Ok(Loop(start, tree, nodes));
  }

  /** The body of the scan for leaf `i`: the loop opens at `<`, collects its
      paragraph while open, and ends the scan at `>`. */
  method VisitLeaf(body: seq<Para>, base: nat, ls: seq<SibLeaf>, i: nat, inside: bool, ghost s: nat,
                   start: nat, tree: seq<Para>, prev: Option<nat>, nodes: seq<nat>)
    returns (outcome: Option<Result<Loop>>, inside': bool, ghost s': nat,
             start': nat, tree': seq<Para>, prev': Option<nat>, nodes': seq<nat>)
    requires Grouped(ls, base, |body|) && i < |ls|
    requires Walked(body, base, ls, i, inside, s, start, tree, prev, nodes)
    ensures outcome.Some? ==> outcome.value == LoopOf(body, base, ls)
    ensures outcome.None? ==> Walked(body, base, ls, i + 1, inside', s', start', tree', prev', nodes')
  {
    outcome, inside', s', start', tree', prev', nodes' := None, inside, s, start, tree, prev, nodes;
    var leaf := ls[i];
    if '<' in leaf.text {
      if inside {
        NestedStart(ls, s, i);
        SpanErr(body, base, ls);
        outcome := Some(Err(NestedLoop));
        return;
      }
      inside' := true;
      start' := leaf.para;
      s' := i;
    }
    if inside' {
      nodes', tree', prev' := Collect(body, base, ls, s', i, nodes', tree', prev');
    }
    if '>' in leaf.text {
      if !inside' {
        EndBeforeStart(ls, i);
        SpanErr(body, base, ls);
        outcome := Some(Err(LoopEndBeforeStart));
        return;
      }
      if s' == i {
        ClosedAtStart(body, base, ls, i);
      } else {
        ClosedLater(body, base, ls, s', i);
      }
      outcome := Some(Ok(Loop(start', tree', nodes')));
    }
  }

  /** `_extract_loop`: walk the anchor's sibling leaves. */
  method ExtractLoop(body: seq<Para>, a: nat) returns (r: Result<Loop>)
    requires a < |body|
    ensures r == ExtractSpec(body, a)
  {
    var ls := SiblingLeaves(body, a);
    r := ScanSiblings(body, SiblingBase(body, a), ls);
  }

  lemma LoopShape(body: seq<Para>, base: nat, ls: seq<SibLeaf>)
    requires Grouped(ls, base, |body|) && LoopOf(body, base, ls).Ok?
    ensures var lp := LoopOf(body, base, ls).value;
      |lp.originals| == |lp.fragment| > 0 && lp.originals[0] == lp.start && Increasing(lp.originals) &&
      (forall k :: 0 <= k < |lp.originals| ==>
         base <= lp.originals[k] < |body| && lp.fragment[k] == body[lp.originals[k]])
  {
    var (s, e) := LoopSpan(ls).value;
    assert LoopOf(body, base, ls) == Ok(Loop(ls[s].para, Fragment(body, base, ls, s, e), ParasBetween(ls, s, e)));
    SpanShape(body, base, ls, s, e);
  }

  /** The loop read off the leaves `ls[s..i]`, for any non-empty span. */
  lemma SpanShape(body: seq<Para>, base: nat, ls: seq<SibLeaf>, s: nat, i: nat)
    requires Grouped(ls, base, |body|) && s < i <= |ls|
    ensures var lp := Loop(ls[s].para, Fragment(body, base, ls, s, i), ParasBetween(ls, s, i));
      |lp.originals| == |lp.fragment| > 0 && lp.originals[0] == lp.start && Increasing(lp.originals) &&
      (forall k :: 0 <= k < |lp.originals| ==>
         base <= lp.originals[k] < |body| && lp.fragment[k] == body[lp.originals[k]])
  {
    FragmentCopies(body, base, ls, s, i);
    ParasOrdered(ls, s, i);
  }

  lemma LoopMembers(body: seq<Para>, base: nat, ls: seq<SibLeaf>, p: nat)
    requires Grouped(ls, base, |body|) && LoopOf(body, base, ls).Ok?
    ensures var (s, e) := LoopSpan(ls).value;
      p in LoopOf(body, base, ls).value.originals <==> exists j :: s <= j < e && ls[j].para == p
  {
    var (s, e) := LoopSpan(ls).value;
    ParasMembers(ls, s, e, p);
  }

  /** The loop start comes first among the originals, which are distinct,
      in document order, and lie in the body at or after it. */
  predicate LoopIn(body: seq<Para>, lp: Loop)
  {
    |lp.originals| > 0 && lp.originals[0] == lp.start && Increasing(lp.originals) &&
    forall k :: 0 <= k < |lp.originals| ==> lp.start <= lp.originals[k] < |body|
  }

  lemma ExtractBounds(body: seq<Para>, a: nat)
    requires a < |body| && ExtractSpec(body, a).Ok?
    ensures LoopIn(body, ExtractSpec(body, a).value)
    ensures |ExtractSpec(body, a).value.fragment| == |ExtractSpec(body, a).value.originals|
  {
    LoopShape(body, SiblingBase(body, a), SiblingLeaves(body, a));
  }

  /** A found loop: its originals are distinct paragraphs after the anchor
      (the anchor itself when it has no next sibling), in document order,
      the first of them the loop start, and each copied once, in the same
      order; they are exactly the paragraphs holding the leaves from the
      opening one to the closing one. */
  lemma ExtractShape(body: seq<Para>, a: nat)
    requires a < |body| && ExtractSpec(body, a).Ok?
    ensures var lp := ExtractSpec(body, a).value;
      |lp.originals| == |lp.fragment| > 0 && lp.originals[0] == lp.start && Increasing(lp.originals) &&
      (forall k :: 0 <= k < |lp.originals| ==>
         SiblingBase(body, a) <= lp.originals[k] < |body| && lp.fragment[k] == body[lp.originals[k]])
    ensures var ls := SiblingLeaves(body, a);
      var (s, e) := LoopSpan(ls).value;
      forall p :: p in ExtractSpec(body, a).value.originals <==> exists j :: s <= j < e && ls[j].para == p
  {
    LoopShape(body, SiblingBase(body, a), SiblingLeaves(body, a));
    forall p
      ensures p in ExtractSpec(body, a).value.originals <==>
        exists j :: LoopSpan(SiblingLeaves(body, a)).value.0 <= j < LoopSpan(SiblingLeaves(body, a)).value.1 &&
          SiblingLeaves(body, a)[j].para == p
    {
      LoopMembers(body, SiblingBase(body, a), SiblingLeaves(body, a), p);
    }
  }

  /** The loop extractor fails only for its markers. */
  lemma ExtractErrors(body: seq<Para>, a: nat)
    requires a < |body| && ExtractSpec(body, a).Err?
    ensures ExtractSpec(body, a).error in {NoLoopStart, LoopEndBeforeStart, NestedLoop}
  {
    var ls := SiblingLeaves(body, a);
    assert LoopSpan(ls).Err?;
    SpanErr(body, SiblingBase(body, a), ls);
  }

  /** The loop opens at the first marked sibling leaf, which holds `<`. */
  lemma ExtractStartsAtFirstMarker(body: seq<Para>, a: nat)
    requires a < |body| && ExtractSpec(body, a).Ok?
    ensures exists s :: (0 <= s < |SiblingLeaves(body, a)| &&
      NoMarkers(SiblingLeaves(body, a), 0, s) && '<' in SiblingLeaves(body, a)[s].text &&
      SiblingLeaves(body, a)[s].para == ExtractSpec(body, a).value.start)
  {
    var ls := SiblingLeaves(body, a);
    var s := FirstMarker(ls, 0).value;
    assert NoMarkers(ls, 0, s) && '<' in ls[s].text;
  }

  /** With no marker among the sibling leaves there is no loop. */
  lemma NoStartFails(body: seq<Para>, a: nat)
    requires a < |body| && NoMarkers(SiblingLeaves(body, a), 0, |SiblingLeaves(body, a)|)
    ensures ExtractSpec(body, a) == Err(NoLoopStart)
  {
  }

  /** The value a record gives a key: `str(record[key])`, or empty when the
      record lacks it. */
  function Value(rec: map<string, string>, key: string): string
  {
    if key in rec then rec[key] else []
  }

  /** The union of the records' keys. */
  ghost predicate KeyOfSome(recs: seq<map<string, string>>, k: string)
  {
    exists i :: 0 <= i < |recs| && k in recs[i]
  }

  /** The union of the keys of the records before `i`. */
  ghost function KeysBefore(recs: seq<map<string, string>>, i: nat): set<string>
    requires i <= |recs|
  {
    if i == 0 then {} else KeysBefore(recs, i - 1) + recs[i - 1].Keys
  }

  lemma {:induction false} KeysBeforeUnion(recs: seq<map<string, string>>, i: nat)
    requires i <= |recs|
    ensures forall k :: k in KeysBefore(recs, i) <==> exists j :: 0 <= j < i && k in recs[j]
  {
    if i > 0 {
      KeysBeforeUnion(recs, i - 1);
    }
  }

  /** `_get_all_keys_in_list_of_dicts`: the union of the records' keys,
      listed once each, in the arbitrary order of `list(set)`. */
  method GetAllKeys(recs: seq<map<string, string>>) returns (keys: seq<string>)
    ensures forall k :: k in keys <==> KeyOfSome(recs, k)
    ensures forall i, j :: 0 <= i < j < |keys| ==> keys[i] != keys[j]
  {
    var found: set<string> := {};
    var i := 0;
    while i < |recs|
      invariant 0 <= i <= |recs| && found == KeysBefore(recs, i)
    {
      var rest := recs[i].Keys;
      while rest != {}
        invariant rest <= recs[i].Keys
        invariant found == KeysBefore(recs, i) + (recs[i].Keys - rest)
        decreases |rest|
      {
        var k :| k in rest;
        found := found + {k};
        rest := rest - {k};
      }
      i := i + 1;
    }
    KeysBeforeUnion(recs, |recs|);
    keys := ListOf(found);
  }

  /** `list(s)`: every member once, in some order. */
  method ListOf(s: set<string>) returns (keys: seq<string>)
    ensures forall k :: k in keys <==> k in s
    ensures forall i, j :: 0 <= i < j < |keys| ==> keys[i] != keys[j]
  {
    keys := [];
    var left := s;
    while left != {}
      invariant left <= s
      invariant forall k :: k in keys <==> k in s && k !in left
      invariant forall i, j :: 0 <= i < j < |keys| ==> keys[i] != keys[j]
      decreases |left|
    {
      var k :| k in left;
      keys := keys + [k];
      left := left - {k};
    }
  }

  /** A leaf of a loop copy with its markers stripped: each of `<` and `>`
      is removed wherever it occurs when the leaf holds one. */
  function StripMarkers(t: string): string
  {
    var u := if '<' in t then RemoveChar(t, '<') else t;
    if '>' in t then RemoveChar(u, '>') else u
  }

  /** Each key of `keys` in turn: every `[key]` becomes the record's value. */
  function SubstituteKeys(t: string, keys: seq<string>, rec: map<string, string>): string
    decreases |keys|
  {
    if keys == [] then t
    else SubstituteKeys(ReplaceAll(t, "[" + keys[0] + "]", Value(rec, keys[0])), keys[1..], rec)
  }

  /** The text of one leaf of a loop copy for the record `rec`. */
  function InstanceLeaf(t: string, keys: seq<string>, rec: map<string, string>): string
  {
    var u := StripMarkers(t);
    if u == [] then u else SubstituteKeys(u, keys, rec)
  }

  /** The leaf loop of `_find_subtags_in_loop` on one leaf. */
  method InstanceText(t: string, keys: seq<string>, rec: map<string, string>) returns (u: string)
    ensures u == InstanceLeaf(t, keys, rec)
  {
    u := t;
    if '<' in t {
      u := RemoveChar(u, '<');
    }
    if '>' in t {
      u := RemoveChar(u, '>');
    }
    if u != [] {
      var i := 0;
      while i < |keys|
        invariant 0 <= i <= |keys|
        invariant SubstituteKeys(u, keys[i..], rec) == InstanceLeaf(t, keys, rec)
      {
        assert keys[i..][1..] == keys[i + 1..];
        var key := keys[i];
        u := ReplaceAll(u, "[" + key + "]", Value(rec, key));
        i := i + 1;
      }
    }
  }

  /** Text produced by substitution comes from the leaf or from the values. */
  lemma {:induction false} SubstituteChars(t: string, keys: seq<string>, rec: map<string, string>, c: char)
    requires c !in t && forall k :: k in keys && k in rec ==> c !in rec[k]
    ensures c !in SubstituteKeys(t, keys, rec)
    decreases |keys|
  {
    if keys != [] {
      SubstituteChars(ReplaceAll(t, "[" + keys[0] + "]", Value(rec, keys[0])), keys[1..], rec, c);
    }
  }

  /** No loop marker survives in a copy, unless a record value brings one. */
  lemma InstanceHasNoMarkers(t: string, keys: seq<string>, rec: map<string, string>)
    requires forall k :: k in keys && k in rec ==> '<' !in rec[k] && '>' !in rec[k]
    ensures '<' !in InstanceLeaf(t, keys, rec) && '>' !in InstanceLeaf(t, keys, rec)
  {
    var u := StripMarkers(t);
    if u != [] {
      SubstituteChars(u, keys, rec, '<');
      SubstituteChars(u, keys, rec, '>');
    }
  }

  /** A leaf text seen as literal text and `[name]` fields. */
  datatype Piece = Lit(text: string) | Field(name: string)

  function Show(p: Piece): string
  {
    match p
    case Lit(t) => t
    case Field(n) => "[" + n + "]"
  }

  function Render(ps: seq<Piece>): string
    decreases |ps|
  {
    if ps == [] then [] else Show(ps[0]) + Render(ps[1..])
  }

  /** The intended result: each field replaced by the record's value. */
  function Fill(ps: seq<Piece>, rec: map<string, string>): string
    decreases |ps|
  {
    if ps == [] then []
    else (match ps[0] case Lit(t) => t case Field(n) => Value(rec, n)) + Fill(ps[1..], rec)
  }

  predicate NoBracket(s: string)
  {
    '[' !in s && ']' !in s
  }

  /** Literal text holds no `[`, field names no bracket. */
  predicate Template(ps: seq<Piece>)
  {
    forall k :: 0 <= k < |ps| ==> PieceOk(ps[k])
  }

  function Names(ps: seq<Piece>): set<string>
    decreases |ps|
  {
    if ps == [] then {} else (if ps[0].Field? then {ps[0].name} else {}) + Names(ps[1..])
  }

  /** The template with the field `key` filled with `v`. */
  function FillField(ps: seq<Piece>, key: string, v: string): (r: seq<Piece>)
    ensures |r| == |ps|
    ensures forall k :: 0 <= k < |ps| ==> r[k] == if ps[k] == Field(key) then Lit(v) else ps[k]
    decreases |ps|
  {
    if ps == [] then []
    else [if ps[0] == Field(key) then Lit(v) else ps[0]] + FillField(ps[1..], key, v)
  }

  predicate PieceOk(p: Piece)
  {
    match p case Lit(t) => '[' !in t case Field(n) => NoBracket(n)
  }

  function FillOne(p: Piece, key: string, v: string): Piece
  {
    if p == Field(key) then Lit(v) else p
  }

  /** The field `[key]` itself is replaced. */
  lemma ReplaceKeyField(key: string, rest: string, v: string)
    ensures ReplaceAll("[" + key + "]" + rest, "[" + key + "]", v) == v + ReplaceAll(rest, "[" + key + "]", v)
  {
    var pat := "[" + key + "]";
    var x := pat + rest;
    assert pat <= x;
    assert x[|pat|..] == rest;
  }

  /** Any other field is kept as it is. */
  lemma ReplaceOtherField(n: string, key: string, rest: string, v: string)
    requires NoBracket(n) && ']' !in key && n != key
    ensures ReplaceAll("[" + n + "]" + rest, "[" + key + "]", v) == "[" + n + "]" + ReplaceAll(rest, "[" + key + "]", v)
  {
    var pat := "[" + key + "]";
    var x := "[" + n + "]" + rest;
    FieldsDiffer(n, key, rest);
    assert x[1..] == (n + "]") + rest;
    assert '[' !in n + "]";
    ReplaceAfterPlain(n + "]", rest, pat, v);
    assert [x[0]] + (n + "]") == "[" + n + "]";
  }

  lemma ReplaceFieldHead(p: Piece, rest: string, key: string, v: string)
    requires PieceOk(p) && ']' !in key
    ensures ReplaceAll(Show(p) + rest, "[" + key + "]", v) == Show(FillOne(p, key, v)) + ReplaceAll(rest, "[" + key + "]", v)
  {
    match p
    case Lit(t) =>
      ReplaceAfterPlain(t, rest, "[" + key + "]", v);
    case Field(n) =>
      if n == key {
        ReplaceKeyField(key, rest, v);
      } else {
        ReplaceOtherField(n, key, rest, v);
      }
  }

  lemma {:induction false} ReplaceOneField(ps: seq<Piece>, key: string, v: string)
    requires Template(ps) && ']' !in key
    ensures ReplaceAll(Render(ps), "[" + key + "]", v) == Render(FillField(ps, key, v))
    decreases |ps|
  {
    if ps != [] {
      assert PieceOk(ps[0]);
      assert Template(ps[1..]) by {
        assert forall k :: 0 <= k < |ps| - 1 ==> ps[1..][k] == ps[k + 1];
      }
      ReplaceOneField(ps[1..], key, v);
      ReplaceFieldHead(ps[0], Render(ps[1..]), key, v);
      assert FillField(ps, key, v)[1..] == FillField(ps[1..], key, v);
      assert FillField(ps, key, v)[0] == FillOne(ps[0], key, v);
    }
  }

  /** `[key]` is not a prefix of `[n]` followed by anything, for distinct
      bracket-free names. */
  lemma FieldsDiffer(n: string, key: string, rest: string)
    requires NoBracket(n) && ']' !in key && n != key
    ensures !("[" + key + "]" <= "[" + n + "]" + rest)
  {
    var pat := "[" + key + "]";
    var x := "[" + n + "]" + rest;
    if |key| < |n| {
      assert n[|key|] in n;
      assert pat[|key| + 1] != x[|key| + 1];
    } else if |key| > |n| {
      assert key[|n|] in key;
      assert pat[|n| + 1] != x[|n| + 1];
    } else {
      assert !(forall j :: 0 <= j < |n| ==> n[j] == key[j]);
      var j :| 0 <= j < |n| && n[j] != key[j];
      assert pat[j + 1] != x[j + 1];
    }
  }

  lemma {:induction false} FillFieldKeepsFill(ps: seq<Piece>, key: string, rec: map<string, string>)
    ensures Fill(FillField(ps, key, Value(rec, key)), rec) == Fill(ps, rec)
    ensures Names(FillField(ps, key, Value(rec, key))) == Names(ps) - {key}
    decreases |ps|
  {
    if ps != [] {
      FillFieldKeepsFill(ps[1..], key, rec);
      assert FillField(ps, key, Value(rec, key))[1..] == FillField(ps[1..], key, Value(rec, key));
    }
  }

  lemma {:induction false} NoNamesRenderFill(ps: seq<Piece>, rec: map<string, string>)
    requires Names(ps) == {}
    ensures Render(ps) == Fill(ps, rec)
    decreases |ps|
  {
    if ps != [] {
      NoNamesRenderFill(ps[1..], rec);
    }
  }

  /** Substituting the keys one after the other, in any order, fills every
      field of the template with the record's value (empty when the record
      lacks the key), provided every field name is among the keys, no key
      holds `]` and no value holds `[`. */
  lemma {:induction false} SubstituteFills(ps: seq<Piece>, keys: seq<string>, rec: map<string, string>)
    requires Template(ps) && Names(ps) <= set k | k in keys
    requires forall k :: k in keys ==> ']' !in k && '[' !in Value(rec, k)
    ensures SubstituteKeys(Render(ps), keys, rec) == Fill(ps, rec)
    decreases |keys|
  {
    if keys == [] {
      NoNamesRenderFill(ps, rec);
    } else {
      var key := keys[0];
      var ps' := FillField(ps, key, Value(rec, key));
      ReplaceOneField(ps, key, Value(rec, key));
      FillFieldKeepsFill(ps, key, rec);
      assert Template(ps');
      assert Names(ps') <= set k | k in keys[1..] by {
        forall n | n in Names(ps')
          ensures n in keys[1..]
        {
          assert n in keys && n != key;
        }
      }
      SubstituteFills(ps', keys[1..], rec);
    }
  }

  lemma {:induction false} RenderFree(ps: seq<Piece>, c: char)
    requires c != '[' && c != ']'
    requires forall k :: 0 <= k < |ps| ==> c !in Show(ps[k])
    ensures c !in Render(ps)
    decreases |ps|
  {
    if ps != [] {
      assert forall k :: 0 <= k < |ps| - 1 ==> ps[1..][k] == ps[k + 1];
      RenderFree(ps[1..], c);
    }
  }

  /** A copy's leaf written as a marker-free template comes out filled
      with the record, whatever order the keys are listed in, provided every
      field name is among the keys, no key holds `]` and no value holds `[`. */
  lemma InstanceFills(ps: seq<Piece>, keys: seq<string>, rec: map<string, string>)
    requires Template(ps) && Names(ps) <= set k | k in keys
    requires forall k :: 0 <= k < |ps| ==> !IsMarked(Show(ps[k]))
    requires forall k :: k in keys ==> ']' !in k && '[' !in Value(rec, k)
    ensures InstanceLeaf(Render(ps), keys, rec) == Fill(ps, rec)
  {
    RenderFree(ps, '<');
    RenderFree(ps, '>');
    SubstituteFills(ps, keys, rec);
    if Render(ps) == [] {
      EmptySubstitution(keys, rec);
    }
  }

  /** Without the conditions of `InstanceFills` the key order matters: a
      value that spells another key's field is filled in only when that key
      comes later in the listing. */
  lemma KeyOrderMatters()
    ensures var rec := map["a" := "[b]", "b" := "x"];
      InstanceLeaf("[a]", ["a", "b"], rec) == "x" && InstanceLeaf("[a]", ["b", "a"], rec) == "[b]"
  {
    var rec := map["a" := "[b]", "b" := "x"];
    assert StripMarkers("[a]") == "[a]" by {
      assert '<' !in "[a]" && '>' !in "[a]";
    }
    // Key `a` first: its value brings the field `[b]`, which key `b` then fills.
    ReplaceHead("[a]", [], "[b]");
    assert ReplaceAll("[a]", "[a]", "[b]") == "[b]";
    ReplaceHead("[b]", [], "x");
    assert ReplaceAll("[b]", "[b]", "x") == "x";
    assert SubstituteKeys("[a]", ["a", "b"], rec) == SubstituteKeys("x", [], rec);
    // Key `b` first: there is no `[b]` yet, and key `a` then brings one that stays.
    assert ReplaceAll("[a]", "[b]", "x") == "[a]" by {
      assert !("[b]" <= "[a]") && !("[b]" <= "a]") && !("[b]" <= "]");
      assert "[a]"[1..] == "a]" && "a]"[1..] == "]" && "]"[1..] == [];
    }
    assert SubstituteKeys("[a]", ["b", "a"], rec) == SubstituteKeys("[b]", [], rec);
  }

  lemma {:induction false} EmptySubstitution(keys: seq<string>, rec: map<string, string>)
    ensures SubstituteKeys([], keys, rec) == []
    decreases |keys|
  {
    if keys != [] {
      EmptySubstitution(keys[1..], rec);
    }
  }
}
