/** The loop expansion of `_find_subtags_in_loop`: one copy of the loop
    paragraphs per record, with fresh identities, inserted after the loop
    start paragraph; then the original loop paragraphs are removed, and the
    anchor's paragraph too when its leaf is a `[!section]` heading. */
module Splice {
  import opened Base
  import opened Text
  import opened Document
  import opened Loops

  function InstanceRun(run: Run, keys: seq<string>, rec: map<string, string>): Run
  {
    match run.leaf
    case Some(t) => Run(Some(InstanceLeaf(t, keys, rec)))
    case None => run
  }

  function InstanceRuns(runs: seq<Run>, keys: seq<string>, rec: map<string, string>): (r: seq<Run>)
    ensures |r| == |runs|
  {
    seq(|runs|, k requires 0 <= k < |runs| => InstanceRun(runs[k], keys, rec))
  }

  /** The copy of the loop paragraphs for one record, its paragraphs given
      the identities `firstId`, `firstId + 1`, ... */
  function Instance(fragment: seq<Para>, keys: seq<string>, rec: map<string, string>, firstId: nat): (r: seq<Para>)
    ensures |r| == |fragment|
  {
    seq(|fragment|, k requires 0 <= k < |fragment| =>
      Para(firstId + k, InstanceRuns(fragment[k].runs, keys, rec)))
  }

  /** The copies for all records, in record order. */
  function Instances(fragment: seq<Para>, recs: seq<map<string, string>>, keys: seq<string>, nextId: nat): seq<Para>
    decreases |recs|
  {
    if recs == [] then []
    else
      var n := |recs| - 1;
      Instances(fragment, recs[..n], keys, nextId) + Instance(fragment, keys, recs[n], nextId + n * |fragment|)
  }

  lemma {:induction false} MulMono(a: nat, b: nat, c: nat)
    requires a <= b
    ensures a * c <= b * c
    decreases b - a
  {
    if a < b {
      MulMono(a + 1, b, c);
      assert (a + 1) * c == a * c + c;
    }
  }

  lemma {:induction false} InstancesLength(fragment: seq<Para>, recs: seq<map<string, string>>, keys: seq<string>, nextId: nat)
    ensures |Instances(fragment, recs, keys, nextId)| == |recs| * |fragment|
    decreases |recs|
  {
    if recs != [] {
      var n := |recs| - 1;
      InstancesLength(fragment, recs[..n], keys, nextId);
      assert n * |fragment| + |fragment| == |recs| * |fragment|;
    }
  }

  /** There are |recs| copies of |fragment| paragraphs each, and the i-th
      paragraph inserted gets the identity `nextId + i`. */
  lemma {:induction false} InstancesIds(fragment: seq<Para>, recs: seq<map<string, string>>, keys: seq<string>, nextId: nat)
    ensures var flat := Instances(fragment, recs, keys, nextId);
      |flat| == |recs| * |fragment| && forall i :: 0 <= i < |flat| ==> flat[i].id == nextId + i
    decreases |recs|
  {
    InstancesLength(fragment, recs, keys, nextId);
    if recs != [] {
      var n := |recs| - 1;
      InstancesIds(fragment, recs[..n], keys, nextId);
    }
  }

  /** Paragraph `k` of the copy for record `r` sits at `r * F + k` and is
      paragraph `k` of the loop with every leaf instanced for that record. */
  lemma {:induction false} InstancesAt(fragment: seq<Para>, recs: seq<map<string, string>>, keys: seq<string>,
                                       nextId: nat, r: nat, k: nat)
    requires r < |recs| && k < |fragment|
    ensures r * |fragment| + k < |Instances(fragment, recs, keys, nextId)|
    ensures Instances(fragment, recs, keys, nextId)[r * |fragment| + k] ==
      Para(nextId + r * |fragment| + k, InstanceRuns(fragment[k].runs, keys, recs[r]))
    decreases |recs|
  {
    var n := |recs| - 1;
    var f := |fragment|;
    InstancesLength(fragment, recs[..n], keys, nextId);
    InstancesLength(fragment, recs, keys, nextId);
    var prefix := Instances(fragment, recs[..n], keys, nextId);
    assert Instances(fragment, recs, keys, nextId) == prefix + Instance(fragment, keys, recs[n], nextId + n * f);
    if r < n {
      MulMono(r + 1, n, f);
      assert (r + 1) * f == r * f + f;
      InstancesAt(fragment, recs[..n], keys, nextId, r, k);
      assert recs[..n][r] == recs[r];
    } else {
      assert r * f + k - |prefix| == k;
    }
  }

  /** The body without the paragraphs whose identity is in `ids`, in order. */
  function Without(body: seq<Para>, ids: set<nat>): seq<Para>
  {
    if body == [] then []
    else Without(body[..|body| - 1], ids) + (if body[|body| - 1].id in ids then [] else [body[|body| - 1]])
  }

  lemma {:induction false} WithoutConcat(a: seq<Para>, b: seq<Para>, ids: set<nat>)
    ensures Without(a + b, ids) == Without(a, ids) + Without(b, ids)
    decreases |b|
  {
    if b != [] {
      var n := |b| - 1;
      var tail := if b[n].id in ids then [] else [b[n]];
      assert (a + b)[..|a + b| - 1] == a + b[..n];
      assert (a + b)[|a + b| - 1] == b[n];
      assert Without(a + b, ids) == Without(a + b[..n], ids) + tail;
      assert Without(b, ids) == Without(b[..n], ids) + tail;
      WithoutConcat(a, b[..n], ids);
      assert (Without(a, ids) + Without(b[..n], ids)) + tail == Without(a, ids) + (Without(b[..n], ids) + tail);
    } else {
      assert a + b == a;
    }
  }

  /** A paragraph survives exactly when its identity is not removed. */
  lemma {:induction false} WithoutMembers(xs: seq<Para>, ids: set<nat>, p: Para)
    ensures p in Without(xs, ids) <==> p in xs && p.id !in ids
    decreases |xs|
  {
    if xs != [] {
      var init := xs[..|xs| - 1];
      WithoutMembers(init, ids, p);
      assert xs == init + [xs[|xs| - 1]];
    }
  }

  lemma {:induction false} WithoutNone(a: seq<Para>, ids: set<nat>)
    requires forall i :: 0 <= i < |a| ==> a[i].id !in ids
    ensures Without(a, ids) == a
    decreases |a|
  {
    if a != [] {
      WithoutNone(a[..|a| - 1], ids);
    }
  }

  /** Every identity below `nextId`, and no two paragraphs alike. */
  predicate Fresh(body: seq<Para>, nextId: nat)
  {
    UniqueIds(body) && forall i :: 0 <= i < |body| ==> body[i].id < nextId
  }

  function OriginalIds(body: seq<Para>, originals: seq<nat>): set<nat>
    requires forall k :: 0 <= k < |originals| ==> originals[k] < |body|
  {
    set k | 0 <= k < |originals| :: body[originals[k]].id
  }

  lemma OriginalIdsSnoc(body: seq<Para>, originals: seq<nat>, k: nat)
    requires k < |originals| && forall j :: 0 <= j < |originals| ==> originals[j] < |body|
    ensures OriginalIds(body, originals[..k + 1]) ==
      OriginalIds(body, originals[..k]) + {body[originals[k]].id}
  {
    var pre, init := originals[..k + 1], originals[..k];
    forall x | x in OriginalIds(body, pre)
      ensures x in OriginalIds(body, init) + {body[originals[k]].id}
    {
      var i :| 0 <= i < |pre| && body[pre[i]].id == x;
      if i < k {
        assert init[i] == pre[i];
      }
    }
    forall x | x in OriginalIds(body, init)
      ensures x in OriginalIds(body, pre)
    {
      var i :| 0 <= i < |init| && body[init[i]].id == x;
      assert pre[i] == init[i];
    }
    assert pre[k] == originals[k];
  }

  /** The body with the paragraph of identity `id` removed, if it is a
      child of it (`paragraph.getparent().remove(paragraph)`). */
  function RemovePara(body: seq<Para>, id: nat): (r: Result<seq<Para>>)
  {
    match ParaPos(body, id)
    case None => Err(DetachedAnchor)
    case Some(q) => Ok(body[..q] + body[q + 1..])
  }

  /** The copies inserted after the loop start and the originals removed:
      the new body and the next free identity. */
  function Place(body: seq<Para>, nextId: nat, lp: Loop,
                 recs: seq<map<string, string>>, keys: seq<string>): (seq<Para>, nat)
    requires LoopIn(body, lp)
  {
    var flat := Instances(lp.fragment, recs, keys, nextId);
    (Without(body[..lp.start + 1] + flat + body[lp.start + 1..], OriginalIds(body, lp.originals)),
     nextId + |recs| * |lp.fragment|)
  }

  lemma PlaceOf(body: seq<Para>, nextId: nat, lp: Loop, recs: seq<map<string, string>>,
                keys: seq<string>, inserted: seq<Para>, b: seq<Para>, next: nat)
    requires LoopIn(body, lp)
    requires inserted == body[..lp.start + 1] + Instances(lp.fragment, recs, keys, nextId) + body[lp.start + 1..]
    requires b == Without(inserted, OriginalIds(body, lp.originals))
    requires next == nextId + |recs| * |lp.fragment|
    ensures (b, next) == Place(body, nextId, lp, recs, keys)
  {
    assert Place(body, nextId, lp, recs, keys).0 == b;
  }

  /** The whole of `_find_subtags_in_loop` for the section whose heading is
      the leaf `anchor`: the new body and the next free identity. */
  function ExpandSection(body: seq<Para>, nextId: nat, anchor: LeafRef,
                         recs: seq<map<string, string>>, keys: seq<string>): Result<(seq<Para>, nat)>
  {
    match ParaPos(body, anchor.para)
    case None => Err(DetachedAnchor)
    case Some(a) =>
      if anchor.run >= |body[a].runs| || body[a].runs[anchor.run].leaf.None? then Err(MissingNode)
      else ExpandFound(body, nextId, a, recs, keys, anchor.para, Occurs("[!", body[a].runs[anchor.run].leaf.value))
  }

  /** The heading sits in paragraph `a`: the loop after it, expanded. */
  function ExpandFound(body: seq<Para>, nextId: nat, a: nat, recs: seq<map<string, string>>,
                       keys: seq<string>, anchorId: nat, bang: bool): Result<(seq<Para>, nat)>
    requires a < |body|
  {
    match ExtractSpec(body, a)
    case Err(e) => Err(e)
    case Ok(lp) =>
      ExtractBounds(body, a);
      ExpandLoop(body, nextId, lp, recs, keys, anchorId, bang)
  }

  /** The copies placed, then the heading's paragraph (identity `anchorId`)
      removed when the heading reads `[!...]`. */
  function ExpandLoop(body: seq<Para>, nextId: nat, lp: Loop, recs: seq<map<string, string>>,
                      keys: seq<string>, anchorId: nat, bang: bool): Result<(seq<Para>, nat)>
    requires LoopIn(body, lp)
  {
    var placed := Place(body, nextId, lp, recs, keys);
    if bang then
      match RemovePara(placed.0, anchorId)
      case Err(e) => Err(e)
      case Ok(b) => Ok((b, placed.1))
    else Ok(placed)
  }

  /** Once the loop is found, the only failure left is a heading whose
      paragraph is no longer in the body. */
  lemma ExpandLoopErrors(body: seq<Para>, nextId: nat, lp: Loop, recs: seq<map<string, string>>,
                         keys: seq<string>, anchorId: nat, bang: bool)
    requires LoopIn(body, lp) && ExpandLoop(body, nextId, lp, recs, keys, anchorId, bang).Err?
    ensures bang && ExpandLoop(body, nextId, lp, recs, keys, anchorId, bang).error == DetachedAnchor
  {
  }

  /** Where everything lands: the paragraphs before the loop start stay, the
      copies follow in record order, then the paragraphs after the loop
      start that were not part of the loop. */
  lemma PlaceLayout(body: seq<Para>, nextId: nat, lp: Loop,
                    recs: seq<map<string, string>>, keys: seq<string>)
    requires Fresh(body, nextId) && LoopIn(body, lp)
    ensures Place(body, nextId, lp, recs, keys).0 ==
      body[..lp.start] + Instances(lp.fragment, recs, keys, nextId) +
      Without(body[lp.start + 1..], OriginalIds(body, lp.originals))
  {
    var ids := OriginalIds(body, lp.originals);
    var flat := Instances(lp.fragment, recs, keys, nextId);
    var s := lp.start;
    InstancesIds(lp.fragment, recs, keys, nextId);
    PrefixKept(body, lp.originals);
    FreshKept(body, nextId, lp.originals, flat);
    assert body[s].id in ids by {
      assert body[lp.originals[0]].id in ids;
    }
    SplitAt(body, s);
    SpliceWithout(body[..s], body[s], flat, body[s + 1..], ids);
  }

  /** A successful expansion found the heading's paragraph, its leaf and a
      loop after it, and is the expansion of that loop. */
  lemma ExpandIsPlace(body: seq<Para>, nextId: nat, anchor: LeafRef,
                      recs: seq<map<string, string>>, keys: seq<string>)
    requires ExpandSection(body, nextId, anchor, recs, keys).Ok?
    ensures ParaPos(body, anchor.para).Some?
    ensures var a := ParaPos(body, anchor.para).value;
      anchor.run < |body[a].runs| && body[a].runs[anchor.run].leaf.Some? &&
      ExtractSpec(body, a).Ok? && LoopIn(body, ExtractSpec(body, a).value) &&
      ExpandSection(body, nextId, anchor, recs, keys) ==
        ExpandLoop(body, nextId, ExtractSpec(body, a).value, recs, keys, anchor.para,
                   Occurs("[!", body[a].runs[anchor.run].leaf.value))
  {
    var a := ParaPos(body, anchor.para).value;
    ExtractBounds(body, a);
  }

  /** Once the heading's paragraph `a`, its leaf and the loop after it are
      found, the expansion of the section is the expansion of that loop. */
  lemma ExpandSectionFound(body: seq<Para>, nextId: nat, anchor: LeafRef, a: nat,
                           recs: seq<map<string, string>>, keys: seq<string>)
    requires ParaPos(body, anchor.para) == Some(a) && a < |body|
    requires anchor.run < |body[a].runs| && body[a].runs[anchor.run].leaf.Some?
    requires ExtractSpec(body, a).Ok?
    ensures LoopIn(body, ExtractSpec(body, a).value)
    ensures ExpandSection(body, nextId, anchor, recs, keys) ==
      ExpandLoop(body, nextId, ExtractSpec(body, a).value, recs, keys, anchor.para,
                 Occurs("[!", body[a].runs[anchor.run].leaf.value))
  {
    ExtractBounds(body, a);
    var bang := Occurs("[!", body[a].runs[anchor.run].leaf.value);
    assert ExpandSection(body, nextId, anchor, recs, keys) == ExpandFound(body, nextId, a, recs, keys, anchor.para, bang);
  }

  /** A successful loop expansion is the placement, followed by the removal
      of the heading's paragraph exactly when the heading reads `[!...]`. */
  lemma ExpandLoopIsPlace(body: seq<Para>, nextId: nat, lp: Loop, recs: seq<map<string, string>>,
                          keys: seq<string>, anchorId: nat, bang: bool)
    requires LoopIn(body, lp) && ExpandLoop(body, nextId, lp, recs, keys, anchorId, bang).Ok?
    ensures bang ==> RemovePara(Place(body, nextId, lp, recs, keys).0, anchorId).Ok?
    ensures var (spliced, next) := Place(body, nextId, lp, recs, keys);
      ExpandLoop(body, nextId, lp, recs, keys, anchorId, bang).value ==
        (if bang then RemovePara(spliced, anchorId).value else spliced, next)
  {
  }

  /** The paragraphs before the loop start are not part of the loop. */
  lemma PrefixKept(body: seq<Para>, originals: seq<nat>)
    requires UniqueIds(body) && originals != [] && originals[0] < |body|
    requires forall k :: 0 <= k < |originals| ==> originals[0] <= originals[k] < |body|
    ensures Without(body[..originals[0]], OriginalIds(body, originals)) == body[..originals[0]]
  {
    var s := originals[0];
    var ids := OriginalIds(body, originals);
    forall i | 0 <= i < s
      ensures body[..s][i].id !in ids
    {
      forall k | 0 <= k < |originals|
        ensures body[originals[k]].id != body[i].id
      {
        assert originals[k] != i;
      }
    }
    WithoutNone(body[..s], ids);
  }

  /** Copies carry fresh identities, so none of them is removed. */
  lemma FreshKept(body: seq<Para>, nextId: nat, originals: seq<nat>, flat: seq<Para>)
    requires Fresh(body, nextId)
    requires forall k :: 0 <= k < |originals| ==> originals[k] < |body|
    requires forall i :: 0 <= i < |flat| ==> flat[i].id >= nextId
    ensures Without(flat, OriginalIds(body, originals)) == flat
  {
    var ids := OriginalIds(body, originals);
    forall i | 0 <= i < |flat|
      ensures flat[i].id !in ids
    {
      forall k | 0 <= k < |originals|
        ensures body[originals[k]].id != flat[i].id
      {
        assert body[originals[k]].id < nextId;
      }
    }
    WithoutNone(flat, ids);
  }

  /** The removal after the insertion: the loop start goes, the paragraphs
      before it and the fresh copies stay. */
  lemma SpliceWithout(pre: seq<Para>, x: Para, flat: seq<Para>, rest: seq<Para>, ids: set<nat>)
    requires Without(pre, ids) == pre && Without(flat, ids) == flat && x.id in ids
    ensures Without(pre + [x] + flat + rest, ids) == pre + flat + Without(rest, ids)
  {
    WithoutConcat(pre + [x] + flat, rest, ids);
    WithoutConcat(pre + [x], flat, ids);
    WithoutConcat(pre, [x], ids);
    WithoutDropped(x, ids);
    assert Without(pre + [x], ids) == pre;
  }

  lemma WithoutDropped(x: Para, ids: set<nat>)
    requires x.id in ids
    ensures Without([x], ids) == []
  {
    assert [x][..0] == [];
  }

  lemma WithoutFresh(body: seq<Para>, nextId: nat, ids: set<nat>)
    requires Fresh(body, nextId)
    ensures Fresh(Without(body, ids), nextId)
    decreases |body|
  {
    if body != [] {
      var init := body[..|body| - 1];
      assert Fresh(init, nextId);
      WithoutFresh(init, nextId, ids);
      var w := Without(init, ids);
      forall i | 0 <= i < |w|
        ensures w[i].id != body[|body| - 1].id
      {
        WithoutMembers(init, ids, w[i]);
        var j :| 0 <= j < |init| && init[j] == w[i];
        assert body[j] == w[i];
      }
    }
  }

  lemma RemoveFresh(body: seq<Para>, nextId: nat, id: nat)
    requires Fresh(body, nextId) && RemovePara(body, id).Ok?
    ensures Fresh(RemovePara(body, id).value, nextId)
  {
    var q := ParaPos(body, id).value;
    var r := body[..q] + body[q + 1..];
    assert RemovePara(body, id).value == r;
    forall i | 0 <= i < |r|
      ensures r[i] == body[if i < q then i else i + 1]
    {
    }
    forall i, j | 0 <= i < j < |r|
      ensures r[i].id != r[j].id
    {
      assert r[i] == body[if i < q then i else i + 1];
      assert r[j] == body[if j < q then j else j + 1];
    }
  }

  /** Fresh copies inserted between two halves of a body keep the
      identities unique. */
  lemma InsertFresh(pre: seq<Para>, flat: seq<Para>, post: seq<Para>, nextId: nat)
    requires Fresh(pre + post, nextId)
    requires forall i :: 0 <= i < |flat| ==> flat[i].id == nextId + i
    ensures Fresh(pre + flat + post, nextId + |flat|)
  {
    var whole := pre + flat + post;
    var old_ := pre + post;
    forall i | 0 <= i < |whole|
      ensures whole[i].id < nextId + |flat|
    {
      if i < |pre| {
        assert whole[i] == old_[i];
      } else if i >= |pre| + |flat| {
        assert whole[i] == old_[i - |flat|];
      }
    }
    forall i, j | 0 <= i < j < |whole|
      ensures whole[i].id != whole[j].id
    {
      var inI := |pre| <= i < |pre| + |flat|;
      var inJ := |pre| <= j < |pre| + |flat|;
      if !inI && !inJ {
        assert whole[i] == old_[if i < |pre| then i else i - |flat|];
        assert whole[j] == old_[if j < |pre| then j else j - |flat|];
      } else if !inI {
        assert whole[i] == old_[if i < |pre| then i else i - |flat|];
      } else if !inJ {
        assert whole[j] == old_[if j < |pre| then j else j - |flat|];
      }
    }
  }

  /** The placement keeps identities unique and below the new allocator,
      and none of the loop's original paragraphs survives it. */
  lemma PlaceFresh(body: seq<Para>, nextId: nat, lp: Loop,
                   recs: seq<map<string, string>>, keys: seq<string>)
    requires Fresh(body, nextId) && LoopIn(body, lp)
    ensures Fresh(Place(body, nextId, lp, recs, keys).0, Place(body, nextId, lp, recs, keys).1)
    ensures nextId <= Place(body, nextId, lp, recs, keys).1
    ensures forall p :: p in Place(body, nextId, lp, recs, keys).0 ==> p.id !in OriginalIds(body, lp.originals)
  {
    var ids := OriginalIds(body, lp.originals);
    var flat := Instances(lp.fragment, recs, keys, nextId);
    InstancesIds(lp.fragment, recs, keys, nextId);
    var s := lp.start;
    assert body[..s + 1] + body[s + 1..] == body;
    InsertFresh(body[..s + 1], flat, body[s + 1..], nextId);
    var whole := body[..s + 1] + flat + body[s + 1..];
    WithoutFresh(whole, nextId + |flat|, ids);
    forall p | p in Without(whole, ids)
      ensures p.id !in ids
    {
      WithoutMembers(whole, ids, p);
    }
  }

  /** The expanded body still has unique identities, all below the new
      allocator. */
  lemma ExpandKeepsFresh(body: seq<Para>, nextId: nat, anchor: LeafRef,
                         recs: seq<map<string, string>>, keys: seq<string>)
    requires Fresh(body, nextId) && ExpandSection(body, nextId, anchor, recs, keys).Ok?
    ensures var (b, next) := ExpandSection(body, nextId, anchor, recs, keys).value;
      Fresh(b, next) && nextId <= next
  {
    ExpandIsPlace(body, nextId, anchor, recs, keys);
    var a := ParaPos(body, anchor.para).value;
    var lp := ExtractSpec(body, a).value;
    ExpandLoopIsPlace(body, nextId, lp, recs, keys, anchor.para, Occurs("[!", body[a].runs[anchor.run].leaf.value));
    var (spliced, next) := Place(body, nextId, lp, recs, keys);
    PlaceFresh(body, nextId, lp, recs, keys);
    if Occurs("[!", body[a].runs[anchor.run].leaf.value) {
      RemoveFresh(spliced, next, anchor.para);
    }
  }

  /** None of the loop's original paragraphs survives the expansion. */
  lemma ExpandDropsTemplate(body: seq<Para>, nextId: nat, anchor: LeafRef,
                            recs: seq<map<string, string>>, keys: seq<string>)
    requires Fresh(body, nextId) && ExpandSection(body, nextId, anchor, recs, keys).Ok?
    ensures ParaPos(body, anchor.para).Some? && ExtractSpec(body, ParaPos(body, anchor.para).value).Ok?
    ensures LoopIn(body, ExtractSpec(body, ParaPos(body, anchor.para).value).value)
    ensures var lp := ExtractSpec(body, ParaPos(body, anchor.para).value).value;
      forall p :: p in ExpandSection(body, nextId, anchor, recs, keys).value.0 ==>
        p.id !in OriginalIds(body, lp.originals)
  {
    ExpandIsPlace(body, nextId, anchor, recs, keys);
    var a := ParaPos(body, anchor.para).value;
    var lp := ExtractSpec(body, a).value;
    ExpandLoopIsPlace(body, nextId, lp, recs, keys, anchor.para, Occurs("[!", body[a].runs[anchor.run].leaf.value));
    var (spliced, next) := Place(body, nextId, lp, recs, keys);
    PlaceFresh(body, nextId, lp, recs, keys);
    if Occurs("[!", body[a].runs[anchor.run].leaf.value) {
      RemoveSubset(spliced, anchor.para);
    }
  }

  lemma RemoveSubset(body: seq<Para>, id: nat)
    requires RemovePara(body, id).Ok?
    ensures forall p :: p in RemovePara(body, id).value ==> p in body
  {
    var q := ParaPos(body, id).value;
    forall p | p in body[..q] + body[q + 1..]
      ensures p in body
    {
    }
  }

  /** Paragraphs that keep their identities keep the body fresh. */
  lemma ShapeFresh(b1: seq<Para>, b2: seq<Para>, nextId: nat)
    requires SameShape(b1, b2) && Fresh(b1, nextId)
    ensures Fresh(b2, nextId)
  {
    assert forall i :: 0 <= i < |b2| ==> b2[i].id == b1[i].id;
  }

  /** In a body with unique identities, `body.remove(p)` drops exactly the
      paragraph `p`. */
  lemma RemoveIsWithout(body: seq<Para>, q: nat)
    requires UniqueIds(body) && q < |body|
    ensures RemovePara(body, body[q].id) == Ok(Without(body, {body[q].id}))
  {
    OthersKept(body, q);
    WithoutAt(body, q);
    assert ParaPos(body, body[q].id) == Some(q);
  }

  /** Removing the one paragraph at `q` when the others keep theirs. */
  lemma WithoutAt(body: seq<Para>, q: nat)
    requires q < |body|
    requires Without(body[..q], {body[q].id}) == body[..q]
    requires Without(body[q + 1..], {body[q].id}) == body[q + 1..]
    ensures Without(body, {body[q].id}) == body[..q] + body[q + 1..]
  {
    var ids := {body[q].id};
    var head := body[..q + 1];
    SplitAt(body, q);
    WithoutConcat(head, body[q + 1..], ids);
    WithoutConcat(body[..q], [body[q]], ids);
    WithoutDropped(body[q], ids);
    assert Without(head, ids) == body[..q];
  }

  lemma SplitAt(body: seq<Para>, q: nat)
    requires q < |body|
    ensures body[..q] + [body[q]] == body[..q + 1]
    ensures body[..q + 1] + body[q + 1..] == body
  {
  }

  /** Only the paragraph at `q` carries its identity. */
  lemma OthersKept(body: seq<Para>, q: nat)
    requires UniqueIds(body) && q < |body|
    ensures Without(body[..q], {body[q].id}) == body[..q]
    ensures Without(body[q + 1..], {body[q].id}) == body[q + 1..]
  {
    var ids := {body[q].id};
    var pre := body[..q];
    var post := body[q + 1..];
    forall i | 0 <= i < |pre|
      ensures pre[i].id !in ids
    {
      assert pre[i] == body[i];
    }
    WithoutNone(pre, ids);
    forall i | 0 <= i < |post|
      ensures post[i].id !in ids
    {
      assert post[i] == body[q + 1 + i];
    }
    WithoutNone(post, ids);
  }

  /** Removing in two rounds is removing the union. */
  lemma {:induction false} WithoutWithout(body: seq<Para>, s: set<nat>, t: set<nat>)
    ensures Without(Without(body, s), t) == Without(body, s + t)
    decreases |body|
  {
    if body != [] {
      var n := |body| - 1;
      var x := body[n];
      WithoutWithout(body[..n], s, t);
      var tail := if x.id in s then [] else [x];
      WithoutConcat(Without(body[..n], s), tail, t);
      if x.id !in s {
        assert [x][..0] == [];
        assert Without(tail, t) == (if x.id in t then [] else [x]);
      }
    }
  }
}
