/** The document tree: a body of paragraphs, each an ordered sequence of
    runs, each run holding at most one text leaf. A paragraph carries the
    identity of the element it stands for; deep copies get fresh
    identities. The traversals are the read-only generators of the engine:
    all text leaves in document order, and the leaves of the siblings that
    follow a paragraph. */
module Document {
  import opened Base

  datatype Run = Run(leaf: Option<string>)
  datatype Para = Para(id: nat, runs: seq<Run>)

  /** A text leaf, named by the identity of its paragraph and its run index. */
  datatype LeafRef = LeafRef(para: nat, run: nat)

  predicate UniqueIds(body: seq<Para>)
  {
    forall i, j :: 0 <= i < j < |body| ==> body[i].id != body[j].id
  }

  /** The texts of a run sequence's leaves, in order. */
  function RunTexts(runs: seq<Run>): seq<string>
  {
    if runs == [] then []
    else RunTexts(runs[..|runs| - 1]) + (match runs[|runs| - 1].leaf
                                          case Some(t) => [t]
                                          case None => [])
  }

  /** The identities of a run sequence's leaves, parallel to RunTexts. */
  function RunRefs(runs: seq<Run>, id: nat): (r: seq<LeafRef>)
    ensures |r| == |RunTexts(runs)|
    ensures forall k :: 0 <= k < |r| ==> r[k].para == id && r[k].run < |runs|
  {
    if runs == [] then []
    else RunRefs(runs[..|runs| - 1], id) + (if runs[|runs| - 1].leaf.Some?
                                             then [LeafRef(id, |runs| - 1)] else [])
  }

  /** Every text leaf of the body in document order (`_itertext`). */
  function Leaves(body: seq<Para>): seq<string>
  {
    if body == [] then [] else Leaves(body[..|body| - 1]) + RunTexts(body[|body| - 1].runs)
  }

  /** The identity of every text leaf, parallel to Leaves. */
  function LeafRefs(body: seq<Para>): (r: seq<LeafRef>)
    ensures |r| == |Leaves(body)|
  {
    if body == [] then []
    else LeafRefs(body[..|body| - 1]) + RunRefs(body[|body| - 1].runs, body[|body| - 1].id)
  }

  /** Same paragraphs with the same identities and the same runs, each run
      holding a leaf exactly when it did before. */
  predicate SameShape(b1: seq<Para>, b2: seq<Para>)
  {
    |b1| == |b2| && forall i :: 0 <= i < |b1| ==> SameParaShape(b1[i], b2[i])
  }

  predicate SameParaShape(p: Para, q: Para)
  {
    p.id == q.id && |p.runs| == |q.runs| &&
    forall r :: 0 <= r < |p.runs| ==> p.runs[r].leaf.Some? == q.runs[r].leaf.Some?
  }

  function WithRunTexts(runs: seq<Run>, texts: seq<string>): (r: seq<Run>)
    requires |texts| == |RunTexts(runs)|
    ensures |r| == |runs| && RunTexts(r) == texts
    ensures forall k :: 0 <= k < |runs| ==> r[k].leaf.Some? == runs[k].leaf.Some?
  {
    if runs == [] then []
    else
      var init := runs[..|runs| - 1];
      var m := |RunTexts(init)|;
      var prefix := WithRunTexts(init, texts[..m]);
      var last := if runs[|runs| - 1].leaf.Some? then Run(Some(texts[m])) else runs[|runs| - 1];
      assert (prefix + [last])[..|runs| - 1] == prefix;
      Halves(texts, m);
      prefix + [last]
  }

  /** Writes `texts` into the body's leaves, in document order, and changes
      nothing else. */
  function WithLeaves(body: seq<Para>, texts: seq<string>): (r: seq<Para>)
    requires |texts| == |Leaves(body)|
    ensures SameShape(body, r)
    ensures Leaves(r) == texts
  {
    if body == [] then []
    else
      var init := body[..|body| - 1];
      var p := body[|body| - 1];
      var m := |Leaves(init)|;
      var prefix := WithLeaves(init, texts[..m]);
      var last := Para(p.id, WithRunTexts(p.runs, texts[m..]));
      LastSplit(body);
      ShapeSnoc(init, prefix, p, last);
      LeavesSnoc(prefix, last);
      Halves(texts, m);
      prefix + [last]
  }

  lemma LastSplit(body: seq<Para>)
    requires body != []
    ensures body == body[..|body| - 1] + [body[|body| - 1]]
  {
  }

  lemma ShapeSnoc(b1: seq<Para>, b2: seq<Para>, p: Para, q: Para)
    requires SameShape(b1, b2) && SameParaShape(p, q)
    ensures SameShape(b1 + [p], b2 + [q])
  {
    assert forall i :: 0 <= i < |b1| ==> (b1 + [p])[i] == b1[i] && (b2 + [q])[i] == b2[i];
  }

  lemma LeavesSnoc(body: seq<Para>, p: Para)
    ensures Leaves(body + [p]) == Leaves(body) + RunTexts(p.runs)
  {
    assert (body + [p])[..|body|] == body;
  }

  /** `body.index(p)`: position of the first paragraph with this identity. */
  function ParaPos(body: seq<Para>, id: nat): (r: Option<nat>)
    ensures r.Some? ==> r.value < |body| && body[r.value].id == id &&
                        forall j :: 0 <= j < r.value ==> body[j].id != id
    ensures r.None? ==> forall j :: 0 <= j < |body| ==> body[j].id != id
  {
    if body == [] then None
    else if body[0].id == id then Some(0)
    else match ParaPos(body[1..], id)
      case Some(k) => Some(k + 1)
      case None => None
  }

  /** The current text of a registered leaf, if its paragraph is still a
      child of the body (`_get_parent_paragraph` and `node.text`). */
  function LeafText(body: seq<Para>, ref: LeafRef): (r: Option<string>)
    ensures r.Some? ==> ParaPos(body, ref.para).Some?
  {
    match ParaPos(body, ref.para)
    case None => None
    case Some(k) =>
      if ref.run < |body[k].runs| && body[k].runs[ref.run].leaf.Some?
      then Some(body[k].runs[ref.run].leaf.value) else None
  }

  /** The k-th leaf reference of a run sequence names the run holding the
      k-th leaf text. */
  lemma {:induction false} RunRefsText(runs: seq<Run>, id: nat, k: nat)
    requires k < |RunTexts(runs)|
    ensures var ref := RunRefs(runs, id)[k];
      ref.para == id && ref.run < |runs| && runs[ref.run].leaf == Some(RunTexts(runs)[k])
  {
    var init := runs[..|runs| - 1];
    var refs, texts := RunRefs(init, id), RunTexts(init);
    if k < |texts| {
      RunRefsText(init, id, k);
      assert RunRefs(runs, id)[k] == refs[k] && RunTexts(runs)[k] == texts[k];
    } else {
      assert runs[|runs| - 1].leaf.Some?;
      assert RunRefs(runs, id)[k] == LeafRef(id, |runs| - 1);
    }
  }

  /** The m-th leaf reference of the body names a paragraph and run that
      hold the m-th leaf text. */
  lemma {:induction false} LeafRefsAt(body: seq<Para>, m: nat) returns (k: nat)
    requires m < |Leaves(body)|
    ensures k < |body| && body[k].id == LeafRefs(body)[m].para
    ensures LeafRefs(body)[m].run < |body[k].runs|
    ensures body[k].runs[LeafRefs(body)[m].run].leaf == Some(Leaves(body)[m])
  {
    var n := |body| - 1;
    var init, p := body[..n], body[n];
    var refs, texts := LeafRefs(init), Leaves(init);
    var own, ownTexts := RunRefs(p.runs, p.id), RunTexts(p.runs);
    assert LeafRefs(body) == refs + own && Leaves(body) == texts + ownTexts;
    if m < |texts| {
      k := LeafRefsAt(init, m);
      assert LeafRefs(body)[m] == refs[m] && Leaves(body)[m] == texts[m];
    } else {
      var j := m - |texts|;
      RunRefsText(p.runs, p.id, j);
      assert LeafRefs(body)[m] == own[j] && Leaves(body)[m] == ownTexts[j];
      k := n;
    }
  }

  /** With unique identities, `body.index` of a paragraph is its position. */
  lemma ParaPosUnique(body: seq<Para>, k: nat)
    requires UniqueIds(body) && k < |body|
    ensures ParaPos(body, body[k].id) == Some(k)
  {
  }

  /** `_itertext` and the leaf references agree: with unique identities,
      reading the m-th leaf reference back gives the m-th leaf text. */
  lemma LeafRefsText(body: seq<Para>, m: nat)
    requires UniqueIds(body) && m < |Leaves(body)|
    ensures LeafText(body, LeafRefs(body)[m]) == Some(Leaves(body)[m])
  {
    var k := LeafRefsAt(body, m);
    ParaPosUnique(body, k);
  }

  /** A text leaf yielded by `_itersiblingtext`: body position of its
      paragraph, run index, text, and index of its sibling group. */
  datatype SibLeaf = SibLeaf(para: nat, run: nat, text: string, group: nat)

  /** Leaves in document order: their paragraphs never go back. */
  predicate Ascending(xs: seq<SibLeaf>)
  {
    forall i, j :: 0 <= i < j < |xs| ==> xs[i].para <= xs[j].para
  }

  /** Leaves in document order from paragraphs `base..n`, each numbered
      with its paragraph's offset from `base`. */
  predicate Grouped(xs: seq<SibLeaf>, base: nat, n: nat)
  {
    Ascending(xs) &&
    forall k :: 0 <= k < |xs| ==> base <= xs[k].para < n && xs[k].group == xs[k].para - base
  }

  function ParaLeaves(runs: seq<Run>, pos: nat, group: nat): (r: seq<SibLeaf>)
    ensures forall k :: 0 <= k < |r| ==>
      (r[k].para == pos && r[k].group == group && r[k].run < |runs| &&
       runs[r[k].run].leaf == Some(r[k].text))
  {
    if runs == [] then []
    else ParaLeaves(runs[..|runs| - 1], pos, group) +
         (match runs[|runs| - 1].leaf
          case Some(t) => [SibLeaf(pos, |runs| - 1, t, group)]
          case None => [])
  }

  /** Leaves of body[base..to], each tagged with its paragraph's offset from `base`. */
  function SpanLeaves(body: seq<Para>, base: nat, to: nat): (r: seq<SibLeaf>)
    requires base <= to <= |body|
    ensures forall k :: 0 <= k < |r| ==>
      (base <= r[k].para < to && r[k].group == r[k].para - base &&
       r[k].run < |body[r[k].para].runs| && body[r[k].para].runs[r[k].run].leaf == Some(r[k].text))
    ensures forall i, j :: 0 <= i < j < |r| ==> r[i].para <= r[j].para
  {
    if to == base then []
    else SpanLeaves(body, base, to - 1) + ParaLeaves(body[to - 1].runs, to - 1, to - 1 - base)
  }

  /** Where `_itersiblingtext` starts: the paragraph itself when it has no
      next sibling, else its next sibling. */
  function SiblingBase(body: seq<Para>, a: nat): nat
  {
    if a + 1 == |body| then a else a + 1
  }

  /** `_itersiblingtext(body[a])`: with no next sibling, the paragraph's own
      leaves, all in group 0; otherwise the leaves of every following
      sibling, the i-th sibling's in group i. */
  function SiblingLeaves(body: seq<Para>, a: nat): (r: seq<SibLeaf>)
    requires a < |body|
    ensures forall k :: 0 <= k < |r| ==>
      (SiblingBase(body, a) <= r[k].para < |body| &&
       r[k].group == r[k].para - SiblingBase(body, a) &&
       r[k].run < |body[r[k].para].runs| && body[r[k].para].runs[r[k].run].leaf == Some(r[k].text))
    ensures Grouped(r, SiblingBase(body, a), |body|)
  {
    if a + 1 == |body| then SpanLeaves(body, a, a + 1) else SpanLeaves(body, a + 1, |body|)
  }

  /** The texts of sibling leaves, in order. */
  function Texts(xs: seq<SibLeaf>): seq<string>
  {
    if xs == [] then [] else Texts(xs[..|xs| - 1]) + [xs[|xs| - 1].text]
  }

  lemma {:induction false} TextsAppend(xs: seq<SibLeaf>, ys: seq<SibLeaf>)
    ensures Texts(xs + ys) == Texts(xs) + Texts(ys)
  {
    if ys == [] {
      assert xs + ys == xs;
    } else {
      assert (xs + ys)[..|xs + ys| - 1] == xs + ys[..|ys| - 1];
      TextsAppend(xs, ys[..|ys| - 1]);
    }
  }

  /** A paragraph yields the text of every one of its leaves. */
  lemma {:induction false} ParaLeavesComplete(runs: seq<Run>, pos: nat, group: nat)
    ensures Texts(ParaLeaves(runs, pos, group)) == RunTexts(runs)
  {
    if runs != [] {
      var init := runs[..|runs| - 1];
      ParaLeavesComplete(init, pos, group);
      var last := match runs[|runs| - 1].leaf
                  case Some(t) => [SibLeaf(pos, |runs| - 1, t, group)]
                  case None => [];
      TextsAppend(ParaLeaves(init, pos, group), last);
    }
  }

  /** The paragraphs `base..to` yield every text leaf they hold, in order. */
  lemma {:induction false} SpanLeavesComplete(body: seq<Para>, base: nat, to: nat)
    requires base <= to <= |body|
    ensures Texts(SpanLeaves(body, base, to)) == Leaves(body[base..to])
  {
    if to > base {
      var last := to - 1;
      var g: nat := last - base;
      var runs := body[last].runs;
      var init, own := SpanLeaves(body, base, last), ParaLeaves(runs, last, g);
      assert SpanLeaves(body, base, to) == init + own;
      SpanLeavesComplete(body, base, last);
      ParaLeavesComplete(runs, last, g);
      TextsAppend(init, own);
      SliceSnoc(body, base, last, to);
      LeavesSnoc(body[base..last], body[last]);
    } else {
      assert body[base..to] == [];
    }
  }

  /** `_itersiblingtext` yields the text of every leaf of the paragraphs it
      walks, in document order, and nothing else. */
  lemma SiblingLeavesComplete(body: seq<Para>, a: nat)
    requires a < |body|
    ensures Texts(SiblingLeaves(body, a)) == Leaves(body[SiblingBase(body, a)..])
  {
    SpanLeavesComplete(body, SiblingBase(body, a), |body|);
    assert body[SiblingBase(body, a)..|body|] == body[SiblingBase(body, a)..];
  }
}
