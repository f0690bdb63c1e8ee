/** The plugin object `Word2Resume`: a parsed document body that its
    methods rewrite in place, the resume data it is rendered from, and the
    `skip` flag. `ParseXml` runs the whole engine: normalize the tags, stop
    there when `skip` is set, otherwise resolve the top-level section tags
    and expand the loop of every registered section, in registry order. */
module Plugin {
  import opened Base
  import opened Text
  import opened Document
  import opened Normalizer
  import opened Resolver
  import opened Loops
  import opened Splice

  /** The records of one section, each a dictionary of key to value. */
  type Records = seq<map<string, string>>

  /** `keys` lists the union of the records' keys, each once. */
  ghost predicate KeyList(recs: Records, keys: seq<string>)
  {
    (forall k :: k in keys <==> KeyOfSome(recs, k)) &&
    (forall i, j :: 0 <= i < j < |keys| ==> keys[i] != keys[j])
  }

  /** Some listing of a finite set, each element once. */
  lemma {:induction false} ListOfSet(s: set<string>) returns (xs: seq<string>)
    ensures forall k :: k in xs <==> k in s
    ensures forall i, j :: 0 <= i < j < |xs| ==> xs[i] != xs[j]
    decreases |s|
  {
    if s == {} {
      xs := [];
    } else {
      var x :| x in s;
      var rest := ListOfSet(s - {x});
      xs := [x] + rest;
      assert forall i :: 0 < i < |xs| ==> xs[i] == rest[i - 1];
    }
  }

  /** Every record list has a key listing: the orders `list(set)` may give. */
  lemma KeyListExists(recs: Records)
    ensures exists keys :: KeyList(recs, keys)
  {
    var keys := ListOfSet(KeysBefore(recs, |recs|));
    KeysBeforeUnion(recs, |recs|);
    assert KeyList(recs, keys);
  }

  ghost function SomeKeyList(recs: Records): (r: seq<string>)
    ensures KeyList(recs, r)
  {
    KeyListExists(recs);
    var keys :| KeyList(recs, keys);
    keys
  }

  /** One key listing per section of the data. */
  ghost predicate KeyOrders(data: map<string, Records>, keysOf: map<string, seq<string>>)
  {
    forall name :: name in data ==> name in keysOf && KeyList(data[name], keysOf[name])
  }

  /** A key listing for every section. */
  ghost function AnyKeyOrders(data: map<string, Records>): (r: map<string, seq<string>>)
    ensures KeyOrders(data, r)
  {
    map name | name in data :: SomeKeyList(data[name])
  }

  lemma KeyOrdersPut(data: map<string, Records>, keysOf: map<string, seq<string>>, name: string, keys: seq<string>)
    requires KeyOrders(data, keysOf) && name in data && KeyList(data[name], keys)
    ensures KeyOrders(data, keysOf[name := keys])
  {
  }

  /** The first identity no paragraph of the body uses. */
  function NextFree(body: seq<Para>): (r: nat)
    ensures forall i :: 0 <= i < |body| ==> body[i].id < r
  {
    if body == [] then 0
    else
      var m := NextFree(body[..|body| - 1]);
      if body[|body| - 1].id + 1 > m then body[|body| - 1].id + 1 else m
  }

  /** The loop of `_parse_xml` over the first `n` registered sections, in
      registry order. */
  function ExpandUpTo(body: seq<Para>, nextId: nat, reg: Registry, data: map<string, Records>,
                      keysOf: map<string, seq<string>>, n: nat): Result<(seq<Para>, nat)>
    requires WellFormed(reg) && n <= |reg.order| && data.Keys <= keysOf.Keys
    decreases n, 1
  {
    if n == 0 then Ok((body, nextId))
    else ExpandAt(body, nextId, reg, data, keysOf, n - 1)
  }

  /** Pass `i` of that loop, after the passes before it: a section name that
      is not a key of the data is the `KeyError` of
      `resume_data[section_name]`. */
  function ExpandAt(body: seq<Para>, nextId: nat, reg: Registry, data: map<string, Records>,
                    keysOf: map<string, seq<string>>, i: nat): Result<(seq<Para>, nat)>
    requires WellFormed(reg) && i < |reg.order| && data.Keys <= keysOf.Keys
    decreases i + 1, 0
  {
    match ExpandUpTo(body, nextId, reg, data, keysOf, i)
    case Err(e) => Err(e)
    case Ok((b, next)) =>
      var name := reg.order[i];
      if name !in data then Err(MissingSection(name))
      else ExpandSection(b, next, reg.at[name], data[name], keysOf[name])
  }

  /** `_parse_xml` over the body, with the key listing `keysOf[name]` that
      `_get_all_keys_in_list_of_dicts` gives for each section. */
  function ParseSpec(body: seq<Para>, nextId: nat, data: map<string, Records>, skip: bool,
                     keysOf: map<string, seq<string>>): Result<(seq<Para>, nat)>
    requires data.Keys <= keysOf.Keys
  {
    match Collapse(Leaves(body))
    case Err(_) => Err(MalformedBrackets)
    case Ok(ls) =>
      var b := WithLeaves(body, ls);
      if skip then Ok((b, nextId))
      else
        var (tagged, reg) := FindTagsSpec(b, KnownKeys(data.Keys));
        FindTagsRegistry(b, KnownKeys(data.Keys), []);
        ExpandUpTo(tagged, nextId, reg, data, keysOf, |reg.order|)
  }

  /** Expansions only read the key listings of the sections they reach. */
  lemma {:induction false} ExpandUpToUpdate(body: seq<Para>, nextId: nat, reg: Registry, data: map<string, Records>,
                                            keysOf: map<string, seq<string>>, n: nat, name: string, keys: seq<string>)
    requires WellFormed(reg) && n <= |reg.order| && data.Keys <= keysOf.Keys
    requires forall j :: 0 <= j < n ==> reg.order[j] != name
    ensures ExpandUpTo(body, nextId, reg, data, keysOf[name := keys], n) == ExpandUpTo(body, nextId, reg, data, keysOf, n)
    decreases n
  {
    if n > 0 {
      ExpandUpToUpdate(body, nextId, reg, data, keysOf, n - 1, name, keys);
    }
  }

  /** The first failing section ends the render. */
  lemma {:induction false} ExpandUpToErr(body: seq<Para>, nextId: nat, reg: Registry, data: map<string, Records>,
                                         keysOf: map<string, seq<string>>, n: nat, m: nat)
    requires WellFormed(reg) && n <= m <= |reg.order| && data.Keys <= keysOf.Keys
    requires ExpandUpTo(body, nextId, reg, data, keysOf, n).Err?
    ensures ExpandUpTo(body, nextId, reg, data, keysOf, m) == ExpandUpTo(body, nextId, reg, data, keysOf, n)
    decreases m
  {
    if m > n {
      ExpandUpToErr(body, nextId, reg, data, keysOf, n, m - 1);
    }
  }

  /** What a method that rewrites the body in place reports against the
      outcome `r` of its specification: no error, with the new body and
      allocator, on success; the error otherwise. */
  predicate Reports(r: Result<(seq<Para>, nat)>, e: Option<Error>, b: seq<Para>, next: nat)
  {
    match r
    case Ok(v) => e.None? && (b, next) == v
    case Err(err) => e == Some(err)
  }

  /** The section loop over the first `n` registry entries, started from
      `body` and `nextId`, ends in the body `b` and allocator `next` and
      reports `e`. */
  ghost predicate Expanded(body: seq<Para>, nextId: nat, reg: Registry, data: map<string, Records>,
                           keysOf: map<string, seq<string>>, n: nat, e: Option<Error>, b: seq<Para>, next: nat)
    requires WellFormed(reg) && n <= |reg.order| && data.Keys <= keysOf.Keys
  {
    Reports(ExpandUpTo(body, nextId, reg, data, keysOf, n), e, b, next)
  }

  /** One more section: after the first `i` sections ended in `b0`, the
      expansion of registry entry `i` with the key listing `keys` is the
      loop over the first `i + 1`. */
  lemma ExpandStep(body: seq<Para>, nextId: nat, reg: Registry, data: map<string, Records>,
                   keysOf: map<string, seq<string>>, i: nat, keys: seq<string>,
                   b0: seq<Para>, n0: nat, e: Option<Error>, b: seq<Para>, next: nat)
    requires WellFormed(reg) && i < |reg.order| && data.Keys <= keysOf.Keys && reg.order[i] in data
    requires Expanded(body, nextId, reg, data, keysOf, i, None, b0, n0)
    requires Reports(ExpandSection(b0, n0, reg.at[reg.order[i]], data[reg.order[i]], keys), e, b, next)
    ensures Expanded(body, nextId, reg, data, keysOf[reg.order[i] := keys], i + 1, e, b, next)
  {
    ExpandUpToUpdate(body, nextId, reg, data, keysOf, i, reg.order[i], keys);
    assert ExpandUpTo(body, nextId, reg, data, keysOf[reg.order[i] := keys], i + 1) ==
      ExpandSection(b0, n0, reg.at[reg.order[i]], data[reg.order[i]], keys);
  }

  /** A section whose name the data lacks fails with that name. */
  lemma ExpandMissing(body: seq<Para>, nextId: nat, reg: Registry, data: map<string, Records>,
                      keysOf: map<string, seq<string>>, i: nat, b0: seq<Para>, n0: nat)
    requires WellFormed(reg) && i < |reg.order| && data.Keys <= keysOf.Keys && reg.order[i] !in data
    requires Expanded(body, nextId, reg, data, keysOf, i, None, b0, n0)
    ensures Expanded(body, nextId, reg, data, keysOf, i + 1, Some(MissingSection(reg.order[i])), b0, n0)
  {
    assert ExpandUpTo(body, nextId, reg, data, keysOf, i + 1) == Err(MissingSection(reg.order[i]));
  }

  /** A reported error is the outcome of the whole loop. */
  lemma ExpandedErr(body: seq<Para>, nextId: nat, reg: Registry, data: map<string, Records>,
                    keysOf: map<string, seq<string>>, n: nat, m: nat, e: Option<Error>, b: seq<Para>, next: nat)
    requires WellFormed(reg) && n <= m <= |reg.order| && data.Keys <= keysOf.Keys
    requires e.Some? && Expanded(body, nextId, reg, data, keysOf, n, e, b, next)
    ensures Expanded(body, nextId, reg, data, keysOf, m, e, b, next)
  {
    ExpandUpToErr(body, nextId, reg, data, keysOf, n, m);
  }

  /** With balanced brackets and `skip` unset, the render is the section
      loop over the resolved body. */
  lemma ParseUnfold(body: seq<Para>, nextId: nat, data: map<string, Records>, keysOf: map<string, seq<string>>)
    requires data.Keys <= keysOf.Keys && Collapse(Leaves(body)).Ok?
    ensures var tagged := FindTagsSpec(WithLeaves(body, Collapse(Leaves(body)).value), KnownKeys(data.Keys));
      WellFormed(tagged.1) &&
      ParseSpec(body, nextId, data, false, keysOf) ==
      ExpandUpTo(tagged.0, nextId, tagged.1, data, keysOf, |tagged.1.order|)
  {
    FindTagsRegistry(WithLeaves(body, Collapse(Leaves(body)).value), KnownKeys(data.Keys), []);
  }

  /** The errors of one section expansion come from the heading and the
      loop markers, never from the data. */
  lemma ExpandSectionErrors(body: seq<Para>, nextId: nat, anchor: LeafRef, recs: Records, keys: seq<string>)
    requires ExpandSection(body, nextId, anchor, recs, keys).Err?
    ensures ExpandSection(body, nextId, anchor, recs, keys).error in
      {DetachedAnchor, MissingNode, NoLoopStart, LoopEndBeforeStart, NestedLoop}
  {
    var r := ExpandSection(body, nextId, anchor, recs, keys);
    match ParaPos(body, anchor.para)
    case None =>
      assert r == Err(DetachedAnchor);
    case Some(a) =>
      if anchor.run >= |body[a].runs| || body[a].runs[anchor.run].leaf.None? {
        assert r == Err(MissingNode);
      } else {
        match ExtractSpec(body, a)
        case Err(e) =>
          assert r == Err(e);
          ExtractErrors(body, a);
        case Ok(lp) =>
          ExtractBounds(body, a);
          var bang := Occurs("[!", body[a].runs[anchor.run].leaf.value);
          assert r == ExpandLoop(body, nextId, lp, recs, keys, anchor.para, bang);
          ExpandLoopErrors(body, nextId, lp, recs, keys, anchor.para, bang);
      }
  }

  lemma {:induction false} ExpandUpToMissing(body: seq<Para>, nextId: nat, reg: Registry, data: map<string, Records>,
                                             keysOf: map<string, seq<string>>, n: nat, name: string)
    requires WellFormed(reg) && n <= |reg.order| && data.Keys <= keysOf.Keys
    requires ExpandUpTo(body, nextId, reg, data, keysOf, n) == Err(MissingSection(name))
    ensures name in reg.at && name !in data
    decreases n
  {
    match ExpandUpTo(body, nextId, reg, data, keysOf, n - 1)
    case Err(_) =>
      ExpandUpToMissing(body, nextId, reg, data, keysOf, n - 1, name);
    case Ok((b, next)) =>
      var section := reg.order[n - 1];
      if section in data {
        ExpandSectionErrors(b, next, reg.at[section], data[section], keysOf[section]);
      }
  }

  /** A render fails for a missing section only when the data spells that
      section with a capital letter: the tags are looked for under the
      lowercased data keys, and the records under the lowercased name. */
  lemma MissingSectionIsCapitalised(body: seq<Para>, nextId: nat, data: map<string, Records>, skip: bool,
                                    keysOf: map<string, seq<string>>, name: string)
    requires data.Keys <= keysOf.Keys
    requires ParseSpec(body, nextId, data, skip, keysOf) == Err(MissingSection(name))
    ensures name !in data
    ensures exists k :: k in data && Lower(k) == name && k != name
  {
    var b := WithLeaves(body, Collapse(Leaves(body)).value);
    var (tagged, reg) := FindTagsSpec(b, KnownKeys(data.Keys));
    FindTagsRegistry(b, KnownKeys(data.Keys), name);
    ExpandUpToMissing(tagged, nextId, reg, data, keysOf, |reg.order|, name);
    var k :| k in data && Lower(k) == name;
  }

  /** With `skip` set the render only normalizes. It fails exactly on
      malformed brackets; on balanced text it keeps the paragraphs, their
      identities and the text read in document order, and leaves every
      tag whole inside one leaf. */
  lemma SkipOnlyNormalizes(body: seq<Para>, nextId: nat, data: map<string, Records>,
                           keysOf: map<string, seq<string>>)
    requires data.Keys <= keysOf.Keys
    ensures ParseSpec(body, nextId, data, true, keysOf).Ok? <==> Track(Concat(Leaves(body)), false).Some?
    ensures Balanced(Concat(Leaves(body))) ==>
      ParseSpec(body, nextId, data, true, keysOf).Ok? &&
      var (b, next) := ParseSpec(body, nextId, data, true, keysOf).value;
      next == nextId && SameShape(body, b) && Concat(Leaves(b)) == Concat(Leaves(body)) &&
      forall j :: 0 <= j < |Leaves(b)| ==> Balanced(Leaves(b)[j])
  {
    NormalizeFailsIffMalformed(Leaves(body));
    if Balanced(Concat(Leaves(body))) {
      NormalizePreservesText(Leaves(body));
    }
  }

  /** One deep copy of a loop paragraph for one record, under identity `id`. */
  method InstanceParagraph(p: Para, keys: seq<string>, rec: map<string, string>, id: nat) returns (q: Para)
    ensures q == Para(id, InstanceRuns(p.runs, keys, rec))
  {
    var runs: seq<Run> := [];
    var r := 0;
    while r < |p.runs|
      invariant 0 <= r <= |p.runs| && |runs| == r
      invariant forall k :: 0 <= k < r ==> runs[k] == InstanceRun(p.runs[k], keys, rec)
    {
      var run := p.runs[r];
      if run.leaf.Some? {
        var u := InstanceText(run.leaf.value, keys, rec);
        run := Run(Some(u));
      }
      runs := runs + [run];
      r := r + 1;
    }
    q := Para(id, runs);
  }

  /** `copy.deepcopy(loop_tree)` and the leaf loop over the copy, for one record. */
  method MakeInstance(fragment: seq<Para>, keys: seq<string>, rec: map<string, string>, firstId: nat)
    returns (inst: seq<Para>)
    ensures inst == Instance(fragment, keys, rec, firstId)
  {
    inst := [];
    var k := 0;
    while k < |fragment|
      invariant 0 <= k <= |fragment| && |inst| == k
      invariant forall j :: 0 <= j < k ==> inst[j] == Para(firstId + j, InstanceRuns(fragment[j].runs, keys, rec))
    {
      var q := InstanceParagraph(fragment[k], keys, rec, firstId + k);
      inst := inst + [q];
      k := k + 1;
    }
  }

  /** The record loop of `_find_subtags_in_loop`: the instances in record order. */
  method MakeInstances(fragment: seq<Para>, recs: Records, keys: seq<string>, nextId: nat)
    returns (flat: seq<Para>)
    ensures flat == Instances(fragment, recs, keys, nextId)
  {
    flat := [];
    var i := 0;
    while i < |recs|
      invariant 0 <= i <= |recs|
      invariant flat == Instances(fragment, recs[..i], keys, nextId)
    {
      var inst := MakeInstance(fragment, keys, recs[i], nextId + i * |fragment|);
      assert recs[..i + 1][..i] == recs[..i];
      flat := flat + inst;
      i := i + 1;
    }
    assert recs[..i] == recs;
  }

  /** The insertion loop: each paragraph of `flat` goes in at
      `index_to_insert_at`, which then moves one on. */
  method InsertAfter(body: seq<Para>, at: nat, flat: seq<Para>) returns (r: seq<Para>)
    requires at <= |body|
    ensures r == body[..at] + flat + body[at..]
  {
    r := body;
    var index := at;
    var j := 0;
    while j < |flat|
      invariant 0 <= j <= |flat| && index == at + j
      invariant r == body[..at] + flat[..j] + body[at..]
    {
      assert r[..index] == body[..at] + flat[..j];
      assert r[index..] == body[at..];
      r := r[..index] + [flat[j]] + r[index..];
      assert flat[..j + 1] == flat[..j] + [flat[j]];
      index := index + 1;
      j := j + 1;
    }
    assert flat[..j] == flat;
  }

  /** The deletion loop: `body.remove(e)` for every original loop paragraph. */
  method RemoveOriginals(b: seq<Para>, body: seq<Para>, originals: seq<nat>) returns (r: seq<Para>)
    requires UniqueIds(b) && UniqueIds(body) && Increasing(originals)
    requires forall k :: 0 <= k < |originals| ==> originals[k] < |body| && body[originals[k]] in b
    ensures r == Without(b, OriginalIds(body, originals))
  {
    r := b;
    var k := 0;
    assert OriginalIds(body, originals[..0]) == {};
    WithoutNone(b, {});
    while k < |originals|
      invariant 0 <= k <= |originals|
      invariant r == Without(b, OriginalIds(body, originals[..k]))
    {
      RemoveStep(b, body, originals, k);
      r := RemovePara(r, body[originals[k]].id).value;
      k := k + 1;
    }
    assert originals[..k] == originals;
  }

  /** One removal of the deletion loop: the next original is still in the
      body, and removing it extends the removed set by its identity. */
  lemma RemoveStep(b: seq<Para>, body: seq<Para>, originals: seq<nat>, k: nat)
    requires UniqueIds(b) && UniqueIds(body) && Increasing(originals) && k < |originals|
    requires forall j :: 0 <= j < |originals| ==> originals[j] < |body| && body[originals[j]] in b
    ensures var r := Without(b, OriginalIds(body, originals[..k]));
      RemovePara(r, body[originals[k]].id) == Ok(Without(b, OriginalIds(body, originals[..k + 1])))
  {
    var e := body[originals[k]];
    var done := OriginalIds(body, originals[..k]);
    var r := Without(b, done);
    assert e.id !in done by {
      forall j | 0 <= j < k
        ensures body[originals[j]].id != e.id
      {
        assert originals[j] < originals[k];
      }
    }
    WithoutMembers(b, done, e);
    var q :| 0 <= q < |r| && r[q] == e;
    WithoutFresh(b, NextFree(b), done);
    RemoveIsWithout(r, q);
    WithoutWithout(b, done, {e.id});
    OriginalIdsSnoc(body, originals, k);
  }

  /** The body part of `_find_subtags_in_loop`: one instance of the loop
      per record, inserted after the loop start paragraph
      (`body.index(loop_start_node) + 1`), then the template paragraphs
      removed. */
  method SpliceLoop(body: seq<Para>, nextId: nat, lp: Loop, recs: Records, keys: seq<string>)
    returns (b: seq<Para>, next: nat)
    requires Fresh(body, nextId) && LoopIn(body, lp)
    ensures (b, next) == Place(body, nextId, lp, recs, keys)
  {
    var flat := MakeInstances(lp.fragment, recs, keys, nextId);
    var start := ParaPos(body, body[lp.start].id).value;
    assert start == lp.start;
    b := InsertAfter(body, start + 1, flat);
    InstancesIds(lp.fragment, recs, keys, nextId);
    InsertedReady(body, nextId, lp, flat, b);
    ghost var inserted := b;
    b := RemoveOriginals(b, body, lp.originals);
    next := nextId + |recs| * |lp.fragment|;
    PlaceOf(body, nextId, lp, recs, keys, inserted, b, next);
  }

  /** After the insertion the identities are still unique and every
      original loop paragraph is still in the body, as `body.remove`
      needs. */
  lemma InsertedReady(body: seq<Para>, nextId: nat, lp: Loop, flat: seq<Para>, inserted: seq<Para>)
    requires Fresh(body, nextId) && LoopIn(body, lp)
    requires forall i :: 0 <= i < |flat| ==> flat[i].id == nextId + i
    requires inserted == body[..lp.start + 1] + flat + body[lp.start + 1..]
    ensures UniqueIds(inserted)
    ensures forall k :: 0 <= k < |lp.originals| ==> body[lp.originals[k]] in inserted
  {
    var start := lp.start;
    SplitAt(body, start);
    InsertFresh(body[..start + 1], flat, body[start + 1..], nextId);
    forall k | 0 <= k < |lp.originals|
      ensures body[lp.originals[k]] in inserted
    {
      SpliceMember(body, start, flat, lp.originals[k]);
    }
  }

  lemma SpliceMember(body: seq<Para>, s: nat, flat: seq<Para>, o: nat)
    requires s <= o < |body|
    ensures body[o] in body[..s + 1] + flat + body[s + 1..]
  {
    var whole := body[..s + 1] + flat + body[s + 1..];
    if o == s {
      assert whole[o] == body[o];
    } else {
      assert whole[o + |flat|] == body[o];
    }
  }

  class Word2Resume {
    /** The children of `w:body`, in order. */
    var body: seq<Para>
    /** The identity the next deep copy receives. */
    var nextId: nat
    const resumeData: map<string, Records>
    const skip: bool

    ghost predicate Valid()
      reads this
    {
      Fresh(body, nextId)
    }

    /** The parsed template body, with its distinct elements. */
    constructor (doc: seq<Para>, data: map<string, Records>, skipExpansion: bool)
      requires UniqueIds(doc)
      ensures Valid() && body == doc && resumeData == data && skip == skipExpansion
    {
      body := doc;
      nextId := NextFree(doc);
      resumeData := data;
      skip := skipExpansion;
    }

    /** `collapse_tags` over every leaf of the body. On failure the leaves
        hold what the character loop had done when the assertion fired. */
    method CollapseTags() returns (ok: bool)
      requires Valid()
      modifies this
      ensures Valid() && SameShape(old(body), body) && nextId == old(nextId)
      ensures ok == Collapse(Leaves(old(body))).Ok?
      ensures ok ==> body == WithLeaves(old(body), Collapse(Leaves(old(body))).value)
    {
      var texts := Leaves(body);
      var a := new string[|texts|](i requires 0 <= i < |texts| => texts[i]);
      assert a[..] == texts;
      ok := CollapseLeaves(a);
      body := WithLeaves(body, a[..]);
      ShapeFresh(old(body), body, nextId);
    }

    /** `_find_tags(doc, tagsToFind)`: registers the known section tags and
        rewrites the leaves that hold them. */
    method FindTags(tagsToFind: set<string>) returns (reg: Registry)
      requires Valid()
      modifies this
      ensures Valid() && nextId == old(nextId)
      ensures (body, reg) == FindTagsSpec(old(body), KnownKeys(tagsToFind))
    {
      var known := KnownKeys(tagsToFind);
      var texts := Leaves(body);
      var refs := LeafRefs(body);
      reg := Empty;
      var n := 0;
      while n < |texts|
        invariant 0 <= n <= |texts| && |texts| == |refs|
        invariant ResolveFrom(texts, refs, n, known, reg) == Resolve(old(body), known)
      {
        var text := texts[n];
        var tags := FindAll(text, true);
        ghost var reg0 := reg;
        var j := 0;
        while j < |tags|
          invariant 0 <= j <= |tags|
          invariant RewriteLeaf(text, tags[j..], known) == RewriteLeaf(texts[n], tags, known)
          invariant PutAll(reg, RegisteredKeys(tags[j..], known), refs[n]) ==
                    PutAll(reg0, RegisteredKeys(tags, known), refs[n])
        {
          assert tags[j..][0] == tags[j] && tags[j..][1..] == tags[j + 1..];
          var key := SectionKey(tags[j]);
          if key in known {
            reg := Put(reg, key, refs[n]);
            text := RewriteTag(text, tags[j]);
          }
          j := j + 1;
        }
        texts := texts[n := text];
        n := n + 1;
      }
      body := WithLeaves(body, texts);
      ShapeFresh(old(body), body, nextId);
    }

    /** `_find_subtags_in_loop(anchor, recs)`: instances the loop after the
        section heading `anchor` once per record, splices the instances in
        after the loop start, removes the loop template, and removes the
        heading's paragraph too when it reads `[!...]`. `keys` is the key
        listing the expansion used. */
    method FindSubtagsInLoop(anchor: LeafRef, recs: Records) returns (e: Option<Error>, ghost keys: seq<string>)
      requires Valid()
      modifies this
      ensures Valid() && KeyList(recs, keys)
      ensures Reports(ExpandSection(old(body), old(nextId), anchor, recs, keys), e, body, nextId)
    {
      keys := SomeKeyList(recs);
      var pos := ParaPos(body, anchor.para);
      if pos.None? {
        return Some(DetachedAnchor), keys;
      }
      var a := pos.value;
      if anchor.run >= |body[a].runs| || body[a].runs[anchor.run].leaf.None? {
        return Some(MissingNode), keys;
      }
      var heading := body[a].runs[anchor.run].leaf.value;
      var found := ExtractLoop(body, a);
      if found.Err? {
        return Some(found.error), keys;
      }
      ExtractBounds(body, a);
      ghost var b0, n0 := body, nextId;
      e, keys := SpliceFound(found.value, recs, anchor.para, Occurs("[!", heading));
      ExpandSectionFound(b0, n0, anchor, a, recs, keys);
    }

    /** The rest of `_find_subtags_in_loop` once the loop `lp` is found:
        the instances spliced in and the template removed, then the
        heading's paragraph (identity `anchorId`) removed when `bang`. */
    method SpliceFound(lp: Loop, recs: Records, anchorId: nat, bang: bool) returns (e: Option<Error>, ghost keys: seq<string>)
      requires Valid() && LoopIn(body, lp)
      modifies this
      ensures Valid() && KeyList(recs, keys)
      ensures Reports(ExpandLoop(old(body), old(nextId), lp, recs, keys, anchorId, bang), e, body, nextId)
    {
      var listed := GetAllKeys(recs);
      keys := listed;
      var b, next := SpliceLoop(body, nextId, lp, recs, listed);
      PlaceFresh(body, nextId, lp, recs, listed);
      if bang {
        var removed := RemovePara(b, anchorId);
        if removed.Err? {
          body, nextId := b, next;
          return Some(removed.error), keys;
        }
        RemoveFresh(b, next, anchorId);
        b := removed.value;
      }
      body, nextId := b, next;
      e := None;
    }

    /** The loop of `_parse_xml` over the registered sections, in registry
        order: `_find_subtags_in_loop(node, resume_data[section_name])`,
        up to the first error. */
    method ExpandSections(reg: Registry) returns (e: Option<Error>, ghost keysOf: map<string, seq<string>>)
      requires Valid() && WellFormed(reg)
      modifies this
      ensures Valid() && KeyOrders(resumeData, keysOf)
      ensures Expanded(old(body), old(nextId), reg, resumeData, keysOf, |reg.order|, e, body, nextId)
    {
      keysOf := AnyKeyOrders(resumeData);
      var i := 0;
      while i < |reg.order|
        invariant 0 <= i <= |reg.order| && Valid() && KeyOrders(resumeData, keysOf)
        invariant Expanded(old(body), old(nextId), reg, resumeData, keysOf, i, None, body, nextId)
      {
        var err;
        err, keysOf := ExpandNext(reg, i, old(body), old(nextId), keysOf);
        if err.Some? {
          ExpandedErr(old(body), old(nextId), reg, resumeData, keysOf, i + 1, |reg.order|, err, body, nextId);
          return err, keysOf;
        }
        i := i + 1;
      }
      e := None;
    }

    /** One pass of the section loop: `_find_subtags_in_loop` for registry
        entry `i`, or the `KeyError` when the data lacks that section. */
    method ExpandNext(reg: Registry, i: nat, ghost body0: seq<Para>, ghost next0: nat,
                      ghost keysOf: map<string, seq<string>>)
      returns (e: Option<Error>, ghost keysOf': map<string, seq<string>>)
      requires Valid() && WellFormed(reg) && i < |reg.order| && KeyOrders(resumeData, keysOf)
      requires Expanded(body0, next0, reg, resumeData, keysOf, i, None, body, nextId)
      modifies this
      ensures Valid() && KeyOrders(resumeData, keysOf')
      ensures Expanded(body0, next0, reg, resumeData, keysOf', i + 1, e, body, nextId)
    {
      var name := reg.order[i];
      if name !in resumeData {
        ExpandMissing(body0, next0, reg, resumeData, keysOf, i, body, nextId);
        return Some(MissingSection(name)), keysOf;
      }
      ghost var b0, n0 := body, nextId;
      var err, keys := FindSubtagsInLoop(reg.at[name], resumeData[name]);
      KeyOrdersPut(resumeData, keysOf, name, keys);
      keysOf' := keysOf[name := keys];
      ExpandStep(body0, next0, reg, resumeData, keysOf, i, keys, b0, n0, err, body, nextId);
      e := err;
    }

    /** `_parse_xml`: normalize; unless `skip` is set, resolve the section
        tags and expand each registered section in registry order. The
        error is the first one raised. `keysOf` holds the key listing each
        section's expansion used. */
    method ParseXml() returns (e: Option<Error>, ghost keysOf: map<string, seq<string>>)
      requires Valid()
      modifies this
      ensures Valid() && KeyOrders(resumeData, keysOf)
      ensures Reports(ParseSpec(old(body), old(nextId), resumeData, skip, keysOf), e, body, nextId)
    {
      keysOf := AnyKeyOrders(resumeData);
      var ok := CollapseTags();
      if !ok {
        return Some(MalformedBrackets), keysOf;
      }
      if skip {
        return None, keysOf;
      }
      var reg := FindTags(resumeData.Keys);
      FindTagsRegistry(WithLeaves(old(body), Collapse(Leaves(old(body))).value), KnownKeys(resumeData.Keys), []);
      e, keysOf := ExpandSections(reg);
      ParseUnfold(old(body), old(nextId), resumeData, keysOf);
    }
  }
}
