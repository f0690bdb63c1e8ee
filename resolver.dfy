/** The top-level tag resolver (`_find_tags`). Every section token `[name]`,
    `[!name]` or `[name|alternative]` whose lowercased name (the part before
    any `|`) is a known section is registered against the leaf that holds
    it, a later occurrence replacing an earlier one. The leaf's text is
    rewritten: a leaf holding `[!` keeps its text (its paragraph is dropped
    once the section is expanded); otherwise the brackets around the token
    are removed, and when the text then holds a `|` it becomes the segment
    after the first `|`. */
module Resolver {
  import opened Base
  import opened Text
  import opened Document

  /** The lowercased section name of a matched tag: the part before any `|`. */
  function SectionKey(tag: string): string
  {
    BeforeFirst(Lower(tag), '|')
  }

  /** The section names looked for, lowercased. */
  function KnownKeys(keys: set<string>): set<string>
  {
    set k | k in keys :: Lower(k)
  }

  /** What one recognised tag does to the current text of its leaf. */
  function RewriteTag(text: string, tag: string): string
  {
    if Occurs("[!", text) then text
    else
      var t := ReplaceAll(text, "[" + tag + "]", tag);
      if '|' in t then SecondField(t, '|') else t
  }

  /** The text of a leaf after the recognised tags among `tags`, in order. */
  function RewriteLeaf(text: string, tags: seq<string>, known: set<string>): string
    decreases |tags|
  {
    if tags == [] then text
    else if SectionKey(tags[0]) in known then RewriteLeaf(RewriteTag(text, tags[0]), tags[1..], known)
    else RewriteLeaf(text, tags[1..], known)
  }

  /** The section names registered for the tags of one leaf, in order. */
  function RegisteredKeys(tags: seq<string>, known: set<string>): (r: seq<string>)
    ensures forall k :: k in r <==> k in known && exists j :: 0 <= j < |tags| && SectionKey(tags[j]) == k
  {
    if tags == [] then []
    else
      var rest := RegisteredKeys(tags[1..], known);
      assert forall j :: 0 <= j < |tags| - 1 ==> tags[1..][j] == tags[j + 1];
      if SectionKey(tags[0]) in known then [SectionKey(tags[0])] + rest else rest
  }

  /** The dictionary `tags`: names in first-insertion order, and the leaf
      registered last for each. */
  datatype Registry = Registry(order: seq<string>, at: map<string, LeafRef>)

  const Empty := Registry([], map[])

  ghost predicate WellFormed(reg: Registry)
  {
    (forall i, j :: 0 <= i < j < |reg.order| ==> reg.order[i] != reg.order[j]) &&
    (forall k :: k in reg.at <==> k in reg.order)
  }

  /** `tags[key] = node`. */
  function Put(reg: Registry, key: string, ref: LeafRef): (r: Registry)
    ensures r.at == reg.at[key := ref]
    ensures WellFormed(reg) ==> WellFormed(r)
  {
    Registry(if key in reg.at then reg.order else reg.order + [key], reg.at[key := ref])
  }

  /** Registers every name of `keys` against `ref`, in order. */
  function PutAll(reg: Registry, keys: seq<string>, ref: LeafRef): (r: Registry)
    ensures forall k :: k in r.at <==> k in reg.at || k in keys
    ensures forall k :: k in keys ==> r.at[k] == ref
    ensures forall k :: k !in keys && k in reg.at ==> r.at[k] == reg.at[k]
    ensures WellFormed(reg) ==> WellFormed(r)
    decreases |keys|
  {
    if keys == [] then reg
    else
      assert forall k :: k in keys <==> k == keys[0] || k in keys[1..];
      PutAll(Put(reg, keys[0], ref), keys[1..], ref)
  }

  /** The scan of the leaves from index `n` on, over the leaf texts and
      their identities in document order. */
  function ResolveFrom(texts: seq<string>, refs: seq<LeafRef>, n: nat, known: set<string>, reg: Registry)
    : (r: (seq<string>, Registry))
    requires |texts| == |refs| && n <= |texts|
    ensures |r.0| == |texts|
    decreases |texts| - n
  {
    if n == |texts| then (texts, reg)
    else
      var tags := FindAll(texts[n], true);
      ResolveFrom(texts[n := RewriteLeaf(texts[n], tags, known)], refs, n + 1, known,
                  PutAll(reg, RegisteredKeys(tags, known), refs[n]))
  }

  /** `_find_tags` over the body, for the lowercased section names `known`:
      the body with rewritten leaves, and the registry. */
  function FindTagsSpec(body: seq<Para>, known: set<string>): (r: (seq<Para>, Registry))
    ensures SameShape(body, r.0)
    ensures r.1 == Resolve(body, known).1
  {
    var res := Resolve(body, known);
    (WithLeaves(body, res.0), res.1)
  }

  function Resolve(body: seq<Para>, known: set<string>): (seq<string>, Registry)
  {
    ResolveFrom(Leaves(body), LeafRefs(body), 0, known, Empty)
  }

  /** The section names some token of leaf `t` registers. */
  ghost predicate LeafRegisters(t: string, known: set<string>, key: string)
  {
    key in RegisteredKeys(FindAll(t, true), known)
  }

  lemma {:induction false} ResolveFromTexts(texts: seq<string>, refs: seq<LeafRef>, n: nat, known: set<string>, reg: Registry)
    requires |texts| == |refs| && n <= |texts|
    ensures forall m :: 0 <= m < |texts| ==>
      ResolveFrom(texts, refs, n, known, reg).0[m] ==
      if m < n then texts[m] else RewriteLeaf(texts[m], FindAll(texts[m], true), known)
    decreases |texts| - n
  {
    if n < |texts| {
      var tags := FindAll(texts[n], true);
      ResolveFromTexts(texts[n := RewriteLeaf(texts[n], tags, known)], refs, n + 1, known,
                       PutAll(reg, RegisteredKeys(tags, known), refs[n]));
    }
  }

  lemma {:induction false} ResolveFromKeys(texts: seq<string>, refs: seq<LeafRef>, n: nat, known: set<string>, reg: Registry, key: string)
    requires |texts| == |refs| && n <= |texts|
    ensures key in ResolveFrom(texts, refs, n, known, reg).1.at <==>
            key in reg.at || exists m :: n <= m < |texts| && LeafRegisters(texts[m], known, key)
    ensures (forall m :: n <= m < |texts| ==> !LeafRegisters(texts[m], known, key)) && key in reg.at ==>
            ResolveFrom(texts, refs, n, known, reg).1.at[key] == reg.at[key]
    ensures WellFormed(reg) ==> WellFormed(ResolveFrom(texts, refs, n, known, reg).1)
    decreases |texts| - n
  {
    if n < |texts| {
      var tags := FindAll(texts[n], true);
      var texts' := texts[n := RewriteLeaf(texts[n], tags, known)];
      var reg' := PutAll(reg, RegisteredKeys(tags, known), refs[n]);
      assert forall m :: n < m < |texts| ==> texts'[m] == texts[m];
      assert ResolveFrom(texts, refs, n, known, reg) == ResolveFrom(texts', refs, n + 1, known, reg');
      ResolveFromKeys(texts', refs, n + 1, known, reg', key);
    }
  }

  lemma {:induction false} ResolveFromLast(texts: seq<string>, refs: seq<LeafRef>, n: nat, known: set<string>, reg: Registry, key: string, m: nat)
    requires |texts| == |refs| && n <= m < |texts|
    requires LeafRegisters(texts[m], known, key)
    requires forall m' :: m < m' < |texts| ==> !LeafRegisters(texts[m'], known, key)
    ensures key in ResolveFrom(texts, refs, n, known, reg).1.at
    ensures ResolveFrom(texts, refs, n, known, reg).1.at[key] == refs[m]
    decreases |texts| - n
  {
    var tags := FindAll(texts[n], true);
    var texts' := texts[n := RewriteLeaf(texts[n], tags, known)];
    var reg' := PutAll(reg, RegisteredKeys(tags, known), refs[n]);
    assert forall j :: n < j < |texts| ==> texts'[j] == texts[j];
    if n == m {
      ResolveFromKeys(texts', refs, n + 1, known, reg', key);
    } else {
      ResolveFromLast(texts', refs, n + 1, known, reg', key, m);
    }
  }

  /** Some token in some leaf spells the section name `key`. */
  ghost predicate Spelt(texts: seq<string>, key: string)
  {
    exists m: nat, i: nat, name: string :: m < |texts| && TokenAt(texts[m], i, name, true) && SectionKey(name) == key
  }

  /** The registry holds exactly the known section names that some token in
      some leaf spells, and its insertion order lists each of them once. */
  lemma FindTagsRegistry(body: seq<Para>, known: set<string>, key: string)
    ensures key in FindTagsSpec(body, known).1.at <==> key in known && Spelt(Leaves(body), key)
    ensures WellFormed(FindTagsSpec(body, known).1)
  {
    RegistryKeys(Leaves(body), LeafRefs(body), known, key);
  }

  lemma RegistryKeys(texts: seq<string>, refs: seq<LeafRef>, known: set<string>, key: string)
    requires |texts| == |refs|
    ensures key in ResolveFrom(texts, refs, 0, known, Empty).1.at <==> key in known && Spelt(texts, key)
    ensures WellFormed(ResolveFrom(texts, refs, 0, known, Empty).1)
  {
    ResolveFromKeys(texts, refs, 0, known, Empty, key);
    if m :| 0 <= m < |texts| && LeafRegisters(texts[m], known, key) {
      var i, name := RegistersToken(texts[m], known, key);
    }
    if m, i, name :| 0 <= m < |texts| && TokenAt(texts[m], i, name, true) && SectionKey(name) == key {
      if key in known {
        TokenRegisters(texts[m], known, i, name);
      }
    }
  }

  lemma RegistersToken(t: string, known: set<string>, key: string) returns (i: nat, name: string)
    requires LeafRegisters(t, known, key)
    ensures key in known && TokenAt(t, i, name, true) && SectionKey(name) == key
  {
    var tags := FindAll(t, true);
    var j :| 0 <= j < |tags| && SectionKey(tags[j]) == key;
    name := tags[j];
    FindAllExact(t, name, true);
    i :| TokenAt(t, i, name, true);
  }

  lemma TokenRegisters(t: string, known: set<string>, i: nat, name: string)
    requires TokenAt(t, i, name, true) && SectionKey(name) in known
    ensures LeafRegisters(t, known, SectionKey(name))
  {
    FindAllExact(t, name, true);
    var tags := FindAll(t, true);
    var j :| 0 <= j < |tags| && tags[j] == name;
  }

  /** A name spelt in several leaves is registered against the last of them. */
  lemma FindTagsLastWins(body: seq<Para>, known: set<string>, key: string, m: nat)
    requires m < |Leaves(body)| && LeafRegisters(Leaves(body)[m], known, key)
    requires forall m' :: m < m' < |Leaves(body)| ==> !LeafRegisters(Leaves(body)[m'], known, key)
    ensures key in FindTagsSpec(body, known).1.at
    ensures FindTagsSpec(body, known).1.at[key] == LeafRefs(body)[m]
  {
    ResolveFromLast(Leaves(body), LeafRefs(body), 0, known, Empty, key, m);
  }

  /** Each leaf is rewritten on its own, from the text it had before. */
  lemma FindTagsLeaves(body: seq<Para>, known: set<string>, m: nat)
    requires m < |Leaves(body)|
    ensures Leaves(FindTagsSpec(body, known).0)[m] ==
            RewriteLeaf(Leaves(body)[m], FindAll(Leaves(body)[m], true), known)
  {
    ResolveFromTexts(Leaves(body), LeafRefs(body), 0, known, Empty);
  }

  /** A leaf holding `[!` keeps its text. */
  lemma {:induction false} BangLeafKept(text: string, tags: seq<string>, known: set<string>)
    requires Occurs("[!", text)
    ensures RewriteLeaf(text, tags, known) == text
    decreases |tags|
  {
    if tags != [] {
      BangLeafKept(text, tags[1..], known);
    }
  }

  /** A leaf none of whose tags is a known section keeps its text. */
  lemma {:induction false} UnknownLeafKept(text: string, tags: seq<string>, known: set<string>)
    requires forall j :: 0 <= j < |tags| ==> SectionKey(tags[j]) !in known
    ensures RewriteLeaf(text, tags, known) == text
    ensures RegisteredKeys(tags, known) == []
    decreases |tags|
  {
    if tags != [] {
      UnknownLeafKept(text, tags[1..], known);
    }
  }

  /** A heading leaf: a token between text free of brackets loses its
      brackets, and a `|` in the result selects the alternative text. */
  lemma HeadingRewrite(pre: string, tag: string, post: string)
    requires IsName(tag, true) && '[' !in pre && '[' !in post
    ensures RewriteTag(pre + "[" + tag + "]" + post, tag) ==
      var t := pre + tag + post;
      if '|' in t then SecondField(t, '|') else t
  {
    var pat := "[" + tag + "]";
    var text := pre + pat + post;
    assert pre + "[" + tag + "]" + post == text;
    assert text == pre + (pat + post);
    assert forall j :: 0 <= j < |text| && text[j] == '[' ==> j == |pre|;
    assert text[|pre| + 1] == tag[0];
    NoBang(text);
    ReplaceAfterPlain(pre, pat + post, pat, tag);
    ReplaceHead(pat, post, tag);
    ReplaceAbsent(post, pat, tag, '[');
    assert pre + (tag + post) == pre + tag + post;
  }

  /** `[!` does not occur in a text where no `[` is followed by `!`. */
  lemma {:induction false} NoBang(text: string)
    requires forall j :: 0 <= j < |text| - 1 && text[j] == '[' ==> text[j + 1] != '!'
    ensures !Occurs("[!", text)
    decreases |text|
  {
    if text != [] {
      if |text| >= 2 && text[0] == '[' {
        assert text[1] != '!';
      }
      assert forall j :: 0 <= j < |text[1..]| ==> text[1..][j] == text[j + 1];
      NoBang(text[1..]);
    }
  }

  /** A heading `[name|alternative]` alone in its leaf reads `alternative`
      once resolved, and registers the section `name` when `name` is in
      lowercase. */
  lemma AlternativeHeading(name: string, alt: string)
    requires IsName(name + ['|'] + alt, true) && '|' !in name && '|' !in alt
    ensures RewriteTag("[" + (name + ['|'] + alt) + "]", name + ['|'] + alt) == alt
    ensures (forall j :: 0 <= j < |name| ==> !('A' <= name[j] <= 'Z')) ==>
            SectionKey(name + ['|'] + alt) == name
  {
    AlternativeText(name, alt);
    if forall j :: 0 <= j < |name| ==> !('A' <= name[j] <= 'Z') {
      LowerHeadingKey(name, alt);
    }
  }

  lemma AlternativeText(name: string, alt: string)
    requires IsName(name + ['|'] + alt, true) && '|' !in name && '|' !in alt
    ensures RewriteTag("[" + (name + ['|'] + alt) + "]", name + ['|'] + alt) == alt
  {
    var tag := name + ['|'] + alt;
    assert "[" + tag + "]" == [] + "[" + tag + "]" + [];
    HeadingRewrite([], tag, []);
    Framed(tag);
    BeforeFirstSplit(name, '|', alt);
    assert tag[|name| + 1..] == alt;
    BeforeFirstSplit(alt, '|', []);
  }

  lemma LowerHeadingKey(name: string, alt: string)
    requires '|' !in name && forall j :: 0 <= j < |name| ==> !('A' <= name[j] <= 'Z')
    ensures SectionKey(name + ['|'] + alt) == name
  {
    LowerConcat(name + ['|'], alt);
    LowerConcat(name, ['|']);
    LowerKeeps(name);
    assert Lower(['|']) == ['|'];
    BeforeFirstSplit(name, '|', Lower(alt));
  }
}
