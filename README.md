# one_resume Word template engine, in Dafny

This project models the template engine of the `one_resume` Word plugin
(`one_resume/plugins/api_word.py`), which fills a `.docx` résumé template
from a dictionary of résumé sections, and proves properties of that model. A
document body is a sequence of paragraphs. Each paragraph holds runs, and
each run holds at most one text leaf. The engine works in four stages:

1. **Normalizer** (`collapse_tags`). It scans every text leaf in document
   order, character by character. When a `[`…`]` token is split across
   leaves, its text moves back into the leaf where it opened. The scan fails
   on a `[` inside a token or on a `]` outside one.
2. **Resolver** (`_find_tags`). It finds the section headings `[name]`,
   `[!name]` and `[name|alternative]` whose lowercased name is a section of
   the data. It records the leaf of each one, and a later heading of the same
   name wins. It then rewrites the heading text.
3. **Loop extractor** (`_extract_loop`, `_itersiblingtext`). Among the
   siblings after a heading's paragraph it finds the loop, which runs from
   `<` to `>`. It copies each paragraph of the loop once and remembers the
   originals.
4. **Splicer** (`_find_subtags_in_loop`, `_get_all_keys_in_list_of_dicts`).
   It makes one copy of the loop per record, strips the markers and fills
   every `[key]`. It inserts the copies after the loop start, then removes
   the template paragraphs. When the heading reads `[!…]`, it also removes
   the heading's paragraph.

`_parse_xml` runs the stages in order. When the `skip` flag is set it stops
after normalization.

Modules, one file each:

| file | module | contents |
|---|---|---|
| `base.dfy` | `Base` | `Option`, `Result`, and the errors the engine raises |
| `text.dfy` | `Text` | `in`, `str.replace`, `split`, `lower`, and a scanner for the two tag regular expressions |
| `document.dfy` | `Document` | paragraphs, runs and leaves; `_itertext`; `_itersiblingtext`; `body.index` |
| `normalizer.dfy` | `Normalizer` | `collapse_tags`, as an in-place method over an array of leaf texts and as a leaf-by-leaf specification |
| `resolver.dfy` | `Resolver` | `_find_tags` |
| `loops.dfy` | `Loops` | `_extract_loop`, `_get_all_keys_in_list_of_dicts`, and the per-leaf substitution |
| `splice.dfy` | `Splice` | the expansion of one section, as a function, with its layout and identity lemmas |
| `word2resume.dfy` | `Plugin` | the class `Word2Resume`, whose methods rewrite the body in place, and `_parse_xml` |

**Node identity.** lxml compares elements by identity. Here every paragraph
carries an `id`. A deep copy takes the next free id, counted by the class
field `nextId`. The class invariant `Valid()` says that ids are unique and all
below `nextId`. A registered leaf is named by its paragraph's id and its run
index (`LeafRef`). `body.index(p)` and `body.remove(p)` therefore find
paragraphs by id.

**Key order.** `list(set)` in `_get_all_keys_in_list_of_dicts` has no fixed
order. The method `GetAllKeys` picks one listing nondeterministically. The
specification functions take the listing as a parameter. `ParseXml` and
`FindSubtagsInLoop` return, as ghost results, the listings they used. The
lemma `Loops.InstanceFills` shows that the order does not change a filled
template when no key holds `]` and no record value holds `[`. Otherwise the
output can depend on the listing: when a value spells `[k]` for another key
`k`, that field is filled only if `k` comes later in the listing. The lemma
`Loops.KeyOrderMatters` gives such a case.

**Dictionary order.** `tags` in `_find_tags` is a plain dict. The model keeps
the sections in first-insertion order (`Registry.order`), and `_parse_xml`
expands them in that order.

**Errors.** A failed `assert`, a `KeyError`, an `UnboundLocalError` or an
`AttributeError` ends the render. The model returns an `Error` value:

- `MalformedBrackets`: lines 333 and 338.
- `LoopEndBeforeStart`: line 162.
- `NestedLoop`: line 146.
- `NoLoopStart`: line 166, where `loop_start_node` is never assigned.
- `MissingSection`: line 292, the `KeyError` of `resume_data[section_name]`.
- `DetachedAnchor`: a heading paragraph that is no longer in the body (line 218 or 232).
- `MissingNode`: a leaf reference with no leaf behind it.

## Model

| member | source | states |
|---|---|---|
| Normalizer.CollapseLeaves | one_resume/plugins/api_word.py:317-359 | the in-place scan over the leaf array succeeds exactly when the specification `Collapse` does, and then leaves the array holding its result |
| Normalizer.ScanLeaf | one_resume/plugins/api_word.py:331-359 | the character loop over one leaf, from the state the earlier leaves left, performs the leaf step `StepLeaf`: same success, same new texts, same open/closed state and start leaf and buffer |
| Normalizer.ScanChar | one_resume/plugins/api_word.py:331-359 | one character of that loop either fails the leaf step (a `[` inside a tag, a `]` outside one) or keeps the scan state invariant one character further |
| Normalizer.StepLeafFails | one_resume/plugins/api_word.py:332-338 | a `[` while inside a tag, or a `]` while outside one, fails the step for the whole leaf |
| Normalizer.NormalizeFailsIffMalformed | one_resume/plugins/api_word.py:329-338 | normalization fails exactly when, reading all leaves as one text, a `[` arrives inside a tag or a `]` outside one (an independent bracket automaton `Track`) |
| Normalizer.NormalizePreservesText | one_resume/plugins/api_word.py:329-359 | on balanced text normalization succeeds, keeps the number of leaves and their in-order concatenation, and leaves every leaf balanced: each `[` and its `]` lie in the same leaf |
| Normalizer.LocalTagLeafUnchanged | one_resume/plugins/api_word.py:340-342 | a leaf reached outside any tag, whose own tags open and close inside it, comes out unchanged |
| Normalizer.SplitTagMovesBack | one_resume/plugins/api_word.py:342-359 | a tag opened in leaf `s` and closed in leaf `e`: the opening leaf gains the text of the leaves between and of the closing leaf up to the `]`; the leaves between are emptied; when the closing leaf's text after the `]` is itself balanced, the closing leaf keeps `text[i+1:]` (a tail that opens another token gains more text) |
| Normalizer.NormalizeIdempotent | one_resume/plugins/api_word.py:317-359 | normalizing a normalized body changes nothing |
| Normalizer.SplitNameRejoined | one_resume/plugins/api_word.py:342-347 | leaves `[na` and `me]` become `[name]` and an empty leaf |
| Normalizer.UnclosedTagDropsText | one_resume/plugins/api_word.py:350-359 | with a `[` never closed, later leaves are emptied and their buffered text is not written back: `[a` and `b` become `[a` and an empty leaf |
| Text.FindAllExact | one_resume/plugins/api_word.py:248-253 | the scanner used for `re.findall` returns a name exactly when the text holds that token `[name]` (or `[!name]` for section tags) |
| Text.RemoveChar | one_resume/plugins/api_word.py:200-202 | `replace(c, '')` leaves no `c`, no longer text, and every other character that occurred |
| Text.BeforeFirst | one_resume/plugins/api_word.py:258 | `split('|')[0]` is a prefix free of `|`, followed by `|` when shorter than the text |
| Document.ParaPos | one_resume/plugins/api_word.py:218 | `body.index(p)`: the first position holding that identity, or none when the paragraph is not a child of the body |
| Document.WithLeaves | one_resume/plugins/api_word.py:296-300 | writing texts back into the leaves, in `_itertext` order, keeps every paragraph, identity and run and gives exactly those leaf texts |
| Document.LeafRefsText | one_resume/plugins/api_word.py:296-300 | the node `_itertext` yields with its text: with unique identities, the m-th leaf reference reads back the m-th leaf text |
| Document.SiblingLeaves | one_resume/plugins/api_word.py:302-313 | `_itersiblingtext`: the leaves of the following siblings in document order, the i-th sibling's numbered i; with no next sibling the paragraph's own leaves, numbered 0 |
| Document.SiblingLeavesComplete | one_resume/plugins/api_word.py:302-313 | nothing is missed: the texts yielded are exactly the texts of every leaf of the paragraphs walked (the following siblings, or the paragraph itself), in document order |
| Resolver.RegisteredKeys | one_resume/plugins/api_word.py:256-260 | the names one leaf registers are exactly the known lowercased names before `|` of its tags |
| Resolver.PutAll | one_resume/plugins/api_word.py:259-260 | `tags[tag_lower] = node` for each: those names map to the leaf, other entries are kept, and the listing stays duplicate-free |
| Resolver.FindTagsSpec | one_resume/plugins/api_word.py:235-272 | `_find_tags` changes leaf texts only: paragraphs, identities and runs stay |
| Resolver.FindTagsRegistry | one_resume/plugins/api_word.py:250-260 | a name is registered exactly when it is a lowercased data key and some token of some leaf spells it (lowercased, before `|`); the registry lists each once |
| Resolver.FindTagsLastWins | one_resume/plugins/api_word.py:256-260 | a name spelt in several leaves is registered against the last of them |
| Resolver.FindTagsLeaves | one_resume/plugins/api_word.py:252-270 | each leaf is rewritten from its own text and tags alone |
| Resolver.BangLeafKept | one_resume/plugins/api_word.py:262-265 | a leaf holding `[!` keeps its text |
| Resolver.UnknownLeafKept | one_resume/plugins/api_word.py:256-259 | a leaf none of whose tags is a known section keeps its text and registers nothing |
| Resolver.HeadingRewrite | one_resume/plugins/api_word.py:266-270 | when neither `pre` nor `post` holds a `[`: `pre[tag]post` becomes `pre tag post`, or the segment after the first `|` when that holds one |
| Resolver.AlternativeHeading | one_resume/plugins/api_word.py:257-270 | `[name|alt]` alone in its leaf reads `alt`, and registers `name` when it is lowercase |
| Plugin.Word2Resume.FindTags | one_resume/plugins/api_word.py:235-272 | the nested leaf and tag loops leave the body and the registry that the specification `FindTagsSpec` gives, and keep the identity invariant |
| Loops.LoopSpan | one_resume/plugins/api_word.py:144-164 | a found loop is the run of sibling leaves `ls[s..e]` from the opening leaf to the closing one (or to the last leaf when it never closes), non-empty and within the sibling leaves |
| Loops.ScanSiblings | one_resume/plugins/api_word.py:138-166 | the loop of `_extract_loop`, with its `inside_loop` and `prev_paragraph` state, returns exactly `LoopOf`: the start, the copies and the originals, or the error |
| Loops.VisitLeaf | one_resume/plugins/api_word.py:144-164 | one pass of that loop over leaf `i`: it ends the scan with exactly `LoopOf` (a nested `<`, a `>` before `<`, or the closed loop), or keeps the scan state invariant one leaf further |
| Loops.Collect | one_resume/plugins/api_word.py:151-159 | one leaf inside the loop adds its paragraph unless it is the previous one |
| Loops.ParasStep | one_resume/plugins/api_word.py:156-159 | a new paragraph's sibling index is at least the number copied so far, so `loop_tree.insert(node_index, …)` appends |
| Loops.ExtractLoop | one_resume/plugins/api_word.py:133-166 | `_extract_loop` of the heading's paragraph is the specification `ExtractSpec` |
| Loops.ExtractShape | one_resume/plugins/api_word.py:144-166 | the originals are distinct, increasing, after the heading (or the heading itself when it has no next sibling), the first is the loop start, each copied once in order; they are exactly the paragraphs of the leaves from the opening leaf to the closing one |
| Loops.ExtractStartsAtFirstMarker | one_resume/plugins/api_word.py:145-149 | the loop starts at the first marked sibling leaf, which holds `<` |
| Loops.EndBeforeStart | one_resume/plugins/api_word.py:161-162 | a `>` before any `<` fails |
| Loops.NestedStart | one_resume/plugins/api_word.py:145-146 | a second `<` before the loop closes fails |
| Loops.NoStartFails | one_resume/plugins/api_word.py:143-166 | with no marker among the sibling leaves there is no loop start |
| Loops.ExtractErrors | one_resume/plugins/api_word.py:143-166 | `_extract_loop` fails only with a missing start, a `>` before `<` or a nested `<` |
| Loops.GetAllKeys | one_resume/plugins/api_word.py:274-279 | the result lists exactly the union of the records' keys, each once |
| Loops.KeysBeforeUnion | one_resume/plugins/api_word.py:275-278 | the keys gathered from the first `i` records are exactly the keys of some record among them |
| Loops.ListOf | one_resume/plugins/api_word.py:279 | `list(set)`: every element of the set once, and nothing else |
| Loops.InstanceText | one_resume/plugins/api_word.py:197-211 | the per-leaf steps (strip `<`, strip `>`, replace each key in turn when the text is non-empty) give `InstanceLeaf` |
| Loops.InstanceHasNoMarkers | one_resume/plugins/api_word.py:199-202 | no `<` or `>` survives in a copy unless a record value brings one |
| Loops.ReplaceOneField | one_resume/plugins/api_word.py:208-211 | replacing `[key]` in a template fills exactly the fields named `key` |
| Loops.SubstituteFills | one_resume/plugins/api_word.py:205-211 | when every field name is a key, no key holds `]` and no value holds `[`: replacing every key in turn, in any order, fills every field with the record's value, or empty when the record lacks it |
| Loops.InstanceFills | one_resume/plugins/api_word.py:197-211 | a copy's leaf written as a marker-free template comes out as the template filled from the record, whatever the key order, when every field name is a key, no key holds `]` and no value holds `[` |
| Loops.KeyOrderMatters | one_resume/plugins/api_word.py:205-211 | the key order can change a copy: template `[a]` with record {a: `[b]`, b: `x`} gives `x` when `a` is replaced first and `[b]` when `b` is |
| Splice.InstancesIds | one_resume/plugins/api_word.py:190-194 | N records and F paragraphs give N×F copies, the i-th with the fresh identity `nextId + i` |
| Splice.InstancesAt | one_resume/plugins/api_word.py:190-222 | copy position r×F+k holds paragraph k of the loop, instanced for record r: record order, then fragment order |
| Splice.PlaceLayout | one_resume/plugins/api_word.py:216-228 | after insertion and deletion the body is: the paragraphs before the loop start, then all the copies, then the later paragraphs that were not in the loop |
| Splice.ExpandIsPlace | one_resume/plugins/api_word.py:168-233 | a successful expansion found the heading's paragraph in the body, a leaf at the heading's run and a loop after it, and is the expansion of that loop |
| Splice.ExpandLoopIsPlace | one_resume/plugins/api_word.py:216-232 | a successful loop expansion is the placement `Place`, followed by removal of the heading's paragraph exactly when the heading holds `[!` |
| Splice.ExpandLoopErrors | one_resume/plugins/api_word.py:216-232 | once the loop is found, the expansion can fail only by removing a `[!` heading's paragraph that is no longer in the body |
| Splice.ExpandSectionFound | one_resume/plugins/api_word.py:180-232 | when the heading's paragraph, its leaf and its loop are found, the section's expansion is the expansion of that loop |
| Splice.PlaceFresh | one_resume/plugins/api_word.py:216-228 | placement keeps identities unique and below the advanced allocator, and no original loop paragraph survives |
| Splice.ExpandKeepsFresh | one_resume/plugins/api_word.py:168-233 | an expansion keeps identities unique and below the advanced allocator |
| Splice.ExpandDropsTemplate | one_resume/plugins/api_word.py:226-232 | no original loop paragraph survives an expansion |
| Splice.RemoveIsWithout | one_resume/plugins/api_word.py:227-232 | with unique identities `body.remove(p)` drops exactly `p` |
| Splice.WithoutAt | one_resume/plugins/api_word.py:227-232 | removing the identity of the paragraph at `q`, when no other paragraph has it, deletes exactly that position |
| Splice.WithoutWithout | one_resume/plugins/api_word.py:227-228 | removing in two rounds removes the union |
| Splice.WithoutMembers | one_resume/plugins/api_word.py:227-228 | a paragraph survives removal exactly when its identity is not removed |
| Plugin.InstanceParagraph | one_resume/plugins/api_word.py:197-211 | the run loop over one copied paragraph instances every leaf and keeps leafless runs |
| Plugin.MakeInstance | one_resume/plugins/api_word.py:194-211 | one deep copy of the loop for one record is `Instance` |
| Plugin.MakeInstances | one_resume/plugins/api_word.py:190-211 | the record loop produces `Instances`, in record order |
| Plugin.InsertAfter | one_resume/plugins/api_word.py:217-223 | inserting each copy at the moving `index_to_insert_at` puts them all, in order, at that index |
| Plugin.RemoveOriginals | one_resume/plugins/api_word.py:227-228 | the deletion loop removes exactly the original loop paragraphs |
| Plugin.SpliceLoop | one_resume/plugins/api_word.py:216-228 | instancing, insertion after `body.index(loop_start_node)` and deletion give the specification `Place` |
| Plugin.KeyListExists | one_resume/plugins/api_word.py:274-279 | every record list has a duplicate-free listing of its key union |
| Plugin.ExpandUpToErr | one_resume/plugins/api_word.py:290-293 | the first failing section ends the render |
| Plugin.ExpandStep | one_resume/plugins/api_word.py:290-293 | after the first `i` sections succeeded, a section of the data expanded with listing `keys` gives the loop over the first `i + 1`, its outcome and its error |
| Plugin.ExpandMissing | one_resume/plugins/api_word.py:290-292 | a registered name the data lacks ends the loop with `KeyError` for that name |
| Plugin.ExpandedErr | one_resume/plugins/api_word.py:290-293 | once a section has failed, the outcome of the loop over any longer prefix of the registry is that failure |
| Plugin.ExpandSectionErrors | one_resume/plugins/api_word.py:168-233 | for a section whose value is a list of records, an expansion fails only for its heading or its loop markers, never for its records |
| Plugin.ExpandUpToMissing | one_resume/plugins/api_word.py:290-292 | the render fails with `KeyError` only for a registered name that is not a data key |
| Plugin.MissingSectionIsCapitalised | one_resume/plugins/api_word.py:250-292 | a `KeyError` happens only for a name that is not a data key while the data spells it with a capital letter: tags are looked for under lowercased keys, records under the lowercased name |
| Plugin.SkipOnlyNormalizes | one_resume/plugins/api_word.py:284-286 | with `skip` set the render fails exactly on malformed brackets; on balanced text it keeps paragraphs, identities and in-order text, and leaves every tag whole in one leaf |
| Plugin.Word2Resume.constructor | one_resume/plugins/api_word.py:87-94 | the object holds the parsed body, the data and the flag; identities start unique |
| Plugin.Word2Resume.CollapseTags | one_resume/plugins/api_word.py:317-359 | `collapse_tags` on the body: success exactly when `Collapse` succeeds, then the leaves hold its result; paragraphs, identities and runs stay |
| Plugin.Word2Resume.FindSubtagsInLoop | one_resume/plugins/api_word.py:168-233 | the in-place expansion leaves the body and allocator of `ExpandSection` on success and reports its error on failure, with a valid key listing |
| Plugin.Word2Resume.SpliceFound | one_resume/plugins/api_word.py:216-232 | once the loop is found, instancing, insertion, deletion and the `[!` removal leave the body and allocator of `ExpandLoop`, or report its error |
| Plugin.Word2Resume.ExpandSections | one_resume/plugins/api_word.py:290-293 | the section loop, in registry order, gives `ExpandUpTo` over all registered sections |
| Plugin.Word2Resume.ExpandNext | one_resume/plugins/api_word.py:290-293 | one pass of the section loop moves the loop outcome `Expanded` one registry entry on: the `KeyError` for a name the data lacks, otherwise the outcome of `_find_subtags_in_loop` |
| Plugin.Word2Resume.ParseXml | one_resume/plugins/api_word.py:281-294 | `_parse_xml` leaves the body of `ParseSpec` (normalize; stop when `skip`; resolve; expand each section) or reports its error, keeping the identity invariant |

## Left out

- Reading and writing the `.docx` zip container, the temporary directory and file handles (`read_contents`, `_write_and_close_docx`, `render`): these are I/O. `Word2Resume.constructor` takes the parsed body.
- The namespace table and the element-tag checks: node kinds are datatype constructors, so `_check_element_is` and `_assert_element_is` always hold.
- The XPath lookup of `w:body`: the class holds the body directly.
- Unicode `\w` and `\s` in the regular expressions: the scanner uses the ASCII classes.
- Logging, the unused `_get_all_text_in_node`, and the `__main__` block.
- Leaves whose text is `None`: every leaf holds a string.
- Tables and other non-paragraph children of the body: the body is a sequence of paragraphs.
- The registry of loop subtags that `_find_subtags_in_loop` builds and returns. Its `re.findall` and `tag.lower()` have no effect on the document, and `_parse_xml` discards the result.
- `str(value)` on record values: values are modelled as strings already.
- Section values other than a list of records: every data value is a list of string-keyed records. A scalar value still gets its section registered and its heading rewritten and its loop extracted. A number then fails at line 276, where it is iterated. A non-empty string fails at line 277, where `e.keys()` meets one of its characters. An empty string deletes the loop template with no copies, as an empty list does.
- Python `dict` and `set` order: sections follow first-insertion order, and the key listing of each section is a ghost choice.
- Deep copy as a library call: a copy is a value copy with a fresh identity.
- The per-instance loop inserting each child of each copy: it is modelled as one flat insertion of all copies in order, which is the same sequence of `insert` calls.
- Plugin.Word2Resume.CollapseTags: on failure, the contract does not state what the partly rewritten leaves hold.
- Plugin.Word2Resume.FindSubtagsInLoop: on failure, the contract does not state the body state. The source may already have changed the tree when the error is raised.
- Plugin.Word2Resume.SpliceFound: on failure (a `[!` heading whose paragraph has left the body), the contract does not state the body state.
- Plugin.Word2Resume.ExpandSections: on failure, the contract does not state the body state.
- Plugin.Word2Resume.ParseXml: on failure, the contract does not state the body state.
- Splice.ExpandSection: a heading whose paragraph has left the body ends the expansion at once with `DetachedAnchor`. The source may instead get further and fail later with `AttributeError`, `UnboundLocalError` or an assertion. The render fails either way.
- Plugin.ParseSpec: freshness of identities over the whole render is stated as the class invariant `Valid()` that every method keeps, not as a lemma about the function.
