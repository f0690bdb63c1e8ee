/** The tag normalizer (`collapse_tags`). Word may split a `[name]` token
    over several runs; before any matching, the normalizer walks the text
    leaves in document order, character by character, and moves every
    character of a token that opened in an earlier leaf back into that
    leaf. Leaves wholly inside the token are emptied; the closing leaf
    keeps what follows the `]`. A `[` inside a token, or a `]` outside one,
    is a fatal error.

    `CollapseLeaves` is the loop over an array of leaf texts; `Collapse`
    states the same computation leaf by leaf, and the lemmas relate it to
    the bracket state machine `Track` run over the concatenated text. */
module Normalizer {
  import opened Base

  predicate IsBracket(c: char)
  {
    c == '[' || c == ']'
  }

  predicate NoBrackets(t: string)
  {
    forall j :: 0 <= j < |t| ==> !IsBracket(t[j])
  }

  /** The bracket state machine on one character: `[` is allowed only
      outside a token, `]` only inside one. */
  function StepChar(inside: bool, c: char): Option<bool>
  {
    if c == '[' then (if inside then None else Some(true))
    else if c == ']' then (if inside then Some(false) else None)
    else Some(inside)
  }

  /** Runs the state machine over `t` from state `inside`; None when a
      bracket arrives in the wrong state. */
  function Track(t: string, inside: bool): Option<bool>
  {
    if t == [] then Some(inside)
    else match Track(t[..|t| - 1], inside)
      case None => None
      case Some(b) => StepChar(b, t[|t| - 1])
  }

  /** Every `[` is followed by its `]` before the next `[`, and nothing is
      left open. */
  predicate Balanced(t: string)
  {
    Track(t, false) == Some(false)
  }

  function FirstBracketFrom(t: string, i: nat): (r: Option<nat>)
    requires i <= |t|
    requires NoBrackets(t[..i])
    ensures r.Some? ==> i <= r.value < |t| && IsBracket(t[r.value]) && NoBrackets(t[..r.value])
    ensures r.None? ==> NoBrackets(t)
    decreases |t| - i
  {
    if i == |t| then (assert t[..i] == t; None)
    else if IsBracket(t[i]) then Some(i)
    else (assert forall j :: 0 <= j < i + 1 ==> t[..i + 1][j] == t[j];
          FirstBracketFrom(t, i + 1))
  }

  /** Index of the first `[` or `]` of `t`. */
  function FirstBracket(t: string): (r: Option<nat>)
    ensures r.Some? ==> r.value < |t| && IsBracket(t[r.value]) && NoBrackets(t[..r.value])
    ensures r.None? ==> NoBrackets(t)
  {
    FirstBracketFrom(t, 0)
  }

  /** The leaf texts joined in order. */
  function Concat(ts: seq<string>): string
  {
    if ts == [] then [] else Concat(ts[..|ts| - 1]) + ts[|ts| - 1]
  }

  /** State between two leaves: outside any token, or inside a token that
      opened in leaf `start`, with `buffered` the text seen since in later
      leaves (all of it already cut out of them). */
  datatype Pending = Outside | Open(start: nat, buffered: string)

  /** What the scan of leaf `n` does, given the state it starts in. */
  function StepLeaf(arr: seq<string>, n: nat, st: Pending): (r: Result<(seq<string>, Pending)>)
    requires n < |arr| && (st.Open? ==> st.start < n)
    ensures r.Ok? ==> |r.value.0| == |arr| && (r.value.1.Open? ==> r.value.1.start <= n)
  {
    var text := arr[n];
    match st
    case Outside =>
      (match Track(text, false)
       case None => Err(MalformedBrackets)
       case Some(b) => Ok((arr, if b then Open(n, []) else Outside)))
    case Open(s, buf) =>
      (match FirstBracket(text)
       case None => Ok((arr[n := []], Open(s, buf + text)))
       case Some(k) =>
         if text[k] == '[' then Err(MalformedBrackets)
         else
           var moved := arr[s := arr[s] + buf + text[..k + 1]][n := text[k + 1..]];
           match Track(text[k + 1..], false)
           case None => Err(MalformedBrackets)
           case Some(b) => Ok((moved, if b then Open(n, []) else Outside)))
  }

  function CollapseFrom(arr: seq<string>, n: nat, st: Pending): (r: Result<seq<string>>)
    requires n <= |arr| && (st.Open? ==> st.start < n)
    ensures r.Ok? ==> |r.value| == |arr|
    decreases |arr| - n
  {
    if n == |arr| then Ok(arr)
    else match StepLeaf(arr, n, st)
      case Err(e) => Err(e)
      case Ok((arr', st')) => CollapseFrom(arr', n + 1, st')
  }

  /** The normalized leaf texts, or the fatal error. */
  function Collapse(leaves: seq<string>): Result<seq<string>>
  {
    CollapseFrom(leaves, 0, Outside)
  }

  /** `collapse_tags`, in place over the leaf texts in document order. On
      failure the render is aborted and the array holds a partial result. */
  method CollapseLeaves(a: array<string>) returns (ok: bool)
    modifies a
    ensures ok == Collapse(old(a[..])).Ok?
    ensures ok ==> a[..] == Collapse(old(a[..])).value
  {
    var inside := false;      // is_tag_start
    var start: nat := 0;      // tag_start_node, as a leaf index
    var chars: string := [];  // characters to move into the start leaf
    ghost var st: Pending := Outside;
    var n := 0;
    while n < a.Length
      invariant 0 <= n <= a.Length
      invariant st.Open? ==> st.start < n
      invariant CollapseFrom(a[..], n, st) == Collapse(old(a[..]))
      invariant inside == st.Open?
      invariant st.Open? ==> start == st.start && chars == st.buffered
    {
      ok, inside, start, chars := ScanLeaf(a, n, inside, start, chars, st);
      if !ok {
        return;
      }
      st := if inside then Open(start, chars) else Outside;
      n := n + 1;
    }
    assert a[..] == a[..n];
    ok := true;
  }

  /** One pass of the character loop of `collapse_tags`, over leaf `n`,
      starting in the state the earlier leaves left. */
  method ScanLeaf(a: array<string>, n: nat, inside0: bool, start0: nat, chars0: string, ghost st0: Pending)
    returns (ok: bool, inside: bool, start: nat, chars: string)
    requires n < a.Length && (st0.Open? ==> st0.start < n)
    requires inside0 == st0.Open? && (st0.Open? ==> start0 == st0.start && chars0 == st0.buffered)
    modifies a
    ensures ok == StepLeaf(old(a[..]), n, st0).Ok?
    ensures ok ==> StepLeaf(old(a[..]), n, st0).value == (a[..], if inside then Open(start, chars) else Outside)
  {
    inside, start, chars := inside0, start0, chars0;
    var text := a[n];
    ghost var arr0 := a[..];
    ghost var closedAt: int := -1;
    var i := 0;
    while i < |text|
      invariant 0 <= i <= |text| && arr0 == old(a[..]) && arr0[n] == text
      invariant Scanned(arr0, n, st0, i, closedAt, a[..], inside, start, chars)
    {
      ok, inside, start, chars, closedAt := ScanChar(a, n, arr0, st0, text, i, closedAt, inside, start, chars);
      if !ok {
        return false, inside, start, chars;
      }
      i := i + 1;
    }
    ScanDone(arr0, n, st0, closedAt, a[..], inside, start, chars);
    if inside && n != start {
      a[n] := [];
    }
    ok := true;
  }

  /** The body of the character loop of `ScanLeaf`: character `i` of leaf
      `n` either fails the step or moves the scan one character on. */
  method ScanChar(a: array<string>, n: nat, ghost arr0: seq<string>, ghost st0: Pending, text: string, i: nat,
                  ghost closedAt0: int, inside0: bool, start0: nat, chars0: string)
    returns (ok: bool, inside: bool, start: nat, chars: string, ghost closedAt: int)
    requires n < |arr0| == a.Length && (st0.Open? ==> st0.start < n) && text == arr0[n] && i < |text|
    requires Scanned(arr0, n, st0, i, closedAt0, a[..], inside0, start0, chars0)
    modifies a
    ensures ok ==> Scanned(arr0, n, st0, i + 1, closedAt, a[..], inside, start, chars)
    ensures !ok ==> StepLeaf(arr0, n, st0).Err?
  {
    inside, start, chars, closedAt := inside0, start0, chars0, closedAt0;
    var c := text[i];
    if c == '[' {
      if inside {
        ScanFails(arr0, n, st0, i, closedAt, a[..], inside, start, chars);
        return false, inside, start, chars, closedAt;
      }
      ScanOpen(arr0, n, st0, i, closedAt, a[..], start, chars);
      inside := true;
      start := n;
      chars := [];
    } else if c == ']' {
      if !inside {
        ScanFails(arr0, n, st0, i, closedAt, a[..], inside, start, chars);
        return false, inside, start, chars, closedAt;
      }
      if n != start {
        ScanCloseMoved(arr0, n, st0, i, closedAt, a[..], start, chars);
        chars := chars + [c];
        a[start] := a[start] + chars;
        a[n] := text[i + 1..];
        closedAt := i;
      } else {
        ScanCloseHere(arr0, n, st0, i, closedAt, a[..], start, chars);
      }
      inside := false;
    } else {
      ScanPlain(arr0, n, st0, i, closedAt, a[..], inside, start, chars);
      if inside && n != start {
        chars := chars + [c];
      }
    }
    ok := true;
  }

  /** The loop state of `ScanLeaf` after the first `i` characters of leaf
      `n`, which started in `st0` over the leaves `arr0`: `closedAt` is
      where the token that opened in an earlier leaf closed, if it did. */
  ghost predicate Scanned(arr0: seq<string>, n: nat, st0: Pending, i: nat, closedAt: int,
                          arr: seq<string>, inside: bool, start: nat, chars: string)
    requires n < |arr0| && (st0.Open? ==> st0.start < n) && i <= |arr0[n]|
  {
    var text := arr0[n];
    -1 <= closedAt < i &&
    (st0.Outside? ==>
       closedAt == -1 && arr == arr0 && Track(text[..i], false) == Some(inside) &&
       (inside ==> start == n && chars == [])) &&
    (st0.Open? && closedAt < 0 ==>
       inside && start == st0.start && chars == st0.buffered + text[..i] &&
       NoBrackets(text[..i]) && arr == arr0) &&
    (st0.Open? && closedAt >= 0 ==>
       FirstBracket(text) == Some(closedAt) && text[closedAt] == ']' &&
       arr == arr0[st0.start := arr0[st0.start] + st0.buffered + text[..closedAt + 1]]
                  [n := text[closedAt + 1..]] &&
       Track(text[closedAt + 1..i], false) == Some(inside) &&
       (inside ==> start == n && chars == []))
  }

  /** A character that is not a bracket is buffered when the token opened
      in an earlier leaf, and otherwise only read. */
  lemma ScanPlain(arr0: seq<string>, n: nat, st0: Pending, i: nat, closedAt: int,
                  arr: seq<string>, inside: bool, start: nat, chars: string)
    requires n < |arr0| && (st0.Open? ==> st0.start < n) && i < |arr0[n]| && !IsBracket(arr0[n][i])
    requires Scanned(arr0, n, st0, i, closedAt, arr, inside, start, chars)
    ensures Scanned(arr0, n, st0, i + 1, closedAt, arr, inside, start,
                    if inside && n != start then chars + [arr0[n][i]] else chars)
  {
    var text := arr0[n];
    var c := text[i];
    assert text[..i + 1] == text[..i] + [c];
    if closedAt >= 0 {
      assert text[closedAt + 1..i + 1] == text[closedAt + 1..i] + [c];
      TrackAppend(text[closedAt + 1..i], [c], false);
    } else if st0.Outside? {
      TrackAppend(text[..i], [c], false);
    }
  }

  /** A `[` outside a token opens one in this leaf. */
  lemma ScanOpen(arr0: seq<string>, n: nat, st0: Pending, i: nat, closedAt: int,
                 arr: seq<string>, start: nat, chars: string)
    requires n < |arr0| && (st0.Open? ==> st0.start < n) && i < |arr0[n]| && arr0[n][i] == '['
    requires Scanned(arr0, n, st0, i, closedAt, arr, false, start, chars)
    ensures Scanned(arr0, n, st0, i + 1, closedAt, arr, true, n, [])
  {
    var text := arr0[n];
    assert text[..i + 1] == text[..i] + ['['];
    if closedAt >= 0 {
      assert text[closedAt + 1..i + 1] == text[closedAt + 1..i] + ['['];
      TrackAppend(text[closedAt + 1..i], ['['], false);
    } else {
      TrackAppend(text[..i], ['['], false);
    }
  }

  /** A `]` closing a token that opened in this leaf leaves the leaves as
      they are. */
  lemma ScanCloseHere(arr0: seq<string>, n: nat, st0: Pending, i: nat, closedAt: int,
                      arr: seq<string>, start: nat, chars: string)
    requires n < |arr0| && (st0.Open? ==> st0.start < n) && i < |arr0[n]| && arr0[n][i] == ']'
    requires Scanned(arr0, n, st0, i, closedAt, arr, true, start, chars) && start == n
    ensures Scanned(arr0, n, st0, i + 1, closedAt, arr, false, start, chars)
  {
    var text := arr0[n];
    assert text[..i + 1] == text[..i] + [']'];
    if closedAt >= 0 {
      assert text[closedAt + 1..i + 1] == text[closedAt + 1..i] + [']'];
      TrackAppend(text[closedAt + 1..i], [']'], false);
    } else {
      TrackAppend(text[..i], [']'], false);
    }
  }

  /** A `]` closing a token that opened in an earlier leaf: the buffered
      characters and the `]` move to the opening leaf, and this leaf keeps
      what follows the `]`. */
  lemma ScanCloseMoved(arr0: seq<string>, n: nat, st0: Pending, i: nat, closedAt: int,
                       arr: seq<string>, start: nat, chars: string)
    requires n < |arr0| && (st0.Open? ==> st0.start < n) && i < |arr0[n]| && arr0[n][i] == ']'
    requires Scanned(arr0, n, st0, i, closedAt, arr, true, start, chars) && start != n
    ensures st0.Open? && start == st0.start && |arr| == |arr0|
    ensures Scanned(arr0, n, st0, i + 1, i, arr[start := arr[start] + (chars + [']'])][n := arr0[n][i + 1..]],
                    false, start, chars + [']'])
  {
    var text := arr0[n];
    assert text[..i + 1] == text[..i] + [']'];
    assert FirstBracket(text) == Some(i);
    assert text[i + 1..i + 1] == [];
    assert arr[start] + (chars + [']']) == arr0[st0.start] + st0.buffered + text[..i + 1];
  }

  /** A bracket the state machine refuses fails the step for the leaf. */
  lemma ScanFails(arr0: seq<string>, n: nat, st0: Pending, i: nat, closedAt: int,
                  arr: seq<string>, inside: bool, start: nat, chars: string)
    requires n < |arr0| && (st0.Open? ==> st0.start < n) && i < |arr0[n]|
    requires (arr0[n][i] == '[' && inside) || (arr0[n][i] == ']' && !inside)
    requires Scanned(arr0, n, st0, i, closedAt, arr, inside, start, chars)
    ensures StepLeaf(arr0, n, st0).Err?
  {
    var text := arr0[n];
    var c := text[i];
    assert text[..i + 1] == text[..i] + [c];
    if closedAt >= 0 {
      assert text[closedAt + 1..i + 1] == text[closedAt + 1..i] + [c];
      TrackAppend(text[closedAt + 1..i], [c], false);
    } else if st0.Outside? {
      TrackAppend(text[..i], [c], false);
    }
    StepLeafFails(arr0, n, st0, i, closedAt);
  }

  /** At the end of the leaf the scan is the step of the specification; a
      leaf inside a token that opened earlier is then cleared. */
  lemma ScanDone(arr0: seq<string>, n: nat, st0: Pending, closedAt: int,
                 arr: seq<string>, inside: bool, start: nat, chars: string)
    requires n < |arr0| && (st0.Open? ==> st0.start < n)
    requires Scanned(arr0, n, st0, |arr0[n]|, closedAt, arr, inside, start, chars)
    ensures inside && n != start ==> n < |arr|
    ensures StepLeaf(arr0, n, st0) ==
      Ok((if inside && n != start then arr[n := []] else arr, if inside then Open(start, chars) else Outside))
  {
    var text := arr0[n];
    assert text[..|text|] == text;
    if st0.Outside? {
      ScanEndOutside(arr0, n, inside);
    } else if closedAt < 0 {
      ScanEndPlain(arr0, n, st0.start, st0.buffered);
    } else {
      ScanEndClosed(arr0, n, st0.start, st0.buffered, closedAt, inside);
    }
  }

  lemma ScanEndOutside(arr: seq<string>, n: nat, inside: bool)
    requires n < |arr| && Track(arr[n], false) == Some(inside)
    ensures StepLeaf(arr, n, Outside) == Ok((arr, if inside then Open(n, []) else Outside))
  {
  }

  lemma ScanEndPlain(arr: seq<string>, n: nat, s: nat, buf: string)
    requires s < n < |arr| && NoBrackets(arr[n])
    ensures StepLeaf(arr, n, Open(s, buf)) == Ok((arr[n := []], Open(s, buf + arr[n])))
  {
    assert FirstBracket(arr[n]).None?;
  }

  lemma ScanEndClosed(arr: seq<string>, n: nat, s: nat, buf: string, k: nat, inside: bool)
    requires s < n < |arr| && FirstBracket(arr[n]) == Some(k) && arr[n][k] == ']'
    requires Track(arr[n][k + 1..], false) == Some(inside)
    ensures StepLeaf(arr, n, Open(s, buf)) ==
      Ok((arr[s := arr[s] + buf + arr[n][..k + 1]][n := arr[n][k + 1..]], if inside then Open(n, []) else Outside))
  {
  }

  /** The character at `i` is one the state machine refuses, so the scan of
      leaf `n` fails as a whole. */
  lemma StepLeafFails(arr: seq<string>, n: nat, st: Pending, i: nat, closedAt: int)
    requires n < |arr| && (st.Open? ==> st.start < n) && i < |arr[n]| && -1 <= closedAt < i
    requires st.Outside? ==> Track(arr[n][..i + 1], false) == None
    requires st.Open? && closedAt < 0 ==> NoBrackets(arr[n][..i]) && arr[n][i] == '['
    requires st.Open? && closedAt >= 0 ==>
      FirstBracket(arr[n]) == Some(closedAt) && arr[n][closedAt] == ']' &&
      Track(arr[n][closedAt + 1..i + 1], false) == None
    ensures StepLeaf(arr, n, st).Err?
  {
    var text := arr[n];
    if st.Outside? {
      TrackPrefixNone(text, i + 1, false);
    } else if closedAt >= 0 {
      var rest := text[closedAt + 1..];
      assert rest[..i - closedAt] == text[closedAt + 1..i + 1];
      TrackPrefixNone(rest, i - closedAt, false);
    } else {
      assert FirstBracket(text) == Some(i);
    }
  }

  lemma {:induction false} TrackAppend(s: string, t: string, b: bool)
    ensures Track(s + t, b) == (match Track(s, b) case None => None case Some(x) => Track(t, x))
    decreases |t|
  {
    if t == [] {
      assert s + t == s;
    } else {
      var u := s + t;
      assert u[..|u| - 1] == s + t[..|t| - 1];
      TrackAppend(s, t[..|t| - 1], b);
    }
  }

  lemma TrackPrefixNone(t: string, k: nat, b: bool)
    requires k <= |t| && Track(t[..k], b) == None
    ensures Track(t, b) == None
  {
    assert t == t[..k] + t[k..];
    TrackAppend(t[..k], t[k..], b);
  }

  lemma {:induction false} TrackPlain(t: string, b: bool)
    requires NoBrackets(t)
    ensures Track(t, b) == Some(b)
  {
    if t != [] {
      TrackPlain(t[..|t| - 1], b);
    }
  }

  lemma {:induction false} ConcatSplit(x: seq<string>, y: seq<string>)
    ensures Concat(x + y) == Concat(x) + Concat(y)
    decreases |y|
  {
    if y == [] {
      assert x + y == x;
    } else {
      DropLast(x, y);
      ConcatSplit(x, y[..|y| - 1]);
    }
  }

  lemma {:induction false} ConcatEmpty(ts: seq<string>)
    requires forall j :: 0 <= j < |ts| ==> ts[j] == []
    ensures Concat(ts) == []
  {
    if ts != [] {
      ConcatEmpty(ts[..|ts| - 1]);
    }
  }

  lemma ConcatPrefix(ts: seq<string>, n: nat)
    requires n < |ts|
    ensures Concat(ts[..n + 1]) == Concat(ts[..n]) + ts[n]
  {
    assert ts[..n + 1][..n] == ts[..n];
  }

  /** What holds after the first `n` leaves of `orig` have been scanned and
      the array reads `arr`: later leaves are untouched; the state is Open
      exactly when the text so far leaves a token open; no text has been
      lost; every settled leaf is balanced; the leaves after an open
      token's start are emptied and their text is buffered. */
  ghost predicate Inv(orig: seq<string>, arr: seq<string>, n: nat, st: Pending)
  {
    |arr| == |orig| && n <= |orig| &&
    (forall j :: n <= j < |orig| ==> arr[j] == orig[j]) &&
    Track(Concat(orig[..n]), false) == Some(st.Open?) &&
    match st
    case Outside =>
      Concat(arr[..n]) == Concat(orig[..n]) && (forall j :: 0 <= j < n ==> Balanced(arr[j]))
    case Open(s, buf) =>
      s < n && Concat(arr[..s]) + arr[s] + buf == Concat(orig[..n]) &&
      (forall j :: 0 <= j < s ==> Balanced(arr[j])) &&
      Track(arr[s], false) == Some(true) && NoBrackets(buf) &&
      (forall j :: s < j < n ==> arr[j] == [])
  }

  lemma StepOutside(orig: seq<string>, arr: seq<string>, n: nat)
    requires Inv(orig, arr, n, Outside) && n < |orig|
    ensures StepLeaf(arr, n, Outside).Err? <==> Track(Concat(orig[..n + 1]), false).None?
    ensures StepLeaf(arr, n, Outside).Ok? ==>
      Inv(orig, StepLeaf(arr, n, Outside).value.0, n + 1, StepLeaf(arr, n, Outside).value.1)
  {
    ConcatPrefix(orig, n);
    ConcatPrefix(arr, n);
    TrackAppend(Concat(orig[..n]), orig[n], false);
  }

  lemma StepOpenPlain(orig: seq<string>, arr: seq<string>, n: nat, s: nat, buf: string)
    requires Inv(orig, arr, n, Open(s, buf)) && n < |orig| && FirstBracket(arr[n]).None?
    ensures StepLeaf(arr, n, Open(s, buf)).Ok?
    ensures Track(Concat(orig[..n + 1]), false) == Some(true)
    ensures Inv(orig, StepLeaf(arr, n, Open(s, buf)).value.0, n + 1, StepLeaf(arr, n, Open(s, buf)).value.1)
  {
    OpenPlainInv(orig, arr, n, s, buf);
    assert StepLeaf(arr, n, Open(s, buf)) == Ok((arr[n := []], Open(s, buf + arr[n])));
  }

  /** A bracket-free leaf inside a token moves into the buffer. */
  lemma OpenPlainInv(orig: seq<string>, arr: seq<string>, n: nat, s: nat, buf: string)
    requires Inv(orig, arr, n, Open(s, buf)) && n < |orig| && FirstBracket(arr[n]).None?
    ensures Track(Concat(orig[..n + 1]), false) == Some(true)
    ensures Inv(orig, arr[n := []], n + 1, Open(s, buf + arr[n]))
  {
    var text := arr[n];
    var arr' := arr[n := []];
    ConcatPrefix(orig, n);
    TrackAppend(Concat(orig[..n]), orig[n], false);
    TrackPlain(text, true);
    assert arr'[..s] == arr[..s];
    NoBracketsAppend(buf, text);
  }

  lemma NoBracketsAppend(a: string, b: string)
    requires NoBrackets(a) && NoBrackets(b)
    ensures NoBrackets(a + b)
  {
    assert forall j :: 0 <= j < |a + b| ==> (a + b)[j] == if j < |a| then a[j] else b[j - |a|];
  }

  /** Inside a token, a leaf's first bracket decides: `[` fails, `]` closes
      the token and the state machine restarts outside after it. */
  lemma TrackFromFirstBracket(text: string, k: nat)
    requires FirstBracket(text) == Some(k)
    ensures text[k] == '[' ==> Track(text, true) == None
    ensures text[k] == ']' ==> Track(text[..k + 1], true) == Some(false)
    ensures text[k] == ']' ==> Track(text, true) == Track(text[k + 1..], false)
  {
    assert text == text[..k + 1] + text[k + 1..];
    assert text[..k + 1] == text[..k] + text[k..k + 1];
    TrackPlain(text[..k], true);
    TrackAppend(text[..k], text[k..k + 1], true);
    TrackAppend(text[..k + 1], text[k + 1..], true);
    assert Track(text[k..k + 1], true) == StepChar(true, text[k]) by {
      assert text[k..k + 1][..0] == [];
    }
  }

  /** The opening leaf extended with the buffered text and the closing
      leaf's text up to its `]` is balanced. */
  lemma ClosedHeadBalanced(head: string, buf: string, tail: string)
    requires Track(head, false) == Some(true) && NoBrackets(buf) && Track(tail, true) == Some(false)
    ensures Balanced(head + buf + tail)
  {
    TrackPlain(buf, true);
    TrackAppend(head, buf, false);
    TrackAppend(head + buf, tail, false);
  }

  /** The text of the first `n` leaves after the closing step. */
  lemma MovedConcat(arr: seq<string>, n: nat, s: nat, head: string, tail: string)
    requires s < n < |arr| && forall j :: s < j < n ==> arr[j] == []
    ensures Concat(arr[s := head][n := tail][..n]) == Concat(arr[..s]) + head
  {
    var moved := arr[s := head][n := tail];
    assert moved[..n] == arr[..s] + [head] + moved[s + 1..n];
    ConcatSplit(arr[..s] + [head], moved[s + 1..n]);
    ConcatSplit(arr[..s], [head]);
    assert Concat([head]) == head by { assert [head][..0] == []; }
    ConcatEmpty(moved[s + 1..n]);
  }

  lemma StepOpenClose(orig: seq<string>, arr: seq<string>, n: nat, s: nat, buf: string, k: nat)
    requires Inv(orig, arr, n, Open(s, buf)) && n < |orig|
    requires FirstBracket(arr[n]) == Some(k)
    ensures StepLeaf(arr, n, Open(s, buf)).Err? <==> Track(Concat(orig[..n + 1]), false).None?
    ensures StepLeaf(arr, n, Open(s, buf)).Ok? ==>
      Inv(orig, StepLeaf(arr, n, Open(s, buf)).value.0, n + 1, StepLeaf(arr, n, Open(s, buf)).value.1)
  {
    ConcatPrefix(orig, n);
    TrackAppend(Concat(orig[..n]), orig[n], false);
    TrackFromFirstBracket(arr[n], k);
    if arr[n][k] == ']' {
      StepOpenClosing(orig, arr, n, s, buf, k);
    }
  }

  /** The closing step: the token's text moves into its opening leaf. */
  lemma StepOpenClosing(orig: seq<string>, arr: seq<string>, n: nat, s: nat, buf: string, k: nat)
    requires Inv(orig, arr, n, Open(s, buf)) && n < |orig|
    requires FirstBracket(arr[n]) == Some(k) && arr[n][k] == ']'
    ensures StepLeaf(arr, n, Open(s, buf)).Err? <==> Track(Concat(orig[..n + 1]), false).None?
    ensures StepLeaf(arr, n, Open(s, buf)).Ok? ==>
      Inv(orig, StepLeaf(arr, n, Open(s, buf)).value.0, n + 1, StepLeaf(arr, n, Open(s, buf)).value.1)
  {
    var text := arr[n];
    var head := arr[s] + buf + text[..k + 1];
    var tail := text[k + 1..];
    ClosingText(orig, arr, n, s, buf, k);
    assert Track(Concat(orig[..n + 1]), false) == Track(tail, false);
    match Track(tail, false)
    case None =>
    case Some(b) =>
      var moved := arr[s := head][n := tail];
      ClosedHeadBalanced(arr[s], buf, text[..k + 1]);
      MovedConcat(arr, n, s, head, tail);
      MovedBalanced(arr, n, s, head, moved);
      assert Concat(moved[..n]) + moved[n] == Concat(orig[..n + 1]);
      InvAfterClose(orig, moved, n, b);
  }

  /** Reading through the closing leaf: the text so far is the opening
      leaf, the buffer and the closing leaf, and the scan state after it is
      the state after the closing leaf's text following its `]`. */
  lemma ClosingText(orig: seq<string>, arr: seq<string>, n: nat, s: nat, buf: string, k: nat)
    requires Inv(orig, arr, n, Open(s, buf)) && n < |orig|
    requires FirstBracket(arr[n]) == Some(k) && arr[n][k] == ']'
    ensures Concat(orig[..n + 1]) == Concat(arr[..s]) + (arr[s] + buf + arr[n][..k + 1]) + arr[n][k + 1..]
    ensures Track(Concat(orig[..n + 1]), false) == Track(arr[n][k + 1..], false)
    ensures Track(arr[n][..k + 1], true) == Some(false)
  {
    var text := arr[n];
    assert orig[n] == text;
    ConcatPrefix(orig, n);
    TrackAppend(Concat(orig[..n]), orig[n], false);
    TrackFromFirstBracket(text, k);
    SplitAfter(text, k);
    Regroup(Concat(arr[..s]), arr[s], buf, text[..k + 1], text[k + 1..]);
  }

  lemma SplitAfter(text: string, k: nat)
    requires k < |text|
    ensures text == text[..k + 1] + text[k + 1..]
  {
  }

  lemma Regroup(a: string, b: string, c: string, d: string, e: string)
    ensures a + b + c + (d + e) == a + (b + c + d) + e
  {
  }

  /** After the closing step every leaf before the closing one is balanced. */
  lemma MovedBalanced(arr: seq<string>, n: nat, s: nat, head: string, moved: seq<string>)
    requires s < n < |arr| && Balanced(head)
    requires forall j :: 0 <= j < s ==> Balanced(arr[j])
    requires forall j :: s < j < n ==> arr[j] == []
    requires |moved| == |arr| && moved[s] == head && forall j :: 0 <= j < n && j != s ==> moved[j] == arr[j]
    ensures forall j :: 0 <= j < n ==> Balanced(moved[j])
  {
    forall j | 0 <= j < n
      ensures Balanced(moved[j])
    {
      if s < j {
        assert moved[j] == [];
      }
    }
  }

  /** The invariant after a closing step, from the facts it rests on. */
  lemma InvAfterClose(orig: seq<string>, moved: seq<string>, n: nat, b: bool)
    requires |moved| == |orig| && n < |orig|
    requires forall j :: n + 1 <= j < |orig| ==> moved[j] == orig[j]
    requires Track(Concat(orig[..n + 1]), false) == Some(b)
    requires Track(moved[n], false) == Some(b)
    requires forall j :: 0 <= j < n ==> Balanced(moved[j])
    requires Concat(moved[..n]) + moved[n] == Concat(orig[..n + 1])
    ensures Inv(orig, moved, n + 1, if b then Open(n, []) else Outside)
  {
    if b {
      assert Concat(moved[..n]) + moved[n] + [] == Concat(orig[..n + 1]);
    } else {
      ConcatPrefix(moved, n);
    }
  }

  lemma StepLeafInv(orig: seq<string>, arr: seq<string>, n: nat, st: Pending)
    requires Inv(orig, arr, n, st) && n < |orig|
    ensures StepLeaf(arr, n, st).Err? <==> Track(Concat(orig[..n + 1]), false).None?
    ensures StepLeaf(arr, n, st).Ok? ==>
      Inv(orig, StepLeaf(arr, n, st).value.0, n + 1, StepLeaf(arr, n, st).value.1)
  {
    match st
    case Outside => StepOutside(orig, arr, n);
    case Open(s, buf) =>
      match FirstBracket(arr[n])
      case None => StepOpenPlain(orig, arr, n, s, buf);
      case Some(k) => StepOpenClose(orig, arr, n, s, buf, k);
  }

  lemma TrackPrefixOfConcat(orig: seq<string>, n: nat)
    requires n <= |orig| && Track(Concat(orig[..n]), false).None?
    ensures Track(Concat(orig), false).None?
  {
    assert orig == orig[..n] + orig[n..];
    ConcatSplit(orig[..n], orig[n..]);
    TrackAppend(Concat(orig[..n]), Concat(orig[n..]), false);
  }

  lemma {:induction false} CollapseFromInv(orig: seq<string>, arr: seq<string>, n: nat, st: Pending)
    requires Inv(orig, arr, n, st)
    ensures CollapseFrom(arr, n, st).Ok? <==> Track(Concat(orig), false).Some?
    ensures CollapseFrom(arr, n, st).Ok? && Track(Concat(orig), false) == Some(false) ==>
      Concat(CollapseFrom(arr, n, st).value) == Concat(orig) &&
      forall j :: 0 <= j < |orig| ==> Balanced(CollapseFrom(arr, n, st).value[j])
    decreases |orig| - n
  {
    if n == |orig| {
      assert orig[..n] == orig && arr[..n] == arr;
    } else {
      StepLeafInv(orig, arr, n, st);
      match StepLeaf(arr, n, st)
      case Err(_) => TrackPrefixOfConcat(orig, n + 1);
      case Ok((arr', st')) => CollapseFromInv(orig, arr', n + 1, st');
    }
  }

  lemma InvInit(orig: seq<string>)
    ensures Inv(orig, orig, 0, Outside)
  {
    assert orig[..0] == [];
  }

  /** Normalization fails exactly when, reading all leaves as one text, a
      `[` arrives inside a token or a `]` outside one. */
  lemma NormalizeFailsIffMalformed(leaves: seq<string>)
    ensures Collapse(leaves).Ok? <==> Track(Concat(leaves), false).Some?
  {
    InvInit(leaves);
    CollapseFromInv(leaves, leaves, 0, Outside);
  }

  /** On balanced input normalization succeeds, keeps the number of leaves
      and the text read in document order, and leaves every token whole
      inside one leaf: each leaf is balanced by itself. */
  lemma NormalizePreservesText(leaves: seq<string>)
    requires Balanced(Concat(leaves))
    ensures Collapse(leaves).Ok?
    ensures |Collapse(leaves).value| == |leaves|
    ensures Concat(Collapse(leaves).value) == Concat(leaves)
    ensures forall j :: 0 <= j < |leaves| ==> Balanced(Collapse(leaves).value[j])
  {
    InvInit(leaves);
    CollapseFromInv(leaves, leaves, 0, Outside);
  }

  lemma {:induction false} Reach(orig: seq<string>, j: nat) returns (arr: seq<string>, st: Pending)
    requires Collapse(orig).Ok? && j <= |orig|
    ensures Inv(orig, arr, j, st) && CollapseFrom(arr, j, st) == Collapse(orig)
  {
    if j == 0 {
      InvInit(orig);
      arr, st := orig, Outside;
    } else {
      var arr0, st0 := Reach(orig, j - 1);
      StepLeafInv(orig, arr0, j - 1, st0);
      arr, st := StepLeaf(arr0, j - 1, st0).value.0, StepLeaf(arr0, j - 1, st0).value.1;
    }
  }

  /** Leaves before the start of the pending token are never written again. */
  lemma {:induction false} FinalPrefix(arr: seq<string>, n: nat, st: Pending)
    requires n <= |arr| && (st.Open? ==> st.start < n) && CollapseFrom(arr, n, st).Ok?
    ensures var lo := if st.Open? then st.start else n;
            CollapseFrom(arr, n, st).value[..lo] == arr[..lo]
    decreases |arr| - n
  {
    if n < |arr| {
      var r := StepLeaf(arr, n, st);
      var lo := if st.Open? then st.start else n;
      var lo' := if r.value.1.Open? then r.value.1.start else n + 1;
      assert lo <= lo' && r.value.0[..lo] == arr[..lo];
      FinalPrefix(r.value.0, n + 1, r.value.1);
      assert CollapseFrom(arr, n, st) == CollapseFrom(r.value.0, n + 1, r.value.1);
      assert CollapseFrom(arr, n, st).value[..lo] == CollapseFrom(arr, n, st).value[..lo'][..lo];
    }
  }

  /** A leaf reached outside any token whose own tags open and close inside
      it comes out of normalization unchanged. */
  lemma LocalTagLeafUnchanged(leaves: seq<string>, j: nat)
    requires Collapse(leaves).Ok? && j < |leaves|
    requires Balanced(Concat(leaves[..j])) && Balanced(leaves[j])
    ensures Collapse(leaves).value[j] == leaves[j]
  {
    var arr, st := Reach(leaves, j);
    assert st == Outside;
    assert StepLeaf(arr, j, Outside) == Ok((arr, Outside));
    FinalPrefix(arr, j + 1, Outside);
  }

  /** The leaf range [j, e) with every text emptied. */
  function Cleared(arr: seq<string>, j: nat, e: nat): (r: seq<string>)
    ensures |r| == |arr|
  {
    seq(|arr|, i requires 0 <= i < |arr| => if j <= i < e then [] else arr[i])
  }

  /** Normalization continued from two points gives the same outcome. */
  ghost predicate SameOutcome(arr: seq<string>, n: nat, st: Pending, arr': seq<string>, n': nat, st': Pending)
    requires n <= |arr| && (st.Open? ==> st.start < n)
    requires n' <= |arr'| && (st'.Open? ==> st'.start < n')
  {
    CollapseFrom(arr, n, st) == CollapseFrom(arr', n', st')
  }

  /** Scanning leaves free of brackets inside an open token empties them
      and buffers their text. */
  lemma {:induction false} WalkPlain(arr: seq<string>, s: nat, j: nat, e: nat, buf: string)
    requires s < j <= e <= |arr|
    requires forall i :: j <= i < e ==> NoBrackets(arr[i])
    ensures SameOutcome(arr, j, Open(s, buf), Cleared(arr, j, e), e, Open(s, buf + Concat(arr[j..e])))
    decreases e
  {
    if j == e {
      assert Cleared(arr, j, e) == arr;
      assert arr[j..e] == [];
      assert buf + Concat(arr[j..e]) == buf;
    } else {
      var c := Cleared(arr, j, e - 1);
      WalkPlain(arr, s, j, e - 1, buf);
      assert c[e - 1] == arr[e - 1];
      var b := buf + Concat(arr[j..e - 1]);
      PlainStep(c, s, e - 1, e, b);
      ClearedLast(arr, s, j, e, buf);
      SameChain(arr, j, Open(s, buf), c, e - 1, Open(s, b), c[e - 1 := []], e, Open(s, b + c[e - 1]),
                Cleared(arr, j, e), e, Open(s, buf + Concat(arr[j..e])));
    }
  }

  lemma SameChain(a0: seq<string>, n0: nat, s0: Pending, a1: seq<string>, n1: nat, s1: Pending,
                  a2: seq<string>, n2: nat, s2: Pending, a3: seq<string>, n3: nat, s3: Pending)
    requires n0 <= |a0| && (s0.Open? ==> s0.start < n0) && n1 <= |a1| && (s1.Open? ==> s1.start < n1)
    requires n2 <= |a2| && (s2.Open? ==> s2.start < n2) && n3 <= |a3| && (s3.Open? ==> s3.start < n3)
    requires SameOutcome(a0, n0, s0, a1, n1, s1) && SameOutcome(a1, n1, s1, a2, n2, s2)
    requires SameOutcome(a2, n2, s2, a3, n3, s3)
    ensures SameOutcome(a0, n0, s0, a3, n3, s3)
  {
  }

  /** Clearing the leaves before `e - 1` and then leaf `e - 1` clears them
      all, and buffers the same text. */
  lemma ClearedLast(arr: seq<string>, s: nat, j: nat, e: nat, buf: string)
    requires s < j < e <= |arr|
    ensures var c := Cleared(arr, j, e - 1);
      SameOutcome(c[e - 1 := []], e, Open(s, buf + Concat(arr[j..e - 1]) + c[e - 1]),
                  Cleared(arr, j, e), e, Open(s, buf + Concat(arr[j..e])))
  {
    var c := Cleared(arr, j, e - 1);
    assert c[e - 1 := []] == Cleared(arr, j, e);
    assert arr[j..e][..e - 1 - j] == arr[j..e - 1];
    assert buf + Concat(arr[j..e - 1]) + c[e - 1] == buf + Concat(arr[j..e]);
  }

  /** One bracket-free leaf inside an open token is emptied and buffered. */
  lemma PlainStep(arr: seq<string>, s: nat, j: nat, n: nat, buf: string)
    requires s < j < |arr| && n == j + 1 && NoBrackets(arr[j])
    ensures SameOutcome(arr, j, Open(s, buf), arr[j := []], n, Open(s, buf + arr[j]))
  {
    assert FirstBracket(arr[j]).None?;
    assert StepLeaf(arr, j, Open(s, buf)) == Ok((arr[j := []], Open(s, buf + arr[j])));
  }

  /** A token opened in leaf `s` and closed in leaf `e` by the `]` at index
      `k`: the opening leaf receives the text of the leaves in between and of
      the closing leaf up to and including `]`; the leaves in between are
      emptied; when what follows the `]` is balanced, the closing leaf keeps
      exactly that. */
  lemma SplitTagMovesBack(leaves: seq<string>, s: nat, e: nat, k: nat)
    requires Collapse(leaves).Ok? && s < e < |leaves|
    requires Balanced(Concat(leaves[..s])) && Track(leaves[s], false) == Some(true)
    requires forall j :: s < j < e ==> NoBrackets(leaves[j])
    requires FirstBracket(leaves[e]) == Some(k)
    ensures leaves[e][k] == ']'
    ensures Collapse(leaves).value[s] == leaves[s] + Concat(leaves[s + 1..e]) + leaves[e][..k + 1]
    ensures forall j :: s < j < e ==> Collapse(leaves).value[j] == []
    ensures Balanced(leaves[e][k + 1..]) ==> Collapse(leaves).value[e] == leaves[e][k + 1..]
  {
    var arr, st := Reach(leaves, s);
    assert st == Outside;
    assert arr[s..] == leaves[s..];
    OpenSpan(arr, s, e, k);
    assert arr[s + 1..e] == leaves[s + 1..e];
  }

  /** The span lemma stated from the point where leaf `s` is reached
      outside any token. */
  lemma OpenSpan(arr: seq<string>, s: nat, e: nat, k: nat)
    requires s < e < |arr| && CollapseFrom(arr, s, Outside).Ok?
    requires Track(arr[s], false) == Some(true)
    requires forall j :: s < j < e ==> NoBrackets(arr[j])
    requires FirstBracket(arr[e]) == Some(k)
    ensures arr[e][k] == ']'
    ensures CollapseFrom(arr, s, Outside).value[s] == arr[s] + Concat(arr[s + 1..e]) + arr[e][..k + 1]
    ensures forall j :: s < j < e ==> CollapseFrom(arr, s, Outside).value[j] == []
    ensures Balanced(arr[e][k + 1..]) ==> CollapseFrom(arr, s, Outside).value[e] == arr[e][k + 1..]
  {
    assert StepLeaf(arr, s, Outside) == Ok((arr, Open(s, [])));
    WalkPlain(arr, s, s + 1, e, []);
    var buf := Concat(arr[s + 1..e]);
    assert [] + buf == buf;
    var c := Cleared(arr, s + 1, e);
    var out := CollapseFrom(arr, s, Outside).value;
    assert CollapseFrom(arr, s, Outside) == CollapseFrom(c, e, Open(s, buf));
    CloseStep(c, s, e, buf, k);
    forall j | s < j < e
      ensures out[j] == []
    {
      assert out[j] == out[..e][j];
    }
    assert out[s] == out[..e][s];
  }

  lemma CloseStep(arr: seq<string>, s: nat, e: nat, buf: string, k: nat)
    requires s < e < |arr| && CollapseFrom(arr, e, Open(s, buf)).Ok?
    requires FirstBracket(arr[e]) == Some(k)
    ensures arr[e][k] == ']'
    ensures CollapseFrom(arr, e, Open(s, buf)).value[..e] ==
            arr[s := arr[s] + buf + arr[e][..k + 1]][..e]
    ensures Balanced(arr[e][k + 1..]) ==> CollapseFrom(arr, e, Open(s, buf)).value[e] == arr[e][k + 1..]
  {
    var r := StepLeaf(arr, e, Open(s, buf));
    assert r.Ok?;
    FinalPrefix(r.value.0, e + 1, r.value.1);
    assert r.value.0[..e] == arr[s := arr[s] + buf + arr[e][..k + 1]][..e];
  }

  /** A sequence of leaves that normalization leaves as it is: balanced
      leaves, then possibly one leaf that leaves a token open followed by
      empty leaves. */
  ghost predicate Settled(ts: seq<string>, s: nat)
  {
    s <= |ts| && (forall j :: 0 <= j < s ==> Balanced(ts[j])) &&
    (s < |ts| ==> Track(ts[s], false) == Some(true) && forall j :: s < j < |ts| ==> ts[j] == [])
  }

  lemma {:induction false} SettledFrom(ts: seq<string>, s: nat, n: nat)
    requires Settled(ts, s) && n <= s
    ensures CollapseFrom(ts, n, Outside) == Ok(ts)
    decreases s - n
  {
    if n < s {
      assert StepLeaf(ts, n, Outside) == Ok((ts, Outside));
      SettledFrom(ts, s, n + 1);
    } else if s < |ts| {
      assert StepLeaf(ts, s, Outside) == Ok((ts, Open(s, [])));
      WalkPlain(ts, s, s + 1, |ts|, []);
      assert Cleared(ts, s + 1, |ts|) == ts;
    }
  }

  /** Normalizing a second time changes nothing. */
  lemma NormalizeIdempotent(leaves: seq<string>)
    requires Collapse(leaves).Ok?
    ensures Collapse(Collapse(leaves).value) == Collapse(leaves)
  {
    var out := Collapse(leaves).value;
    var arr, st := Reach(leaves, |leaves|);
    assert CollapseFrom(arr, |leaves|, st) == Ok(arr);
    assert arr[..|leaves|] == arr;
    match st
    case Outside =>
      SettledFrom(out, |out|, 0);
    case Open(s, _) =>
      assert Settled(out, s);
      SettledFrom(out, s, 0);
  }

  /** The split token `[na` / `me]` is rejoined in the first leaf. */
  lemma SplitNameRejoined()
    ensures Collapse(["[na", "me]"]) == Ok(["[name]", []])
  {
    var leaves := ["[na", "me]"];
    assert Track("[na", false) == Some(true) by {
      assert "[na"[..2] == "[n";
      assert "[n"[..1] == "[";
      assert "["[..0] == [];
    }
    assert StepLeaf(leaves, 0, Outside) == Ok((leaves, Open(0, [])));
    var text := "me]";
    assert FirstBracket(text) == Some(2) by {
      assert !IsBracket(text[0]) && !IsBracket(text[1]);
    }
    assert text[..3] == text && text[3..] == [];
    var moved := leaves[0 := leaves[0] + [] + text[..3]][1 := text[3..]];
    assert leaves[0] + [] + text[..3] == "[name]";
    assert moved == ["[name]", []];
    assert StepLeaf(leaves, 1, Open(0, [])) == Ok((moved, Outside));
  }

  /** A `[` that is never closed swallows the text of every later leaf:
      the leaves are emptied and their buffered text is never written back. */
  lemma UnclosedTagDropsText()
    ensures Collapse(["[a", "b"]) == Ok(["[a", []])
  {
    var leaves := ["[a", "b"];
    assert Track("[a", false) == Some(true) by {
      assert "[a"[..1] == "[";
      assert "["[..0] == [];
    }
    assert StepLeaf(leaves, 0, Outside) == Ok((leaves, Open(0, [])));
    assert FirstBracket("b").None? by {
      assert !IsBracket("b"[0]);
    }
    assert [] + "b" == "b";
    assert StepLeaf(leaves, 1, Open(0, [])) == Ok((leaves[1 := []], Open(0, "b")));
    assert leaves[1 := []] == ["[a", []];
  }
}
