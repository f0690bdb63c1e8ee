/** String operations the engine performs on leaf text: substring tests,
    Python's `str.replace`, `str.split`, `str.lower`, and a hand-written
    scanner for the two tag patterns `\[!?([\s\w_|]+)\]` (section tags) and
    `\[([\s\w_]+)\]` (loop subtags), with ASCII character classes. */
module Text {
  import opened Base

  /** `sub in s` in Python. */
  predicate Occurs(sub: string, s: string)
    decreases |s|
  {
    sub <= s || (s != [] && Occurs(sub, s[1..]))
  }

  lemma {:induction false} OccursHasChar(sub: string, s: string, c: char)
    requires c in sub && Occurs(sub, s)
    ensures c in s
    decreases |s|
  {
    if sub <= s {
      var k :| 0 <= k < |sub| && sub[k] == c;
      assert s[k] == c;
    } else {
      OccursHasChar(sub, s[1..], c);
    }
  }

  /** `s.replace(pat, rep)`: every non-overlapping occurrence of `pat`,
      scanning left to right, is replaced by `rep`. */
  function ReplaceAll(s: string, pat: string, rep: string): (r: string)
    requires |pat| > 0
    ensures forall x :: x in r ==> x in s || x in rep
    decreases |s|
  {
    if s == [] then []
    else if pat <= s then rep + ReplaceAll(s[|pat|..], pat, rep)
    else [s[0]] + ReplaceAll(s[1..], pat, rep)
  }

  /** A text lacking one of the pattern's characters is left as it is. */
  lemma {:induction false} ReplaceAbsent(s: string, pat: string, rep: string, c: char)
    requires |pat| > 0 && c in pat && c !in s
    ensures ReplaceAll(s, pat, rep) == s
    decreases |s|
  {
    if s != [] {
      var k :| 0 <= k < |pat| && pat[k] == c;
      if |pat| <= |s| {
        assert s[k] != pat[k];
      }
      ReplaceAbsent(s[1..], pat, rep, c);
      assert [s[0]] + s[1..] == s;
    }
  }

  /** A text that starts with the pattern has it replaced first. */
  lemma ReplaceHead(pat: string, rest: string, rep: string)
    requires |pat| > 0
    ensures ReplaceAll(pat + rest, pat, rep) == rep + ReplaceAll(rest, pat, rep)
  {
    assert pat <= pat + rest;
    assert (pat + rest)[|pat|..] == rest;
  }

  /** A prefix holding no `[` is copied unchanged in front of the rest when
      the pattern opens with `[`. */
  lemma {:induction false} ReplaceAfterPlain(t: string, rest: string, pat: string, rep: string)
    requires |pat| > 0 && pat[0] == '[' && '[' !in t
    ensures ReplaceAll(t + rest, pat, rep) == t + ReplaceAll(rest, pat, rep)
    decreases |t|
  {
    if t != [] {
      var s := t + rest;
      assert s[0] == t[0] && s[1..] == t[1..] + rest;
      assert t[0] in t;
      assert s[0] != pat[0];
      assert !(pat <= s);
      assert ReplaceAll(s, pat, rep) == [s[0]] + ReplaceAll(s[1..], pat, rep);
      ReplaceAfterPlain(t[1..], rest, pat, rep);
      calc {
        ReplaceAll(t + rest, pat, rep);
        [t[0]] + ReplaceAll(t[1..] + rest, pat, rep);
        [t[0]] + (t[1..] + ReplaceAll(rest, pat, rep));
        { assert [t[0]] + t[1..] == t; }
        t + ReplaceAll(rest, pat, rep);
      }
    } else {
      assert t + rest == rest;
    }
  }

  /** `s.replace(c, '')`. */
  function RemoveChar(s: string, c: char): (r: string)
    ensures c !in r
    ensures forall x :: x != c ==> (x in r <==> x in s)
    ensures |r| <= |s|
    decreases |s|
  {
    if s == [] then []
    else if s[0] == c then RemoveChar(s[1..], c)
    else [s[0]] + RemoveChar(s[1..], c)
  }

  /** `s.split(c)[0]`: the text before the first `c`, or all of `s`. */
  function BeforeFirst(s: string, c: char): (r: string)
    ensures r <= s && c !in r
    ensures |r| < |s| ==> s[|r|] == c
    decreases |s|
  {
    if s == [] || s[0] == c then [] else [s[0]] + BeforeFirst(s[1..], c)
  }

  /** `s.split(c)[1]`: the text between the first and the second `c` (or the
      end). Python raises IndexError when `c` is absent, so callers test
      `c in s` first. */
  function SecondField(s: string, c: char): (r: string)
    requires c in s
    ensures c !in r
  {
    var k := |BeforeFirst(s, c)|;
    BeforeFirst(s[k + 1..], c)
  }

  lemma {:induction false} BeforeFirstSplit(pre: string, c: char, rest: string)
    requires c !in pre
    ensures BeforeFirst(pre + [c] + rest, c) == pre
    ensures BeforeFirst(pre, c) == pre
    decreases |pre|
  {
    if pre != [] {
      assert (pre + [c] + rest)[1..] == pre[1..] + [c] + rest;
      BeforeFirstSplit(pre[1..], c, rest);
      assert [pre[0]] + pre[1..] == pre;
    }
  }

  function LowerChar(ch: char): char
  {
    if 'A' <= ch <= 'Z' then (ch as int - 'A' as int + 'a' as int) as char else ch
  }

  /** `s.lower()` on ASCII text. */
  function Lower(s: string): string
  {
    seq(|s|, i requires 0 <= i < |s| => LowerChar(s[i]))
  }

  lemma LowerConcat(x: string, y: string)
    ensures Lower(x + y) == Lower(x) + Lower(y)
  {
  }

  /** Text without capitals is its own lowercase. */
  lemma LowerKeeps(s: string)
    requires forall j :: 0 <= j < |s| ==> !('A' <= s[j] <= 'Z')
    ensures Lower(s) == s
  {
  }

  /** `\s` without the Unicode flag. */
  predicate IsSpace(c: char)
  {
    c == ' ' || c == '\t' || c == '\n' || c == '\r' || c == '\U{000B}' || c == '\U{000C}'
  }

  /** `\w` without the Unicode flag (it already contains `_`). */
  predicate IsWordChar(c: char)
  {
    'a' <= c <= 'z' || 'A' <= c <= 'Z' || '0' <= c <= '9' || c == '_'
  }

  /** The name class `[\s\w_|]` when `pipe` holds, `[\s\w_]` otherwise. */
  predicate IsNameChar(c: char, pipe: bool)
  {
    IsWordChar(c) || IsSpace(c) || (pipe && c == '|')
  }

  predicate IsName(name: string, pipe: bool)
  {
    |name| > 0 && forall j :: 0 <= j < |name| ==> IsNameChar(name[j], pipe)
  }

  /** The token `[name]` stands at index `i` of `t`; with `top`, so does
      `[!name]`, and names may hold `|`. */
  predicate TokenAt(t: string, i: nat, name: string, top: bool)
  {
    IsName(name, top) && i < |t| && t[i] == '[' &&
    ((i + |name| + 2 <= |t| && t[i + 1..i + 1 + |name|] == name && t[i + 1 + |name|] == ']') ||
     (top && i + |name| + 3 <= |t| && t[i + 1] == '!' &&
      t[i + 2..i + 2 + |name|] == name && t[i + 2 + |name|] == ']'))
  }

  /** Length of the longest run of name characters starting at `q`. */
  function NameRun(t: string, q: nat, pipe: bool): (k: nat)
    requires q <= |t|
    ensures q + k <= |t|
    ensures forall j :: q <= j < q + k ==> IsNameChar(t[j], pipe)
    ensures q + k == |t| || !IsNameChar(t[q + k], pipe)
    decreases |t| - q
  {
    if q < |t| && IsNameChar(t[q], pipe) then 1 + NameRun(t, q + 1, pipe) else 0
  }

  datatype Match = Match(name: string, end: nat)

  /** Where the name of a token opening at `p` begins: after `[`, or after
      `[!` when `top`. */
  function NameStart(t: string, p: nat, top: bool): (q: nat)
    ensures q == p + 1 || q == p + 2
  {
    if top && p + 1 < |t| && t[p + 1] == '!' then p + 2 else p + 1
  }

  /** The regular expression tried at index `p`. The name class holds
      neither `!` nor `]`, so the greedy `!?` and `+` never need to back
      off: the token matches exactly when the maximal run of name
      characters is followed by `]`. */
  function MatchAt(t: string, p: nat, top: bool): (m: Option<Match>)
    requires p < |t|
    ensures m.Some? ==> p < m.value.end <= |t| && TokenAt(t, p, m.value.name, top)
    ensures m.Some? ==> forall j :: p < j < m.value.end ==> t[j] != '['
  {
    if t[p] != '[' then None
    else
      var q := NameStart(t, p, top);
      var k := NameRun(t, q, top);
      if 0 < k && q + k < |t| && t[q + k] == ']' then
        RunToken(t, p, q, k, top);
        Some(Match(t[q..q + k], q + k + 1))
      else None
  }

  /** A run of name characters after `[` or `[!`, closed by `]`, is a token. */
  lemma RunToken(t: string, p: nat, q: nat, k: nat, top: bool)
    requires p < |t| && t[p] == '['
    requires q == NameStart(t, p, top)
    requires 0 < k && q + k < |t| && t[q + k] == ']'
    requires forall j :: q <= j < q + k ==> IsNameChar(t[j], top)
    ensures TokenAt(t, p, t[q..q + k], top)
    ensures forall j :: p < j < q + k + 1 ==> t[j] != '['
  {
    var name := t[q..q + k];
    assert forall j :: 0 <= j < |name| ==> name[j] == t[q + j];
  }

  /** `re.findall` from index `p`: the names of the non-overlapping tokens,
      left to right. */
  function FindAllFrom(t: string, p: nat, top: bool): seq<string>
    decreases |t| - p
  {
    if p >= |t| then []
    else match MatchAt(t, p, top)
      case Some(m) => [m.name] + FindAllFrom(t, m.end, top)
      case None => FindAllFrom(t, p + 1, top)
  }

  function FindAll(t: string, top: bool): seq<string>
  {
    FindAllFrom(t, 0, top)
  }

  /** At the index of a token the scanner matches exactly that token. */
  lemma TokenMatches(t: string, i: nat, name: string, top: bool)
    requires TokenAt(t, i, name, top)
    ensures MatchAt(t, i, top).Some? && MatchAt(t, i, top).value.name == name
  {
    if i + |name| + 2 <= |t| && t[i + 1..i + 1 + |name|] == name && t[i + 1 + |name|] == ']' {
      assert t[i + 1] == name[0];
      RunMatches(t, i, i + 1, name, top);
    } else {
      RunMatches(t, i, i + 2, name, top);
    }
  }

  /** The name run after the opening of a token stops at its `]`. */
  lemma RunMatches(t: string, i: nat, q: nat, name: string, top: bool)
    requires IsName(name, top) && i < |t| && t[i] == '['
    requires q == NameStart(t, i, top)
    requires q + |name| < |t| && t[q..q + |name|] == name && t[q + |name|] == ']'
    ensures MatchAt(t, i, top) == Some(Match(name, q + |name| + 1))
  {
    NameSpan(t, q, name, top);
    NameRunIs(t, q, |name|, top);
  }

  lemma NameSpan(t: string, q: nat, name: string, pipe: bool)
    requires IsName(name, pipe) && q + |name| <= |t| && t[q..q + |name|] == name
    ensures forall j :: q <= j < q + |name| ==> IsNameChar(t[j], pipe)
  {
    forall j | q <= j < q + |name|
      ensures IsNameChar(t[j], pipe)
    {
      assert t[j] == t[q..q + |name|][j - q];
    }
  }

  /** The run of name characters ends where the first other character is. */
  lemma NameRunIs(t: string, q: nat, n: nat, pipe: bool)
    requires q + n < |t| && !IsNameChar(t[q + n], pipe)
    requires forall j :: q <= j < q + n ==> IsNameChar(t[j], pipe)
    ensures NameRun(t, q, pipe) == n
  {
  }

  lemma {:induction false} FindAllFromComplete(t: string, p: nat, i: nat, name: string, top: bool)
    requires p <= i < |t| && t[i] == '['
    requires MatchAt(t, i, top).Some? && MatchAt(t, i, top).value.name == name
    ensures name in FindAllFrom(t, p, top)
    decreases |t| - p
  {
    if p < i {
      match MatchAt(t, p, top)
      case Some(m) =>
        assert m.end <= i;
        FindAllFromComplete(t, m.end, i, name, top);
      case None =>
        FindAllFromComplete(t, p + 1, i, name, top);
    }
  }

  lemma {:induction false} FindAllFromSound(t: string, p: nat, name: string, top: bool)
    requires name in FindAllFrom(t, p, top)
    ensures exists i :: p <= i && TokenAt(t, i, name, top)
    decreases |t| - p
  {
    if p < |t| {
      match MatchAt(t, p, top)
      case Some(m) =>
        if name != m.name {
          FindAllFromSound(t, m.end, name, top);
        }
      case None =>
        FindAllFromSound(t, p + 1, name, top);
    }
  }

  /** `re.findall` returns exactly the names of the tokens present in the text. */
  lemma FindAllExact(t: string, name: string, top: bool)
    ensures name in FindAll(t, top) <==> exists i :: TokenAt(t, i, name, top)
  {
    if name in FindAll(t, top) {
      FindAllFromSound(t, 0, name, top);
    }
    if i :| TokenAt(t, i, name, top) {
      TokenMatches(t, i, name, top);
      FindAllFromComplete(t, 0, i, name, top);
    }
  }
}
