/**
 * The fixed regular expressions of the renderer, each written out as a
 * matcher at one position and a leftmost search, as `RegExp.prototype.exec`
 * performs it on a fresh regular expression (`lastIndex` 0).
 *
 * A body of the form `((?:(?!END)[\s\S])*)` followed by `END` ends at the
 * first occurrence of END after the body starts. When the regex demands
 * `\r?\n` before END, the character just before that first END must be a
 * line feed, and the body is everything up to that line feed.
 *
 * A search tries every position from the left; it only needs to try the
 * positions where the opening marker occurs, and each `...Leftmost` lemma
 * states that no position it skipped would have matched.
 */
module Patterns {
  import opened Wrappers
  import opened Text

  /** A match: its span `[start, end)` in the searched string and its capture groups. */
  datatype Match = Match(start: nat, end: nat, group1: string, group2: string)

  const FENCE := "```"
  const SCRIPT_OPEN := "<script>"
  const SCRIPT_CLOSE := "</script>"
  const UML_OPEN := "@startuml"
  const UML_CLOSE := "@enduml"
  const FAD_OPEN := "@startfad"
  const FAD_CLOSE := "@endfad"
  const DISPLAY := "$$"
  const DOLLAR := "$"

  /** No "```" occurs in `t`. */
  ghost predicate FenceFree(t: string) {
    Absent(t, FENCE)
  }

  /** `\w` or `-`, the characters of a Prism language tag. */
  predicate IsTagChar(c: char) {
    ('a' <= c <= 'z') || ('A' <= c <= 'Z') || ('0' <= c <= '9') || c == '_' || c == '-'
  }

  /** Length of the longest run of tag characters starting at `k`. */
  function TagRun(s: string, k: nat): (n: nat)
    decreases |s| - k
    ensures k + n <= |s| || (k > |s| && n == 0)
    ensures forall i :: k <= i < k + n ==> IsTagChar(s[i])
    ensures k + n < |s| ==> !IsTagChar(s[k + n])
  {
    if k < |s| && IsTagChar(s[k]) then 1 + TagRun(s, k + 1) else 0
  }

  /** The position just after `\r?\n` at `k`, if there is one. */
  function AfterNewline(s: string, k: nat): (r: Option<nat>)
    ensures r.Some? ==> 0 < r.value <= |s| && s[r.value - 1] == '\n'
    ensures r.Some? ==> r.value == k + 1 || (r.value == k + 2 && s[k] == '\r')
  {
    if k < |s| && s[k] == '\n' then Some(k + 1)
    else if k + 1 < |s| && s[k] == '\r' && s[k + 1] == '\n' then Some(k + 2)
    else None
  }

  /**
   * The body starting at `b`, then `\r?\n`, then `close`: the body runs to the
   * line feed just before the first `close` at or after `b`.
   */
  function Delimited(s: string, p: nat, b: nat, close: string): (r: Option<Match>)
    ensures r.Some? ==> r.value.start == p && b + |close| < r.value.end <= |s|
    ensures r.Some? ==> StartsAt(s, r.value.end - |close|, close)
    ensures r.Some? ==> r.value.group1 == s[b..r.value.end - |close| - 1]
    ensures r.Some? ==> s[r.value.end - |close| - 1] == '\n'
    ensures r.Some? && close != [] ==> Absent(r.value.group1, close)
  {
    match IndexFrom(s, close, b)
    case None => None
    case Some(e) =>
      if e > b && s[e - 1] == '\n' then
        if close == [] then None
        else IndexFromFirst(s, close, b); AbsentRange(s, b, e - 1, close); Some(Match(p, e + |close|, s[b..e - 1], ""))
      else None
  }

  /** The first position at or after `k` holding `$` or a line feed. */
  function DollarOrNewline(s: string, k: nat): (r: Option<nat>)
    decreases |s| - k
    ensures r.Some? ==> k <= r.value < |s| && (s[r.value] == '$' || s[r.value] == '\n')
    ensures r.Some? ==> forall j :: k <= j < r.value ==> s[j] != '$' && s[j] != '\n'
    ensures r.None? ==> forall j :: k <= j < |s| ==> s[j] != '$' && s[j] != '\n'
  {
    if k >= |s| then None
    else if s[k] == '$' || s[k] == '\n' then Some(k)
    else DollarOrNewline(s, k + 1)
  }

  /** /(<script>((?:(?!<\/script>)[\s\S])*)<\/script>)/ at `p`: `<script>`, then everything up to the first `</script>`. */
  function ScriptAt(s: string, p: nat): (r: Option<Match>)
    ensures r.Some? <==> StartsAt(s, p, SCRIPT_OPEN) && IndexFrom(s, SCRIPT_CLOSE, p + 8).Some?
    ensures r.Some? ==> r.value.start == p && p + 8 + 9 <= r.value.end <= |s|
    ensures r.Some? ==> StartsAt(s, r.value.end - 9, SCRIPT_CLOSE)
    ensures r.Some? ==> FirstAt(s, SCRIPT_CLOSE, p + 8, r.value.end - 9)
  {
    if !StartsAt(s, p, SCRIPT_OPEN) then None
    else match IndexFrom(s, SCRIPT_CLOSE, p + 8)
      case None => None
      case Some(q) =>
        IndexFromFirstAt(s, SCRIPT_CLOSE, p + 8, q);
        Some(Match(p, q + 9, s[p + 8..q], ""))
  }

  /**
   * /```([\w-]+)\r?\n((?:(?!```)[\s\S])*)\r?\n```/ at `p`: "```", a language
   * tag, `\r?\n`, the code, `\r?\n```"; group 1 is the tag, group 2 the code.
   */
  function CodeBlockAt(s: string, p: nat): (r: Option<Match>)
    ensures r.Some? ==> r.value.start == p && p + 3 < r.value.end - 3 && r.value.end <= |s|
    ensures r.Some? ==> StartsAt(s, p, FENCE) && StartsAt(s, r.value.end - 3, FENCE)
    ensures r.Some? ==> r.value.group1 != [] && p + 3 + |r.value.group1| <= |s|
    ensures r.Some? ==> r.value.group1 == s[p + 3..p + 3 + |r.value.group1|]
    ensures r.Some? ==> forall i :: 0 <= i < |r.value.group1| ==> IsTagChar(r.value.group1[i])
    ensures r.Some? ==> FenceFree(r.value.group2)
  {
    var n := TagRun(s, p + 3);
    if !StartsAt(s, p, FENCE) || n == 0 then None
    else match AfterNewline(s, p + 3 + n)
      case None => None
      case Some(b) =>
        match Delimited(s, p, b, FENCE)
        case None => None
        case Some(m) => Some(m.(group1 := s[p + 3..p + 3 + n], group2 := m.group1))
  }

  /** The facts about a code-block match that the rewrite of src/renderer.js relies on. */
  ghost predicate CodeBlockShape(s: string, m: Match) {
    m.start + 3 < m.end - 3 && m.end <= |s| && StartsAt(s, m.start, FENCE) && StartsAt(s, m.end - 3, FENCE)
    && m.group1 != [] && (forall i :: 0 <= i < |m.group1| ==> IsTagChar(m.group1[i])) && FenceFree(m.group2)
  }

  /**
   * /@startuml\r?\n((?:(?!@enduml)[\s\S])*)\r?\n@enduml/ and its `@startfad`
   * twin at `p`: `open`, `\r?\n`, a body, `\r?\n`, `close`; group 1 is the body.
   */
  function BlockAt(s: string, p: nat, open: string, close: string): (r: Option<Match>)
    ensures r.Some? ==> r.value.start == p && p + |open| < r.value.end - |close| && r.value.end <= |s|
    ensures r.Some? ==> StartsAt(s, p, open) && StartsAt(s, r.value.end - |close|, close)
    ensures r.Some? && close != [] ==> Absent(r.value.group1, close)
  {
    if !StartsAt(s, p, open) then None
    else match AfterNewline(s, p + |open|)
      case None => None
      case Some(b) => Delimited(s, p, b, close)
  }

  /** /\$\$((?:(?!\$\$)[\s\S])*)\$\$/ at `p`: `$$`, then everything up to the next `$$`. */
  function DisplayMathAt(s: string, p: nat): (r: Option<Match>)
    ensures r.Some? ==> r.value.start == p && p + 2 <= r.value.end - 2 && r.value.end <= |s|
    ensures r.Some? ==> StartsAt(s, p, DISPLAY) && StartsAt(s, r.value.end - 2, DISPLAY)
    ensures r.Some? ==> r.value.group1 == s[p + 2..r.value.end - 2]
  {
    if !StartsAt(s, p, DISPLAY) then None
    else match IndexFrom(s, DISPLAY, p + 2)
      case None => None
      case Some(q) => Some(Match(p, q + 2, s[p + 2..q], ""))
  }

  /** /\$([^$\n]*)\$/ at `p`: `$`, characters other than `$` and line feed, `$`. */
  function InlineMathAt(s: string, p: nat): (r: Option<Match>)
    ensures r.Some? ==> r.value.start == p < r.value.end - 1 && r.value.end <= |s|
    ensures r.Some? ==> StartsAt(s, p, DOLLAR) && s[r.value.end - 1] == '$'
    ensures r.Some? ==> r.value.group1 == s[p + 1..r.value.end - 1]
    ensures r.Some? ==> forall j :: p + 1 <= j < r.value.end - 1 ==> s[j] != '$' && s[j] != '\n'
  {
    if p >= |s| || s[p] != '$' then None
    else
      assert s[p..p + 1] == DOLLAR;
      match DollarOrNewline(s, p + 1)
      case Some(q) => if s[q] == '$' then Some(Match(p, q + 1, s[p + 1..q], "")) else None
      case None => None
  }

  // ---- What each matcher matches ----

  /** `\r?\n` at `k`, ending just before `b`. */
  ghost predicate LineBreakAt(s: string, k: nat, b: nat) {
    (k < |s| && s[k] == '\n' && b == k + 1) || (k + 1 < |s| && s[k] == '\r' && s[k + 1] == '\n' && b == k + 2)
  }

  /**
   * A body from `b`, `\r?\n`, then `close` at `e`: `e` is the first `close` at
   * or after `b`, and a line feed sits just before it. The body is `s[b..e - 1]`.
   */
  ghost predicate ClosedBody(s: string, b: nat, close: string, e: nat) {
    b < e && FirstAt(s, close, b, e) && s[e - 1] == '\n'
  }

  /** A closed body from `b` is what `Delimited` matches. */
  lemma {:induction false} DelimitedFound(s: string, p: nat, b: nat, close: string, e: nat)
    requires close != [] && ClosedBody(s, b, close, e)
    ensures Delimited(s, p, b, close) == Some(Match(p, e + |close|, s[b..e - 1], ""))
  {
    IndexFromFirstAt(s, close, b, e);
  }

  /** Whatever `Delimited` matches is a closed body from `b`. */
  lemma {:induction false} DelimitedShape(s: string, p: nat, b: nat, close: string)
    requires Delimited(s, p, b, close).Some?
    ensures ClosedBody(s, b, close, Delimited(s, p, b, close).value.end - |close|)
  {
    var e := IndexFrom(s, close, b).value;
    IndexFromFirstAt(s, close, b, e);
  }

  /** The run of tag characters from `k` is exactly `n` long when a non-tag character (or the end) follows it. */
  lemma {:induction false} TagRunExact(s: string, k: nat, n: nat)
    requires k + n <= |s| && forall i :: k <= i < k + n ==> IsTagChar(s[i])
    requires k + n < |s| ==> !IsTagChar(s[k + n])
    decreases n
    ensures TagRun(s, k) == n
  {
    if n > 0 {
      TagRunExact(s, k + 1, n - 1);
    }
  }

  /** The shape the code-block regex describes: "```", `n` tag characters, `\r?\n` ending before `b`, a body closed at `e`. */
  ghost predicate CodeBlockParts(s: string, p: nat, n: nat, b: nat, e: nat) {
    StartsAt(s, p, FENCE) && 0 < n && LineBreakAt(s, p + 3 + n, b)
    && (forall i :: p + 3 <= i < p + 3 + n ==> IsTagChar(s[i]))
    && ClosedBody(s, b, FENCE, e)
  }

  /**
   * The code-block regex matches at `p` whenever the text there has that shape;
   * the match is the whole block, with the tag and the body as its groups.
   */
  lemma {:induction false} CodeBlockAtExact(s: string, p: nat, n: nat, b: nat, e: nat)
    requires CodeBlockParts(s, p, n, b, e)
    ensures CodeBlockAt(s, p) == Some(Match(p, e + 3, s[p + 3..p + 3 + n], s[b..e - 1]))
  {
    TagRunExact(s, p + 3, n);
    assert AfterNewline(s, p + 3 + n) == Some(b);
    DelimitedFound(s, p, b, FENCE, e);
  }

  /** Conversely, every code-block match has that shape. */
  lemma {:induction false} CodeBlockAtShape(s: string, p: nat) returns (n: nat, b: nat, e: nat)
    requires CodeBlockAt(s, p).Some?
    ensures CodeBlockParts(s, p, n, b, e)
    ensures CodeBlockAt(s, p) == Some(Match(p, e + 3, s[p + 3..p + 3 + n], s[b..e - 1]))
  {
    n := TagRun(s, p + 3);
    b := AfterNewline(s, p + 3 + n).value;
    DelimitedShape(s, p, b, FENCE);
    e := Delimited(s, p, b, FENCE).value.end - 3;
    CodeBlockAtExact(s, p, n, b, e);
  }

  /**
   * The PlantUML and fa-diagrams regexes match at `p` whenever `open` starts
   * there, followed by `\r?\n` and a body closed by the first `close` after
   * it, with a line feed before it; group 1 is the body.
   */
  lemma {:induction false} BlockAtExact(s: string, p: nat, open: string, close: string, b: nat, e: nat)
    requires close != [] && StartsAt(s, p, open)
    requires LineBreakAt(s, p + |open|, b) && ClosedBody(s, b, close, e)
    ensures BlockAt(s, p, open, close) == Some(Match(p, e + |close|, s[b..e - 1], ""))
  {
    assert AfterNewline(s, p + |open|) == Some(b);
    DelimitedFound(s, p, b, close, e);
  }

  /** Conversely, every block match has that shape. */
  lemma {:induction false} BlockAtShape(s: string, p: nat, open: string, close: string) returns (b: nat, e: nat)
    requires close != [] && BlockAt(s, p, open, close).Some?
    ensures StartsAt(s, p, open) && LineBreakAt(s, p + |open|, b) && ClosedBody(s, b, close, e)
    ensures BlockAt(s, p, open, close) == Some(Match(p, e + |close|, s[b..e - 1], ""))
  {
    b := AfterNewline(s, p + |open|).value;
    DelimitedShape(s, p, b, close);
    e := Delimited(s, p, b, close).value.end - |close|;
    BlockAtExact(s, p, open, close, b, e);
  }

  /** The display-math regex matches at `p` whenever `$$` starts there and another follows from `p + 2`; it ends with the first one. */
  lemma {:induction false} DisplayMathAtExact(s: string, p: nat, q: nat)
    requires StartsAt(s, p, DISPLAY) && FirstAt(s, DISPLAY, p + 2, q)
    ensures DisplayMathAt(s, p) == Some(Match(p, q + 2, s[p + 2..q], ""))
  {
    IndexFromFirstAt(s, DISPLAY, p + 2, q);
  }

  /** Conversely, a display-math match ends with the first `$$` after the opening one. */
  lemma {:induction false} DisplayMathAtShape(s: string, p: nat)
    requires DisplayMathAt(s, p).Some?
    ensures StartsAt(s, p, DISPLAY) && FirstAt(s, DISPLAY, p + 2, DisplayMathAt(s, p).value.end - 2)
  {
    IndexFromFirstAt(s, DISPLAY, p + 2, IndexFrom(s, DISPLAY, p + 2).value);
  }

  /**
   * The inline-math regex matches at `p` whenever `$` is there and the first
   * `$` or line feed after it is a `$`; it ends with that `$`. (That every
   * match has this shape is the matcher's own contract.)
   */
  lemma {:induction false} InlineMathAtExact(s: string, p: nat, q: nat)
    requires p < q < |s| && s[p] == '$' && s[q] == '$'
    requires forall j :: p < j < q ==> s[j] != '$' && s[j] != '\n'
    ensures InlineMathAt(s, p) == Some(Match(p, q + 1, s[p + 1..q], ""))
  {
    var r := DollarOrNewline(s, p + 1);
    assert r.Some? && r.value == q;
  }

  // ---- Leftmost searches ----

  /**
   * `/(<script>…<\/script>)/gm.exec(s.slice(k))`, with positions counted in `s`:
   * only the first `<script>` at or after `k` can start a match.
   */
  function ScriptSearch(s: string, k: nat): (r: Option<Match>)
    ensures r.Some? ==> k <= r.value.start && ScriptAt(s, r.value.start) == r
  {
    match IndexFrom(s, SCRIPT_OPEN, k)
    case None => None
    case Some(p) => ScriptAt(s, p)
  }

  /** No position from `k` on before the script block found starts one; when none is found, none exists. */
  lemma {:induction false} ScriptSearchLeftmost(s: string, k: nat, j: nat)
    requires k <= j
    ensures ScriptSearch(s, k).None? || j < ScriptSearch(s, k).value.start ==> ScriptAt(s, j).None?
  {
    IndexFromSkips(s, SCRIPT_OPEN, k, j);
    var f := IndexFrom(s, SCRIPT_OPEN, k);
    if f.Some? && f.value < j && ScriptAt(s, f.value).None? {
      var q := IndexFrom(s, SCRIPT_CLOSE, j + 8);
      if q.Some? {
        IndexFromSkips(s, SCRIPT_CLOSE, f.value + 8, q.value);
      }
    }
  }

  /** `/```([\w-]+)\r?\n…\r?\n```/m.exec(s)` from position `k`: each "```" in turn is tried. */
  function CodeBlockFrom(s: string, k: nat): (r: Option<Match>)
    decreases |s| + 1 - k
    ensures r.Some? ==> k <= r.value.start && CodeBlockAt(s, r.value.start) == r
    ensures r.Some? ==> CodeBlockShape(s, r.value)
  {
    match IndexFrom(s, FENCE, k)
    case None => None
    case Some(p) => if CodeBlockAt(s, p).Some? then CodeBlockAt(s, p) else CodeBlockFrom(s, p + 1)
  }

  /** A position before the code block `CodeBlockFrom` finds (or any position, when it finds none) starts none. */
  lemma {:induction false} CodeBlockFromLeftmost(s: string, k: nat, j: nat)
    requires k <= j
    decreases |s| + 1 - k
    ensures CodeBlockFrom(s, k).None? || j < CodeBlockFrom(s, k).value.start ==> CodeBlockAt(s, j).None?
  {
    var f := IndexFrom(s, FENCE, k);
    IndexFromSkips(s, FENCE, k, j);
    if f.Some? && f.value < j && CodeBlockAt(s, f.value).None? {
      CodeBlockFromLeftmost(s, f.value + 1, j);
    }
  }

  /** The facts about a PlantUML or fa-diagrams match that the rewrite relies on. */
  ghost predicate BlockShape(s: string, m: Match, open: string, close: string) {
    m.start + |open| < m.end - |close| && m.end <= |s|
    && StartsAt(s, m.start, open) && StartsAt(s, m.end - |close|, close)
  }

  /** The PlantUML or fa-diagrams regex's `exec` from position `k`: each `open` in turn is tried. */
  function BlockFrom(s: string, k: nat, open: string, close: string): (r: Option<Match>)
    decreases |s| + 1 - k
    ensures r.Some? ==> k <= r.value.start && BlockAt(s, r.value.start, open, close) == r
    ensures r.Some? ==> BlockShape(s, r.value, open, close)
  {
    match IndexFrom(s, open, k)
    case None => None
    case Some(p) =>
      if BlockAt(s, p, open, close).Some? then BlockAt(s, p, open, close) else BlockFrom(s, p + 1, open, close)
  }

  /** A position before the block `BlockFrom` finds (or any position, when it finds none) starts none. */
  lemma {:induction false} BlockFromLeftmost(s: string, k: nat, open: string, close: string, j: nat)
    requires k <= j
    decreases |s| + 1 - k
    ensures BlockFrom(s, k, open, close).None? || j < BlockFrom(s, k, open, close).value.start
      ==> BlockAt(s, j, open, close).None?
  {
    var f := IndexFrom(s, open, k);
    IndexFromSkips(s, open, k, j);
    if f.Some? && f.value < j && BlockAt(s, f.value, open, close).None? {
      BlockFromLeftmost(s, f.value + 1, open, close, j);
    }
  }

  /** The display-math regex's `exec` from position `k`: each `$$` in turn is tried. */
  function DisplayMathFrom(s: string, k: nat): (r: Option<Match>)
    decreases |s| + 1 - k
    ensures r.Some? ==> k <= r.value.start && DisplayMathAt(s, r.value.start) == r
  {
    match IndexFrom(s, DISPLAY, k)
    case None => None
    case Some(p) => if DisplayMathAt(s, p).Some? then DisplayMathAt(s, p) else DisplayMathFrom(s, p + 1)
  }

  /** A position before the display formula `DisplayMathFrom` finds (or any, when it finds none) starts none. */
  lemma {:induction false} DisplayMathFromLeftmost(s: string, k: nat, j: nat)
    requires k <= j
    decreases |s| + 1 - k
    ensures DisplayMathFrom(s, k).None? || j < DisplayMathFrom(s, k).value.start ==> DisplayMathAt(s, j).None?
  {
    var f := IndexFrom(s, DISPLAY, k);
    IndexFromSkips(s, DISPLAY, k, j);
    if f.Some? && f.value < j && DisplayMathAt(s, f.value).None? {
      DisplayMathFromLeftmost(s, f.value + 1, j);
    }
  }

  /** The inline-math regex's `exec` from position `k`: each `$` in turn is tried. */
  function InlineMathFrom(s: string, k: nat): (r: Option<Match>)
    decreases |s| + 1 - k
    ensures r.Some? ==> k <= r.value.start && InlineMathAt(s, r.value.start) == r
  {
    match IndexFrom(s, DOLLAR, k)
    case None => None
    case Some(p) => if InlineMathAt(s, p).Some? then InlineMathAt(s, p) else InlineMathFrom(s, p + 1)
  }

  /** A position before the inline formula `InlineMathFrom` finds (or any, when it finds none) starts none. */
  lemma {:induction false} InlineMathFromLeftmost(s: string, k: nat, j: nat)
    requires k <= j
    decreases |s| + 1 - k
    ensures InlineMathFrom(s, k).None? || j < InlineMathFrom(s, k).value.start ==> InlineMathAt(s, j).None?
  {
    var f := IndexFrom(s, DOLLAR, k);
    IndexFromSkips(s, DOLLAR, k, j);
    if f.Some? && f.value < j && InlineMathAt(s, f.value).None? {
      InlineMathFromLeftmost(s, f.value + 1, j);
    }
  }
}
