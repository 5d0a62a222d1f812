/**
 * `renderPrism` of src/renderer.js: while the code-block pattern matches
 * anywhere in the document, the leftmost tagged block "```lang\n…\n```" is
 * replaced by highlighted HTML and the search starts again from the
 * beginning of the new document.
 *
 * Prism itself is a parameter: `hl(code, grammar, lang)` stands for
 * `Prism.highlight(code, Prism.languages[lang] || Prism.languages.autoit, lang)`,
 * with the grammar given by its name.
 */
module Prism {
  import opened Wrappers
  import opened Text
  import opened Patterns

  /** `Prism.highlight`, with the grammar named by its key in `Prism.languages`. */
  type Highlighter = (string, string, string) -> string

  /**
   * The loop ends only if highlighting never creates a fence: the code of a
   * block holds no "```", and the highlighter is assumed to copy none into
   * its HTML that its input did not hold.
   */
  ghost predicate KeepsFencesOut(hl: Highlighter) {
    forall code, grammar, lang :: FenceFree(code) ==> FenceFree(hl(code, grammar, lang))
  }

  /** `Prism.languages[lang] || Prism.languages.autoit`: the grammar for `lang`, else `autoit`'s. */
  function Grammar(languages: set<string>, lang: string): (g: string)
    ensures g == lang || (g == "autoit" && lang !in languages)
    ensures lang in languages ==> g == lang
  {
    if lang in languages then lang else "autoit"
  }

  const CODE_CLOSE := "</code></pre>"

  /** The opening tags `<pre><code class="${lang} language-${lang}">`. */
  function CodeOpen(lang: string): string {
    "<pre><code class=\"" + lang + " language-" + lang + "\">"
  }

  /** Highlighted code wrapped in its tags. */
  function Html(lang: string, block: string): string {
    CodeOpen(lang) + block + CODE_CLOSE
  }

  /** The HTML that replaces the code block `m`: its tag and code trimmed, the code highlighted. */
  function BlockHtml(languages: set<string>, hl: Highlighter, m: Match): string {
    var lang := Trim(m.group1);
    Html(lang, hl(Trim(m.group2), Grammar(languages, lang), lang))
  }

  /** One turn of the loop: the leftmost code block replaced by its HTML. */
  function Step(languages: set<string>, hl: Highlighter, data: string, m: Match): string
    requires m.start <= m.end <= |data|
  {
    ReplaceRange(data, m.start, m.end, BlockHtml(languages, hl, m))
  }

  /** What `renderPrism` computes when the module is on: the loop run to the end. */
  function HighlightAll(languages: set<string>, hl: Highlighter, data: string): string
    requires KeepsFencesOut(hl)
    decreases Count(data, FENCE)
  {
    match CodeBlockFrom(data, 0)
    case None => data
    case Some(m) =>
      StepRemovesFences(languages, hl, data, m);
      HighlightAll(languages, hl, Step(languages, hl, data, m))
  }

  /** `renderPrism(data, cb)`: `cb` receives `out`. */
  method RenderPrism(enabled: bool, languages: set<string>, hl: Highlighter, data: string) returns (out: string)
    requires enabled ==> KeepsFencesOut(hl)
    ensures !enabled ==> out == data
    ensures enabled ==> out == HighlightAll(languages, hl, data)
  {
    if !enabled {
      return data;
    }
    out := data;
    var found := CodeBlockFrom(out, 0);
    while found.Some?
      invariant found == CodeBlockFrom(out, 0)
      invariant HighlightAll(languages, hl, out) == HighlightAll(languages, hl, data)
      decreases Count(out, FENCE)
    {
      var m := found.value;
      StepRemovesFences(languages, hl, out, m);
      var lang := Trim(m.group1);
      var code := Trim(m.group2);
      var block := hl(code, Grammar(languages, lang), lang);
      var html := Html(lang, block);
      assert out[..m.start] + html + out[m.end..] == Step(languages, hl, out, m);
      out := out[..m.start] + html + out[m.end..];
      found := CodeBlockFrom(out, 0);
    }
  }

  // ---- Termination and the result ----

  /** A language tag is left as it is by `trim`, and holds no backquote. */
  lemma {:induction false} TagTrimmed(tag: string)
    requires tag != [] && forall i :: 0 <= i < |tag| ==> IsTagChar(tag[i])
    ensures Trim(tag) == tag && '`' !in tag
  {
    TagCharPlain(tag[0]);
    TagCharPlain(tag[|tag| - 1]);
    forall i | 0 <= i < |tag| ensures tag[i] != '`' {
      TagCharPlain(tag[i]);
    }
  }

  lemma {:induction false} TagCharPlain(c: char)
    requires IsTagChar(c)
    ensures !IsSpace(c) && c != '`'
  {
  }

  /** The tags around the highlighted code hold no backquote. */
  lemma {:induction false} TagsFenceFree(lang: string)
    requires '`' !in lang
    ensures Count(CodeOpen(lang), FENCE) == 0 && Count(CODE_CLOSE, FENCE) == 0
    ensures CodeOpen(lang)[0] !in FENCE && CodeOpen(lang)[|CodeOpen(lang)| - 1] !in FENCE
    ensures CODE_CLOSE[0] !in FENCE && CODE_CLOSE[|CODE_CLOSE| - 1] !in FENCE
  {
    assert '`' !in CodeOpen(lang) && '`' !in CODE_CLOSE;
    CountAbsentChar(CodeOpen(lang), FENCE);
    CountAbsentChar(CODE_CLOSE, FENCE);
  }

  /** Wrapped code holds no fence if the code holds none, and it starts and ends with characters that cannot join one. */
  lemma {:induction false} HtmlFenceFree(lang: string, block: string)
    requires '`' !in lang && FenceFree(block)
    ensures Count(Html(lang, block), FENCE) == 0 && Html(lang, block) != []
    ensures Html(lang, block)[0] !in FENCE && Html(lang, block)[|Html(lang, block)| - 1] !in FENCE
  {
    var open := CodeOpen(lang);
    var html := open + block + CODE_CLOSE;
    assert Count(open, FENCE) == 0 && Count(CODE_CLOSE, FENCE) == 0 by {
      TagsFenceFree(lang);
    }
    assert open[0] !in FENCE && open[|open| - 1] !in FENCE && CODE_CLOSE[0] !in FENCE && CODE_CLOSE[|CODE_CLOSE| - 1] !in FENCE by {
      TagsFenceFree(lang);
    }
    assert Count(block, FENCE) == 0 by {
      CountNoneIff(block, FENCE);
    }
    assert Count(open + block, FENCE) == 0 by {
      CountConcatJoin(open, block, FENCE);
    }
    assert Count(html, FENCE) == 0 by {
      CountConcatJoin(open + block, CODE_CLOSE, FENCE);
    }
    assert html[0] == open[0] && html[|html| - 1] == CODE_CLOSE[|CODE_CLOSE| - 1];
  }

  /** The HTML of a block holds no fence, and starts and ends with characters that cannot join one. */
  lemma {:induction false} BlockHtmlFenceFree(languages: set<string>, hl: Highlighter, m: Match)
    requires KeepsFencesOut(hl)
    requires m.group1 != [] && forall i :: 0 <= i < |m.group1| ==> IsTagChar(m.group1[i])
    requires FenceFree(m.group2)
    ensures Count(BlockHtml(languages, hl, m), FENCE) == 0 && BlockHtml(languages, hl, m) != []
    ensures BlockHtml(languages, hl, m)[0] !in FENCE && BlockHtml(languages, hl, m)[|BlockHtml(languages, hl, m)| - 1] !in FENCE
  {
    TagTrimmed(m.group1);
    AbsentTrim(m.group2, FENCE);
    var lang := Trim(m.group1);
    HtmlFenceFree(lang, hl(Trim(m.group2), Grammar(languages, lang), lang));
  }

  /** Each turn removes at least the two fences of the block it replaces. */
  lemma {:induction false} StepRemovesFences(languages: set<string>, hl: Highlighter, data: string, m: Match)
    requires KeepsFencesOut(hl) && CodeBlockShape(data, m)
    ensures Count(Step(languages, hl, data, m), FENCE) + 2 <= Count(data, FENCE)
  {
    BlockHtmlFenceFree(languages, hl, m);
    ReplaceBlockDrops(data, m, BlockHtml(languages, hl, m));
  }

  lemma {:induction false} ReplaceBlockDrops(data: string, m: Match, h: string)
    requires m.start + 3 < m.end - 3 && m.end <= |data|
    requires StartsAt(data, m.start, FENCE) && StartsAt(data, m.end - 3, FENCE)
    requires h != [] && h[0] !in FENCE && h[|h| - 1] !in FENCE && Count(h, FENCE) == 0
    ensures Count(ReplaceRange(data, m.start, m.end, h), FENCE) + 2 <= Count(data, FENCE)
  {
    CountReplaceDrops(data, m.start, m.end, h, FENCE);
  }

  /** When the module is on, no tagged code block is left anywhere in the result. */
  lemma {:induction false} HighlightAllComplete(languages: set<string>, hl: Highlighter, data: string, j: nat)
    requires KeepsFencesOut(hl)
    decreases Count(data, FENCE)
    ensures CodeBlockAt(HighlightAll(languages, hl, data), j).None?
  {
    match CodeBlockFrom(data, 0)
    case None =>
      CodeBlockFromLeftmost(data, 0, j);
    case Some(m) =>
      StepRemovesFences(languages, hl, data, m);
      HighlightAllComplete(languages, hl, Step(languages, hl, data, m), j);
  }

  /** A document in which no tagged block matches, such as one whose fences carry no language tag, is left as it is. */
  lemma {:induction false} NoBlockUnchanged(languages: set<string>, hl: Highlighter, data: string)
    requires KeepsFencesOut(hl)
    requires forall j: nat :: CodeBlockAt(data, j).None?
    ensures HighlightAll(languages, hl, data) == data
  {
  }

  lemma {:induction false} Regroup(a: string, b: string, c: string, d: string, e: string)
    ensures a + (b + c + d) + e == a + b + c + d + e
  {
  }

  /** A document without "```" is left as it is. */
  lemma {:induction false} FenceFreeUnchanged(languages: set<string>, hl: Highlighter, data: string)
    requires KeepsFencesOut(hl) && FenceFree(data)
    ensures HighlightAll(languages, hl, data) == data
  {
  }

  /** Replacing a block whose surroundings hold no fence leaves no fence at all. */
  lemma {:induction false} StepFenceFree(languages: set<string>, hl: Highlighter, data: string, m: Match)
    requires KeepsFencesOut(hl) && CodeBlockShape(data, m)
    requires FenceFree(data[..m.start]) && FenceFree(data[m.end..])
    ensures FenceFree(Step(languages, hl, data, m))
  {
    var h := BlockHtml(languages, hl, m);
    BlockHtmlFenceFree(languages, hl, m);
    assert h != [] && h[0] !in FENCE && h[|h| - 1] !in FENCE && Count(h, FENCE) == 0;
    CountReplace(data, m.start, m.end, h, FENCE);
    CountNoneIff(data[..m.start], FENCE);
    CountNoneIff(data[m.end..], FENCE);
    CountNoneIff(Step(languages, hl, data, m), FENCE);
  }

  /**
   * A document whose only fences are those of one tagged block: the result is
   * the text before the block, `<pre><code class="lang language-lang">`, the
   * highlighted code, `</code></pre>`, and the text after the block. The tag
   * is used as it stands: trimming cannot change it.
   */
  lemma {:induction false} SingleBlock(languages: set<string>, hl: Highlighter, data: string)
    requires KeepsFencesOut(hl)
    requires CodeBlockFrom(data, 0).Some?
    requires FenceFree(data[..CodeBlockFrom(data, 0).value.start]) && FenceFree(data[CodeBlockFrom(data, 0).value.end..])
    ensures var m := CodeBlockFrom(data, 0).value;
      HighlightAll(languages, hl, data)
      == data[..m.start] + CodeOpen(m.group1) + hl(Trim(m.group2), Grammar(languages, m.group1), m.group1)
         + CODE_CLOSE + data[m.end..]
  {
    var m := CodeBlockFrom(data, 0).value;
    var t := Step(languages, hl, data, m);
    StepFenceFree(languages, hl, data, m);
    FenceFreeUnchanged(languages, hl, t);
    assert HighlightAll(languages, hl, data) == t;
    TagTrimmed(m.group1);
    var block := hl(Trim(m.group2), Grammar(languages, m.group1), m.group1);
    assert BlockHtml(languages, hl, m) == CodeOpen(m.group1) + block + CODE_CLOSE;
    Regroup(data[..m.start], CodeOpen(m.group1), block, CODE_CLOSE, data[m.end..]);
  }
}
