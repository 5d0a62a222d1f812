/**
 * `renderPlantUML` and `renderFaDiagrams` of src/renderer.js. Both visit the
 * parts `getParts` returns; in each part's text they replace, while the
 * stage's regex still matches, the first block by the HTML made from its
 * trimmed body; then they write the part's text back into the document at
 * the part's offsets. Those offsets were computed on the document before any
 * part was rewritten, and `slice` clamps them to the current length.
 *
 * Each block starts and ends with a marker beginning with `@`, so a rewrite
 * removes at least two `@` from the part's text. The loop ends when the
 * replacement HTML holds no `@` (the hypothesis `KeepsAtOut`); without it the
 * source's `while` need not end.
 */
module Diagrams {
  import opened Wrappers
  import opened Text
  import opened Patterns
  import opened Segmenter
  import opened LineBreaks

  const AT := "@"

  /** What replaces a block, as a function of its trimmed body. */
  type Rewriter = string -> string

  ghost predicate KeepsAtOut(rep: Rewriter) {
    forall code :: '@' !in rep(code)
  }

  /** Both markers begin with `@`, as `@startuml`/`@enduml` and `@startfad`/`@endfad` do. */
  predicate Markers(open: string, close: string) {
    open != [] && open[0] == '@' && close != [] && close[0] == '@'
  }

  /** An occurrence of a marker is an occurrence of `@`. */
  lemma {:induction false} MarkerAt(t: string, i: nat, marker: string)
    requires marker != [] && marker[0] == '@' && StartsAt(t, i, marker)
    ensures StartsAt(t, i, AT)
  {
    assert t[i] == t[i..i + |marker|][0];
    assert t[i..i + 1] == AT;
  }

  /** Replacing a block by text without `@` removes at least two `@`. */
  lemma {:induction false} BlockStepDrops(t: string, m: Match, open: string, close: string, r: string)
    requires Markers(open, close) && '@' !in r && BlockShape(t, m, open, close)
    ensures Count(t[..m.start] + r + t[m.end..], AT) + 2 <= Count(t, AT)
  {
    BlockHasTwoAts(t, m, open, close);
    CountAtSplit(t, m.start, m.end);
    CountAbsentChar(r, AT);
    CountCharConcat(t[..m.start], r, '@');
    CountCharConcat(t[..m.start] + r, t[m.end..], '@');
  }

  lemma {:induction false} BlockHasTwoAts(t: string, m: Match, open: string, close: string)
    requires Markers(open, close) && BlockShape(t, m, open, close)
    ensures Count(t[m.start..m.end], AT) >= 2
  {
    var a, b, e := m.start, m.end, m.end - |close|;
    MarkerAt(t, a, open);
    MarkerAt(t, e, close);
    StartsAtSlice(t, a, b, a, AT);
    StartsAtSlice(t, a, b, e, AT);
    CountTwo(t[a..b], AT, 0, e - a);
  }

  /** The `@` of a string are those of its three pieces. */
  lemma {:induction false} CountAtSplit(t: string, a: nat, b: nat)
    requires a <= b <= |t|
    ensures Count(t, AT) == Count(t[..a], AT) + Count(t[a..b], AT) + Count(t[b..], AT)
  {
    var x, y, z := t[..a], t[a..b], t[b..];
    assert x + y + z == t;
    CountCharConcat(x, y, '@');
    CountCharConcat(x + y, z, '@');
  }

  /**
   * The `while` loop over one part's text: replace the first block by
   * `rep` of its trimmed body until the regex no longer matches.
   */
  function RewriteBlocks(t: string, open: string, close: string, rep: Rewriter): (r: string)
    requires Markers(open, close) && KeepsAtOut(rep)
    decreases Count(t, AT)
    ensures BlockFrom(r, 0, open, close).None?
  {
    match BlockFrom(t, 0, open, close)
    case None => t
    case Some(m) =>
      BlockStepDrops(t, m, open, close, rep(Trim(m.group1)));
      RewriteBlocks(t[..m.start] + rep(Trim(m.group1)) + t[m.end..], open, close, rep)
  }

  /** A text in which the regex finds no block is left as it is. */
  lemma {:induction false} RewriteNoBlock(t: string, open: string, close: string, rep: Rewriter)
    requires Markers(open, close) && KeepsAtOut(rep) && BlockFrom(t, 0, open, close).None?
    ensures RewriteBlocks(t, open, close, rep) == t
  {
  }

  /**
   * A part whose one block is the only place holding `@` becomes the text
   * before the block, the block's replacement, and the text after it.
   */
  lemma {:induction false} RewriteSingleBlock(t: string, open: string, close: string, rep: Rewriter)
    requires Markers(open, close) && KeepsAtOut(rep)
    requires BlockFrom(t, 0, open, close).Some?
    requires '@' !in t[..BlockFrom(t, 0, open, close).value.start] && '@' !in t[BlockFrom(t, 0, open, close).value.end..]
    ensures var m := BlockFrom(t, 0, open, close).value;
      RewriteBlocks(t, open, close, rep) == t[..m.start] + rep(Trim(m.group1)) + t[m.end..]
  {
    var m := BlockFrom(t, 0, open, close).value;
    var u := t[..m.start] + rep(Trim(m.group1)) + t[m.end..];
    assert '@' !in rep(Trim(m.group1));
    assert '@' !in u;
    NoAtNoBlock(u, open, close);
    RewriteNoBlock(u, open, close, rep);
  }

  /** `data.slice(0, part.index) + part.text + data.slice(part.end)`. */
  function WriteBack(data: string, p: Part, text: string): string
  {
    Slice(data, 0, p.index) + text + SliceFrom(data, p.end)
  }

  /** Writing a part's own text back at its own offsets changes nothing. */
  lemma {:induction false} WriteBackSame(data: string, p: Part)
    requires PartInData(data, p)
    ensures WriteBack(data, p, p.text) == data
  {
    assert data[..p.index] + data[p.index..p.end] + data[p.end..] == data;
  }

  /** The `forEach` from part `k` on. */
  function StageFrom(data: string, parts: seq<Part>, k: nat, open: string, close: string, rep: Rewriter): string
    requires Markers(open, close) && KeepsAtOut(rep)
    decreases |parts| - k
  {
    if k >= |parts| then data
    else StageFrom(WriteBack(data, parts[k], RewriteBlocks(parts[k].text, open, close, rep)), parts, k + 1, open, close, rep)
  }

  /** The enabled stage as written: the parts of `data`, each rewritten and written back in turn. */
  function Stage(data: string, open: string, close: string, rep: Rewriter): string
    requires Markers(open, close) && KeepsAtOut(rep)
  {
    StageFrom(data, GetPartsAsWritten(data), 0, open, close, rep)
  }

  /** The stage's two loops; disabled, the data is handed on unchanged. */
  method RenderBlocks(enabled: bool, data: string, open: string, close: string, rep: Rewriter) returns (out: string)
    requires Markers(open, close) && (enabled ==> KeepsAtOut(rep))
    ensures !enabled ==> out == data
    ensures enabled ==> out == Stage(data, open, close, rep)
  {
    if !enabled {
      return data;
    }
    var parts := GetParts(data);
    out := data;
    for k := 0 to |parts|
      invariant StageFrom(out, parts, k, open, close, rep) == Stage(data, open, close, rep)
    {
      var text := parts[k].text;
      var found := BlockFrom(text, 0, open, close);
      while found.Some?
        invariant found == BlockFrom(text, 0, open, close)
        invariant RewriteBlocks(text, open, close, rep) == RewriteBlocks(parts[k].text, open, close, rep)
        decreases Count(text, AT)
      {
        var m := found.value;
        BlockStepDrops(text, m, open, close, rep(Trim(m.group1)));
        text := text[..m.start] + rep(Trim(m.group1)) + text[m.end..];
        found := BlockFrom(text, 0, open, close);
      }
      out := Slice(out, 0, parts[k].index) + text + SliceFrom(out, parts[k].end);
    }
  }

  /** When no part holds a block, the enabled stage leaves the document unchanged. */
  lemma {:induction false} StageFromNoBlocks(data: string, parts: seq<Part>, k: nat, open: string, close: string, rep: Rewriter)
    requires Markers(open, close) && KeepsAtOut(rep)
    requires forall i :: k <= i < |parts| ==> PartInData(data, parts[i]) && BlockFrom(parts[i].text, 0, open, close).None?
    decreases |parts| - k
    ensures StageFrom(data, parts, k, open, close, rep) == data
  {
    if k < |parts| {
      RewriteNoBlock(parts[k].text, open, close, rep);
      WriteBackSame(data, parts[k]);
      StageFromNoBlocks(data, parts, k + 1, open, close, rep);
    }
  }

  lemma {:induction false} StageNoBlocks(data: string, open: string, close: string, rep: Rewriter)
    requires Markers(open, close) && KeepsAtOut(rep)
    requires forall i :: 0 <= i < |GetPartsAsWritten(data)| ==> BlockFrom(GetPartsAsWritten(data)[i].text, 0, open, close).None?
    ensures Stage(data, open, close, rep) == data
  {
    GetPartsWellFormed(data);
    StageFromNoBlocks(data, GetPartsAsWritten(data), 0, open, close, rep);
  }

  // ---- The write-back as intended ----

  /** Parts in document order, within a document of length `n`. */
  ghost predicate Laid(parts: seq<Part>, n: nat) {
    (forall i :: 0 <= i < |parts| ==> parts[i].index <= parts[i].end <= n)
    && (forall i :: 0 <= i < |parts| - 1 ==> parts[i].end <= parts[i + 1].index)
  }

  /**
   * What the stage is for: from `pos` on, the document with each part's text
   * replaced by its rewriting and everything between the parts kept.
   */
  function Reassemble(data: string, parts: seq<Part>, pos: nat, open: string, close: string, rep: Rewriter): string
    requires Markers(open, close) && KeepsAtOut(rep)
    decreases |parts|
  {
    if parts == [] then SliceFrom(data, pos)
    else
      Slice(data, pos, parts[0].index) + RewriteBlocks(parts[0].text, open, close, rep)
      + Reassemble(data, parts[1..], parts[0].end, open, close, rep)
  }

  /**
   * The corrected `forEach`: the first `k` parts written back from the last
   * to the first, so that the offsets of the parts still to be written name
   * text no write-back has moved.
   */
  function StageBackFrom(data: string, parts: seq<Part>, k: nat, open: string, close: string, rep: Rewriter): string
    requires Markers(open, close) && KeepsAtOut(rep) && k <= |parts|
    decreases k
  {
    if k == 0 then data
    else StageBackFrom(WriteBack(data, parts[k - 1], RewriteBlocks(parts[k - 1].text, open, close, rep)), parts, k - 1, open, close, rep)
  }

  /** The corrected stage: the corrected parts, written back from the last. */
  function StageCorrected(data: string, open: string, close: string, rep: Rewriter): string
    requires Markers(open, close) && KeepsAtOut(rep)
  {
    StageBackFrom(data, Parts(data), |Parts(data)|, open, close, rep)
  }

  /** Writing back `p` leaves everything before it as it was. */
  lemma {:induction false} WriteBackBefore(data: string, p: Part, text: string, i: nat, j: nat)
    requires i <= j <= p.index <= p.end <= |data|
    ensures Slice(WriteBack(data, p, text), i, j) == data[i..j]
    ensures SliceFrom(WriteBack(data, p, text), i) == data[i..p.index] + text + data[p.end..]
  {
    var x := data[..p.index];
    SliceLeft(x + text, data[p.end..], i, j);
    SliceLeft(x, text, i, j);
    var w := WriteBack(data, p, text);
    assert w == x + text + data[p.end..];
    assert w[i..] == x[i..] + text + data[p.end..];
  }

  /** Rewriting the last part in place, then reassembling the others, is reassembling all of them. */
  lemma {:induction false} ReassembleLast(data: string, qs: seq<Part>, p: Part, pos: nat, open: string, close: string, rep: Rewriter)
    requires Markers(open, close) && KeepsAtOut(rep)
    requires Laid(qs + [p], |data|) && pos <= (qs + [p])[0].index
    decreases |qs|
    ensures Reassemble(data, qs + [p], pos, open, close, rep)
      == Reassemble(WriteBack(data, p, RewriteBlocks(p.text, open, close, rep)), qs, pos, open, close, rep)
  {
    var t := RewriteBlocks(p.text, open, close, rep);
    var all := qs + [p];
    assert all[|qs|] == p;
    if qs == [] {
      WriteBackBefore(data, p, t, pos, pos);
      assert all[1..] == [];
    } else {
      var q := qs[0];
      assert all[0] == q && all[1..] == qs[1..] + [p];
      LaidBefore(all, 0, |qs|, |data|);
      WriteBackBefore(data, p, t, pos, q.index);
      LaidTail(all, |data|);
      ReassembleLast(data, qs[1..], p, q.end, open, close, rep);
    }
  }

  lemma {:induction false} LaidTail(parts: seq<Part>, n: nat)
    requires parts != [] && Laid(parts, n)
    ensures Laid(parts[1..], n)
  {
    forall i | 0 <= i < |parts| - 2 ensures parts[1..][i].end <= parts[1..][i + 1].index {
      assert parts[i + 1].end <= parts[i + 2].index;
    }
  }

  /** In laid-out parts, each part ends before every later one starts. */
  lemma {:induction false} LaidBefore(parts: seq<Part>, i: nat, j: nat, n: nat)
    requires Laid(parts, n) && i < j < |parts|
    decreases j - i
    ensures parts[i].index <= parts[i].end <= parts[j].index
  {
    assert parts[i].end <= parts[i + 1].index;
    if i + 1 < j {
      LaidBefore(parts, i + 1, j, n);
    }
  }

  /** The corrected `forEach` over the first `k` parts reassembles them. */
  lemma {:induction false} StageBackFromReassembles(data: string, parts: seq<Part>, k: nat, open: string, close: string, rep: Rewriter)
    requires Markers(open, close) && KeepsAtOut(rep)
    requires k <= |parts| && Laid(parts[..k], |data|)
    decreases k
    ensures StageBackFrom(data, parts, k, open, close, rep) == Reassemble(data, parts[..k], 0, open, close, rep)
  {
    if k == 0 {
      assert data[0..] == data;
    } else {
      var p := parts[k - 1];
      var t := RewriteBlocks(p.text, open, close, rep);
      var w := WriteBack(data, p, t);
      assert parts[..k] == parts[..k - 1] + [p];
      assert parts[..k][k - 1] == p;
      LaidPrefix(parts[..k], |data|, |w|);
      assert parts[..k][..k - 1] == parts[..k - 1];
      StageBackFromReassembles(w, parts, k - 1, open, close, rep);
      ReassembleLast(data, parts[..k - 1], p, 0, open, close, rep);
    }
  }

  /** Dropping the last part, the others lie before it; a write-back there keeps the document at least that long. */
  lemma {:induction false} LaidPrefix(parts: seq<Part>, n: nat, m: nat)
    requires parts != [] && Laid(parts, n) && parts[|parts| - 1].index <= m
    ensures Laid(parts[..|parts| - 1], m)
  {
    var k := |parts| - 1;
    forall i | 0 <= i < k ensures parts[i].index <= parts[i].end <= m {
      LaidBefore(parts, i, k, n);
    }
    forall i | 0 <= i < k - 1 ensures parts[..k][i].end <= parts[..k][i + 1].index {
      assert parts[i].end <= parts[i + 1].index;
    }
  }

  /** The corrected stage is the reassembly of the corrected parts. */
  lemma {:induction false} StageCorrectedReassembles(data: string, open: string, close: string, rep: Rewriter)
    requires Markers(open, close) && KeepsAtOut(rep)
    ensures StageCorrected(data, open, close, rep) == Reassemble(data, Parts(data), 0, open, close, rep)
  {
    var ps := Parts(data);
    PartsWellFormed(data);
    assert ps[..|ps|] == ps;
    forall i | 0 <= i < |ps| ensures ps[i].index <= ps[i].end <= |data| {
      assert PartInData(data, ps[i]);
    }
    StageBackFromReassembles(data, ps, |ps|, open, close, rep);
  }

  // ---- PlantUML ----

  const PLANTUML_SERVER := "http://www.plantuml.com/plantuml/"
  const IMG_OPEN := "<img alt=\"generated PlantUML diagram\" src=\""
  const IMG_CLOSE := "\">"

  /**
   * The `<img>` for a diagram: `encode` stands for
   * `encode64(zip_deflate(unescape(encodeURIComponent(code))))`, `format` for
   * `config.plantuml.output_format`.
   */
  function PlantUmlHtml(format: string, encode: string -> string, code: string): string
  {
    IMG_OPEN + PLANTUML_SERVER + format + "/" + encode(code) + IMG_CLOSE
  }

  /** With a format and an encoder free of `@` (base-64 digits are), no `<img>` holds `@`. */
  function PlantUmlRewriter(format: string, encode: string -> string): (rep: Rewriter)
    requires '@' !in format && forall code :: '@' !in encode(code)
    ensures KeepsAtOut(rep)
  {
    PlantUmlLiterals();
    code => PlantUmlHtml(format, encode, code)
  }

  lemma {:induction false} PlantUmlLiterals()
    ensures '@' !in IMG_OPEN && '@' !in PLANTUML_SERVER && '@' !in "/" && '@' !in IMG_CLOSE
  {
    assert '@' !in IMG_OPEN;
    assert '@' !in PLANTUML_SERVER;
  }

  /** `renderPlantUML`. */
  method RenderPlantUML(enabled: bool, format: string, encode: string -> string, data: string) returns (out: string)
    requires enabled ==> '@' !in format && forall code :: '@' !in encode(code)
    ensures !enabled ==> out == data
    ensures enabled ==> out == Stage(data, UML_OPEN, UML_CLOSE, PlantUmlRewriter(format, encode))
  {
    if !enabled {
      return data;
    }
    out := RenderBlocks(enabled, data, UML_OPEN, UML_CLOSE, PlantUmlRewriter(format, encode));
  }

  // ---- A document the as-written write-back corrupts ----

  /** One diagram, then a fenced "c", then "w". */
  const UML_DOC := UML_OPEN + "\nA\n" + UML_CLOSE
  const STALE_DOC := UML_DOC + FENCE + "c" + FENCE + "w"

  /** Text without `@` holds no block: each marker begins with `@`. */
  lemma {:induction false} NoAtNoBlock(t: string, open: string, close: string)
    requires Markers(open, close) && '@' !in t
    ensures BlockFrom(t, 0, open, close).None?
  {
    forall j | 0 <= j < |t| ensures t[j] != open[0] {
      assert t[j] in t;
    }
    IndexFromNone(t, open, 0);
  }

  /** The regex matches the whole diagram, with body "A". */
  lemma {:induction false} UmlDocBlock()
    ensures BlockFrom(UML_DOC, 0, UML_OPEN, UML_CLOSE) == Some(Match(0, 19, "A", ""))
  {
    var t := UML_DOC;
    assert |t| == 19 && t[..9] == UML_OPEN && t[12..19] == UML_CLOSE;
    assert t[9] == '\n' && t[10] == 'A' && t[11] == '\n';
    assert IndexFrom(t, UML_OPEN, 0) == Some(0);
    assert AfterNewline(t, 9) == Some(10);
    IndexFromExact(t, UML_CLOSE, 10, 12);
    assert t[10..11] == "A";
  }

  /** The diagram becomes its `<img>`. */
  lemma {:induction false} UmlDocRewritten(format: string, encode: string -> string)
    requires '@' !in format && forall code :: '@' !in encode(code)
    ensures RewriteBlocks(UML_DOC, UML_OPEN, UML_CLOSE, PlantUmlRewriter(format, encode)) == PlantUmlHtml(format, encode, "A")
  {
    var rep := PlantUmlRewriter(format, encode);
    var r := PlantUmlHtml(format, encode, "A");
    UmlDocBlock();
    assert Trim("A") == "A";
    assert UML_DOC[..0] + rep("A") + UML_DOC[19..] == r;
    NoAtNoBlock(r, UML_OPEN, UML_CLOSE);
    RewriteNoBlock(r, UML_OPEN, UML_CLOSE, rep);
  }

  /** Both ways of splitting find the diagram and "w", at their offsets. */
  lemma {:induction false} StaleDocParts()
    ensures GetPartsAsWritten(STALE_DOC) == [Part(0, UML_DOC, 19), Part(26, "w", 27)]
    ensures Parts(STALE_DOC) == GetPartsAsWritten(STALE_DOC)
  {
    assert |UML_DOC| == 19 && Plain(UML_DOC) && Plain("w") && '`' !in "c";
    FencedMiddleSlices(UML_DOC, "c", "w");
    FencedMiddle(STALE_DOC, 19, 23, UML_DOC, "c", "w");
  }

  /** "w" is the last character of the document. */
  lemma {:induction false} StaleDocTail()
    ensures PartInData(STALE_DOC, Part(26, "w", 27))
  {
    assert STALE_DOC[26..27] == [STALE_DOC[26]];
  }

  /** The `<img>` is longer than the document and has 'M' at offset 26. */
  lemma {:induction false} ImgShape(format: string, encode: string -> string)
    ensures |PlantUmlHtml(format, encode, "A")| > 27 && PlantUmlHtml(format, encode, "A")[26] == 'M'
  {
    assert |IMG_OPEN| == 43 && IMG_OPEN[26] == 'M';
  }

  /**
   * Two parts, the first at offset 0 rewritten to `r`, the second left as it
   * is: as written, the second part's text is written back at its old offsets
   * into the document that now begins with `r`.
   */
  lemma {:induction false} TwoPartsAsWritten(d: string, p0: Part, p1: Part, open: string, close: string, rep: Rewriter, r: string)
    requires Markers(open, close) && KeepsAtOut(rep)
    requires p0.index == 0 && p0.end <= |d| && p1.index <= p1.end <= |r|
    requires RewriteBlocks(p0.text, open, close, rep) == r && RewriteBlocks(p1.text, open, close, rep) == p1.text
    ensures StageFrom(d, [p0, p1], 0, open, close, rep) == r[..p1.index] + p1.text + r[p1.end..] + d[p0.end..]
  {
    var ps := [p0, p1];
    var d1 := WriteBack(d, p0, r);
    assert d1 == r + d[p0.end..];
    SliceLeft(r, d[p0.end..], 0, p1.index);
    DropLeft(r, d[p0.end..], p1.end);
    var d2 := WriteBack(d1, p1, p1.text);
    assert d2 == r[..p1.index] + p1.text + (r[p1.end..] + d[p0.end..]);
    assert StageFrom(d2, ps, 2, open, close, rep) == d2;
    assert StageFrom(d1, ps, 1, open, close, rep) == d2;
  }

  /** The same two parts written back from the last: the second is its own slice, so only the first changes. */
  lemma {:induction false} TwoPartsCorrected(d: string, p0: Part, p1: Part, open: string, close: string, rep: Rewriter, r: string)
    requires Markers(open, close) && KeepsAtOut(rep)
    requires p0.index == 0 && p0.end <= |d| && PartInData(d, p1)
    requires RewriteBlocks(p0.text, open, close, rep) == r && RewriteBlocks(p1.text, open, close, rep) == p1.text
    ensures StageBackFrom(d, [p0, p1], 2, open, close, rep) == r + d[p0.end..]
  {
    var ps := [p0, p1];
    WriteBackSame(d, p1);
    var d1 := WriteBack(d, p0, r);
    assert d1 == r + d[p0.end..];
    assert StageBackFrom(d1, ps, 0, open, close, rep) == d1;
    assert StageBackFrom(d, ps, 1, open, close, rep) == d1;
  }

  /**
   * As written, the `<img>` is written back first and lengthens the document;
   * "w" is then written back at its old offsets 26 to 27, inside the `<img>`.
   */
  lemma {:induction false} StaleAsWritten(format: string, encode: string -> string)
    requires '@' !in format && forall code :: '@' !in encode(code)
    ensures Stage(STALE_DOC, UML_OPEN, UML_CLOSE, PlantUmlRewriter(format, encode))
      == PlantUmlHtml(format, encode, "A")[..26] + "w" + PlantUmlHtml(format, encode, "A")[27..] + STALE_DOC[19..]
  {
    StaleDocParts();
    UmlDocRewritten(format, encode);
    ImgShape(format, encode);
    NoAtNoBlock("w", UML_OPEN, UML_CLOSE);
    RewriteNoBlock("w", UML_OPEN, UML_CLOSE, PlantUmlRewriter(format, encode));
    TwoPartsAsWritten(STALE_DOC, Part(0, UML_DOC, 19), Part(26, "w", 27), UML_OPEN, UML_CLOSE,
      PlantUmlRewriter(format, encode), PlantUmlHtml(format, encode, "A"));
  }

  /** Written back from the last part first, the document is the `<img>` and the rest unchanged. */
  lemma {:induction false} StaleCorrected(format: string, encode: string -> string)
    requires '@' !in format && forall code :: '@' !in encode(code)
    ensures StageCorrected(STALE_DOC, UML_OPEN, UML_CLOSE, PlantUmlRewriter(format, encode))
      == PlantUmlHtml(format, encode, "A") + STALE_DOC[19..]
  {
    StaleDocParts();
    UmlDocRewritten(format, encode);
    NoAtNoBlock("w", UML_OPEN, UML_CLOSE);
    RewriteNoBlock("w", UML_OPEN, UML_CLOSE, PlantUmlRewriter(format, encode));
    StaleDocTail();
    TwoPartsCorrected(STALE_DOC, Part(0, UML_DOC, 19), Part(26, "w", 27), UML_OPEN, UML_CLOSE,
      PlantUmlRewriter(format, encode), PlantUmlHtml(format, encode, "A"));
  }

  /** On this document the as-written stage and the corrected one differ, at offset 26. */
  lemma {:induction false} StaleWriteBack(format: string, encode: string -> string)
    requires '@' !in format && forall code :: '@' !in encode(code)
    ensures Stage(STALE_DOC, UML_OPEN, UML_CLOSE, PlantUmlRewriter(format, encode))
      != StageCorrected(STALE_DOC, UML_OPEN, UML_CLOSE, PlantUmlRewriter(format, encode))
  {
    var r := PlantUmlHtml(format, encode, "A");
    StaleAsWritten(format, encode);
    StaleCorrected(format, encode);
    ImgShape(format, encode);
    assert (r[..26] + "w" + r[27..] + STALE_DOC[19..])[26] == 'w';
    assert (r + STALE_DOC[19..])[26] == 'M';
  }

  // ---- fa-diagrams ----

  /** `toml.parse`: the document, or the message of the error it throws. */
  type TomlParser = string -> Result<Toml, string>

  /** `faDiagrams.compute`: the SVG, or the message of the error it throws. */
  type DiagramComputer = Toml -> Result<string, string>

  const ERROR_OPEN := "<b style=\"color:red\">"
  const ERROR_CLOSE := "</b>"

  function ErrorHtml(err: string): string
  {
    ERROR_OPEN + err + ERROR_CLOSE
  }

  /** The `try`/`catch` of one diagram: parse, unescape line breaks, compute; any error becomes a red message. */
  function FaDiagramHtml(parse: TomlParser, compute: DiagramComputer, code: string): (r: string)
    ensures parse(code).Failure? ==> r == ErrorHtml(parse(code).error)
    ensures parse(code).Success? ==>
      match compute(FindLineBreaks(parse(code).value))
      case Success(svg) => r == svg
      case Failure(err) => r == ErrorHtml(err)
  {
    match parse(code)
    case Failure(err) => ErrorHtml(err)
    case Success(doc) =>
      match compute(FindLineBreaks(doc))
      case Success(svg) => svg
      case Failure(err) => ErrorHtml(err)
  }

  /** No `@` in what `toml.parse` reports nor in what `faDiagrams.compute` returns or reports. */
  ghost predicate FaKeepsAtOut(parse: TomlParser, compute: DiagramComputer) {
    (forall code :: parse(code).Failure? ==> '@' !in parse(code).error)
    && (forall doc :: '@' !in (match compute(doc) case Success(svg) => svg case Failure(err) => err))
  }

  lemma {:induction false} ErrorLiterals()
    ensures '@' !in ERROR_OPEN && '@' !in ERROR_CLOSE
  {
  }

  /** Under `FaKeepsAtOut`, neither a diagram nor a red error message holds `@`. */
  function FaDiagramRewriter(parse: TomlParser, compute: DiagramComputer): (rep: Rewriter)
    requires FaKeepsAtOut(parse, compute)
    ensures KeepsAtOut(rep)
  {
    FaDiagramKeepsAtOut(parse, compute);
    code => FaDiagramHtml(parse, compute, code)
  }

  lemma {:induction false} FaDiagramKeepsAtOut(parse: TomlParser, compute: DiagramComputer)
    requires FaKeepsAtOut(parse, compute)
    ensures forall code :: '@' !in FaDiagramHtml(parse, compute, code)
  {
    ErrorLiterals();
    forall code ensures '@' !in FaDiagramHtml(parse, compute, code) {
      if parse(code).Success? {
        var doc := FindLineBreaks(parse(code).value);
        assert '@' !in (match compute(doc) case Success(svg) => svg case Failure(err) => err);
      }
    }
  }

  /** `renderFaDiagrams`. */
  method RenderFaDiagrams(enabled: bool, parse: TomlParser, compute: DiagramComputer, data: string) returns (out: string)
    requires enabled ==> FaKeepsAtOut(parse, compute)
    ensures !enabled ==> out == data
    ensures enabled ==> out == Stage(data, FAD_OPEN, FAD_CLOSE, FaDiagramRewriter(parse, compute))
  {
    if !enabled {
      return data;
    }
    out := RenderBlocks(enabled, data, FAD_OPEN, FAD_CLOSE, FaDiagramRewriter(parse, compute));
  }
}
