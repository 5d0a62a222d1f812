/**
 * `render` of src/renderer.js: the file is read; a read error is handed to
 * the callback as it is; otherwise the text goes through the stages in a
 * fixed order, PlantUML, fa-diagrams, MathJax, Prism, and the result is
 * converted by Showdown.
 *
 * Which stages run is `config.modules`; the libraries the stages call are
 * parameters gathered in `Libraries`, and the file's content (or the error
 * `fs.readFile` reports) is a parameter as well.
 */
module Renderer {
  import opened Wrappers
  import opened Text
  import opened Patterns
  import opened Segmenter
  import opened Diagrams
  import opened MathJax
  import opened Prism

  /** `config.modules`: which of the four stages are on. */
  datatype Modules = Modules(plantuml: bool, faDiagrams: bool, mathjax: bool, prism: bool)

  /** The libraries the stages call, and `converter.makeHtml` of Showdown. */
  datatype Libraries = Libraries(
    umlFormat: string,
    encode: string -> string,
    parse: TomlParser,
    compute: DiagramComputer,
    typeset: Typesetter,
    languages: set<string>,
    highlight: Highlighter,
    makeHtml: string -> string)

  /** What the stages that are on need of their libraries for their loops to end. */
  ghost predicate Sound(mods: Modules, lib: Libraries) {
    && (mods.plantuml ==> '@' !in lib.umlFormat && (forall code :: '@' !in lib.encode(code)))
    && (mods.faDiagrams ==> FaKeepsAtOut(lib.parse, lib.compute))
    && (mods.mathjax ==> KeepsDollarOut(lib.typeset))
    && (mods.prism ==> KeepsFencesOut(lib.highlight))
  }

  /** The four stages in the order `render` nests their callbacks; a stage that is off hands its input on. */
  function Stages(mods: Modules, lib: Libraries, data: string): string
    requires Sound(mods, lib)
  {
    var uml := if mods.plantuml then Stage(data, UML_OPEN, UML_CLOSE, PlantUmlRewriter(lib.umlFormat, lib.encode)) else data;
    var fad := if mods.faDiagrams then Stage(uml, FAD_OPEN, FAD_CLOSE, FaDiagramRewriter(lib.parse, lib.compute)) else uml;
    var math := if mods.mathjax then TypesetAll(fad, lib.typeset) else fad;
    if mods.prism then HighlightAll(lib.languages, lib.highlight, math) else math
  }

  /** `render(file, cb)`: `cb(err)` on a read error, `cb(null, html)` otherwise. */
  method Render<E>(mods: Modules, lib: Libraries, file: Result<string, E>) returns (r: Result<string, E>)
    requires Sound(mods, lib)
    ensures file.Failure? ==> r == Failure(file.error)
    ensures file.Success? ==> r == Success(lib.makeHtml(Stages(mods, lib, file.value)))
  {
    if file.Failure? {
      return Failure(file.error);
    }
    var data := file.value;
    data := RenderPlantUML(mods.plantuml, lib.umlFormat, lib.encode, data);
    data := RenderFaDiagrams(mods.faDiagrams, lib.parse, lib.compute, data);
    data := RenderMathJax(mods.mathjax, lib.typeset, data);
    data := RenderPrism(mods.prism, lib.languages, lib.highlight, data);
    var html := lib.makeHtml(data);
    r := Success(html);
  }

  /** With every module off, Showdown receives the file as it was read. */
  lemma {:induction false} AllOffUnchanged(lib: Libraries, data: string)
    ensures Stages(Modules(false, false, false, false), lib, data) == data
  {
  }

  /** A block stage leaves a document without `@` as it is. */
  lemma {:induction false} NoAtStageUnchanged(data: string, open: string, close: string, rep: Rewriter)
    requires Markers(open, close) && KeepsAtOut(rep) && '@' !in data
    ensures Stage(data, open, close, rep) == data
  {
    var parts := GetPartsAsWritten(data);
    forall i | 0 <= i < |parts| ensures BlockFrom(parts[i].text, 0, open, close).None? {
      GetPartInData(data, i);
      NotInSlice(data, parts[i].index, parts[i].end, '@');
      NoAtNoBlock(parts[i].text, open, close);
    }
    StageNoBlocks(data, open, close, rep);
  }

  /**
   * Prose without `@`, `$` or "```" reaches Showdown unchanged, whichever
   * modules are on: no stage finds anything to replace.
   */
  lemma {:induction false} PlainTextUnchanged(mods: Modules, lib: Libraries, data: string)
    requires Sound(mods, lib) && '@' !in data && '$' !in data && FenceFree(data)
    ensures Stages(mods, lib, data) == data
  {
    if mods.plantuml {
      NoAtStageUnchanged(data, UML_OPEN, UML_CLOSE, PlantUmlRewriter(lib.umlFormat, lib.encode));
    }
    if mods.faDiagrams {
      NoAtStageUnchanged(data, FAD_OPEN, FAD_CLOSE, FaDiagramRewriter(lib.parse, lib.compute));
    }
    if mods.mathjax {
      TypesetAllNoDollar(data, lib.typeset);
    }
    if mods.prism {
      FenceFreeUnchanged(lib.languages, lib.highlight, data);
    }
  }
}
