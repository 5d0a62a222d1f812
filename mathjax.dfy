/**
 * `renderMathJax` of src/renderer.js: the document is cut into parts by
 * `getParts`; the first part, in order, in which the display-math regex
 * /\$\$((?:(?!\$\$)[\s\S])*)\$\$/m matches (or, failing that, the inline
 * regex /\$([^$\n]*)\$/) has that match replaced by the typeset formula, at
 * the match's position in the whole document, and the stage starts over on
 * the new document until no part holds a formula.
 *
 * MathJax is a parameter: `typeset(eq, format)` stands for the output
 * `res[output]` of `mjAPI.typeset` on the trimmed formula, with the output
 * format and `speak_text` of the configuration folded into it.
 */
module MathJax {
  import opened Wrappers
  import opened Text
  import opened Patterns
  import opened Segmenter

  /** The `format` handed to `mjAPI.typeset`: 'TeX' for display math, 'inline-TeX' for inline math. */
  datatype MathFormat = TeX | InlineTeX

  /** `mjAPI.typeset`, from the formula and its format to the markup that replaces it. */
  type Typesetter = (string, MathFormat) -> string

  /**
   * The stage ends only if typesetting never creates a dollar sign: MathJax
   * is assumed to emit markup without `$`.
   */
  ghost predicate KeepsDollarOut(typeset: Typesetter) {
    forall eq, format :: '$' !in typeset(eq, format)
  }

  /** The formula the `for` loop settles on: the index of its part, the match in that part's text, its format. */
  datatype Formula = Formula(part: nat, m: Match, format: MathFormat)

  /** The two regexes on one part's text, display math first: a display formula wins even when an inline one starts earlier. */
  function FormulaIn(text: string, i: nat): (r: Option<Formula>)
    ensures r.Some? ==> r.value.part == i
  {
    match DisplayMathFrom(text, 0)
    case Some(m) => Some(Formula(i, m, TeX))
    case None =>
      match InlineMathFrom(text, 0)
      case Some(m) => Some(Formula(i, m, InlineTeX))
      case None => None
  }

  /** The `for` loop from part `i` on: the first part that holds a formula, and that formula. */
  function FirstFormula(parts: seq<Part>, i: nat): (r: Option<Formula>)
    decreases |parts| - i
    ensures r.Some? ==> i <= r.value.part < |parts| && FormulaIn(parts[r.value.part].text, r.value.part) == r
  {
    if i >= |parts| then None
    else if FormulaIn(parts[i].text, i).Some? then FormulaIn(parts[i].text, i)
    else FirstFormula(parts, i + 1)
  }

  /** The loop's walk over `parts`, with its `break`s. */
  method FindFormula(parts: seq<Part>) returns (r: Option<Formula>)
    ensures r == FirstFormula(parts, 0)
  {
    r := None;
    var i := 0;
    while i < |parts|
      invariant i <= |parts|
      invariant FirstFormula(parts, 0) == FirstFormula(parts, i)
    {
      var display := DisplayMathFrom(parts[i].text, 0);
      if display.Some? {
        r := Some(Formula(i, display.value, TeX));
        return;
      }
      var inline := InlineMathFrom(parts[i].text, 0);
      if inline.Some? {
        r := Some(Formula(i, inline.value, InlineTeX));
        return;
      }
      i := i + 1;
    }
  }

  /** The start and end, in the whole document, of the matched formula. */
  function Start(parts: seq<Part>, f: Formula): nat
    requires f.part < |parts|
  {
    parts[f.part].index + f.m.start
  }

  function End(parts: seq<Part>, f: Formula): nat
    requires f.part < |parts|
  {
    parts[f.part].index + f.m.end
  }

  /** `data.slice(0, a) + r + data.slice(b)`. */
  function Splice(data: string, a: nat, b: nat, r: string): string {
    Slice(data, 0, a) + r + SliceFrom(data, b)
  }

  /** `doMJ`'s write-back: the text the match covers, at its offset in `data`, replaced by the typeset formula. */
  function Substitute(data: string, parts: seq<Part>, f: Formula, typeset: Typesetter): string
    requires f.part < |parts|
  {
    Splice(data, Start(parts, f), End(parts, f), typeset(Trim(f.m.group1), f.format))
  }

  /** What `renderMathJax` computes when the module is on: formula after formula, until none is left. */
  function TypesetAll(data: string, typeset: Typesetter): (r: string)
    requires KeepsDollarOut(typeset)
    decreases Count(data, DOLLAR)
    ensures FirstFormula(GetPartsAsWritten(r), 0).None?
    ensures Count(r, DOLLAR) <= Count(data, DOLLAR)
  {
    var parts := GetPartsAsWritten(data);
    match FirstFormula(parts, 0)
    case None => data
    case Some(f) =>
      FormulaInData(data, f);
      SubstituteDrops(data, parts, f, typeset);
      TypesetAll(Substitute(data, parts, f, typeset), typeset)
  }

  /** `renderMathJax(data, cb)`: `cb` receives `out`. */
  method RenderMathJax(enabled: bool, typeset: Typesetter, data: string) returns (out: string)
    requires enabled ==> KeepsDollarOut(typeset)
    ensures !enabled ==> out == data
    ensures enabled ==> out == TypesetAll(data, typeset)
  {
    if !enabled {
      return data;
    }
    out := data;
    var parts := GetParts(out);
    var found := FindFormula(parts);
    while found.Some?
      invariant parts == GetPartsAsWritten(out)
      invariant found == FirstFormula(parts, 0)
      invariant TypesetAll(out, typeset) == TypesetAll(data, typeset)
      decreases Count(out, DOLLAR)
    {
      var f := found.value;
      FormulaInData(out, f);
      SubstituteDrops(out, parts, f, typeset);
      var eq := Trim(f.m.group1);
      var res := typeset(eq, f.format);
      var at := parts[f.part].index + f.m.start;
      var to := at + (f.m.end - f.m.start);
      assert at == Start(parts, f) && to == End(parts, f);
      var next := Splice(out, at, to, res);
      assert TypesetAll(out, typeset) == TypesetAll(next, typeset);
      out := next;
      parts := GetParts(out);
      found := FindFormula(parts);
    }
  }

  // ---- The walk over the parts ----

  /** No part before the one `FirstFormula` settles on (no part at all, when it finds none) holds a formula. */
  lemma {:induction false} FirstFormulaSkips(parts: seq<Part>, i: nat, j: nat)
    requires i <= j < |parts|
    requires FirstFormula(parts, i).None? || j < FirstFormula(parts, i).value.part
    decreases |parts| - i
    ensures FormulaIn(parts[j].text, j).None?
  {
    if i < j {
      FirstFormulaSkips(parts, i + 1, j);
    }
  }

  /** Parts none of which holds a formula give none. */
  lemma {:induction false} FirstFormulaNone(parts: seq<Part>, i: nat)
    requires forall j :: i <= j < |parts| ==> FormulaIn(parts[j].text, j).None?
    decreases |parts| - i
    ensures FirstFormula(parts, i).None?
  {
    if i < |parts| {
      FirstFormulaNone(parts, i + 1);
    }
  }

  // ---- Termination: each turn removes at least two dollar signs ----

  /** The matched formula begins with `$` and ends with `$`, with something in between. */
  ghost predicate Dollared(text: string, m: Match) {
    m.start + 1 < m.end <= |text| && text[m.start] == '$' && text[m.end - 1] == '$'
  }

  lemma {:induction false} FormulaDollared(text: string, i: nat)
    requires FormulaIn(text, i).Some?
    ensures Dollared(text, FormulaIn(text, i).value.m)
  {
    var m := FormulaIn(text, i).value.m;
    if FormulaIn(text, i).value.format == TeX {
      assert DisplayMathAt(text, m.start) == Some(m);
      assert text[m.start] == text[m.start..m.start + 2][0];
      assert text[m.end - 1] == text[m.end - 2..m.end][1];
    } else {
      assert InlineMathAt(text, m.start) == Some(m);
      assert text[m.start] == text[m.start..m.start + 1][0];
    }
  }

  /** The formula `FirstFormula` settles on is `Dollared` in its part. */
  lemma {:induction false} FoundDollared(parts: seq<Part>, i: nat)
    requires FirstFormula(parts, i).Some?
    ensures var f := FirstFormula(parts, i).value;
      f.part < |parts| && Dollared(parts[f.part].text, f.m)
  {
    var f := FirstFormula(parts, i).value;
    FormulaDollared(parts[f.part].text, f.part);
  }

  /** A `Dollared` match of a part lies, dollar signs and all, at the part's offset in the document. */
  lemma {:induction false} DollaredInData(data: string, p: Part, m: Match)
    requires PartInData(data, p) && Dollared(p.text, m)
    ensures p.index + m.start + 1 < p.index + m.end <= |data|
    ensures data[p.index + m.start] == '$' && data[p.index + m.end - 1] == '$'
    ensures data[p.index + m.start..p.index + m.end] == p.text[m.start..m.end]
  {
    assert data[p.index + m.start] == data[p.index..p.end][m.start];
    assert data[p.index + m.end - 1] == data[p.index..p.end][m.end - 1];
    SliceOfSlice(data, p.index, p.end, m.start, m.end - m.start);
  }

  /** The range of the formula in the document starts and ends with `$`. */
  ghost predicate Located(data: string, parts: seq<Part>, f: Formula) {
    f.part < |parts| && Start(parts, f) + 1 < End(parts, f) <= |data|
    && data[Start(parts, f)] == '$' && data[End(parts, f) - 1] == '$'
  }

  /** The formula `FirstFormula` finds lies, dollar signs and all, at its offset in the document. */
  lemma {:induction false} FormulaInData(data: string, f: Formula)
    requires FirstFormula(GetPartsAsWritten(data), 0) == Some(f)
    ensures Located(data, GetPartsAsWritten(data), f)
    ensures data[Start(GetPartsAsWritten(data), f)..End(GetPartsAsWritten(data), f)]
      == GetPartsAsWritten(data)[f.part].text[f.m.start..f.m.end]
  {
    var parts := GetPartsAsWritten(data);
    FoundDollared(parts, 0);
    GetPartInData(data, f.part);
    FoundInData(data, parts, f);
  }

  lemma {:induction false} FoundInData(data: string, parts: seq<Part>, f: Formula)
    requires f.part < |parts| && PartInData(data, parts[f.part]) && Dollared(parts[f.part].text, f.m)
    ensures Located(data, parts, f)
    ensures data[Start(parts, f)..End(parts, f)] == parts[f.part].text[f.m.start..f.m.end]
  {
    DollaredInData(data, parts[f.part], f.m);
  }

  /** Replacing a range that starts and ends with `$` by text without `$` removes at least two of them. */
  lemma {:induction false} ReplaceDollarsDrops(data: string, a: nat, b: nat, r: string)
    requires a + 1 < b <= |data| && data[a] == '$' && data[b - 1] == '$' && '$' !in r
    ensures Count(Splice(data, a, b, r), DOLLAR) + 2 <= Count(data, DOLLAR)
  {
    assert Slice(data, 0, a) == data[..a] && SliceFrom(data, b) == data[b..];
    assert data[a..a + 1] == DOLLAR && data[b - 1..b] == DOLLAR;
    CountRangeTwo(data, a, b, DOLLAR);
    CountSplit(data, a, b, DOLLAR);
    CountAbsentChar(r, DOLLAR);
    CountCharConcat(data[..a], r, '$');
    CountCharConcat(data[..a] + r, data[b..], '$');
  }

  /** Each turn removes at least the two dollar signs around the formula it typesets. */
  lemma {:induction false} SubstituteDrops(data: string, parts: seq<Part>, f: Formula, typeset: Typesetter)
    requires KeepsDollarOut(typeset) && Located(data, parts, f)
    ensures Count(Substitute(data, parts, f, typeset), DOLLAR) + 2 <= Count(data, DOLLAR)
  {
    ReplaceDollarsDrops(data, Start(parts, f), End(parts, f), typeset(Trim(f.m.group1), f.format));
  }

  // ---- What the stage does ----

  /** A document none of whose parts holds a formula is left as it is. */
  lemma {:induction false} TypesetAllNoFormula(data: string, typeset: Typesetter)
    requires KeepsDollarOut(typeset)
    requires forall j :: 0 <= j < |GetPartsAsWritten(data)| ==>
      FormulaIn(GetPartsAsWritten(data)[j].text, j).None?
    ensures TypesetAll(data, typeset) == data
  {
    FirstFormulaNone(GetPartsAsWritten(data), 0);
  }

  /**
   * One turn: the formula typeset first is the display (else inline) match
   * of the first part that holds one; every part before it holds none; the
   * range replaced in the document is exactly the matched text; the rest of
   * the stage runs on the document with that range replaced.
   */
  lemma {:induction false} TypesetAllStep(data: string, typeset: Typesetter, f: Formula)
    requires KeepsDollarOut(typeset) && FirstFormula(GetPartsAsWritten(data), 0) == Some(f)
    ensures var parts := GetPartsAsWritten(data);
      && f.part < |parts|
      && Start(parts, f) + 1 < End(parts, f) <= |data|
      && (forall j :: 0 <= j < f.part ==> FormulaIn(parts[j].text, j).None?)
      && (f.format == TeX <==> DisplayMathFrom(parts[f.part].text, 0).Some?)
      && (f.format == TeX ==> DisplayMathFrom(parts[f.part].text, 0) == Some(f.m))
      && (f.format == InlineTeX ==> InlineMathFrom(parts[f.part].text, 0) == Some(f.m))
      && data[Start(parts, f)..End(parts, f)] == parts[f.part].text[f.m.start..f.m.end]
      && Substitute(data, parts, f, typeset)
         == data[..Start(parts, f)] + typeset(Trim(f.m.group1), f.format) + data[End(parts, f)..]
      && TypesetAll(data, typeset) == TypesetAll(Substitute(data, parts, f, typeset), typeset)
  {
    var parts := GetPartsAsWritten(data);
    forall j | 0 <= j < f.part ensures FormulaIn(parts[j].text, j).None? {
      FirstFormulaSkips(parts, 0, j);
    }
    FormulaInData(data, f);
  }

  /** A document without `$` holds no formula, so the stage leaves it as it is. */
  lemma {:induction false} TypesetAllNoDollar(data: string, typeset: Typesetter)
    requires KeepsDollarOut(typeset) && '$' !in data
    ensures TypesetAll(data, typeset) == data
  {
    var parts := GetPartsAsWritten(data);
    GetPartsWellFormed(data);
    forall j | 0 <= j < |parts| ensures FormulaIn(parts[j].text, j).None? {
      assert PartInData(data, parts[j]);
      NoDollarNoFormula(data, parts[j].index, parts[j].end, parts[j].text, j);
    }
    FirstFormulaNone(parts, 0);
  }

  lemma {:induction false} NoDollarNoFormula(data: string, a: nat, b: nat, text: string, j: nat)
    requires a <= b <= |data| && data[a..b] == text && '$' !in data
    ensures FormulaIn(text, j).None?
  {
    NotInSlice(data, a, b, '$');
    IndexFromNoneSlice(text, DISPLAY, 0);
    IndexFromNoneSlice(text, DOLLAR, 0);
  }
}
