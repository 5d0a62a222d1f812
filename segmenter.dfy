/**
 * `getParts` of src/renderer.js: the pieces of a document that lie outside
 * fenced code and outside `<script>` blocks, with their offsets.
 *
 * The document is first cut at every "```"; the pieces at even positions
 * (before the first fence, between the second and the third, ...) are kept.
 * Then `forEach` visits the kept pieces and replaces each, in place, by the
 * pieces between its script blocks (`splice`). As in JavaScript, `forEach`
 * visits only the indices below the length the array had when it started and
 * reads whatever sits at that index when it gets there: a piece split in two
 * pushes the later pieces right (the last of them are then never visited),
 * and an empty piece is removed (its successor moves into its place and is
 * skipped). `GetPartsAsWritten` is that behaviour; `Parts` splits every kept
 * piece, as the comment in the source says it should. The renderers keep
 * the behaviour as written.
 */
module Segmenter {
  import opened Wrappers
  import opened Text
  import opened Patterns

  /** `{index, text}` as `getParts` pushes it. */
  datatype Span = Span(index: nat, text: string)

  /** `{index, text, end}` as `getParts` returns it. */
  datatype Part = Part(index: nat, text: string, end: nat)

  function SpanEnd(sp: Span): nat { sp.index + |sp.text| }

  /** The span is the slice of `data` it claims to be. */
  ghost predicate InData(data: string, sp: Span) {
    SpanEnd(sp) <= |data| && data[sp.index..SpanEnd(sp)] == sp.text
  }

  /** Spans in document order: each ends before the next one starts. */
  ghost predicate Ordered(spans: seq<Span>) {
    forall k :: 0 <= k < |spans| - 1 ==> SpanEnd(spans[k]) <= spans[k + 1].index
  }

  ghost predicate Valid(data: string, spans: seq<Span>) {
    (forall k :: 0 <= k < |spans| ==> InData(data, spans[k])) && Ordered(spans)
  }

  /** `x` is a slice of `sp`, at matching offsets. */
  ghost predicate SubSpan(x: Span, sp: Span) {
    sp.index <= x.index && SpanEnd(x) <= SpanEnd(sp)
    && x.text == sp.text[x.index - sp.index..SpanEnd(x) - sp.index]
  }

  ghost predicate AllFenceFree(spans: seq<Span>) {
    forall k :: 0 <= k < |spans| ==> FenceFree(spans[k].text)
  }

  /** No `<script>…</script>` block occurs in `t`. */
  ghost predicate ScriptFree(t: string) {
    forall j: nat :: ScriptAt(t, j).None?
  }

  /** A part is the slice of `data` its offsets name. */
  ghost predicate PartInData(data: string, p: Part) {
    p.end == p.index + |p.text| <= |data| && data[p.index..p.end] == p.text
  }

  // ---- The specification of the three steps ----

  /**
   * The pieces between fences, from offset `i` on (the first `while` loop).
   * `/```/m.exec(data.slice(i))` finds the first "```" at or after `i`.
   */
  function FenceSpans(data: string, i: nat): seq<Span>
    requires i <= |data|
    decreases |data| - i
  {
    match IndexFrom(data, FENCE, i)
    case Some(q) => [Span(i, data[i..q])] + FenceSpans(data, q + 3)
    case None => if i < |data| then [Span(i, data[i..])] else []
  }

  /** `parts.filter((p, i) => i % 2 === 0)`. */
  function Evens<T>(s: seq<T>): (r: seq<T>)
    ensures |r| == (|s| + 1) / 2
    ensures forall k :: 0 <= k < |r| ==> r[k] == s[k + k]
  {
    if |s| <= 1 then s else [s[0]] + Evens(s[2..])
  }

  /** The pieces of `sp` between its script blocks, from offset `i` of its text on (the inner `while` loop). */
  function ScriptSpans(sp: Span, i: nat): seq<Span>
    requires i <= |sp.text|
    decreases |sp.text| - i
  {
    match ScriptSearch(sp.text, i)
    case Some(m) => [Span(sp.index + i, sp.text[i..m.start])] + ScriptSpans(sp, m.end)
    case None => if i < |sp.text| then [Span(sp.index + i, sp.text[i..])] else []
  }

  /** `parts.splice(pi, 1, ...subParts)`. */
  function SpliceAt(parts: seq<Span>, pi: nat): seq<Span>
    requires pi < |parts|
  {
    parts[..pi] + ScriptSpans(parts[pi], 0) + parts[pi + 1..]
  }

  /** The `forEach` from index `pi` on, over an array whose length was `n` when it started. */
  function SpliceFrom(parts: seq<Span>, pi: nat, n: nat): seq<Span>
    decreases n - pi
  {
    if pi >= n then parts
    else if pi < |parts| then SpliceFrom(SpliceAt(parts, pi), pi + 1, n)
    else SpliceFrom(parts, pi + 1, n)
  }

  /** `parts.forEach(part => part.end = part.index + part.text.length)`. */
  function AddEnds(spans: seq<Span>): (r: seq<Part>)
    ensures |r| == |spans|
    ensures forall k :: 0 <= k < |r| ==>
      r[k].index == spans[k].index && r[k].text == spans[k].text && r[k].end == SpanEnd(spans[k])
  {
    seq(|spans|, k requires 0 <= k < |spans| => Part(spans[k].index, spans[k].text, SpanEnd(spans[k])))
  }

  /** The pieces of `data` outside fenced code, before script splitting. */
  function KeptSpans(data: string): seq<Span>
  {
    Evens(FenceSpans(data, 0))
  }

  /** The spans the `forEach` of `getParts` leaves. */
  function Spliced(data: string): seq<Span>
  {
    SpliceFrom(KeptSpans(data), 0, |KeptSpans(data)|)
  }

  /** What `getParts(data)` returns, with the skipping of its in-place `forEach`. */
  function GetPartsAsWritten(data: string): seq<Part>
  {
    AddEnds(Spliced(data))
  }

  /** Every kept piece replaced by its script-free pieces. */
  function SplitAll(kept: seq<Span>): seq<Span>
  {
    if kept == [] then [] else ScriptSpans(kept[0], 0) + SplitAll(kept[1..])
  }

  /** The parts outside fenced code and outside script blocks: `getParts` as its comment intends. */
  function Parts(data: string): seq<Part>
  {
    AddEnds(SplitAll(KeptSpans(data)))
  }

  // ---- The source's loops ----

  /** The first `while` loop of `getParts`: cut `data` at every fence. */
  method SplitFences(data: string) returns (spans: seq<Span>)
    ensures spans == FenceSpans(data, 0)
  {
    spans := [];
    var i: nat := 0;
    var found := IndexFrom(data, FENCE, i);
    while found.Some?
      invariant i <= |data|
      invariant found == IndexFrom(data, FENCE, i)
      invariant spans + FenceSpans(data, i) == FenceSpans(data, 0)
      decreases |data| - i
    {
      var q := found.value;
      FenceFound(data, i, q);
      FenceSpansStep(data, i, q);
      PushAssoc(spans, Span(i, data[i..q]), FenceSpans(data, q + 3));
      spans := spans + [Span(i, data[i..q])];
      i := q + 3;
      found := IndexFrom(data, FENCE, i);
    }
    FenceSpansLast(data, i);
    if i < |data| {
      spans := spans + [Span(i, data[i..])];
    } else {
      assert spans + [] == spans;
    }
  }

  /** After the last fence: the rest of the document, if any. */
  lemma {:induction false} FenceSpansLast(data: string, i: nat)
    requires i <= |data| && IndexFrom(data, FENCE, i).None?
    ensures FenceSpans(data, i) == if i < |data| then [Span(i, data[i..])] else []
  {
  }

  /** The fence found from `i` lies within the document, at or after `i`. */
  lemma {:induction false} FenceFound(data: string, i: nat, q: nat)
    requires IndexFrom(data, FENCE, i) == Some(q)
    ensures i <= q && q + 3 <= |data|
  {
    assert StartsAt(data, q, FENCE);
  }

  /** One turn of the fence loop: the piece before the fence, then the rest. */
  lemma {:induction false} FenceSpansStep(data: string, i: nat, q: nat)
    requires i <= q && q + 3 <= |data| && IndexFrom(data, FENCE, i) == Some(q)
    ensures FenceSpans(data, i) == [Span(i, data[i..q])] + FenceSpans(data, q + 3)
  {
  }

  lemma {:induction false} PushAssoc<T>(a: seq<T>, x: T, b: seq<T>)
    ensures a + [x] + b == a + ([x] + b)
  {
  }

  /** The inner `while` loop: the pieces of `p` between its script blocks. */
  method SplitScripts(p: Span) returns (sub: seq<Span>)
    ensures sub == ScriptSpans(p, 0)
  {
    var j: nat := 0;
    sub := [];
    var script := ScriptSearch(p.text, j);
    while script.Some?
      invariant j <= |p.text|
      invariant script == ScriptSearch(p.text, j)
      invariant sub + ScriptSpans(p, j) == ScriptSpans(p, 0)
      decreases |p.text| - j
    {
      var m := script.value;
      assert ScriptSpans(p, j) == [Span(p.index + j, p.text[j..m.start])] + ScriptSpans(p, m.end);
      PushAssoc(sub, Span(p.index + j, p.text[j..m.start]), ScriptSpans(p, m.end));
      sub := sub + [Span(p.index + j, p.text[j..script.value.start])];
      j := script.value.end;
      script := ScriptSearch(p.text, j);
    }
    ScriptSpansLast(p, j);
    if j < |p.text| {
      sub := sub + [Span(p.index + j, p.text[j..])];
    } else {
      assert sub + [] == sub;
    }
  }

  /** After the last script block: the rest of the text, if any. */
  lemma {:induction false} ScriptSpansLast(p: Span, j: nat)
    requires j <= |p.text| && ScriptSearch(p.text, j).None?
    ensures ScriptSpans(p, j) == if j < |p.text| then [Span(p.index + j, p.text[j..])] else []
  {
  }

  /** `getParts` as written: the fence loop, the filter, the splicing `forEach`, the ends. */
  method GetParts(data: string) returns (parts: seq<Part>)
    ensures parts == GetPartsAsWritten(data)
  {
    var spans := SplitFences(data);
    var kept := Evens(spans);
    var n := |kept|;
    var cur := kept;
    var pi := 0;
    while pi < n
      invariant pi <= n
      invariant SpliceFrom(cur, pi, n) == SpliceFrom(kept, 0, n)
    {
      if pi < |cur| {
        var sub := SplitScripts(cur[pi]);
        cur := cur[..pi] + sub + cur[pi + 1..];
      }
      pi := pi + 1;
    }
    parts := AddEnds(cur);
  }

  // ---- Facts about the pieces ----

  lemma {:induction false} SubSpanInData(data: string, x: Span, sp: Span)
    requires InData(data, sp) && SubSpan(x, sp)
    ensures InData(data, x)
  {
    SliceOfSlice(data, sp.index, SpanEnd(sp), x.index - sp.index, |x.text|);
  }

  /** The fence pieces are slices of the document. */
  lemma {:induction false} FenceSpansInData(data: string, i: nat)
    requires i <= |data|
    decreases |data| - i
    ensures forall k :: 0 <= k < |FenceSpans(data, i)| ==> InData(data, FenceSpans(data, i)[k])
  {
    var f := IndexFrom(data, FENCE, i);
    if f.Some? {
      FenceSpansInData(data, f.value + 3);
    }
  }

  /** The first fence piece starts at `i`, and each is followed by "```" and then by the next piece. */
  lemma {:induction false} FenceSpansSeparated(data: string, i: nat)
    requires i <= |data|
    decreases |data| - i
    ensures FenceSpans(data, i) != [] ==> FenceSpans(data, i)[0].index == i
    ensures forall k :: 0 <= k < |FenceSpans(data, i)| - 1 ==>
      StartsAt(data, SpanEnd(FenceSpans(data, i)[k]), FENCE)
      && FenceSpans(data, i)[k + 1].index == SpanEnd(FenceSpans(data, i)[k]) + 3
  {
    var f := IndexFrom(data, FENCE, i);
    if f.Some? {
      FenceSpansSeparated(data, f.value + 3);
    }
  }

  /** No fence piece contains "```". */
  lemma {:induction false} FenceSpansFenceFree(data: string, i: nat)
    requires i <= |data|
    decreases |data| - i
    ensures forall k :: 0 <= k < |FenceSpans(data, i)| ==> FenceFree(FenceSpans(data, i)[k].text)
  {
    var f := IndexFrom(data, FENCE, i);
    IndexFromFirst(data, FENCE, i);
    if f.Some? {
      FenceSpansFenceFree(data, f.value + 3);
      AbsentRange(data, i, f.value, FENCE);
    } else {
      AbsentRange(data, i, |data|, FENCE);
      assert data[i..|data|] == data[i..];
    }
  }

  /** The texts of `spans` with a fence between each two. */
  ghost function Joined(spans: seq<Span>): string
  {
    if spans == [] then []
    else if |spans| == 1 then spans[0].text
    else spans[0].text + FENCE + Joined(spans[1..])
  }

  /**
   * The fence loop loses nothing: its pieces joined by fences give back the
   * document from `i` on, or all of it but a fence at its very end.
   */
  lemma {:induction false} FenceSpansCover(data: string, i: nat)
    requires i <= |data|
    decreases |data| - i
    ensures data[i..] == Joined(FenceSpans(data, i)) || data[i..] == Joined(FenceSpans(data, i)) + FENCE
  {
    match IndexFrom(data, FENCE, i)
    case None =>
      FenceSpansLast(data, i);
    case Some(q) =>
      FenceFound(data, i, q);
      FenceSpansStep(data, i, q);
      FenceSpansCover(data, q + 3);
      FenceSpansEmpty(data, q + 3);
      CutAtFence(data, i, q);
      JoinedStep(Span(i, data[i..q]), data[q + 3..], FenceSpans(data, q + 3));
  }

  /** The fence loop yields no piece exactly when it starts at the end. */
  lemma {:induction false} FenceSpansEmpty(data: string, i: nat)
    requires i <= |data|
    ensures FenceSpans(data, i) == [] <==> i == |data|
  {
  }

  /** The text from `i` is the text up to a fence at `q`, the fence, and the rest. */
  lemma {:induction false} CutAtFence(data: string, i: nat, q: nat)
    requires i <= q && q + 3 <= |data| && StartsAt(data, q, FENCE)
    ensures data[i..] == data[i..q] + (FENCE + data[q + 3..])
  {
    assert data[q..q + 3] == FENCE;
    assert data[i..] == data[i..q] + data[q..q + 3] + data[q + 3..];
  }

  /** A piece, a fence and a covered rest are covered by the piece followed by the rest's pieces. */
  lemma {:induction false} JoinedStep(x: Span, tail: string, rest: seq<Span>)
    requires rest == [] <==> tail == []
    requires tail == Joined(rest) || tail == Joined(rest) + FENCE
    ensures x.text + (FENCE + tail) == Joined([x] + rest) || x.text + (FENCE + tail) == Joined([x] + rest) + FENCE
  {
    if rest == [] {
      assert [x] + rest == [x];
      assert x.text + (FENCE + tail) == x.text + FENCE;
    } else {
      JoinedCons(x, rest);
    }
  }

  lemma {:induction false} JoinedCons(x: Span, rest: seq<Span>)
    requires rest != []
    ensures Joined([x] + rest) == x.text + FENCE + Joined(rest)
  {
    assert ([x] + rest)[1..] == rest;
  }

  /** The script-free pieces of `sp` are slices of it, in order, from offset `i` on. */
  lemma {:induction false} ScriptSpansSub(sp: Span, i: nat)
    requires i <= |sp.text|
    decreases |sp.text| - i
    ensures forall k :: 0 <= k < |ScriptSpans(sp, i)| ==>
      SubSpan(ScriptSpans(sp, i)[k], sp) && sp.index + i <= ScriptSpans(sp, i)[k].index
    ensures Ordered(ScriptSpans(sp, i))
  {
    var f := ScriptSearch(sp.text, i);
    if f.Some? {
      ScriptSpansSub(sp, f.value.end);
      assert SubSpan(Span(sp.index + i, sp.text[i..f.value.start]), sp);
    } else if i < |sp.text| {
      assert SubSpan(Span(sp.index + i, sp.text[i..]), sp);
    }
  }

  /** One splice keeps the spans inside the document and free of fences. */
  lemma {:induction false} SpliceStepInData(data: string, parts: seq<Span>, pi: nat)
    requires pi < |parts| && Valid(data, parts) && AllFenceFree(parts)
    ensures forall i :: 0 <= i < |SpliceAt(parts, pi)| ==> InData(data, SpliceAt(parts, pi)[i])
    ensures AllFenceFree(SpliceAt(parts, pi))
  {
    var sub := ScriptSpans(parts[pi], 0);
    ScriptSpansSub(parts[pi], 0);
    var next := SpliceAt(parts, pi);
    forall i | 0 <= i < |next|
      ensures InData(data, next[i]) && FenceFree(next[i].text)
    {
      if i < pi {
        assert next[i] == parts[i];
      } else if i < pi + |sub| {
        var x, p := sub[i - pi], parts[pi];
        assert next[i] == x;
        SubSpanInData(data, x, p);
        AbsentSlice(p.text, x.index - p.index, SpanEnd(x) - p.index, FENCE);
      } else {
        assert next[i] == parts[i - |sub| + 1];
      }
    }
  }

  /** One splice keeps the spans in document order. */
  lemma {:induction false} SpliceStepOrdered(parts: seq<Span>, pi: nat)
    requires pi < |parts| && Ordered(parts)
    ensures Ordered(SpliceAt(parts, pi))
  {
    var sub := ScriptSpans(parts[pi], 0);
    ScriptSpansSub(parts[pi], 0);
    var next := SpliceAt(parts, pi);
    forall a | 0 <= a < |next| - 1 ensures SpanEnd(next[a]) <= next[a + 1].index {
      if a + 1 < pi {
        assert next[a] == parts[a] && next[a + 1] == parts[a + 1];
      } else if a + 1 == pi {
        assert next[a] == parts[a];
        if sub == [] {
          assert next[a + 1] == parts[pi + 1];
          assert SpanEnd(parts[pi - 1]) <= parts[pi].index <= SpanEnd(parts[pi]) <= parts[pi + 1].index;
        } else {
          assert next[a + 1] == sub[0];
        }
      } else if a + 1 < pi + |sub| {
        assert next[a] == sub[a - pi] && next[a + 1] == sub[a + 1 - pi];
      } else if a + 1 == pi + |sub| {
        assert next[a + 1] == parts[pi + 1];
        assert next[a] == sub[a - pi];
        assert SpanEnd(sub[a - pi]) <= SpanEnd(parts[pi]) <= parts[pi + 1].index;
      } else {
        assert next[a] == parts[a - |sub| + 1] && next[a + 1] == parts[a - |sub| + 2];
      }
    }
  }

  lemma {:induction false} SpliceValid(data: string, parts: seq<Span>, pi: nat, n: nat)
    requires Valid(data, parts) && AllFenceFree(parts)
    ensures Valid(data, SpliceFrom(parts, pi, n)) && AllFenceFree(SpliceFrom(parts, pi, n))
    decreases n - pi
  {
    if pi < n {
      if pi < |parts| {
        SpliceStepInData(data, parts, pi);
        SpliceStepOrdered(parts, pi);
        SpliceValid(data, SpliceAt(parts, pi), pi + 1, n);
      } else {
        SpliceValid(data, parts, pi + 1, n);
      }
    }
  }

  /** The kept pieces are slices of the document, in order, each followed by (at least) a fence, and fence-free. */
  lemma {:induction false} KeptValid(data: string)
    ensures Valid(data, KeptSpans(data))
    ensures forall k :: 0 <= k < |KeptSpans(data)| - 1 ==> SpanEnd(KeptSpans(data)[k]) + 3 <= KeptSpans(data)[k + 1].index
    ensures forall k :: 0 <= k < |KeptSpans(data)| ==> FenceFree(KeptSpans(data)[k].text)
  {
    var all := FenceSpans(data, 0);
    FenceSpansInData(data, 0);
    FenceSpansSeparated(data, 0);
    FenceSpansFenceFree(data, 0);
    var kept := KeptSpans(data);
    forall a | 0 <= a < |kept| - 1 ensures SpanEnd(kept[a]) + 3 <= kept[a + 1].index {
      assert kept[a] == all[a + a] && kept[a + 1] == all[a + a + 2];
      assert SpanEnd(all[a + a]) + 3 == all[a + a + 1].index <= SpanEnd(all[a + a + 1]) < all[a + a + 2].index;
    }
  }

  /** The spans the as-written `forEach` leaves are slices of the document, in order, and fence-free. */
  lemma {:induction false} SplicedWellFormed(data: string)
    ensures Valid(data, Spliced(data)) && AllFenceFree(Spliced(data))
  {
    var kept := KeptSpans(data);
    KeptValid(data);
    SpliceValid(data, kept, 0, |kept|);
  }

  /**
   * As written, every part is the slice of the document its offsets name,
   * parts come in document order without overlap, and no part contains "```".
   */
  lemma {:induction false} GetPartsWellFormed(data: string)
    ensures forall k :: 0 <= k < |GetPartsAsWritten(data)| ==>
      PartInData(data, GetPartsAsWritten(data)[k]) && FenceFree(GetPartsAsWritten(data)[k].text)
    ensures forall k :: 0 <= k < |GetPartsAsWritten(data)| - 1 ==>
      GetPartsAsWritten(data)[k].end <= GetPartsAsWritten(data)[k + 1].index
  {
    SplicedWellFormed(data);
  }

  /** `GetPartsWellFormed` for one part. */
  lemma {:induction false} GetPartInData(data: string, k: nat)
    requires k < |GetPartsAsWritten(data)|
    ensures PartInData(data, GetPartsAsWritten(data)[k]) && FenceFree(GetPartsAsWritten(data)[k].text)
  {
    GetPartsWellFormed(data);
  }

  /** A document with neither "```" nor a script block is one part; the empty document has none. */
  lemma {:induction false} PlainDocument(data: string)
    requires FenceFree(data) && ScriptSearch(data, 0).None?
    ensures data == [] ==> GetPartsAsWritten(data) == [] && Parts(data) == []
    ensures data != [] ==> GetPartsAsWritten(data) == [Part(0, data, |data|)] && Parts(data) == [Part(0, data, |data|)]
  {
    assert data[0..] == data;
    assert IndexFrom(data, FENCE, 0).None?;
    if data != [] {
      assert FenceSpans(data, 0) == [Span(0, data)];
      assert KeptSpans(data) == [Span(0, data)];
      assert ScriptSpans(Span(0, data), 0) == [Span(0, data)];
      assert SpliceFrom([Span(0, data)], 1, 1) == [Span(0, data)];
      assert SplitAll([Span(0, data)]) == [Span(0, data)] + SplitAll([]);
    }
  }

  // ---- The corrected splitting ----

  /** A script block inside a slice of `t` is a script block of `t`. */
  lemma {:induction false} ScriptInSlice(t: string, a: nat, b: nat, j: nat)
    requires a <= b <= |t| && ScriptAt(t[a..b], j).Some?
    ensures ScriptAt(t, a + j).Some?
  {
    var u := t[a..b];
    var q := IndexFrom(u, SCRIPT_CLOSE, j + 8).value;
    StartsAtOfSlice(t, a, b, j, SCRIPT_OPEN);
    StartsAtOfSlice(t, a, b, q, SCRIPT_CLOSE);
    IndexFromFinds(t, SCRIPT_CLOSE, a + j + 8, a + q);
  }

  /** The pieces between the script blocks of `sp` hold no script block. */
  lemma {:induction false} ScriptSpansScriptFree(sp: Span, i: nat)
    requires i <= |sp.text|
    decreases |sp.text| - i
    ensures forall k :: 0 <= k < |ScriptSpans(sp, i)| ==> ScriptFree(ScriptSpans(sp, i)[k].text)
  {
    var t := sp.text;
    var f := ScriptSearch(t, i);
    if f.Some? {
      ScriptSpansScriptFree(sp, f.value.end);
      SliceScriptFree(t, i, f.value.start);
    } else if i < |t| {
      SliceScriptFree(t, i, |t|);
      assert t[i..|t|] == t[i..];
    }
  }

  /** The stretch from `i` to a point no later than the next script block holds none. */
  lemma {:induction false} SliceScriptFree(t: string, i: nat, e: nat)
    requires i <= e <= |t|
    requires ScriptSearch(t, i).None? || e <= ScriptSearch(t, i).value.start
    ensures ScriptFree(t[i..e])
  {
    forall j: nat ensures ScriptAt(t[i..e], j).None? {
      if ScriptAt(t[i..e], j).Some? {
        ScriptInSlice(t, i, e, j);
        ScriptSearchLeftmost(t, i, i + j);
      }
    }
  }

  /** The pieces of one fence-free document slice are document slices within it, free of fences and scripts. */
  lemma {:induction false} ScriptSpansWellFormed(data: string, p: Span)
    requires InData(data, p) && FenceFree(p.text)
    ensures Valid(data, ScriptSpans(p, 0)) && AllFenceFree(ScriptSpans(p, 0))
    ensures forall k :: 0 <= k < |ScriptSpans(p, 0)| ==>
      ScriptFree(ScriptSpans(p, 0)[k].text) && p.index <= ScriptSpans(p, 0)[k].index && SpanEnd(ScriptSpans(p, 0)[k]) <= SpanEnd(p)
  {
    var head := ScriptSpans(p, 0);
    ScriptSpansSub(p, 0);
    ScriptSpansScriptFree(p, 0);
    forall k | 0 <= k < |head| ensures InData(data, head[k]) && FenceFree(head[k].text) {
      SubSpanWellFormed(data, head[k], p);
    }
  }

  lemma {:induction false} SubSpanWellFormed(data: string, x: Span, p: Span)
    requires InData(data, p) && FenceFree(p.text) && SubSpan(x, p)
    ensures InData(data, x) && FenceFree(x.text)
  {
    SubSpanInData(data, x, p);
    AbsentSlice(p.text, x.index - p.index, SpanEnd(x) - p.index, FENCE);
  }

  /** Two valid lists, the first ending before the second starts, make a valid list. */
  lemma {:induction false} ValidConcat(data: string, a: seq<Span>, b: seq<Span>)
    requires Valid(data, a) && Valid(data, b)
    requires a != [] && b != [] ==> SpanEnd(a[|a| - 1]) <= b[0].index
    ensures Valid(data, a + b)
  {
    var c := a + b;
    forall k | 0 <= k < |c| - 1 ensures SpanEnd(c[k]) <= c[k + 1].index {
      if k + 1 < |a| {
        assert c[k] == a[k] && c[k + 1] == a[k + 1];
      } else if k + 1 == |a| {
        assert c[k] == a[k] && c[k + 1] == b[0];
      } else {
        assert c[k] == b[k - |a|] && c[k + 1] == b[k + 1 - |a|];
      }
    }
  }

  /**
   * Splitting every piece of an ordered, fence-free list of document slices
   * gives document slices, in order, free of fences and of script blocks,
   * none of them before the first piece.
   */
  lemma {:induction false} SplitAllWellFormed(data: string, kept: seq<Span>)
    requires Valid(data, kept) && AllFenceFree(kept)
    ensures Valid(data, SplitAll(kept)) && AllFenceFree(SplitAll(kept))
    ensures forall k :: 0 <= k < |SplitAll(kept)| ==> ScriptFree(SplitAll(kept)[k].text)
    ensures kept != [] ==> forall k :: 0 <= k < |SplitAll(kept)| ==> kept[0].index <= SplitAll(kept)[k].index
  {
    if kept != [] {
      var p, rest := kept[0], kept[1..];
      var head, tail := ScriptSpans(p, 0), SplitAll(rest);
      assert Valid(data, rest);
      SplitAllWellFormed(data, rest);
      ScriptSpansWellFormed(data, p);
      assert SplitAll(kept) == head + tail;
      if head != [] && tail != [] {
        assert SpanEnd(head[|head| - 1]) <= SpanEnd(p) <= rest[0].index <= tail[0].index;
      }
      ValidConcat(data, head, tail);
      forall k | 0 <= k < |head + tail|
        ensures FenceFree((head + tail)[k].text) && ScriptFree((head + tail)[k].text) && p.index <= (head + tail)[k].index
      {
        if k < |head| {
          assert (head + tail)[k] == head[k];
        } else {
          assert (head + tail)[k] == tail[k - |head|];
        }
      }
    }
  }

  /**
   * The corrected parts are slices of the document at the offsets they name,
   * in document order without overlap, with neither "```" nor a script block.
   */
  lemma {:induction false} PartsWellFormed(data: string)
    ensures forall k :: 0 <= k < |Parts(data)| ==>
      PartInData(data, Parts(data)[k]) && FenceFree(Parts(data)[k].text) && ScriptFree(Parts(data)[k].text)
    ensures forall k :: 0 <= k < |Parts(data)| - 1 ==> Parts(data)[k].end <= Parts(data)[k + 1].index
  {
    KeptValid(data);
    SplitAllWellFormed(data, KeptSpans(data));
  }

  /** Two fences and then text without a backtick: two empty pieces and the text. */
  lemma {:induction false} TwoFencesThen(t: string)
    requires t != [] && '`' !in t
    ensures FenceSpans(FENCE + FENCE + t, 0) == [Span(0, []), Span(3, []), Span(6, t)]
  {
    var data := FENCE + FENCE + t;
    assert data[0..3] == FENCE && data[3..6] == FENCE && data[6..] == t;
    assert IndexFrom(data, FENCE, 0) == Some(0);
    assert IndexFrom(data, FENCE, 3) == Some(3);
    forall j: nat | 6 <= j ensures !StartsAt(data, j, FENCE) {
      if j + 3 <= |data| {
        assert data[j] == t[j - 6] && t[j - 6] in t;
        assert data[j..j + 3][0] == data[j];
      }
    }
    assert FenceSpans(data, 6) == [Span(6, data[6..])];
    FenceSpansStep(data, 0, 0);
    FenceSpansStep(data, 3, 3);
    assert data[0..0] == [] && data[3..3] == [];
  }

  const SKIPPED_SCRIPT := FENCE + FENCE + SCRIPT_OPEN + SCRIPT_CLOSE

  lemma {:induction false} ScriptNoBacktick()
    ensures '`' !in SCRIPT_OPEN + SCRIPT_CLOSE
  {
  }

  /** Two empty fence pieces, then the script: the kept pieces are the first and the third. */
  lemma {:induction false} SkippedScriptKept()
    ensures KeptSpans(SKIPPED_SCRIPT) == [Span(0, []), Span(6, SCRIPT_OPEN + SCRIPT_CLOSE)]
  {
    ScriptNoBacktick();
    assert SKIPPED_SCRIPT == FENCE + FENCE + (SCRIPT_OPEN + SCRIPT_CLOSE);
    TwoFencesThen(SCRIPT_OPEN + SCRIPT_CLOSE);
  }

  /** A piece that is exactly one script block splits into one empty piece; an empty piece into none. */
  lemma {:induction false} SkippedScriptSplit()
    ensures ScriptSpans(Span(6, SCRIPT_OPEN + SCRIPT_CLOSE), 0) == [Span(6, [])]
    ensures ScriptSpans(Span(0, []), 0) == []
  {
    var script := SCRIPT_OPEN + SCRIPT_CLOSE;
    assert script[0..8] == SCRIPT_OPEN && script[8..17] == SCRIPT_CLOSE;
    assert IndexFrom(script, SCRIPT_OPEN, 0) == Some(0) && IndexFrom(script, SCRIPT_CLOSE, 8) == Some(8);
    assert script[8..8] == [];
    assert ScriptSearch(script, 0) == Some(Match(0, 17, [], ""));
    assert ScriptSpans(Span(6, script), 17) == [];
  }

  /**
   * As written, `getParts` lets a script block through: the first kept piece
   * (before the first fence) is empty, so the splice removes it, the piece
   * holding the script moves into index 0 and `forEach` never visits it.
   * The corrected parts leave only the empty text before the script.
   */
  lemma {:induction false} GetPartsSkipsScript()
    ensures GetPartsAsWritten(SKIPPED_SCRIPT) == [Part(6, SCRIPT_OPEN + SCRIPT_CLOSE, 23)]
    ensures ScriptAt(GetPartsAsWritten(SKIPPED_SCRIPT)[0].text, 0).Some?
    ensures Parts(SKIPPED_SCRIPT) == [Part(6, [], 6)]
  {
    var script := SCRIPT_OPEN + SCRIPT_CLOSE;
    var kept := [Span(0, []), Span(6, script)];
    SkippedScriptKept();
    SkippedScriptSplit();
    assert SpliceAt(kept, 0) == [Span(6, script)];
    assert SpliceFrom(kept, 0, 2) == SpliceFrom([Span(6, script)], 1, 2);
    assert SpliceFrom([Span(6, script)], 1, 2) == SpliceFrom([Span(6, script)], 2, 2);
    assert Spliced(SKIPPED_SCRIPT) == [Span(6, script)];
    assert kept[1..] == [Span(6, script)];
    assert SplitAll([Span(6, script)]) == [Span(6, [])] + SplitAll([]);
    assert SplitAll(kept) == [] + SplitAll([Span(6, script)]);
    assert script[0..8] == SCRIPT_OPEN && script[8..17] == SCRIPT_CLOSE;
  }

  // ---- A document with one fenced piece in the middle ----

  /** Text in which neither a fence nor a script block can start. */
  ghost predicate Plain(t: string) {
    '`' !in t && '<' !in t
  }

  /** A nonempty piece in which no script block starts is its own only piece. */
  lemma {:induction false} PlainScriptSpans(sp: Span)
    requires sp.text != [] && '<' !in sp.text
    ensures ScriptSpans(sp, 0) == [sp]
  {
    var t := sp.text;
    forall j | 0 <= j < |t| ensures t[j] != SCRIPT_OPEN[0] {
      assert t[j] in t;
    }
    IndexFromNone(t, SCRIPT_OPEN, 0);
    ScriptSpansLast(sp, 0);
    assert t[0..] == t;
  }

  /** `data` is `u`, a fence at `a`, `c`, a fence at `b`, then `w`, with no backtick in `u`, `c` or `w`. */
  ghost predicate TwoFenced(data: string, a: nat, b: nat, u: string, c: string, w: string) {
    a + 3 <= b && b + 3 <= |data|
    && StartsAt(data, a, FENCE) && StartsAt(data, b, FENCE)
    && data[0..a] == u && data[a + 3..b] == c && data[b + 3..] == w
    && '`' !in u && '`' !in c && '`' !in w
  }

  /** The fence loop on a document with exactly two fences: the three pieces around them. */
  lemma {:induction false} TwoFences(data: string, a: nat, b: nat, u: string, c: string, w: string)
    requires TwoFenced(data, a, b, u, c, w) && w != []
    ensures FenceSpans(data, 0) == [Span(0, u), Span(a + 3, c), Span(b + 3, w)]
  {
    IndexFromExactSlice(data, FENCE, 0, a);
    IndexFromExactSlice(data, FENCE, a + 3, b);
    IndexFromNoneSlice(data, FENCE, b + 3);
    FenceSpansStep(data, 0, a);
    FenceSpansStep(data, a + 3, b);
    FenceSpansLast(data, b + 3);
    assert FenceSpans(data, b + 3) == [Span(b + 3, w)];
  }

  /** `u`, a fence, `c`, a fence, `w` is two-fenced at `|u|` and `|u| + 3 + |c|`. */
  lemma {:induction false} FencedMiddleSlices(u: string, c: string, w: string)
    requires '`' !in u && '`' !in c && '`' !in w
    ensures TwoFenced(u + FENCE + c + FENCE + w, |u|, |u| + 3 + |c|, u, c, w)
  {
    var x := u + FENCE + c;
    var data := x + FENCE + w;
    var a, b := |u|, |x|;
    SliceLeft(x + FENCE, w, a, a + 3);
    SliceLeft(x, FENCE, a, a + 3);
    SliceLeft(u + FENCE, c, a, a + 3);
    SliceRight(u, FENCE, a, a + 3);
    SliceLeft(x + FENCE, w, b, b + 3);
    SliceRight(x, FENCE, b, b + 3);
    SliceLeft(x + FENCE, w, 0, a);
    SliceLeft(x, FENCE, 0, a);
    SliceLeft(u + FENCE, c, 0, a);
    SliceLeft(u, FENCE, 0, a);
    SliceLeft(x + FENCE, w, a + 3, b);
    SliceLeft(x, FENCE, a + 3, b);
    SliceRight(u + FENCE, c, a + 3, b);
    SliceRight(x + FENCE, w, b + 3, |data|);
    assert data[b + 3..] == data[b + 3..|data|];
  }

  /** The `forEach` of `getParts` leaves two plain pieces as they are. */
  lemma {:induction false} SplicePlainPair(x: Span, y: Span)
    requires x.text != [] && y.text != [] && '<' !in x.text && '<' !in y.text
    ensures SpliceFrom([x, y], 0, 2) == [x, y]
  {
    var kept := [x, y];
    PlainScriptSpans(x);
    PlainScriptSpans(y);
    assert SpliceAt(kept, 0) == kept;
    assert SpliceAt(kept, 1) == kept;
    assert SpliceFrom(kept, 0, 2) == SpliceFrom(kept, 1, 2);
    assert SpliceFrom(kept, 1, 2) == SpliceFrom(kept, 2, 2);
  }

  /** The corrected splitting leaves two plain pieces as they are. */
  lemma {:induction false} SplitAllPlainPair(x: Span, y: Span)
    requires x.text != [] && y.text != [] && '<' !in x.text && '<' !in y.text
    ensures SplitAll([x, y]) == [x, y]
  {
    PlainScriptSpans(x);
    PlainScriptSpans(y);
    assert [x, y][1..] == [y];
    assert SplitAll([y]) == [y] + SplitAll([]);
    assert SplitAll([x, y]) == [x] + SplitAll([y]);
  }

  /** `getParts` on a two-fenced document keeps the plain pieces before and after the fenced one, at their offsets. */
  lemma {:induction false} FencedMiddle(data: string, a: nat, b: nat, u: string, c: string, w: string)
    requires TwoFenced(data, a, b, u, c, w)
    requires u != [] && w != [] && Plain(u) && Plain(w)
    ensures GetPartsAsWritten(data) == [Part(0, u, a), Part(b + 3, w, |data|)]
    ensures Parts(data) == GetPartsAsWritten(data)
  {
    var x, y := Span(0, u), Span(b + 3, w);
    TwoFences(data, a, b, u, c, w);
    assert KeptSpans(data) == [x, y];
    SplicePlainPair(x, y);
    assert Spliced(data) == [x, y];
    AddEndsPair(x, y);
    assert GetPartsAsWritten(data) == AddEnds([x, y]);
    assert SpanEnd(x) == a && SpanEnd(y) == |data|;
    SplitAllPlainPair(x, y);
    assert Parts(data) == AddEnds([x, y]);
  }

  /**
   * Text after an opening fence that is never closed is dropped: prose, a
   * fence, and backtick-free text is the prose alone.
   */
  lemma {:induction false} UnclosedFence(u: string, c: string)
    requires u != [] && Plain(u) && '`' !in c
    ensures GetPartsAsWritten(u + FENCE + c) == [Part(0, u, |u|)]
    ensures Parts(u + FENCE + c) == GetPartsAsWritten(u + FENCE + c)
  {
    var data := u + FENCE + c;
    var a := |u|;
    var x := Span(0, u);
    assert data[0..a] == u;
    assert data[a..a + 3] == FENCE;
    assert data[a + 3..] == c;
    IndexFromExactSlice(data, FENCE, 0, a);
    IndexFromNoneSlice(data, FENCE, a + 3);
    FenceSpansStep(data, 0, a);
    FenceSpansLast(data, a + 3);
    assert KeptSpans(data) == [x];
    PlainScriptSpans(x);
    assert SpliceAt([x], 0) == [x];
    assert SpliceFrom([x], 0, 1) == SpliceFrom([x], 1, 1);
    assert Spliced(data) == [x];
    assert [x][1..] == [];
    assert SplitAll([x]) == [x] + SplitAll([]);
  }

  lemma {:induction false} AddEndsPair(x: Span, y: Span)
    ensures AddEnds([x, y]) == [Part(x.index, x.text, SpanEnd(x)), Part(y.index, y.text, SpanEnd(y))]
  {
  }
}
