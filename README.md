# GitBlog.md core, modelled in Dafny

GitBlog.md serves a blog straight from a git repository of Markdown files.
Each article lives at `<data_dir>/YYYY/MM/DD/<article_index>`. Before the
Markdown reaches Showdown, `render` runs four optional stages over the text:

1. PlantUML diagrams (`@startuml … @enduml` becomes an `<img>` pointing at the PlantUML server);
2. fa-diagrams (`@startfad … @endfad`, TOML turned into SVG, with errors shown in red);
3. MathJax (`$$…$$` and `$…$`);
4. Prism highlighting of fenced code blocks.

Every stage except Prism only looks at the *parts* of the document that
`getParts` returns. These are meant to be the stretches outside fenced code
and outside `<script>` elements; see Findings for a case where a script
element survives inside a part.

The server has three more pieces:

- it walks the data directory into a catalog of articles (`fileTree`, `fetchArticles`), and `reload` and `start` keep that catalog;
- it merges the user's `config.json` over the defaults;
- it builds an RSS channel of the newest articles and counts hits and unique visitors per path in Redis.

The model has one module per concern:

| module | file | models |
|---|---|---|
| `Wrappers` | wrappers.dfy | `Option` and `Result` |
| `Text` | text.dfy | the string operations the JavaScript uses: `indexOf`, clamped `slice`/`substr`, `trim`, occurrence counts |
| `Patterns` | patterns.dfy | each fixed regular expression of `src/renderer.js` as a matcher at one position, plus a leftmost search (what `exec` returns) |
| `Segmenter` | segmenter.dfy | `getParts`: its two loops as methods, and a specification function for each |
| `Prism` | prism.dfy | `renderPrism` |
| `Diagrams` | diagrams.dfy | `renderPlantUML` and `renderFaDiagrams`: one parametrised block stage, the part-by-part write-back, and each stage's replacement HTML |
| `LineBreaks` | linebreaks.dfy | `findLineBreaks` over a TOML value |
| `MathJax` | mathjax.dfy | `renderMathJax` |
| `Renderer` | renderer.dfy | the order in which `render` chains the stages |
| `FileWalker` | file_walker.dfy | `fileTree` over a directory listing, and `fetchArticles` |
| `App` | app.dfy | the server class: `reload` and `start` |
| `Config` | config.dfy | `merge` over a JSON value, and the loader with its fallback |
| `Rss` | rss.dfy | the newest-first sort, the `slice`, the channel, and the `//` collapse in item links |
| `HitCounting` | hit_counter.dfy | the hit counter class: `count` and `read` over the Redis hashes and the visitor table |

Each loop of the source (the fence and script loops of `getParts`, the match
loops of the stages, the formula search of MathJax) is a method. Each such
method is proved equal to a specification function, and the properties are
lemmas about those functions. The two stateful objects are classes:

- the hit counter, whose Redis hashes and `visitors` table are fields;
- the server, whose `articles` array and listening flag are fields.

The external libraries are function parameters:

- `Prism.highlight`;
- the PlantUML encoder;
- `toml.parse`;
- `faDiagrams.compute`;
- `mathjax.typeset`;
- Showdown;
- `JSON.parse`.

File contents, directory listings and the clock are parameters too.

## Model

| member | source | states |
|---|---|---|
| Patterns.ScriptAt | src/renderer.js:37 | the script regex matches at `p` exactly when `<script>` starts there and a `</script>` follows; the match ends with that first closing tag |
| Patterns.CodeBlockAt | src/renderer.js:72 | a match of the code-block regex starts and ends with a fence; its language is a non-empty run of `[\w-]`; its code holds no fence |
| Patterns.CodeBlockAtExact | src/renderer.js:72 | whenever a fence, a maximal non-empty `[\w-]` run, a line break and a body ending in a newline right before the first closing fence lie at `p`, the regex matches there with that language and code |
| Patterns.CodeBlockAtShape | src/renderer.js:72 | every match has that shape: its language is the whole tag run, its code ends just before the newline that precedes the first closing fence |
| Patterns.BlockAt | src/renderer.js:94 | a `@startuml`/`@enduml` (or `@startfad`/`@endfad`) match starts with the opening marker, ends with the closing one, and holds no closing marker inside |
| Patterns.BlockAtExact | src/renderer.js:94 | whenever the opening marker, a line break and a body ending in a newline right before the first closing marker lie at `p`, the regex matches there with that body |
| Patterns.BlockAtShape | src/renderer.js:94 | every match has that shape, closing at the first closing marker after the body starts |
| Patterns.DisplayMathAt | src/renderer.js:156 | a `$$…$$` match is delimited by `$$` at both ends, and its group is what lies between them |
| Patterns.DisplayMathAtExact | src/renderer.js:156 | whenever `$$` starts at `p` and `q` is the first `$$` after it, the regex matches from `p` to the end of that `$$`, with what lies between as its group |
| Patterns.DisplayMathAtShape | src/renderer.js:156 | every match closes at the first `$$` after the opening one |
| Patterns.InlineMathAt | src/renderer.js:157 | a `$…$` match is delimited by `$`, and its group holds neither `$` nor a newline |
| Patterns.InlineMathAtExact | src/renderer.js:157 | whenever `$` at `p` and `$` at `q` enclose neither `$` nor a newline, the regex matches from `p` through `q` |
| Patterns.ScriptSearchLeftmost | src/renderer.js:37 | the match `exec` returns is the leftmost: no script element starts before it |
| Patterns.CodeBlockFromLeftmost | src/renderer.js:74 | no code block starts before the one `exec` returns |
| Patterns.BlockFromLeftmost | src/renderer.js:97 | no diagram block starts before the one `exec` returns |
| Patterns.DisplayMathFromLeftmost | src/renderer.js:162 | no display formula starts before the one found |
| Patterns.InlineMathFromLeftmost | src/renderer.js:166 | no inline formula starts before the one found |
| Segmenter.SplitFences | src/renderer.js:17-29 | the `indexOf` loop over "```" computes `FenceSpans`: each piece taken with its offset, the tail taken when it is non-empty |
| Segmenter.SplitScripts | src/renderer.js:36-49 | the script loop over a piece computes `ScriptSpans`: the text before each `<script>…</script>` and after the last one |
| Segmenter.Evens | src/renderer.js:31 | the `filter` keeps exactly the pieces at even positions, which are outside the fences |
| Segmenter.AddEnds | src/renderer.js:53 | each part gets `end = index + text.length` |
| Segmenter.GetParts | src/renderer.js:13-56 | the whole of `getParts`, with the `forEach`+`splice` walk as written, computes `GetPartsAsWritten` |
| Segmenter.FenceSpansSeparated | src/renderer.js:17-23 | consecutive pieces are separated by at least the three fence characters |
| Segmenter.FenceSpansFenceFree | src/renderer.js:17-23 | no piece holds a fence |
| Segmenter.FenceSpansCover | src/renderer.js:17-31 | the fence loop loses nothing: its pieces joined by fences give back the document, or all of it but one fence at its very end |
| Segmenter.FenceSpansEmpty | src/renderer.js:17-31 | the fence loop yields no piece exactly when it starts at the end of the document |
| Segmenter.KeptValid | src/renderer.js:17-31 | the kept pieces are slices of the document at their offsets, in order, without overlap, and fence-free |
| Segmenter.ScriptSpansScriptFree | src/renderer.js:36-49 | no sub-part cut out of a piece holds a whole script element |
| Segmenter.SplicedWellFormed | src/renderer.js:34-51 | after the splice walk, every part is still a fence-free slice at its offset, and the parts are ordered |
| Segmenter.GetPartsWellFormed | src/renderer.js:13-56 | every part `getParts` returns is the document's text from `index` to `end`, holds no fence, and ends before the next part starts |
| Segmenter.PlainDocument | src/renderer.js:17-50 | a document with no fence and no script element is its own only part (no part when it is empty) |
| Segmenter.UnclosedFence | src/renderer.js:17-31 | text after an opening fence that is never closed is dropped: prose, a fence and backtick-free text gives the prose as the only part |
| Segmenter.FencedMiddle | src/renderer.js:17-53 | for prose, a fenced block, then prose, the parts are exactly the two prose stretches with their offsets |
| Segmenter.GetPartsSkipsScript | src/renderer.js:34-51 | as written, the document made of two fences and then `<script></script>` yields a part that still holds the whole script element; the corrected `Parts` yields only the empty text before it |
| Segmenter.SplitAllWellFormed | src/renderer.js:34-51 | corrected: splitting every kept piece gives fence-free, script-free slices, in order |
| Segmenter.PartsWellFormed | src/renderer.js:8-56 | corrected `Parts`: every part is a slice at its offset, outside the fences and the script elements, in order |
| Prism.Grammar | src/renderer.js:77 | the block's language when Prism knows it; otherwise `autoit` |
| Prism.RenderPrism | src/renderer.js:68-82 | the `exec` loop computes `HighlightAll` when the module is on, and returns the text unchanged when it is off |
| Prism.StepRemovesFences | src/renderer.js:75-78 | each replacement removes at least two fences (so the loop ends) |
| Prism.HighlightAllComplete | src/renderer.js:74-79 | no code block is left in the result |
| Prism.NoBlockUnchanged | src/renderer.js:72-79 | a document without a code block is returned as it is |
| Prism.FenceFreeUnchanged | src/renderer.js:72-79 | a document without a fence is returned as it is |
| Prism.SingleBlock | src/renderer.js:72-79 | a document with one code block becomes the text around it plus `<pre><code class="lang language-lang">`, the code highlighted under its grammar, and `</code></pre>`, in place |
| Diagrams.RewriteBlocks | src/renderer.js:97-103 | the inner `exec` loop over one part leaves no block in that part |
| Diagrams.RewriteNoBlock | src/renderer.js:97-103 | a part without a block is left as it is |
| Diagrams.RewriteSingleBlock | src/renderer.js:97-103 | a part whose one block holds its only `@` becomes the text before the block, the replacement of its trimmed body, and the text after it |
| Diagrams.WriteBackSame | src/renderer.js:104 | writing a part's text back at its own offsets gives the document back |
| Diagrams.RenderBlocks | src/renderer.js:93-105 | the stage's loops compute `Stage` when on, and the identity when off |
| Diagrams.StageNoBlocks | src/renderer.js:93-105 | when no part holds a block, the stage returns the document as it is |
| Diagrams.PlantUmlRewriter | src/renderer.js:98-102 | a PlantUML block becomes `<img src="…/<format>/<encoded code>">`, which holds no `@` |
| Diagrams.RenderPlantUML | src/renderer.js:88-108 | `renderPlantUML` is the block stage over `@startuml`/`@enduml` with that rewriter |
| Diagrams.UmlDocRewritten | src/renderer.js:94-102 | "@startuml\nA\n@enduml" becomes the `<img>` of the code "A" |
| Diagrams.TwoPartsAsWritten | src/renderer.js:104 | as written, when the first of two parts changes, the second is written back at its *old* offsets in the *new* text |
| Diagrams.StaleAsWritten | src/renderer.js:104 | on a PlantUML block, a fenced block and "w", the as-written stage writes "w" over offset 26 of the `<img>` |
| Diagrams.StaleWriteBack | src/renderer.js:104 | on that document the as-written stage and the corrected stage differ |
| Diagrams.TwoPartsCorrected | src/renderer.js:104 | written back from the last part first, two parts give the rewritten first part followed by the unchanged rest |
| Diagrams.StaleCorrected | src/renderer.js:104 | corrected, the same document becomes the `<img>` followed by the untouched rest |
| Diagrams.StageCorrectedReassembles | src/renderer.js:104 | the corrected stage equals `Reassemble`: the document with each part's rewritten text in place of its original span, everything between parts kept |
| Diagrams.FaDiagramHtml | src/renderer.js:196-211 | a parse error or a compute error becomes the red error HTML; otherwise the SVG of the line-break-unescaped TOML |
| Diagrams.FaDiagramKeepsAtOut | src/renderer.js:196-211 | no fa-diagram replacement holds `@`, as long as the SVG and the error messages hold none |
| Diagrams.RenderFaDiagrams | src/renderer.js:185-218 | `renderFaDiagrams` is the block stage over `@startfad`/`@endfad` with that rewriter |
| LineBreaks.Unescape | src/renderer.js:203 | the result is no longer than the string, and a leading `\n` escape becomes a newline |
| LineBreaks.UnescapeLength | src/renderer.js:203 | each replaced `\n` escape shortens the string by one character |
| LineBreaks.UnescapeNoEscape | src/renderer.js:203 | no `\n` escape is left |
| LineBreaks.UnescapeConcat | src/renderer.js:203 | the replacement works piece by piece wherever no `\n` escape straddles the cut |
| LineBreaks.UnescapePair | src/renderer.js:203 | text without an escape, then `\n`, then the rest becomes that text, a newline, and the rest replaced |
| LineBreaks.FindLineBreaks | src/renderer.js:198-206 | the TOML value keeps its shape: the same kinds, keys and lengths, and atoms are untouched |
| LineBreaks.FindLineBreaksUnescapes | src/renderer.js:198-206 | no string anywhere in the result holds a `\n` escape |
| LineBreaks.FindLineBreaksIdentity | src/renderer.js:198-206 | a value without escapes is returned as it is |
| LineBreaks.FindLineBreaksIdempotent | src/renderer.js:198-206 | applying it twice is the same as applying it once |
| MathJax.FirstFormula | src/renderer.js:160-171 | the formula found lies in a part at or after the starting one, and is that part's display match, or else its inline match |
| MathJax.FindFormula | src/renderer.js:159-171 | the `for` loop with its `break`s computes `FirstFormula` |
| MathJax.FirstFormulaSkips | src/renderer.js:160-170 | no part before the one chosen holds a formula |
| MathJax.TypesetAll | src/renderer.js:137-174 | when the stage is done, no part holds a formula, and the number of `$` has not grown |
| MathJax.RenderMathJax | src/renderer.js:133-176 | the identity when off, `TypesetAll` when on |
| MathJax.FormulaInData | src/renderer.js:149 | the text `doMJ` replaces is the formula, dollar signs included, at its offset in the document |
| MathJax.SubstituteDrops | src/renderer.js:149 | each turn removes at least the two `$` around the formula it typesets (so the stage ends) |
| MathJax.TypesetAllStep | src/renderer.js:139-170 | one turn typesets the first formula of the first part that holds one, and splices the result in at its offsets |
| MathJax.TypesetAllNoFormula | src/renderer.js:172-174 | a document none of whose parts holds a formula is left as it is |
| MathJax.TypesetAllNoDollar | src/renderer.js:156-174 | a document without `$` is left as it is |
| Renderer.Render | src/renderer.js:227-245 | a read error is passed on; otherwise Showdown's HTML of PlantUML, then fa-diagrams, then MathJax, then Prism, each stage skipped when its module is off; only the stages that are on assume anything of their library |
| Renderer.AllOffUnchanged | src/renderer.js:227-245 | with every module off, Showdown receives the file as it was read |
| Renderer.NoAtStageUnchanged | src/renderer.js:93-105 | a diagram stage leaves a document without `@` as it is |
| Renderer.PlainTextUnchanged | src/renderer.js:227-245 | prose without `@`, `$` or a fence reaches Showdown unchanged whichever modules are on |
| FileWalker.FileTreeSucceeds | src/file_walker.js:3-27 | `fileTree` reports success exactly when no directory at any depth fails to be read |
| FileWalker.FileTreeContents | src/file_walker.js:9-23 | on success, the list holds exactly the files at any depth, each with its full path, with as many entries as there are files |
| FileWalker.Prefix | src/file_walker.js:44 | `substr(0, n)`: a negative length gives "", and a length past the end gives the whole string |
| FileWalker.DateDigits | src/file_walker.js:45-52 | a path kept by the `/YYYY/MM/DD` pattern has digits in all three groups |
| FileWalker.FetchArticles | src/file_walker.js:37-58 | a scan error is passed on; otherwise the records of the kept files, in scan order |
| FileWalker.ArticleOfKept | src/file_walker.js:41-55 | a kept file is `data_dir` followed by a date directory and then the index name, which first occurs there; its record carries the file's own path |
| FileWalker.ArticleOfDated | src/file_walker.js:41-55 | conversely, a file at `data_dir/YYYY/MM/DD/<index>` is kept with that path |
| FileWalker.ArticleOfMisplaced | src/file_walker.js:43 | a file whose index name occurs before the end of its path, or not at all, is dropped |
| FileWalker.ArticleFrom | src/file_walker.js:41-56 | every record comes from a kept file of the scan |
| FileWalker.ArticleKept | src/file_walker.js:41-56 | every kept file gives its record |
| FileWalker.ArticlesLength | src/file_walker.js:41-56 | there is at most one record per file |
| FileWalker.ArticlesAppend | src/file_walker.js:41-56 | records appear in the order of their files |
| App.CatalogFromTree | src/app.js:15-28 | every catalogued article comes from a file somewhere under the data directory |
| App.CatalogComplete | src/app.js:15-28 | every dated article file under the data directory is catalogued |
| App.Server.Reload | src/app.js:15-28 | the callback value is true exactly when the scan succeeds; the catalog is then the fetched list, and it is left unchanged on an error |
| App.Server.Start | src/app.js:34-41 | the server listens exactly when the reload succeeded (or it already listened); the catalog follows the reload |
| Config.MergeTypeMismatch | src/config.js:11-12 | values of different `typeof` keep the default |
| Config.MergeLengths | src/config.js:13-16 | a non-empty default string or array gives way to a non-empty user value, and is kept over an empty one |
| Config.MergeObject | src/config.js:17-20 | an object merges key by key: exactly the default's keys, each the merge of the default and the user's value, a missing user key keeping the default |
| Config.MergeTruthyLength | src/config.js:13-16 | a default with a truthy `length` is kept against a value of its type whose `length` is falsy or missing, and is replaced whole otherwise |
| Config.MergeArrayAgainstObject | src/config.js:13-16 | a non-empty array default is kept when the user gives an object without a truthy `length`, as for `hidden: {}` |
| Config.MergePrimitive | src/config.js:21-22 | booleans, numbers and strings over an empty default take the user's value |
| Config.MergeKeepsType | src/config.js:10-24 | a merge keeps the `typeof` of the default |
| Config.MergeNullThrows | src/config.js:17-19 | a user `null` over a non-empty default object throws a TypeError |
| Config.MergeEmptyObject | src/config.js:17-20 | an empty user object keeps the defaults |
| Config.MergeSelf | src/config.js:10-24 | merging a configuration without `null` or empty arrays with itself gives it back |
| Config.Load | src/config.js:26-35 | an unreadable or unparsable `config.json`, or a merge that throws, gives the defaults; otherwise the merge |
| Config.LoadFallback | src/config.js:32-34 | every failure path falls back to the defaults |
| Config.LoadKeepsType | src/config.js:26-35 | the loaded configuration has the defaults' `typeof` |
| Config.MergeEmptyArray | src/config.js:13-20 | as written, an empty default array merged with a user array gives an empty object |
| Config.MergeFixedKeepsArrays | src/config.js:13-20 | corrected, an array default gives an array: the user's, unless the default is non-empty and the user's is empty |
| Config.MergeFixedArrayType | src/config.js:13-20 | corrected, an array default always gives an array (unless a user object has a truthy `length`) |
| Rss.BelowTotal | src/rss.js:15 | the path order is total |
| Rss.BelowTransitive | src/rss.js:15 | the path order is transitive |
| Rss.BelowAsymmetric | src/rss.js:15 | the path order is asymmetric |
| Rss.SortDescCorrect | src/rss.js:14-15 | the sort is newest-first by path and a permutation of the articles |
| Rss.DescendingUnique | src/rss.js:14-15 | with distinct paths, this newest-first order is the only one |
| Rss.SliceEnd | src/rss.js:16 | `slice(0, length)` never goes past the list |
| Rss.FeedLength | src/rss.js:14-16 | the channel has every article without a length, `min(length, n)` for a length ≥ 0, `max(n + length, 0)` for a negative one, and none of nothing |
| Rss.SelectedNewest | src/rss.js:14-16 | kept and dropped articles together are the articles, and no dropped one sorts after a kept one |
| Rss.Feed | src/rss.js:24-35 | the channel carries the configured title and description, the loopback link, the build and publication dates, a ttl of "60", and one item per kept article |
| Rss.FeedItems | src/rss.js:3-9 | item i is kept article i: its title, its date, and its link with doubled slashes collapsed |
| Rss.CollapseDropsSlashes | src/rss.js:6 | collapsing only removes slashes: the link never grows, and its non-slash characters are unchanged |
| Rss.CollapseNoDoubleSlash | src/rss.js:6 | a link without `//` is left as it is |
| Rss.CollapseSplit | src/rss.js:6 | collapsing works piecewise at any point not followed by `/` |
| Rss.CollapseKeepsScheme | src/rss.js:6 | the `//` after a scheme's `:` survives |
| Rss.ItemLinkScheme | src/rss.js:6 | an item link of `scheme://host` keeps its `://` and collapses only the scheme and what follows |
| HitCounting.ClientIp | src/hit_counter.js:15 | a non-empty `x-forwarded-for` header, else the socket's address |
| HitCounting.HIncrBy | src/hit_counter.js:21-22 | `hincrby` adds to one field, starting from 0, and changes no other field |
| HitCounting.CountedIncrements | src/hit_counter.js:20-24 | a counted request adds one hit, adds a visitor exactly when it is a new one, and leaves every other counter alone |
| HitCounting.FirstVisit | src/hit_counter.js:18 | a never-seen visitor is new exactly when the clock is past the timeout |
| HitCounting.RepeatVisit | src/hit_counter.js:18-19 | after a visit, the same visitor is new again exactly when more than the timeout has passed |
| HitCounting.OtherVisitor | src/hit_counter.js:18-19 | another key's visit does not change whether this one is new |
| HitCounting.KeysPerPath | src/hit_counter.js:16 | the same address on two paths (without `:`) is two visitors |
| HitCounting.HitCounter.Count | src/hit_counter.js:11-26 | without a connection nothing changes; otherwise the visitor is stamped `now` and the path's hashes are `Counted` |
| HitCounting.HitCounter.Read | src/hit_counter.js:28-42 | zeros without a connection; otherwise the stored hits and visitors, and 0 for a missing hash or field |
| HitCounting.TwoQuickVisits | src/hit_counter.js:11-26 | two quick visits from a new address count two hits and one visitor |

## Left out

- File, directory and network I/O are not modelled as effects. This covers `fs.readFile`, `fs.readdir`, the Redis transport and its error callbacks, the Express routes and `app.listen`. A file's contents, a directory listing (`Listing`, with its read errors) and the clock are inputs instead.
- JavaScript's callback scheduling is left out. `fileTree` finishes through a counter of pending callbacks, and its real order (and whether it calls back more than once on an error) depends on the file system. The model scans the listing in order and reports the first error. Order is not promised, so the contents lemmas state membership and count.
- `readIndexFile` is an empty TODO and is not modelled; nor are the other modules under `src/` (the server's routes, the bot detector, the post-install script).
- The libraries are opaque parameters: `Prism.highlight`, the PlantUML encoder, `toml.parse`, `faDiagrams.compute`, `mathjax.typeset` with its options, Showdown, `JSON.parse` and `xml-js`. Each stage's termination assumes one thing of its library, and only when that stage is on:
  - `Prism.RenderPrism`: the highlighted HTML of fence-free code holds no fence;
  - `Diagrams.RenderPlantUML`: the encoder and the format hold no `@`;
  - `Diagrams.RenderFaDiagrams`: the SVG and the error messages hold no `@`;
  - `MathJax.RenderMathJax`: the typeset HTML holds no `$`.
  Without those, the source's loops need not end either.
- `Prism.RenderPrism`: the code calls `Prism.highlight` with no `try`/`catch`, so a library error escapes `render`. The model gives the highlighter no error path.
- `LineBreaks.FindLineBreaks`: the source rewrites the parsed TOML object in place. The model returns the rewritten value, which is what the caller then uses. Aliasing inside the object is not modelled.
- `Rss.SortDescCorrect`: `localeCompare` is modelled as code-unit order on paths. Locale collation (case and accent rules) is not modelled.
- `Rss.Feed`: `new Date().toString()` is the `now` parameter, used for both `lastBuildDate` and `lastPubDate`. The source calls `new Date()` twice (src/rss.js:31-32), so its two strings differ when a second boundary falls between the calls; the model does not capture that. `xml-js` serialisation of the channel is left out, and so is the order of `Object.values` (the model takes the articles as a sequence). `FeedConfig.length` is an `Option<int>`, while `rss.length` in the configuration is a JSON number: a fractional value such as 2.5, which `slice` truncates to 2, is not modelled.
- `Config.Load`: JSON numbers are reals, and the JavaScript prototype (an inherited `length` or `constructor` key) is not modelled. User keys the default lacks are dropped, as in the source.
- `HitCounting.HitCounter.Read`: Redis returns hash fields as strings. The model assumes they hold integers. The Redis client's `connected` flag is a field set at construction, so a connection that comes or goes later is not modelled.
- `App.Server.Start`: the port and the listen callback's logging are left out.
- The console logging in `reload`, `renderFaDiagrams` and the config loader has no effect on the model.
- JavaScript strings are sequences of UTF-16 code units: `indexOf`, `slice`, `length` and the regex offsets count code units, while a Dafny `string` holds Unicode scalar values. Once a character outside the Basic Multilingual Plane appears, the model's part offsets and match positions (and so where the stale write-back of `renderPlantUML` and `renderFaDiagrams` at src/renderer.js:104 and src/renderer.js:214 lands) differ from the source's, and a source `slice` may split a surrogate pair, which the model cannot express.

## Findings

| source | as written | input that shows it | evidently intended | confidence | as-written member | corrected member |
|---|---|---|---|---|---|---|
| src/renderer.js:34-51 | `forEach` walks the array that `splice` shortens and lengthens, so the part after an emptied part is never split at its script elements | two fences, then `<script></script>` | no part holds a script element | not executed | Segmenter.GetPartsSkipsScript | Segmenter.PartsWellFormed |
| src/renderer.js:104 | each part is written back at the offsets computed before earlier parts were rewritten, so a later part lands inside an earlier replacement | a PlantUML block of `A`, then a fence, `c`, a fence and `w` | each part's rewritten text replaces exactly its own span | not executed | Diagrams.StaleWriteBack | Diagrams.StageCorrectedReassembles |
| src/config.js:13-20 | an empty array default has a falsy `length` and `typeof` "object", so it is merged key by key into `{}` | `merge([], ["a"])` | the user's array replaces the empty default | not executed | Config.MergeEmptyArray | Config.MergeFixedKeepsArrays |

In each row the as-written member models the code. The rendering pipeline
(`Renderer.Render`) and `Config.Load` keep that behaviour. The corrected
definitions (`Segmenter.Parts`, `Diagrams.StageCorrected`, `Config.MergeFixed`)
are proved beside them.
