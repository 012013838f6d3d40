# node-pages, modelled in Dafny

node-pages compiles a text template into a JavaScript module that exports `render(arg)`.
The template mixes literal text with directives between an open marker (`<?`) and a close marker (`?>`).
A directive body starting with `-` is a raw expression, one starting with `=` is an expression passed through `escape`, and anything else is a scriptlet copied verbatim.
Every `Pages` object takes its markers, its argument name and its work directory from an options object.
It derives a template identity (`name`) from the resolved source path and keeps compiled `render` functions in the process-wide dictionary `Pages.cache`, keyed by that identity.

The project has seven modules:

- `Text` (`text.dfy`): the two string primitives the code relies on. They are `indexOf` with a start position (`IndexOf`, with `IndexOfFirst` proving it finds the first occurrence) and a global single-character `replace` (`ReplaceAll`).
- `LiteralEscape` (`literal_escape.dfy`): the replace chain `parse` applies to each literal span. It comes with a decoder for single-quoted JavaScript literals, so the round trip can be stated.
- `HtmlEscape` (`html_escape.dfy`): the `escape` routine every generated module defines, taken on string values, plus its inverse `Unescape`.
- `Paths` (`paths.dfy`): `makeName`, `makeDstPath` and `stripBOM`.
- `Compiler` (`compiler.dfy`): the specification of `parse`. `Scan` is the sequence of segments (literal, directive, literal, ...) that the loop meets in the wrapped text `closeWord + src + openWord`, `Emit` is the statement each segment becomes, and `Compile` is the whole generated module.
- `Loader` (`loader.dfy`): the class `Pages` and the shared `RenderCache`. `Pages.Parse` and `Pages.Segments` are the loop itself, as a `while` loop proved equal to `Compile`. The cache operations update the shared map. Loading, reloading and clearing work through a `Host` value that stands for `path.resolve`, `fs.readFileSync` and `require`.
- `Wrappers` (`wrappers.dfy`): the `Option` type.

The loop of `parse` is the static method `Pages.Segments`, called by `Pages.Parse` between the header and the footer.
Its state is `buf`, `i`, `start` and `end`, as in lines 120-148.
The invariant ties `buf` plus the statements of the segments still to scan from `i` to the statements of the whole scan.
`isCached` (lines 82-85) is the predicate `Pages.IsCached`, which `Pages.LoadFileSync` consults before reading the file.

## Model

| member | source | states |
|---|---|---|
| Text.IndexOf | lib/node-pages.js:122-123 | `indexOf(pat, from)` returns -1 or a position at or after `from` where `pat` occurs |
| Text.IndexOfFirst | lib/node-pages.js:122-123 | no occurrence lies between `from` and the result of `indexOf`, and none at all at or after `from` when it returns -1 |
| Text.ReplaceAllChars | lib/node-pages.js:125-130 | after a global replace, every character comes from the replacement or is an original character outside the replaced class |
| Text.ReplaceAllNoop | lib/node-pages.js:125-130 | a global replace leaves a string without any character of the class unchanged |
| Text.ReplaceAllConcat | lib/node-pages.js:125-130 | a global replace acts on each part of a concatenation independently |
| Text.ReplaceAllSingle | lib/node-pages.js:125-130 | on one character a global replace gives the replacement when the character is in the class, and the character otherwise |
| LiteralEscape.EscapeLiteralIsSinglePass | lib/node-pages.js:125-130 | the five chained global replaces act as one pass over the span: no step rewrites what an earlier step produced |
| LiteralEscape.LiteralRoundTrip | lib/node-pages.js:125-131 | the escaped span is a well-formed single-quoted JavaScript literal body, and its value is the span with each tab widened to two spaces and each carriage return removed |
| LiteralEscape.EscapeLiteral | lib/node-pages.js:125-131 | the escaped span holds no raw line feed, carriage return or tab, so the generated statement stays on one line |
| LiteralEscape.Normalize | lib/node-pages.js:128-129 | the text a span renders to holds no tab and no carriage return |
| LiteralEscape.NormalizeIdentity | test/node-pages.test.js:40-86 | a span without tab or carriage return (such as a backslash, a quote or `1\n2`) renders back exactly |
| HtmlEscape.ChainOnChar | lib/node-pages.js:151 | on one character the routine gives that character's entity, and `&amp;` is not rewritten by the later steps |
| HtmlEscape.EscapeIsSinglePass | lib/node-pages.js:151 | because `&` is replaced first, the four chained replaces equal one pass that maps each character to its entity |
| HtmlEscape.EscapeRoundTrip | lib/node-pages.js:151 | reading the entities back recovers the routine's input exactly |
| HtmlEscape.Escape | lib/node-pages.js:151 | the output holds no raw `<`, `>` or `"` |
| HtmlEscape.AmpersandsStartEntities | lib/node-pages.js:151 | every `&` in the output of `Escape` begins `&amp;`, `&lt;`, `&gt;` or `&quot;` |
| HtmlEscape.EscapeUnchanged | lib/node-pages.js:151 | a string with none of the four special characters comes back unchanged, and the falsy empty string too |
| HtmlEscape.EscapeAllSpecials | test/node-pages.test.js:97-104 | `&<>"` is escaped to `&amp;&lt;&gt;&quot;` |
| Paths.MakeNameIsSinglePass | lib/node-pages.js:58-62 | `makeName` is one pass over the path: `/` and `\` become `__`, `.` and `:` become `-`, every other character is kept in order |
| Paths.MakeName | lib/node-pages.js:58-62 | an identity holds no `/`, `\`, `.` or `:` |
| Paths.MakeNameKeepsPlainNames | lib/node-pages.js:58-62 | a path without those characters is its own identity |
| Paths.MakeNamePlainIsPath | lib/node-pages.js:58-62 | an identity with no `_` and no `-` in it is the path itself, since every rewrite leaves one of the two behind |
| Paths.MakeNameCollides | lib/node-pages.js:58-62 | two distinct paths, `/t.npg` and `/t-npg`, get the same identity and so share a cache entry |
| Paths.DstPathDeterminesName | lib/node-pages.js:64-66 | in one work directory, two identities share a module file exactly when they are equal |
| Paths.DstPathInWorkDir | lib/node-pages.js:64-66 | the module file lies directly in the work directory, and its base name is the identity followed by `.js` |
| Paths.StripBOM | lib/node-pages.js:161-163 | a leading U+FEFF is removed; any other text is returned as it is |
| Paths.StripBOMOnce | lib/node-pages.js:161-163 | only one mark is removed; a second one stays |
| Compiler.Classify | lib/node-pages.js:136-146 | a directive body becomes a directive segment whose source text is the body itself |
| Compiler.ClassifyBySigil | lib/node-pages.js:137-146 | `-` gives a raw expression, `=` an escaped expression, and anything else (the empty body too) a scriptlet, each if and only if |
| Compiler.ClassifySourceText | lib/node-pages.js:136-146 | classification loses nothing: each directive segment is the classification of its own source text |
| Compiler.Emit | lib/node-pages.js:125-146 | every statement a segment becomes is non-empty and ends with a line feed, so statements never run into each other |
| Compiler.DirectiveEmission | lib/node-pages.js:137-146 | the statement each kind of directive appends: `renderStr += e;`, `renderStr += escape(e);` or the body verbatim |
| Compiler.LiteralStatementDecodes | lib/node-pages.js:125-131 | a literal becomes `renderStr += '...';` around a literal body whose value is the span as it renders |
| Compiler.Wrap | lib/node-pages.js:117 | the wrapped text starts with the close marker, holds the template right after it, and has the open marker right after the template |
| Compiler.Compile | lib/node-pages.js:116-154 | every module starts with the `exports.render = function(arg){` header and ends with the return and the `escape` routine |
| Compiler.Scan | lib/node-pages.js:120-148 | the segments alternate: a literal at each even position, a directive at each odd one |
| Compiler.ScanInOrder | lib/node-pages.js:120-148 | the segments, each followed by the marker that ends it, read back the wrapped text from the scan's start, in order |
| Compiler.ScanSpansAvoidMarkers | lib/node-pages.js:122-136 | each span ends at the first marker after it: no open marker starts anywhere inside a literal and no close marker inside a directive, not even one that runs into the marker ending the span |
| Compiler.ScanStopsAtMissingMarker | lib/node-pages.js:124-135 | the scan stops only where the marker it looks for next occurs nowhere in the remaining text, which is dropped |
| Compiler.CompileWithoutMarkers | test/node-pages.test.js:24-38 | a template in which no open marker starts compiles to one literal append of the whole template |
| Compiler.StraddlingOpenMarker | lib/node-pages.js:117-124 | with a self-overlapping open marker `aa`, the template `a` compiles to one empty literal: the search finds the open marker made of the template's `a` and the first `a` of the appended marker, and the template's text is lost |
| Compiler.CompileTruncated | lib/node-pages.js:133-135 | when the first open marker has no close marker after it, only the literal before it is emitted and the rest is dropped |
| Loader.Pages.Parse | lib/node-pages.js:116-154 | `parse` returns exactly the module `Compile` specifies for the template and this object's markers and argument name |
| Loader.Pages.Segments | lib/node-pages.js:120-148 | the loop appends exactly the statements of the scan of the wrapped text, in order |
| Loader.Pages.LiteralStatement | lib/node-pages.js:125-131 | the statement for one literal span |
| Loader.Pages.Statement | lib/node-pages.js:136-146 | the `switch` on the first character of a directive body appends the statement for its classification |
| Loader.Pages.Delims | lib/node-pages.js:10-11 | the markers this object compiles with are non-empty |
| Loader.Pages.constructor | lib/node-pages.js:7-21 | each option falls back to its default when falsy (`<?`, `?>`, `arg`, the default work directory), a given work directory is resolved, and name and paths start as `null` |
| Loader.Pages.Create | lib/node-pages.js:7-26 | the constructed object has the defaulted options and the resolved or default work directory; with a source path it is loaded as `loadFileSync` specifies, and without one the cache is untouched, there is no error and the source path, module path and name stay `null` |
| Loader.RenderCache.constructor | lib/node-pages.js:32 | the shared cache starts empty |
| Loader.NullKeyMatchesNoTemplate | lib/node-pages.js:82-85 | the key `"null"` a nameless object looks up is the identity of a path exactly when that path is `null` itself, so a nameless object never finds a template loaded from a resolved (absolute) path |
| Loader.Installed | lib/node-pages.js:68-73 | `setCache` installs the module's `render` under the name, adding only that key, exactly when the name is non-empty and the module and its render are present; otherwise it changes nothing; every other name's entry is kept |
| Loader.Removed | lib/node-pages.js:75-80 | `deleteCache` removes exactly the name's key when the name is non-empty and changes nothing otherwise; every entry left is one that was there, unchanged |
| Loader.NoEmptyName | lib/node-pages.js:68-80 | neither operation can put the empty name into the cache |
| Loader.Pages.SetCache | lib/node-pages.js:68-73 | the shared cache after the call, with the name defaulting to this object's; afterwards the name is cached when it is non-empty and the render is present |
| Loader.Pages.DeleteCache | lib/node-pages.js:75-80 | the shared cache after the call, with the name defaulting to this object's; afterwards a non-empty name is not cached |
| Loader.Pages.IsCached | lib/node-pages.js:82-85 | true exactly when the cache has an entry under the defaulted name, under `"null"` when that name is `null` |
| Loader.Pages.Render | lib/node-pages.js:156-159 | the cached function for this object's name applied to the argument, or the empty string when there is none |
| Loader.CachedLoadIsReused | lib/node-pages.js:50 | a load whose name is cached changes nothing and does not depend on the file's current text |
| Loader.LoadStep | lib/node-pages.js:50-55 | a cached name leaves the cache as it is; the error is a read failure exactly when the name is not cached and the file cannot be read; on any error the cache is unchanged; no other name gains, loses or changes an entry |
| Loader.FreshLoadCompiles | lib/node-pages.js:50-55 | an uncached load that succeeds caches the function compiled from the file's text, BOM removed, under its name only |
| Loader.Pages.LoadFileSync | lib/node-pages.js:45-56 | an empty path changes nothing; otherwise the source path, name and module path are set, the module path is the file `createJsFileSync` writes, and the cache and the error follow the load step |
| Loader.Pages.Clear | lib/node-pages.js:40-43 | this object's cache entry is removed |
| Loader.Pages.ReloadFileSync | lib/node-pages.js:34-38 | without a loaded path nothing changes; otherwise the object is loaded again from the same path, over the cache with its entry removed |
| Loader.ReloadRecompiles | lib/node-pages.js:34-38 | after the entry is cleared, a reload compiles the file's current text |
| Loader.ReloadPicksUpChanges | lib/node-pages.js:34-56 | on a loaded object whose host resolves paths stably and reads the file successfully, `reloadFileSync` raises no error and `render` afterwards runs the function compiled from the file's current text |
| Loader.CachedAcrossInstances | test/node-pages.test.js:140-151 | a second object loading the same path renders what the first compiled, even though the file changed in between |

## Left out

- File system and module loading are parameters of `Host`: `path.resolve` (`resolve`), `fs.readFileSync` (`readFile`; None when it throws) and `require` of the written module (`require`; None when it throws). Writing the module file, `fs.existsSync` and `fs.mkdirSync` of the work directory are not modelled.
- `setModuleSync` is not a separate operation: its rethrow of a `require` failure is the error `RequireFailed(dstPath)`, without the stack text it appends.
- `deleteModule` is not modelled, because `require.cache` belongs to the module loader; `Pages.Clear` drops only the `Pages.cache` entry.
- `path.join` and `path.resolve` normalisation is not modelled: `makeDstPath` is `workDir + "/" + name + ".js"` for a work directory already absolute and without a trailing separator, and `Pages.DEFAULT_WORK_DIR` is the host's `defaultWorkDir`.
- Running the generated JavaScript is outside the model: a cached `render` is a `RenderFn` holding the module text it came from, and `Pages.Render` takes the evaluator as a parameter.
- Loader.Pages.Render: states the lookup and the call, not what the rendered string is.
- `escape` on values that are not strings is left out. The falsy ones (`null`, `undefined`, `false`, `0`, `NaN`) come back as they are, and `+=` then appends `"null"`, `"undefined"`, `"false"`, `"0"` or `"NaN"`. Every other number, `true` and any object without a `replace` method throw. Only the string case, `HtmlEscape.Escape`, is modelled.
- Options and names that JavaScript treats as falsy (`undefined`, `null`, `0`, `""`) are all the empty string in `Config` and in the name parameters. A `null` object name is `None`, which indexes the cache as the key `"null"`.
- `Pages.cache` is an array in the source, and it inherits members such as `constructor`, `push` and `__proto__`. For those names `isCached` is true although nothing was cached. `render` then behaves differently for each. Under `__proto__` it finds `Array.prototype`, which is not callable, so line 158 throws a `TypeError`. Under `push` the call runs without a receiver and throws too. Only `constructor` runs, and it returns an array, not a string. A template whose identity is `__proto__` is never compiled, because line 50 returns early. A `setCache` under that name (line 71) would replace the array's prototype instead of adding an entry. The name `__proto__` is reachable: `makeName("/proto__")` is `__proto__`. The model's cache is a plain map from names to render functions, without inherited entries. (The `length` key is `0`, which is falsy, so it behaves like a missing entry in both.)
- Strings are sequences of Unicode characters, not UTF-16 code units: `stripBOM` looks at the first character, and `charCodeAt(0) === 0xFEFF` agrees with that for every text.
- `PropertyKey`, `Pages.NameArg`, `Paths.MakeDstPath` and `Pages.CreateJsFileSync` carry no contract of their own. Each is a one-line expression whose body is its whole meaning. Their uses are stated elsewhere: by `Pages.IsCached`, `Pages.Render`, `Pages.SetCache`, `Pages.DeleteCache`, `Pages.Loaded` and `Pages.LoadFileSync`, and by `Paths.DstPathInWorkDir`, `Paths.DstPathDeterminesName` and `Loader.NullKeyMatchesNoTemplate`.
- `ReplaceAll`, `Header` and `Footer` carry no contract of their own. `ReplaceAll` is described by `Text.ReplaceAllChars`, `Text.ReplaceAllNoop`, `Text.ReplaceAllConcat` and `Text.ReplaceAllSingle`; `Header` and `Footer` are fixed texts, and `Compiler.Compile` states that every module begins and ends with them.
- `Loader.ReloadPicksUpChanges` assumes a host whose `resolve` returns an already resolved path unchanged (`ResolvesStably`), as `path.resolve` does for an absolute path. Without that, `reloadFileSync` loads `path.resolve(this.srcPath)`, which may be a different file.
- `Loader.ReloadRecompiles`, `Loader.ReloadPicksUpChanges` and `Loader.CachedAcrossInstances` also assume a host whose `require` returns the module compiled from the text just written (`Faithful`). In the program this holds on a first load of a module file, and on a reload because `clear` calls `deleteModule` (lines 42 and 98-103), which evicts the stale module from `require.cache`. It does not hold after a bare `deleteCache`, since `require` would then return the stale module; the model, which leaves `require.cache` out, does not capture that case.
- `Pages.Create` returns the object together with the load error. In the program, an error in lines 18-20 propagates out of `new Pages(conf)`, so no object reaches the caller; the model's object in that case has no counterpart.
- Text.IndexOf: its own contract states only that the result is -1 or an occurrence at or after `from`; that it is the first one is the separate lemma `Text.IndexOfFirst`.

In these places the model follows the code, whose behaviour differs from what one might expect:

- A tab in a literal becomes two spaces and a carriage return is deleted. They are not escaped, so the literal round trip holds only up to `Normalize`.
- An empty literal span still emits `renderStr += '';`.
- `escape(null)` gives `null`, which renders as `"null"`, not as the empty string.
- `makeName` is not injective (`Paths.MakeNameCollides`).
- A template with no close marker at all is not an empty render: the literal before its first open marker is kept (`Compiler.CompileTruncated`, `Compiler.CompileWithoutMarkers`).
