# nekozane manga API — extraction core in Dafny

The nekozane service is a small HTTP API. It scrapes a manga site and answers
with JSON. Three routes do real work:

- `/search/:query` turns every `.bsx` card of the search page into a result.
  A result has a title, a series id (`manhwa_id`), a cover, the latest chapter
  label and a rating.
- `/read/:chapterId` finds the `ts_reader.run(...)` payload in the chapter
  page's inline scripts and parses it. It answers with the images of the first
  source, or with "not found", or with a failure. It also derives the
  previous and next chapter ids from the navigation buttons.
- `/detail/:manhwaId` reads a series page: title, cover, synopsis, a
  metadata map folded from the info blocks, and the chapter list.

This project models what happens between "the HTML has been parsed" and "the
JSON body is returned", for all three routes. The model covers:

- the two regular expressions, each as a backtracking matcher, and what each
  matches;
- JavaScript's `trim`, `toLowerCase` and one-shot `replace`;
- the `x || ''` fallbacks;
- the script scan and its status codes;
- the metadata fold, including its first-colon rule.

Modules:

- `Wrappers`: `Option`.
- `JsText`: the string operations.
- `Dom`: a queried element and the extract-or-default reads.
- `MangaHref`: the regular expression `/manga\/(.*?)\/?$/`.
- `Search`: the search route.
- `JsonValues`: parsed JSON values, truthiness, `.sources`, `[0]` and `.images`.
- `ReaderPayload`: the regular expression `/ts_reader\.run\((.*?)\);/`.
- `Reader`: the reader route.
- `Detail`: the detail route.

How the reader route behaves when a page holds several payloads:

- **The last parsed payload wins.** Every script containing
  `ts_reader.run` is tried, and each payload that parses overwrites the
  previous one (`Reader.LastPayloadWins`).
- **A payload that fails to parse does not stop the scan.** It sets the
  status to 500, and the scan goes on, because the callback's `return`
  value is discarded by `forEach`. A payload parsed before or after the
  failure still answers: the chapter body with status 500
  (`Reader.FailedParseThenPayload`, `Reader.PayloadThenFailedParse`). When
  no script parses at all, the answer is 404 not found, even after a failed
  parse (`Reader.NotFoundWithoutPayload`).
- **Images are returned exactly as the payload holds them**
  (`Reader.ImagesOfLastPayload`).

A metadata key is the label in lower case without its FIRST colon, wherever
that colon stands. Deno gives plain objects no inherited `__proto__`
accessor, so a label that normalises to `__proto__` is stored like any
other.

## Model

| member | source | states |
|---|---|---|
| JsText.Trim | main.ts:88-89 | `trim` removes white space and line terminators from both ends and nothing else: the result is a slice of the input, everything cut before and after it is trimmable, and it neither starts nor ends with a trimmable code point |
| JsText.TrimIsUnique | main.ts:88-89 | that description of a trim fits exactly one string, so any text meeting it is the trim |
| JsText.TrimIdempotent | main.ts:174-176 | trimming an already trimmed text changes nothing |
| JsText.ToLowerAscii | main.ts:182 | lower-casing keeps the length and maps every code point on its own, ASCII capitals to small letters and the rest unchanged |
| JsText.RemoveFirst | main.ts:182 | `replace(':', '')` leaves a string without a colon alone; otherwise it removes exactly one colon, the first, keeping everything before and after it |
| Dom.AttrOr | main.ts:85-87 | a read attribute is its value when the element has it, and `''` when the element or the attribute is missing |
| Dom.TextOr | main.ts:88-89 | a read text is the trim of the element's text, or `''` when the element is missing |
| MangaHref.MatchIdMeaning | main.ts:79 | the id pattern matches exactly when some `manga/` is followed by no line terminator; the capture is the rest after the leftmost such `manga/`, less at most one trailing `/` |
| MangaHref.ManhwaIdAt | main.ts:78-82 | the series id is the capture taken at the leftmost place a match can start |
| MangaHref.ManhwaIdEmptyWithoutMarker | main.ts:76-82 | a link without `manga/` in it, the `''` of a missing link included, gives the id `''` |
| MangaHref.ManhwaIdOfOneLineHref | main.ts:79-82 | for a one-line link, the id is what follows the first `manga/`; the link is the part before it, `manga/`, the id, and at most one `/` |
| MangaHref.ManhwaIdRoundTrip | main.ts:79-82 | a link built as base + `manga/` + id + `/` yields the id back, and so does one without the final `/` when the id does not end in `/` |
| Search.ResultOf | main.ts:75-90 | each field of a result is the attribute or trimmed text it reads; a missing element or attribute gives `''` for that field alone; the id is the one the id pattern extracts from `href` |
| Search.SearchResults | main.ts:73-91 | there is one result per card, in card order, each computed from its own card |
| Search.SearchResultsAppend | main.ts:74-91 | extracting two runs of cards gives the results of each run, concatenated in order |
| JsonValues.Property | main.ts:134 | `.sources` or `.images` is defined exactly on an object holding that key, and is then the value stored under it |
| JsonValues.First | main.ts:134 | `[0]` of a non-empty array is its first element, and of an object its `"0"` entry; an empty array or an object without `"0"` gives undefined; `[0]` of a non-empty string is truthy; `[0]` of `null`, a boolean or a number is undefined |
| ReaderPayload.MatchPayloadMeaning | main.ts:122 | the payload pattern matches exactly when some `ts_reader.run(` has a `);` after it on the same line; the capture runs from the leftmost such call to its nearest `);` |
| ReaderPayload.MatchImpliesMarker | main.ts:120-122 | any text the payload pattern matches also passes the `includes('ts_reader.run')` test |
| ReaderPayload.PayloadRoundTrip | main.ts:122-124 | a one-line payload without `);` inside it, written out as a call, is captured back exactly |
| Reader.EffectOf | main.ts:119-130 | a script's payload is parsed into `v` exactly when the script contains the marker, yields a non-empty capture, and `JSON.parse` accepts that capture as `v`; the parse fails exactly when that capture is rejected; every other script is skipped |
| Reader.RunFailedMeaning | main.ts:126-130 | the scan's failure flag is set exactly when some effect is a failed parse |
| Reader.RunLastPayload | main.ts:123-125 | the last successful parse is the final `readerData` |
| Reader.RunWithoutPayload | main.ts:117-125 | with no successful parse, `readerData` stays `null` |
| Reader.ScanWithoutPayload | main.ts:117-132 | over the page's scripts, when no payload parses, `readerData` stays `null` |
| Reader.ScanLastPayload | main.ts:118-132 | over the page's scripts, `readerData` is the payload of the last script whose payload parses, whatever any earlier script held |
| Reader.ScanFailedMeaning | main.ts:118-132 | over the page's scripts, the status was set to 500 exactly when some script's payload failed to parse |
| Reader.SourceZero | main.ts:134 | the not-found test passes exactly when `readerData`, its `sources` and `sources[0]` are all truthy; the source it yields is that `sources[0]` |
| Reader.NavOf | main.ts:140-145 | a button without an `href`, or with an empty one, gives `null`; an `href` the URL constructor rejects is a failure; otherwise the id is the resolved pathname without its first character |
| Reader.ReadChapter | main.ts:117-157 | status 404 with the not-found body exactly when there is no `sources[0]`; an unresolvable navigation link gives 500 with the generic message; otherwise the chapter's title, images and prev/next ids, and status 500 exactly when some payload failed to parse, else 200 |
| Reader.NotFoundWithoutPayload | main.ts:134-137 | with no parsed payload the answer is 404 with the not-found body, even after a failed parse |
| Reader.LastPayloadWins | main.ts:123-152 | the last parsed payload decides the body: its `sources[0].images`, the trimmed heading and the two navigation ids, whatever earlier scripts held |
| Reader.OneCharacterScript | main.ts:120-124 | a script `ts_reader.run(c);` with a one-character payload is tried, and that character is what gets parsed |
| Reader.FailedParseThenPayload | main.ts:118-152 | a failed parse followed by a successful one gives the chapter body with status 500 |
| Reader.PayloadThenFailedParse | main.ts:118-152 | a payload that parses followed by one that fails to parse gives the chapter body of the first, with status 500 |
| Reader.ImagesOfLastPayload | main.ts:134-152 | when the last parsed payload is an object whose `sources` is an array with an object first, and both buttons resolve, the body's `images` is that object's `images` value as the payload holds it, or undefined when it has none |
| Reader.FailedParseThenPayloadAnswers500 | main.ts:118-157 | a concrete case: the scripts `ts_reader.run(x);` then `ts_reader.run(y);`, where only `y` parses, answer 500 with the images of `y` |
| Detail.NormalizeLabel | main.ts:182 | a label without a colon becomes its lower-cased self; otherwise the key is the lower-cased text before the label's first colon followed by the lower-cased text after it, so later colons stay; no ASCII capital remains |
| Detail.AssignAllKeys | main.ts:178-183 | after the assignments, a key is present exactly when some assignment wrote it |
| Detail.AssignAllLastWrite | main.ts:182 | each stored key holds the value of the last assignment to it |
| Detail.AssignAllSize | main.ts:178-183 | repeated keys collapse, so there are never more keys than assignments |
| Detail.FoldMetadata | main.ts:179-183 | over the info blocks, a key is present exactly when some block's normalised label is that key; it holds the trimmed value of the last such block; there are no more keys than blocks |
| Detail.ChapterOf | main.ts:187-192 | a chapter's title and date are trimmed texts and its url is the link's `href`; a missing link, `href` or date gives `''` for that field |
| Detail.Chapters | main.ts:185-193 | there is one chapter per list item, in document order, none re-sorted |
| Detail.ChaptersFollowPermutation | main.ts:186-193 | reordering the list items reorders the chapters the same way |
| Detail.ExtractDetail | main.ts:174-201 | title and synopsis are trimmed texts or `''`; the cover is `src` or `''`; the metadata keys are the normalised labels, each holding the value of the last block with that key; the chapters follow the items one for one; no missing element stops the extraction |

## Left out

- Routing is not modelled: Elysia itself, the CORS hook, the `OPTIONS` handler and the `/` route are all framework plumbing with no logic to state.
- The fetch is not modelled: `fetch`, the User-Agent header, the artificial delays, `decodeURIComponent` of the chapter id and the URL built from the route parameter are I/O.
- The search and detail routes' `catch` paths (status 500 with their message) are left out. They are reached only through the fetch or the HTML parser.
- HTML parsing and CSS selector matching are not modelled. A page is given as the results of its queries: a missing element is `None`, and a list is in document order. A document that failed to parse, which JavaScript treats through `?.`, behaves like a page whose queries all find nothing.
- `JSON.parse` is a parameter of the reader route (`None` when it throws). The model covers the parsed value's truthiness and the `.sources`, `[0]` and `.images` reads.
- `new URL(href, base).pathname` is a parameter of the reader route (`None` when the constructor throws, which ends in the outer `catch`). WHATWG URL parsing is not modelled.
- JsText.ToLowerAscii: lower-cases ASCII letters only. Full Unicode case mapping, including mappings that change the length, is left out.
- JSON numbers are exact reals, not IEEE doubles. Only their truthiness matters here.
- Strings are sequences of code points, not UTF-16 code units. A lone surrogate and the regular expressions' code-unit stepping are not distinguished.
- `console.error` logging is left out, and so are the TypeBox parameter schemas and the type declarations at lines 6-30.
- The insertion order of metadata keys is left out: the model's map is unordered.
- The `{ error: 'Error parsing reader data' }` body that the script callback returns is discarded by `forEach`. No response carries it, so the model has no counterpart for it.
- The metadata fold assumes Deno's default runtime, where `Object.prototype.__proto__` is absent. Under an engine with the legacy `__proto__` accessor, or Deno with `--unstable-unsafe-proto`, a `__proto__` key would be dropped instead of stored.
