# Gallery build scripts, modelled in Dafny

The repository is a static image gallery: a set of build scripts walks the
`assets/` folder, turns every image into a catalogue item (slug, title,
category, tags, thumbnail path, sizes), writes the item manifest, one detail
page per item and a `sitemap.xml`, and a React front end shows the result.
This project models the build-time cataloguing logic and proves properties
of it. The build exists in several diverging variants, and each is modelled
with its own rules so the variants can be compared:

- the naive full build in `scripts/build-index.mjs` and
  `scripts/build-index.php` (modules `BuildIndexJs`, `BuildIndexPhp`);
- the class-based PHP build in `scripts/ImageProcessor.php`
  (`ImageProcessorPhp`), sharded by `scripts/process-chunk.php`
  (`ChunkSlices`, `ProcessChunk`);
- the hash-cached incremental build in `scripts/incremental-build.mjs`
  (`IncrementalBuild`) with `scripts/image-processor.mjs`
  (`ImageProcessorJs`);
- what they share: slug normalisation (`Slugs`) and the per-base slug
  counter (`SlugAllocation`) of `scripts/utils.mjs` and `scripts/Utils.php`,
  the walk-filter-allocate-build loop every variant runs (`Catalogue`), and
  the small helpers of the utility files (`Utils`);
- tagging: the rule tables of `scripts/tag-mapping.mjs` (`TagMapping`) and
  the `TagSystem` index of `scripts/tag-system.mjs` (`TagSystems`, with
  `Ranking` for its sort-and-slice queries and `OrderedMaps` for the
  JavaScript `Map`);
- routes and sitemaps in the Sitemaps XML format 0.9
  (`SitemapJs` for `scripts/sitemap-generator.mjs`, `SitemapPhp` for
  `scripts/SitemapGenerator.php`, with `Escape` for `htmlspecialchars` and
  `UrlEncoding` for `urlencode`);
- detail-page template substitution (`HtmlGeneratorJs` for
  `scripts/html-generator.mjs`, `HtmlGeneratorPhp` for
  `scripts/HtmlGenerator.php`, with the shared block syntax in `Templates`);
- the two image path helpers of `components/OptimizedImage.js`
  (`OptimizedImage`).

Pure code (string derivations, rule tables, route lists, templates) is
modelled as functions with lemmas. Code that changes state step by step is
modelled as classes and methods: the slug generators, the module-level
counters and item lists of the naive builds, `ImageProcessor`,
`ChunkProcessor`, `TagSystem`, and the loops of the incremental build and
the sitemap generators. Each method is proved against a specification
function, and the properties are proved about those functions.

The filesystem, the image decoder, hashing, the clock and the environment
are inputs. A directory listing is a sequence of relative paths. A file's
image facts, hash and modification time are values given with it. `date('c')`,
`new Date()` and `process.env` readings are parameters. An exception is the
`Failure` case of a `Result`; `null` and `undefined` are `None`. Paths
are strings with `/` separators, and case mapping is ASCII.

Modules: `Wrappers` (Option, Result), `Text` (string and sequence helpers),
`Paths` (Node and PHP path functions), `PhpNumber` (PHP's `int` and `float`
arithmetic, a `float` being a real rounded to binary64), and one module per
source file named above; one `.dfy` file per module.

## Model

| member | source | states |
|---|---|---|
| Slugs.ToSlugIsSlug | scripts/utils.mjs:8-11 | every `toSlug` result uses only `[a-z0-9-_.]`, holds no `--` and neither starts nor ends with `-` |
| Slugs.StripEdgeDashIsSlug | scripts/utils.mjs:11 | removing one leading and one trailing dash from a `--`-free string of slug characters leaves a slug |
| Slugs.StripAgreesWithTrim | scripts/Utils.php:25 | on dash-collapsed text, removing one dash at each end equals `trim($slug, '-')` |
| Slugs.SlugVariantsAgree | scripts/Utils.php:20-27 | under ASCII case mapping, the PHP `toSlug` and the JavaScript `toSlug` return the same slug for every input |
| Slugs.SlugFixpoint | scripts/utils.mjs:8-11 | a string that is already a slug is returned unchanged |
| Slugs.ToSlugIdempotent | scripts/utils.mjs:8-11 | `toSlug(toSlug(s)) == toSlug(s)` |
| Slugs.RoomExample | scripts/utils.mjs:8-11 | `toSlug("Room!!")` and `toSlug("room")` are both `room` |
| Slugs.JoinedSlugs | scripts/image-processor.mjs:54-55 | two non-empty slugs joined by `-` are kept as they are by `toSlug` |
| Slugs.SlugHasNoSlash | scripts/utils.mjs:9 | a slug never contains `/` |
| SlugAllocation.Suffixed | scripts/utils.mjs:28 | `${base}-${n}` is longer than the base, starts with it and has `-` right after it |
| SlugAllocation.Allocate | scripts/utils.mjs:21-29 | one request: the bare base when the base is new (its entry becomes 0), else `base-(n+1)` with the entry incremented; every other entry is kept |
| SlugAllocation.SlugGenerator.constructor | scripts/utils.mjs:17-19 | a new generator has an empty counter |
| SlugAllocation.SlugGenerator.Generate | scripts/utils.mjs:21-29 | the slug returned and the new counter are those of `Allocate` on the old counter |
| SlugAllocation.AllocateAll | scripts/utils.mjs:21-29 | a run of requests hands out one slug per request and leaves an entry for every base requested |
| SlugAllocation.AllocateStep | scripts/utils.mjs:21-29 | one request keeps each base's bookkeeping and answers with the slug the count predicts |
| SlugAllocation.AllocateAllCounter | scripts/utils.mjs:21-29 | after a run, each base's entry reflects how many requests named it |
| SlugAllocation.AllocateAllSpec | scripts/utils.mjs:21-29 | the slug of each request is fixed by how many earlier requests named the same base |
| SlugAllocation.NthSlugInjective | scripts/utils.mjs:21-29 | the k-th and the l-th requests for one base (k ≠ l) receive different slugs |
| SlugAllocation.SameBaseDistinct | scripts/Utils.php:92-101 | two requests for the same base always receive distinct slugs |
| SlugAllocation.FreshSequence | scripts/utils.mjs:21-29 | from a fresh generator the requests for one base receive `b`, `b-1`, `b-2`, … in turn |
| SlugAllocation.CrossBaseCollision | scripts/utils.mjs:21-29 | uniqueness is per base only: the requests `b`, `b`, `b-1` receive `b`, `b-1`, `b-1` |
| SlugAllocation.CollisionFirstTwo | scripts/utils.mjs:21-28 | in that run the first two requests receive `b` and `b-1` |
| SlugAllocation.CollisionThird | scripts/utils.mjs:22-24 | in that run the third request, a new base `b-1`, receives `b-1` again |
| Utils.SizeUnitOf | scripts/utils.mjs:42-46 | MB exactly when bytes ≥ 1048576, KB exactly when 1024 ≤ bytes < 1048576, B exactly below 1024 |
| Utils.FormatSizeBytes | scripts/Utils.php:32-40 | below 1024 the result is the byte count in decimal followed by ` B` and reads back as that count; ` MB` exactly from 1048576 on; otherwise the scaled numeral and ` KB` |
| Utils.Html | scripts/utils.mjs:51-53 | the tag joins, for each literal piece in order, that piece followed by the value at its position (absent, `null` or `undefined` read as ""); values beyond the last piece are dropped, and the result is never shorter than the pieces alone |
| Utils.FilledCons | scripts/utils.mjs:52 | the piece-and-value list is the first piece with its value, then the rest of the pieces against the remaining values |
| Utils.Interleave | scripts/utils.mjs:52 | one value slot after each literal piece |
| Utils.HtmlIsInterleave | scripts/utils.mjs:51-53 | `html` equals s0 + v0 + s1 + v1 + …, with absent values read as the empty string |
| Utils.HtmlWithoutValues | scripts/utils.mjs:51-53 | with no value present the tag returns the literal pieces concatenated |
| ChunkSlices.ChunkSize | scripts/process-chunk.php:37 | `ceil(n / totalChunks)`: the smallest size whose `totalChunks` multiples reach `n` |
| ChunkSlices.ArraySlice | scripts/process-chunk.php:41 | `array_slice` returns at most `length` elements, exactly `a[offset..offset+length]` when that range lies inside the array |
| ChunkSlices.Boundary | scripts/process-chunk.php:38-39 | a chunk boundary `min(i·size, n)` never passes the end of the list |
| ChunkSlices.Chunk | scripts/process-chunk.php:37-41 | every chunk holds at most `ceil(n/totalChunks)` files |
| ChunkSlices.ChunkIsRange | scripts/process-chunk.php:38-41 | chunk i is the index range from boundary i−1 to boundary i of the file list |
| ChunkSlices.ChunkPastEndEmpty | scripts/process-chunk.php:38-41 | a chunk whose start is at or beyond the end of the list is empty |
| ChunkSlices.FiveFilesFourChunks | scripts/process-chunk.php:37-41 | five files in four chunks: size 2, chunk 3 holds the fifth file and chunk 4 is empty |
| ChunkSlices.ChunksDisjoint | scripts/process-chunk.php:38-41 | an earlier chunk ends no later than a later one starts, so chunks never overlap |
| ChunkSlices.ChunksUpToPrefix | scripts/process-chunk.php:38-41 | chunks 1..k concatenated are the prefix of the list up to boundary k |
| ChunkSlices.ChunksCover | scripts/process-chunk.php:37-41 | chunks 1..totalChunks concatenated in index order reproduce the file list |
| ChunkSlices.LastBoundary | scripts/process-chunk.php:37-39 | the last boundary is the end of the list |
| ChunkSlices.TwoFilesOneEach | scripts/process-chunk.php:37-41 | two files in four chunks: chunk 1 holds the first, chunk 2 the second |
| ChunkSlices.Merge | scripts/build-parallel.php:107-139 | concatenating the chunk outputs in chunk order succeeds exactly when every chunk succeeded |
| ChunkSlices.ChunkRuns | scripts/process-chunk.php:46-52 | one outcome per chunk run |
| ChunkSlices.ChunkSlugs | scripts/process-chunk.php:21 | one slug per accepted file of chunks 1..k, each chunk allocating from its own fresh counter |
| ChunkSlices.MergeChunkRuns | scripts/process-chunk.php:21-52 | when every chunk succeeds, the merged items are those of the accepted files of chunks 1..k with their per-chunk slugs |
| ChunkSlices.MergeChunkRunsIff | scripts/build-parallel.php:107-139 | the merge of chunks 1..k succeeds exactly when every one of those chunk runs succeeds |
| ChunkSlices.InSomeChunk | scripts/process-chunk.php:38-41 | a file is among chunks 1..k exactly when it is in one of them |
| ChunkSlices.ChunkRunsAt | scripts/process-chunk.php:21-52 | the outcome of chunk i is a run over chunk i from an empty counter |
| ChunkSlices.DigitPrefix | scripts/process-chunk.php:95 | the leading run of digits `intval` reads |
| ChunkSlices.NumericPrefix | scripts/process-chunk.php:95 | a string starts a number exactly when it starts with a digit or with `.` and a digit; the number then has at least one digit |
| ChunkSlices.IntVal | scripts/process-chunk.php:95 | `intval` skips leading whitespace; after a `-` the value is at most 0, otherwise at least 0, and a string without any digit reads as 0 |
| ChunkSlices.IntValOfNumeral | scripts/process-chunk.php:95 | `intval` of a decimal numeral followed by a character that cannot continue a number (not a digit, `.`, `e` or `E`) is its value |
| ChunkSlices.IntValTruncatesFraction | scripts/process-chunk.php:95 | a fraction is truncated: `n.ddd` reads as `n` |
| ChunkSlices.IntValScientific | scripts/process-chunk.php:95 | an exponent is read: `nek` reads as `n·10^k` |
| ChunkSlices.IntValNegativeExponent | scripts/process-chunk.php:95 | a negative exponent divides and truncates: `ne-k` reads as `n / 10^k` rounded down |
| ChunkSlices.IntValNegated | scripts/process-chunk.php:95 | a minus sign negates the value, so truncation is toward zero |
| ChunkSlices.ChunkIndexArg | scripts/process-chunk.php:89-99 | the chunk index is accepted exactly when an argument is given and its `intval` lies in 1..4, and is then that value |
| ChunkSlices.ChunkIndexArgAcceptsNumeral | scripts/process-chunk.php:95-99 | the arguments `1` to `4` are accepted as their value |
| ChunkSlices.ChunkIndexArgRejectsWord | scripts/process-chunk.php:95-99 | an argument starting with a letter reads as 0 and is rejected |
| ChunkSlices.ChunkIndexArgTruncates | scripts/process-chunk.php:95-99 | the argument `4.9` is accepted as chunk 4 |
| ChunkSlices.ChunkIndexArgReadsExponent | scripts/process-chunk.php:95-99 | the argument `0.3e1` is accepted as chunk 3 |
| ChunkSlices.ChunkIndexArgRejectsTen | scripts/process-chunk.php:95-99 | the argument `1e1` reads as 10 and is rejected |
| ChunkSlices.ChunkIndexArgNegativeExponent | scripts/process-chunk.php:95-99 | the argument `2e-1` reads as 0 and is rejected |
| ProcessChunk.ListedAccepted | scripts/process-chunk.php:71-81 | a listed file is processed exactly when its image information is readable |
| ProcessChunk.GetAllImageFiles | scripts/process-chunk.php:66-84 | the listing keeps, in walk order, exactly the files with no `_thumbs` in their path and a valid lower-cased extension |
| ProcessChunk.ChunkProcessor.constructor | scripts/process-chunk.php:18-24 | the processor records its index and count and owns a fresh, empty slug generator |
| ProcessChunk.ChunkProcessor.ProcessChunk | scripts/process-chunk.php:29-61 | with no chunks the division throws and the counter is kept; otherwise the result and the counter are those of processing the chunk's files, stopping at the first thumbnail that throws |
| ProcessChunk.RunChunk | scripts/process-chunk.php:95-102 | running one chunk fails exactly when the chunk count is 0 or a file of the chunk makes GD throw, and otherwise returns the chunk's items |
| ProcessChunk.ChunkFirstSlugIsBase | scripts/process-chunk.php:21-46 | when a chunk runs to the end, its first item receives its bare slug base, whatever earlier chunks handed out |
| ProcessChunk.ChunksRepeatSlugs | scripts/process-chunk.php:21-46 | two files with the same base in chunks 1 and 2: each chunk succeeds exactly when its file's thumbnail does not throw, and each then gives its file the bare base, so slugs repeat across chunks |
| ProcessChunk.SingleThrows | scripts/ImageProcessor.php:19-35 | a one-file walk throws exactly when that file's thumbnail throws |
| ProcessChunk.MergeAllChunks | scripts/process-chunk.php:37-60 | merging all chunks succeeds exactly when no file of the listing makes GD throw, and then gives one item per accepted file, each built with its per-chunk slug |
| ProcessChunk.ThrowsInSomeChunk | scripts/process-chunk.php:37-41 | some file of the listing throws exactly when some chunk holds a file that throws |
| OptimizedImage.WebPPath | components/OptimizedImage.js:17-24 | an empty path or one without `.` is returned as it is; otherwise the result ends in `.webp` and is at most four characters longer |
| OptimizedImage.WebPPathReplacesExtension | components/OptimizedImage.js:20-23 | the text after the last `.` is replaced by `webp`, the stem is kept |
| OptimizedImage.NormalizePath | components/OptimizedImage.js:27-47 | the empty path stays empty; every other result starts with the base path, and a path already under the base path is kept |
| OptimizedImage.NormalizeRelativeForms | components/OptimizedImage.js:31-46 | `./x`, `/x` (when not already under the base path) and bare `x` all become `basePath/x` |
| OptimizedImage.NormalizePathIdempotent | components/OptimizedImage.js:27-47 | normalising a normalised path changes nothing |
| OptimizedImage.Sources | components/OptimizedImage.js:49-59 | no `src` gives no sources; otherwise the fallback is the normalised path (under the base path when non-empty, unchanged when already under it) and the WebP source is the as-written `getWebPPath` of that fallback |
| OptimizedImage.SourcesOfExtensionlessImage | components/OptimizedImage.js:14-50 | as written, every bare extensionless `src` gets the WebP source `/yohyama0216.github.webp` while its fallback is `<base>/src` |
| OptimizedImage.CorrectedSources | components/OptimizedImage.js:49-59 | corrected: same fallback as the as-written sources, and the WebP source replaces only the last segment's extension |
| OptimizedImage.WebPPathCutsBasePath | components/OptimizedImage.js:14-24 | for an extensionless bare path, the as-written WebP path cuts at the `.` inside the base path, giving `/yohyama0216.github.webp` |
| OptimizedImage.WebPPathInLastSegment | components/OptimizedImage.js:17-24 | corrected rule: a path whose last segment has no `.` is returned as it is |
| OptimizedImage.WebPPathInLastSegmentSpec | components/OptimizedImage.js:17-24 | corrected, `dir/stem.ext` becomes `dir/stem.webp` and `dir/stem` without a dot is kept |
| OptimizedImage.CorrectedKeepsExtensionlessPath | components/OptimizedImage.js:49-50 | corrected, the WebP source of an extensionless image is its normalised path itself, so both corrected sources agree |
| Paths.Basename | scripts/tag-system.mjs:92 | `path.basename`: a suffix of the path holding no `/` |
| Paths.BasenameAfterSlash | scripts/html-generator.mjs:52 | the base name of `dir/name` is `name` |
| Paths.Dirname | scripts/image-processor.mjs:62 | `path.dirname` of a path without `/` is `.` |
| Paths.DirnameBasename | scripts/image-processor.mjs:62-65 | a path with an inner `/` is its directory name, `/` and base name |
| Paths.DirnameOfSegment | scripts/build-index.mjs:61-64 | the directory name of `dir/name` is `dir` |
| Paths.NodeExtname | scripts/image-processor.mjs:109 | `path.extname`: empty or a `.` followed by no further `.`, a proper suffix of the base name |
| Paths.NodeName | scripts/image-processor.mjs:39 | `path.parse(p).name` followed by the extension is the base name |
| Paths.NodeNameOfFile | scripts/build-index.mjs:47 | the name of `stem.ext` is `stem` |
| Paths.ExtnameOfSegment | scripts/incremental-build.mjs:72 | the extension of `dir/name` is that of `name` |
| Paths.NodeNameOfSegment | scripts/image-processor.mjs:39 | the name of `dir/name` is that of `name` |
| Paths.PhpExtension | scripts/ImageProcessor.php:50 | `pathinfo(..., PATHINFO_EXTENSION)` holds neither `.` nor `/` |
| Paths.PhpPathinfoRecombines | scripts/ImageProcessor.php:77 | a dotted base name is `filename.extension`; an undotted one is its own filename with no extension |
| Paths.LeadingDotName | scripts/ImageProcessor.php:50 | for `.name` Node sees no extension while PHP sees extension `name` and an empty filename |
| Paths.ExtensionsAgree | scripts/build-index.php:101 | when the base name has a `.` past its first character, Node's extension is `.` plus PHP's and the names agree |
| Paths.PhpPathinfoOfFile | scripts/build-index.php:101 | `pathinfo("dir/stem.ext")` has extension `ext` and filename `stem` |
| Escape.HtmlSpecialChars | scripts/HtmlGenerator.php:51-64 | `htmlspecialchars`: never shorter than its input, never holds `<` or `>`, and with `ENT_QUOTES` holds no quote either |
| Escape.EscapeCharSafe | scripts/HtmlGenerator.php:51 | each character's replacement is non-empty and free of `<`, `>` and, with `ENT_QUOTES`, of quotes |
| Escape.DecodeEscape | scripts/HtmlGenerator.php:51-64 | `htmlspecialchars_decode` recovers every escaped string exactly |
| Escape.EscapeAppend | scripts/build-index.php:231 | escaping a concatenation is the concatenation of the escapes |
| Escape.EscapePlain | scripts/SitemapGenerator.php:96 | a string with no special character is returned unchanged |
| Escape.EscapeLength | scripts/HtmlGenerator.php:51 | the escape is exactly as long as its input if and only if the input holds no special character |
| Escape.EscapeKeepsOut | scripts/HtmlGenerator.php:51-64 | a character that no entity spells and that is not in the input is not in its escape |
| UrlEncoding.Utf8Char | scripts/SitemapGenerator.php:53 | the UTF-8 form of one character is one to four bytes |
| UrlEncoding.Utf8RoundTrip | scripts/SitemapGenerator.php:53-68 | decoding the UTF-8 bytes of a string gives the string back |
| UrlEncoding.Utf8Ascii | scripts/SitemapGenerator.php:53 | an ASCII character is its own single byte |
| UrlEncoding.HexDigitValue | scripts/SitemapGenerator.php:53 | each hexadecimal digit `urlencode` writes reads back as its value |
| UrlEncoding.EncodeByte | scripts/SitemapGenerator.php:53 | one byte becomes one to three URL-safe characters |
| UrlEncoding.UrlEncode | scripts/SitemapGenerator.php:53-68 | `urlencode` output holds only letters, digits, `-`, `_`, `.`, `+` and `%` |
| UrlEncoding.DecodeEncodeBytes | scripts/SitemapGenerator.php:53-68 | `urldecode` recovers the bytes `urlencode` encoded |
| UrlEncoding.UrlRoundTrip | scripts/SitemapGenerator.php:53-68 | `urldecode(urlencode(s)) == s` for every string |
| UrlEncoding.UrlEncodeInjective | scripts/SitemapGenerator.php:53-68 | distinct category or tag names give distinct encoded query values |
| UrlEncoding.UrlEncodeUnreserved | scripts/build-index.php:295 | a string of letters, digits, `-`, `_` and `.` is encoded as itself |
| Templates.Placeholder | scripts/html-generator.mjs:61 | the placeholder is the name wrapped in `{{` and `}}` |
| Templates.IndexOf | scripts/html-generator.mjs:66 | the match position is −1 or leaves room for the whole pattern |
| Templates.IndexOfFirst | scripts/html-generator.mjs:66 | a found position is an occurrence and no occurrence lies before it; −1 means no occurrence at all |
| Templates.ReplaceBlocksAbsent | scripts/HtmlGenerator.php:84-86 | a template without an opening marker is returned unchanged |
| Templates.ReplaceBlocksPrefix | scripts/html-generator.mjs:66-67 | text before the first opening marker is copied as it is |
| Templates.ReplaceBlocksFirst | scripts/HtmlGenerator.php:84-97 | the first block is replaced by the callback's result on its body and the search resumes after its closing marker |
| Templates.UnclosedBlockKept | scripts/html-generator.mjs:66-67 | an opening marker with no closing marker after it is left in place, so the text is kept |
| HtmlGeneratorJs.FromProcessed | scripts/image-processor.mjs:76-91 | an item from `processImage` has no `originalPath`; its title and tags are carried over |
| HtmlGeneratorJs.OrElse | scripts/html-generator.mjs:45-56 | `value \|\| fallback` on strings: the value when it is non-empty, the fallback otherwise |
| HtmlGeneratorJs.Dimension | scripts/html-generator.mjs:48-49 | a width or height is written as its decimal digits, and as `?` exactly when it is missing or 0 |
| HtmlGeneratorJs.Format | scripts/html-generator.mjs:50 | the upper-cased extension without its dot, `?` when there is no extension beyond the dot |
| HtmlGeneratorJs.Filename | scripts/html-generator.mjs:52 | the download name is non-empty and holds no `/` |
| HtmlGeneratorJs.Defaulted | scripts/html-generator.mjs:45-52 | the eight variables with a default are never empty |
| HtmlGeneratorJs.Variables | scripts/html-generator.mjs:44-57 | the twelve variables are built exactly when `originalPath` is a string; otherwise `path.extname` throws |
| HtmlGeneratorJs.Expand | scripts/html-generator.mjs:62 | a replacement string without `$` is inserted literally |
| HtmlGeneratorJs.ReplaceFromPlain | scripts/html-generator.mjs:61-62 | with a `$`-free value, the left-to-right scan replaces every non-overlapping match |
| HtmlGeneratorJs.JsReplaceFills | scripts/html-generator.mjs:61-62 | a `$`-free value replaces the pieces between matches: the text split at the placeholder and re-joined with the value, and the pieces hold no placeholder |
| HtmlGeneratorJs.DollarAmpersandKeepsMatch | scripts/html-generator.mjs:62 | a value `$&` puts the matched placeholder back, so the placeholder survives |
| HtmlGeneratorJs.ReplaceFromAbsent | scripts/html-generator.mjs:61-62 | a text without the placeholder's first character is left as it is |
| HtmlGeneratorJs.SubstituteVariables | scripts/html-generator.mjs:60-63 | the loop applies the twelve replacements in turn, as the substitution function states |
| HtmlGeneratorJs.SubstituteBraceFree | scripts/html-generator.mjs:60-63 | a template without `{` is left unchanged by the substitutions |
| HtmlGeneratorJs.TagCopies | scripts/html-generator.mjs:70-72 | one copy of the block content per tag, in tag order, with `{{this}}` replaced by that tag |
| HtmlGeneratorJs.EachBodySnoc | scripts/html-generator.mjs:70-72 | one more tag appends one more copy |
| HtmlGeneratorJs.IfBody | scripts/html-generator.mjs:77-79 | the `if` block keeps its content exactly when the description is non-empty (or the content is empty) and otherwise vanishes |
| HtmlGeneratorJs.DetailHtml | scripts/html-generator.mjs:40-82 | the page is produced exactly when `originalPath` is a string |
| HtmlGeneratorJs.ReplaceTemplateVariables | scripts/html-generator.mjs:40-82 | the three passes give the page the page function describes |
| HtmlGeneratorJs.ProcessedItemsFail | scripts/html-generator.mjs:50 | an item made by `processImage` makes `replaceTemplateVariables` throw |
| HtmlGeneratorJs.BraceFreeTemplate | scripts/html-generator.mjs:40-82 | a template without `{` is the page itself for any item with a path |
| HtmlGeneratorJs.EachPass | scripts/html-generator.mjs:66-73 | a tags block becomes its copies, an empty tag list removes it, and the rest is processed after it |
| HtmlGeneratorJs.IfPass | scripts/html-generator.mjs:76-79 | an `if` block keeps its content exactly when the description is non-empty |
| HtmlGeneratorPhp.LoadTemplate | scripts/HtmlGenerator.php:31-40 | the template is its file's contents when the file exists; a missing file throws |
| HtmlGeneratorPhp.Format | scripts/HtmlGenerator.php:47 | the upper-cased PHP extension, with no lower-case letter left |
| HtmlGeneratorPhp.DownloadNameOfFile | scripts/HtmlGenerator.php:48 | the download name is the base name, with a `.` appended when the base name has none |
| HtmlGeneratorPhp.TagsValue | scripts/HtmlGenerator.php:65-67 | the joined, escaped tags hold no `<`, `>` or quote |
| HtmlGeneratorPhp.JoinInert | scripts/HtmlGenerator.php:65 | joining escaped pieces with `,` keeps them free of markup characters |
| HtmlGeneratorPhp.TextPair | scripts/HtmlGenerator.php:51-56 | a text field's replacement is its escape, free of markup characters |
| HtmlGeneratorPhp.RawPair | scripts/HtmlGenerator.php:57-59 | a raw field's replacement is inserted as it is |
| HtmlGeneratorPhp.Sizes | scripts/HtmlGenerator.php:57-59 | width and height are written as their decimal numerals and the size as the formatted text |
| HtmlGeneratorPhp.FileFields | scripts/HtmlGenerator.php:60-64 | the format is the upper-cased extension; slug, dates and file name are escaped |
| HtmlGeneratorPhp.ReplacementsEscaped | scripts/HtmlGenerator.php:50-68 | every one of the fifteen replacements except width, height, size and format is escaped |
| HtmlGeneratorPhp.ReplacementsRaw | scripts/HtmlGenerator.php:57-63 | width, height, size and format are inserted unescaped |
| HtmlGeneratorPhp.StrReplaceChains | scripts/HtmlGenerator.php:70 | `str_replace` with arrays applies the pairs in turn, so a value that spells a later placeholder is itself replaced |
| HtmlGeneratorPhp.ReplaceAllWhole | scripts/HtmlGenerator.php:70 | a text that is exactly a placeholder becomes its value |
| HtmlGeneratorPhp.StrReplaceBraceFree | scripts/HtmlGenerator.php:70 | a template without `{` is unchanged by the replacements |
| HtmlGeneratorPhp.TagsList | scripts/HtmlGenerator.php:86-97 | an empty tag list gives an empty list |
| HtmlGeneratorPhp.ExpandTags | scripts/HtmlGenerator.php:88-96 | the loop builds the tag list the function describes |
| HtmlGeneratorPhp.TagsListLast | scripts/HtmlGenerator.php:90-94 | only the last tag's copy has `{{@last}}` set to `true` |
| HtmlGeneratorPhp.TagsBlock | scripts/HtmlGenerator.php:81-98 | a tags block becomes the tag list, and vanishes when there are no tags |
| HtmlGeneratorPhp.DetailPage | scripts/HtmlGenerator.php:17-26 | the page fails exactly when the template file is missing and is otherwise the filled template |
| HtmlGeneratorPhp.BraceFreeTemplate | scripts/HtmlGenerator.php:45-76 | a template without `{` is returned unchanged |
| PhpNumber.Round | scripts/ImageProcessor.php:182-184 | the double PHP stores for a positive real lies within one unit roundoff (2^-53, relative) of it |
| PhpNumber.NearestInt | scripts/ImageProcessor.php:182-184 | the integer within one half of `y`, the even one on a tie, and `y` itself when it is an integer: binary64 rounding of a significand |
| PhpNumber.RoundIn | scripts/ImageProcessor.php:182-184 | the double nearest `x` is its significand in `x`'s binade rounded to the nearest integer, ties to even |
| PhpNumber.BinadeUnique | scripts/ImageProcessor.php:182-184 | a positive real lies in exactly one binade, so its double is well defined |
| PhpNumber.RoundInteger | scripts/ImageProcessor.php:183-184 | an image side below 2^53 converts to a double exactly |
| PhpNumber.ToFloatRounds | scripts/ImageProcessor.php:182-184 | `(float)n` is the rounding of `n` |
| PhpNumber.Truncate | scripts/ImageProcessor.php:183-184 | `intval` of a non-negative number is its floor |
| PhpNumber.DivNear | scripts/ImageProcessor.php:182 | `480 / $side` is a positive number within one rounding of the exact quotient: the exact `int` when the side divides 480, else the rounded double |
| PhpNumber.DivAboveHalf | scripts/ImageProcessor.php:182 | `a / b` with `b` at most `a` is above one half |
| PhpNumber.MinNear | scripts/ImageProcessor.php:182 | `min` of ratios near `480 / w` and `480 / h` is near 480 over the longer side |
| PhpNumber.MulNear | scripts/ImageProcessor.php:183-184 | an integer side times a ratio within one rounding of `q` is, as PHP multiplies, within two roundings of `side · q` |
| PhpNumber.TruncateNear | scripts/ImageProcessor.php:183-184 | truncating a value within two roundings of `a / m` gives `a / m` on integers, or one less when `m` divides `a`, while `a` is below 2^51 |
| PhpNumber.TruncatedProduct | scripts/build-index.php:166 | `(int)($s * $ratio)` with a ratio near `k / m` is `s·k / m` on integers, except that an exact quotient may come out one lower |
| ImageProcessorJs.Redeclared | scripts/image-processor.mjs:11-24 | a name bound again is found exactly when the names are not all distinct, and the name found is bound at two positions |
| ImageProcessorJs.LoadModule | scripts/image-processor.mjs:2-37 | an ES module loads exactly when no top-level name is bound twice, and otherwise fails with the SyntaxError naming one of its names |
| ImageProcessorJs.ModuleDoesNotLoad | scripts/image-processor.mjs:11-32 | as written the module fails to load, with the error that `loadMetadata` has already been declared |
| ImageProcessorJs.CorrectedModuleLoads | scripts/image-processor.mjs:11-19 | with the second declaration removed, every top-level name is bound once and the module loads |
| ImageProcessorJs.Or | scripts/image-processor.mjs:44-46 | `metadata.x \|\| fallback`: the fallback, or the field's value when that is a non-empty string |
| ImageProcessorJs.SidecarPath | scripts/image-processor.mjs:12 | the sidecar path is the image path itself or ends in `.meta.json` |
| ImageProcessorJs.SidecarPathOf | scripts/image-processor.mjs:12 | `stem.ext` with an image extension in any case has sidecar `stem.meta.json` |
| ImageProcessorJs.LoadMetadata | scripts/image-processor.mjs:11-19 | an image without a readable sidecar gets the empty metadata |
| ImageProcessorJs.TitleFromBase | scripts/image-processor.mjs:44 | the title derived from the base name holds no `-` or `_` and has no surrounding white space |
| ImageProcessorJs.TitleOfPlainBase | scripts/image-processor.mjs:44 | a base name without `-`, `_` or surrounding white space is its own title |
| ImageProcessorJs.Parts | scripts/image-processor.mjs:45 | `split("/")` always yields at least one part; `explode('/')` in scripts/build-index.php splits the same way |
| ImageProcessorJs.FolderTags | scripts/image-processor.mjs:49 | the folder tags are the non-empty directory segments, each once |
| ImageProcessorJs.Category | scripts/image-processor.mjs:46 | the category is never empty and is the sidecar's category when that is non-empty |
| ImageProcessorJs.SlugBase | scripts/image-processor.mjs:54 | the slug base `toSlug(category-base)` is a slug |
| ImageProcessorJs.ThumbPath | scripts/image-processor.mjs:62-64 | the thumbnail path lies under `assets/_thumbs/` and ends in `<name>-480.jpg` |
| ImageProcessorJs.ThumbPathLayout | scripts/image-processor.mjs:62-64 | a file `dir/name` gets `assets/_thumbs/dir/<name>-480.jpg`, a top-level file `assets/_thumbs/<name>-480.jpg` |
| ImageProcessorJs.Tags | scripts/image-processor.mjs:49-51 | the tags are the folder tags followed by the new sidecar tags, each once: exactly the union of the two |
| ImageProcessorJs.DeriveItemFields | scripts/image-processor.mjs:37-94 | the item's slug, id, file, category, tags and defaults for title, description and license follow the rules of `processImage` |
| ImageProcessorJs.MakeItem | scripts/image-processor.mjs:58-59 | an item is made exactly when the image can be decoded; otherwise `sharp` rejects |
| ImageProcessorJs.ProcessImage | scripts/image-processor.mjs:37-94 | one slug is allocated for the slug base and the item is made with it |
| ImageProcessorJs.ProcessImages | scripts/image-processor.mjs:99-121 | the walk processes the files in order, as the specification function states, stopping at the first rejection |
| ImageProcessorJs.ProcessImagesSkip | scripts/image-processor.mjs:109-110 | a file with another extension, or any file after a rejection, changes nothing |
| ImageProcessorJs.ProcessImagesVisit | scripts/image-processor.mjs:109-113 | an accepted file adds its item with the next slug |
| ImageProcessorJs.ProcessImagesStopped | scripts/image-processor.mjs:107-111 | once a file is rejected, the later files change nothing |
| ImageProcessorJs.ProcessImagesItems | scripts/image-processor.mjs:99-121 | on success there is one item per accepted file, in walk order, each built with the slug allocated for it |
| ImageProcessorJs.MakeFnSucceeds | scripts/image-processor.mjs:58-59 | making an item succeeds exactly for decodable images |
| ImageProcessorJs.ProcessImagesFails | scripts/image-processor.mjs:99-121 | the walk rejects exactly when some accepted file cannot be decoded |
| ImageProcessorJs.ProcessImagesSlugsDistinct | scripts/image-processor.mjs:54-55 | two accepted files with the same slug base receive distinct slugs |
| ImageProcessorJs.ThumbnailsAreProcessed | scripts/image-processor.mjs:109-110 | a thumbnail under `_thumbs` has a valid extension and is picked up again by the walk |
| ImageProcessorPhp.AcceptsIff | scripts/ImageProcessor.php:50-67 | a file is processed exactly when its lower-cased extension is valid, its path holds no `_thumbs` and its image information is readable |
| ImageProcessorPhp.ThumbsAnywhere | scripts/ImageProcessor.php:58 | a path with `_thumbs` anywhere in it, even inside a name, is skipped |
| ImageProcessorPhp.CategoryFromPath | scripts/ImageProcessor.php:115-122 | the category holds no `/` |
| ImageProcessorPhp.CategoryIsFirstFolder | scripts/ImageProcessor.php:115-122 | the category of `assetsDir/rel` is the first segment of `rel` |
| ImageProcessorPhp.CategoryOfTopLevelFile | scripts/ImageProcessor.php:115-122 | a file directly under the assets directory has its own file name as category |
| ImageProcessorPhp.RelativePath | scripts/ImageProcessor.php:74-75 | the relative path holds no backslash |
| ImageProcessorPhp.RelativePathOf | scripts/ImageProcessor.php:74-75 | the relative path of `assetsDir/rel` is `assets/rel` |
| ImageProcessorPhp.ThumbnailPath | scripts/ImageProcessor.php:132-134 | the thumbnail path lies under `assets/_thumbs/` |
| ImageProcessorPhp.ThumbnailPathIsFlat | scripts/ImageProcessor.php:133-134 | two images with the same name in different folders get the same thumbnail path |
| ImageProcessorPhp.GdThumbnailFits | scripts/ImageProcessor.php:181-184 | under PHP's double ratio and `intval`, neither side of the thumbnail exceeds 480 and the longer side becomes 480, or 479 when the rounded ratio falls just short |
| ImageProcessorPhp.GdScaledSide | scripts/ImageProcessor.php:182-184 | a side `s` scales to `s·480/longer` truncated, except that an exact quotient may come out one lower through rounding |
| ImageProcessorPhp.GdSideZero | scripts/ImageProcessor.php:182-184 | a side truncates to 0 only if it times 480 is at most the longer side, and always when it is below |
| ImageProcessorPhp.GdThumbnailOfElevenByOne | scripts/ImageProcessor.php:182-184 | an 11×1 image gets a 479×43 thumbnail: the double ratio `480/11` times 11 falls below 480 |
| ImageProcessorPhp.TieThumbnailThrows | scripts/ImageProcessor.php:182-187 | a stale 23520×49 JPEG gets a thumbnail height of `intval(49 * min(480 / 23520, 480 / 49))` = 0, the product of the rounded ratio falling just below 1, so `imagecreatetruecolor` throws |
| ImageProcessorPhp.TieThumbnailDrawn | scripts/ImageProcessor.php:182-187 | a stale 960×2 JPEG, whose shorter side times 480 also equals its longer side, gets a 480×1 thumbnail and no error |
| ImageProcessorPhp.ThumbnailErrorCases | scripts/ImageProcessor.php:137-187 | the thumbnail step throws only when the image has info, its thumbnail is missing or older than it, GD loads and decodes it, and a side is zero or the shorter side times 480 is at most the longer; with all of that and "below" in place of "at most" it always throws |
| ImageProcessorPhp.LoadMetadata | scripts/ImageProcessor.php:228-246 | without a folder `.meta.json`, with an unreadable one or with no entry for the file name, the metadata is empty |
| ImageProcessorPhp.MetadataKeyDropsExtension | scripts/ImageProcessor.php:244-245 | two images that differ only in extension share their metadata entry |
| ImageProcessorPhp.SlugBaseOf | scripts/ImageProcessor.php:77-81 | the slug base is `toSlug` of the file name without extension |
| ImageProcessorPhp.MakeItemFields | scripts/ImageProcessor.php:91-106 | id and slug are the slug; title, tags, description and license fall back as `??` does; both dates are the same |
| ImageProcessorPhp.ProcessImagesSkip | scripts/ImageProcessor.php:50-67 | a file that is not accepted changes nothing |
| ImageProcessorPhp.ProcessImagesVisit | scripts/ImageProcessor.php:40-110 | an accepted file whose thumbnail does not throw appends its item with the next slug; one whose thumbnail throws ends the whole walk with that error |
| ImageProcessorPhp.ProcessImagesNext | scripts/ImageProcessor.php:25-33 | one more file continues the walk with that file's step, or ends it with that step's error |
| ImageProcessorPhp.ProcessImagesFailsIff | scripts/ImageProcessor.php:19-35 | the walk fails exactly when some accepted file's thumbnail throws |
| ImageProcessorPhp.ThrowsAmongAccepted | scripts/ImageProcessor.php:50-67 | a file throws only if it is accepted: the walk's failure is a failure among the accepted files |
| ImageProcessorPhp.ProcessImagesItems | scripts/ImageProcessor.php:19-35 | the walk succeeds exactly when no accepted file's thumbnail throws, and then yields one item per accepted file, in walk order, each with the slug allocated for it |
| ImageProcessorPhp.ProcessImagesSlugsDistinct | scripts/ImageProcessor.php:81-82 | two accepted files with the same slug base receive distinct slugs |
| ImageProcessorPhp.ImageProcessor.constructor | scripts/ImageProcessor.php:10-14 | the processor holds the given assets directory and slug generator |
| ImageProcessorPhp.ImageProcessor.ProcessImage | scripts/ImageProcessor.php:40-110 | a file that is not accepted changes nothing; an accepted one advances the generator and either appends its item or fails with its thumbnail's error |
| ImageProcessorPhp.ImageProcessor.ProcessImages | scripts/ImageProcessor.php:19-35 | the walk yields the result and the counter the specification function gives, stopping at the first thumbnail that throws |
| BuildIndexJs.HandleImageItem | scripts/build-index.mjs:45-90 | an item is made exactly when the image can be decoded; otherwise `sharp` rejects |
| BuildIndexJs.HandleImageNaming | scripts/build-index.mjs:47-85 | id, slug, title, file, thumbnail path, license and image facts are those `handleImage` writes |
| BuildIndexJs.HandleImageFiling | scripts/build-index.mjs:49-51 | the category is the first segment or `misc`; the tags are the non-empty folders, each once |
| BuildIndexJs.SameAsProcessImageWithoutSidecar | scripts/build-index.mjs:45-90 | for an image without a sidecar, `handleImage` builds the same fields and slug base as `processImage` |
| BuildIndexJs.FolderFileSlugBase | scripts/build-index.mjs:50-54 | for `dir/name` the category is `dir` and the slug base is `toSlug(dir-name)` |
| BuildIndexJs.SlugNamedFile | scripts/build-index.mjs:54 | a file whose folder and stem are already slugs has slug base `dir-stem` |
| BuildIndexJs.IndexBuild.constructor | scripts/build-index.mjs:14-15 | the build starts with no items and an empty slug counter |
| BuildIndexJs.IndexBuild.UniqueSlug | scripts/build-index.mjs:21-26 | the slug and the new counter are those of one allocation; the items are unchanged |
| BuildIndexJs.IndexBuild.HandleImage | scripts/build-index.mjs:45-90 | the slug counter and item list change as one `handleImage` step specifies |
| BuildIndexJs.IndexBuild.Walk | scripts/build-index.mjs:33-43 | the walk appends the items of the run and reports its rejection, if any |
| BuildIndexJs.WalkSkip | scripts/build-index.mjs:39-40 | a file without a valid extension changes nothing |
| BuildIndexJs.WalkVisit | scripts/build-index.mjs:40 | an accepted file extends the run by one step, or ends the whole walk with its rejection |
| BuildIndexJs.WalkStopped | scripts/build-index.mjs:33-43 | after a rejection the later files change nothing |
| BuildIndexJs.WalkItems | scripts/build-index.mjs:33-90 | a successful walk yields one item per accepted file, in order, each with the slug allocated for it |
| BuildIndexJs.WalkFails | scripts/build-index.mjs:58-59 | the walk rejects exactly when some accepted file cannot be decoded |
| BuildIndexJs.WalkSlugsDistinct | scripts/build-index.mjs:21-55 | two accepted files with the same slug base receive distinct slugs |
| BuildIndexJs.Pages | scripts/build-index.mjs:186-189 | one sitemap page per item, with the item's file and slug |
| BuildIndexJs.BuildSitemapXml | scripts/build-index.mjs:161-167 | the sitemap is the shared sitemap layout followed by a newline |
| BuildIndexJs.BuildIndex | scripts/build-index.mjs:169-193 | the build fails exactly when the walk rejects; otherwise it yields the walked items and the sitemap of their routes |
| BuildIndexJs.DetailPagesListed | scripts/build-index.mjs:185-189 | every item's detail page is one of the sitemap routes |
| BuildIndexPhp.IngestedFile | scripts/build-index.php:401-408 | a file is handled exactly when its lower-cased extension is valid and its full path has no `/_thumbs/` segment |
| BuildIndexPhp.ThumbsFolderSkipped | scripts/build-index.php:405 | a file in the top-level `_thumbs` folder is never handled |
| BuildIndexPhp.UcWords | scripts/build-index.php:103 | `ucwords` keeps the length and changes each character as the word rule says |
| BuildIndexPhp.DashesToSpaces | scripts/build-index.php:103 | every `-` and `_` becomes a space, the rest is kept |
| BuildIndexPhp.TitleSpaces | scripts/build-index.php:103 | a title character is a space exactly where the base name has a space, `-` or `_` |
| BuildIndexPhp.TitleNoDashes | scripts/build-index.php:103 | a title holds no `-` and no `_` |
| BuildIndexPhp.TitleCaseOnly | scripts/build-index.php:103 | apart from spaces, the title differs from the base name only in case |
| BuildIndexPhp.TitleWordStarts | scripts/build-index.php:103 | the title's first character and every character after a space are not lower-case |
| BuildIndexPhp.UcWordsIdempotent | scripts/build-index.php:103 | `ucwords` applied twice equals `ucwords` applied once |
| BuildIndexPhp.CategoryOf | scripts/build-index.php:105-106 | the category of `dir/name` is `dir`, and a top-level file is its own category |
| BuildIndexPhp.FolderTags | scripts/build-index.php:107 | the folder tags hold no duplicate |
| BuildIndexPhp.FolderTagsMembers | scripts/build-index.php:107 | a tag is a folder tag exactly when it is a truthy directory segment |
| BuildIndexPhp.TagsDropZeroFolders | scripts/build-index.php:107 | the PHP tags are the JavaScript tags without a folder named `0`, which `array_filter` drops |
| BuildIndexPhp.SlugBaseAgrees | scripts/build-index.php:101-110 | under ASCII case mapping, when the base name has an ordinary extension and the first segment is not empty, the PHP slug base equals the JavaScript one |
| BuildIndexPhp.ThumbPathOf | scripts/build-index.php:120-122 | `dir/name` gets `assets/_thumbs/dir/<filename>-480.jpg`, a top-level file `assets/_thumbs/./<filename>-480.jpg` |
| BuildIndexPhp.MakeItemFields | scripts/build-index.php:114-141 | id, slug, file and license are those `handleImage` writes; width and height are present exactly when the image information is |
| BuildIndexPhp.ThumbnailNeverUpscales | scripts/build-index.php:161-167 | a thumbnail is at most `maxWidth` wide, never larger than the source, and equal to it exactly when the source is narrow enough; a wider source gets height `height·maxWidth/width` truncated, an exact quotient possibly one lower through the double division |
| BuildIndexPhp.ScaledHeightBound | scripts/build-index.php:166 | the truncated double height `(int)(height * (maxWidth / width))` is the integer quotient, or one lower when that is exact |
| BuildIndexPhp.ThumbnailErrorCases | scripts/build-index.php:154-200 | `createThumbnail` throws only for a readable image of a type GD loads that has a zero side, is wider than 480 with its height times 480 at most its width, or does not decode; with "below" in place of "at most" such an image always throws |
| BuildIndexPhp.IndexBuild.constructor | scripts/build-index.php:22-23 | the build starts with no items and an empty slug counter |
| BuildIndexPhp.IndexBuild.UniqueSlug | scripts/build-index.php:41-51 | the slug and the new counter are those of one allocation; the items are unchanged |
| BuildIndexPhp.IndexBuild.HandleImage | scripts/build-index.php:95-149 | the slug counter, item list and result change as one `handleImage` step specifies, failing when `createThumbnail` throws |
| BuildIndexPhp.IndexBuild.Walk | scripts/build-index.php:401-409 | the counter is that of the run; the walk reports an error exactly when the run fails, with the run's error, and otherwise appends the run's items |
| BuildIndexPhp.IndexBuild.Visit | scripts/build-index.php:402-407 | one visited file keeps the state in step with the run |
| BuildIndexPhp.WalkSkip | scripts/build-index.php:402-405 | a file that is not handled changes nothing |
| BuildIndexPhp.WalkVisit | scripts/build-index.php:406 | a handled file extends the run by one step |
| BuildIndexPhp.WalkFailsIff | scripts/build-index.php:401-409 | the walk fails exactly when some handled file makes `createThumbnail` throw |
| BuildIndexPhp.OneFileWalk | scripts/build-index.php:95-149 | a one-file walk fails with that file's thumbnail error, or yields its item with the bare slug base |
| BuildIndexPhp.ThinImageStopsWalk | scripts/build-index.php:161-189 | a 1000×2 JPEG scales to a thumbnail height of 0, so `imagecreatetruecolor` throws and the walk stops |
| BuildIndexPhp.TieImageStopsWalk | scripts/build-index.php:161-189 | a 23520×49 JPEG gets height `(int)(49 * (480 / 23520))` = 0 although 49·480 equals 23520, so the walk stops with the height error |
| BuildIndexPhp.TieImageIsDrawn | scripts/build-index.php:161-189 | a 960×2 JPEG, whose height times 480 also equals its width, gets a 480×1 thumbnail and no error |
| BuildIndexPhp.UnreadableImageIsListed | scripts/build-index.php:114-127 | an image without readable info is still listed, without width, and its thumbnail is skipped |
| BuildIndexPhp.WalkItems | scripts/build-index.php:401-409 | a walk that runs to the end yields one item per handled file, in order, each with the slug allocated for it |
| BuildIndexPhp.WalkSlugsDistinct | scripts/build-index.php:41-51 | two handled files with the same slug base receive distinct slugs |
| BuildIndexPhp.GetBaseUrlOf | scripts/build-index.php:367-371 | `owner/rest` gives `https://owner.github.io/rest/`, the rest kept whole |
| BuildIndexPhp.GetBaseUrlDefault | scripts/build-index.php:368 | an unset, empty or `0` variable falls back to `owner/repo` |
| BuildIndexPhp.GetBaseUrlNoSlash | scripts/build-index.php:369-370 | a value without `/` gives an empty repository name |
| BuildIndexPhp.BaseUrlsDiffer | scripts/build-index.php:369 | with a repository path of three segments, PHP keeps `repo/extra` while JavaScript keeps only `repo` |
| BuildIndexPhp.CollectRoutes | scripts/build-index.php:420-428 | the routes are the root, `index.html`, and each item's file and detail page, in order |
| BuildIndexPhp.RoutesAsJavaScript | scripts/build-index.php:430 | `array_unique` of the PHP routes equals the JavaScript set of routes |
| BuildIndexPhp.LocLines | scripts/build-index.php:378-380 | one `<url><loc>` line per route |
| BuildIndexPhp.BuildSitemapXml | scripts/build-index.php:376-385 | the loop builds the sitemap the function describes |
| BuildIndexPhp.EscapeAll | scripts/build-index.php:379 | each route is escaped with `htmlspecialchars` |
| BuildIndexPhp.SitemapIsEscapedJavaScript | scripts/build-index.php:376-385 | the PHP sitemap equals the JavaScript sitemap of the escaped routes |
| BuildIndexPhp.SitemapLines | scripts/build-index.php:376-385 | the sitemap's lines are the declaration, the opening tag, one line per route and the closing tag, and each route reads back from its escape |
| BuildIndexPhp.BuildIndex | scripts/build-index.php:389-436 | the build fails exactly when the walk does, with its error; otherwise it yields the walked items and the sitemap of their distinct routes |
| SitemapJs.ItemUrls | scripts/sitemap-generator.mjs:24-27 | two URLs per item, in item order: its file, then its detail page |
| SitemapJs.GenerateRoutes | scripts/sitemap-generator.mjs:18-30 | the loop builds the route list the specification function describes |
| SitemapJs.RoutesShape | scripts/sitemap-generator.mjs:18-30 | the routes start with the root and `index.html`, hold no duplicate and number at most two plus two per item |
| SitemapJs.RoutesMembers | scripts/sitemap-generator.mjs:18-30 | a URL is a route exactly when it is the root, `index.html`, or an item's file or detail page |
| SitemapJs.ItemUrlsMembers | scripts/sitemap-generator.mjs:24-27 | a URL is an item URL exactly when it is some item's file or detail page |
| SitemapJs.SameFileListedOnce | scripts/sitemap-generator.mjs:19-29 | two items sharing a file contribute that file once but both detail pages |
| SitemapJs.UrlEntries | scripts/sitemap-generator.mjs:7 | one `<url><loc>` entry per route, in order |
| SitemapJs.SitemapLines | scripts/sitemap-generator.mjs:6-13 | the document's lines are the declaration, the opening tag, one entry per route and the closing tag |
| SitemapJs.BaseUrlOfRepository | scripts/sitemap-generator.mjs:36-37 | `owner/repo/...` gives `https://owner.github.io/repo/`: segments past the second are dropped |
| SitemapJs.GetBaseUrlOf | scripts/sitemap-generator.mjs:35-38 | with `GITHUB_REPOSITORY` set to `owner/repo/...`, the base URL is `https://owner.github.io/repo/` |
| SitemapJs.GetBaseUrlDefault | scripts/sitemap-generator.mjs:36 | an unset or empty variable falls back to `owner/repo` |
| SitemapJs.GetBaseUrlNoSlash | scripts/sitemap-generator.mjs:36-37 | a value without `/` leaves `repo` undefined, and `undefined` is written into the URL |
| SitemapPhp.CategoryColumn | scripts/SitemapGenerator.php:50 | `array_column($items, 'category')`: the items' categories in order |
| SitemapPhp.QueryUrls | scripts/SitemapGenerator.php:51-72 | one URL per name: the base URL, the query and the url-encoded name |
| SitemapPhp.RoutesOf | scripts/SitemapGenerator.php:51-72 | each URL becomes a route with the build time and the given priority |
| SitemapPhp.DetailRoutes | scripts/SitemapGenerator.php:75-81 | one detail route per item, with its slug URL, its `updatedAt` and priority `0.9` |
| SitemapPhp.GenerateRoutes | scripts/SitemapGenerator.php:30-84 | the loops build the route list the specification function describes |
| SitemapPhp.AppendQueryRoutes | scripts/SitemapGenerator.php:51-57 | a query loop appends one route per name, in order |
| SitemapPhp.AppendDetailRoutes | scripts/SitemapGenerator.php:75-81 | the detail loop appends one route per item, in order |
| SitemapPhp.CollectTags | scripts/SitemapGenerator.php:60-63 | the merged tag list holds exactly the tags of the items |
| SitemapPhp.AllTagsMembers | scripts/SitemapGenerator.php:60-64 | a tag is in the merged list exactly when some item has it |
| SitemapPhp.CategoryRouteAt | scripts/SitemapGenerator.php:49-57 | the category routes follow the two fixed routes, one per distinct category, with priority `0.7` |
| SitemapPhp.TagRouteAt | scripts/SitemapGenerator.php:66-72 | the tag routes follow the category routes, one per distinct tag, with priority `0.6` |
| SitemapPhp.DetailRouteAt | scripts/SitemapGenerator.php:75-81 | the detail routes come last, one per item in item order |
| SitemapPhp.RouteLayout | scripts/SitemapGenerator.php:30-84 | the route count, the two fixed routes and every route's time stamp and priority |
| SitemapPhp.QueryUrlsDistinct | scripts/SitemapGenerator.php:53-68 | distinct names give distinct query URLs |
| SitemapPhp.QueryUrlsMembers | scripts/SitemapGenerator.php:53-68 | a name's query URL is listed exactly when the name is |
| SitemapPhp.CategoryPages | scripts/SitemapGenerator.php:49-57 | the category URLs are distinct, and a category has a URL exactly when some item has that category |
| SitemapPhp.TagPages | scripts/SitemapGenerator.php:59-72 | the tag URLs are distinct, and a tag has a URL exactly when some item has that tag |
| SitemapPhp.SharedSlugListedTwice | scripts/SitemapGenerator.php:75-81 | two items with the same slug give two routes with the same URL |
| SitemapPhp.LocsAreUrls | scripts/SitemapGenerator.php:96 | with plain slugs, escaping leaves every route URL as it is |
| SitemapPhp.RouteUrlPlain | scripts/SitemapGenerator.php:36-81 | with plain slugs, no route URL holds a character `htmlspecialchars` changes |
| SitemapPhp.EncodedPlain | scripts/SitemapGenerator.php:53-68 | an url-encoded name holds no character `htmlspecialchars` changes |
| SitemapPhp.BlockLines | scripts/SitemapGenerator.php:95-99 | each route is written as five lines |
| SitemapPhp.BodyLines | scripts/SitemapGenerator.php:94-100 | five lines per route |
| SitemapPhp.GenerateSitemapXml | scripts/SitemapGenerator.php:89-105 | the loop builds the document the specification function describes |
| SitemapPhp.AppendBlock | scripts/SitemapGenerator.php:95-99 | one route appends its five newline-terminated lines |
| SitemapPhp.SitemapLines | scripts/SitemapGenerator.php:89-105 | the document splits at newlines into the declaration, the opening tag, five lines per route, the closing tag and a final empty piece |
| SitemapPhp.BodyBlock | scripts/SitemapGenerator.php:94-100 | lines 5i to 5i+4 of the body are route i's block |
| SitemapPhp.LocDecodes | scripts/SitemapGenerator.php:96 | route i's `<loc>` line is its escaped URL, which decodes back to the URL |
| SitemapPhp.GenerateSitemap | scripts/SitemapGenerator.php:17-25 | the document is the sitemap of the routes, and the count printed is two plus the distinct categories, the distinct tags and the items |
| TagMapping.Lookup | scripts/tag-mapping.mjs:51 | `table[key]`: a found entry is in the table, and a missing key has no entry |
| TagMapping.Parts | scripts/tag-mapping.mjs:49 | the segments are exactly the non-empty pieces of the path split at `/` |
| TagMapping.FileName | scripts/tag-mapping.mjs:57 | the lower-cased last segment, or empty for a path without segments |
| TagMapping.DirectoryTags | scripts/tag-mapping.mjs:50-54 | a tag is added exactly when some segment is a `directoryTags` key listing it |
| TagMapping.PatternTags | scripts/tag-mapping.mjs:58-69 | a tag is added exactly when some key occurring in the file name lists it |
| TagMapping.CategoryTags | scripts/tag-mapping.mjs:72-75 | the `categoryTags` of the first segment, none without segments |
| TagMapping.GenerateTags | scripts/tag-mapping.mjs:45-83 | the tags hold no duplicate and include every sidecar tag and every directory tag of every segment |
| TagMapping.GenerateTagsOrder | scripts/tag-mapping.mjs:45-83 | the result is the insertions in order, each tag kept where it was first added |
| TagMapping.DirectoryTagsFirst | scripts/tag-mapping.mjs:48-54 | the directory tags come first, in the order of their segments |
| TagMapping.GenerateTagsMembers | scripts/tag-mapping.mjs:45-83 | a tag is in the result exactly when one of the five rules adds it; no raw segment gets in |
| Ranking.Insert | scripts/tag-system.mjs:188 | inserting keeps every element: the result is a permutation of the sequence and the new element |
| Ranking.InsertRanked | scripts/tag-system.mjs:188 | inserting into a ranked sequence keeps it ranked |
| Ranking.SortDesc | scripts/tag-system.mjs:188 | the sort is a permutation of its input with no element ranking above an earlier one |
| Ranking.SliceEnd | scripts/tag-system.mjs:209 | the end of `slice(0, limit)` is within the sequence and, for a non-negative limit, within the limit |
| Ranking.Slice | scripts/tag-system.mjs:248 | `slice(0, limit)` is a prefix: at most `limit` elements, or all but the last `-limit` |
| TagSystems.Normalize | scripts/tag-system.mjs:32-41 | a loaded definition keeps id, name and description and gets the default category, colour, aliases and children where they are missing |
| TagSystems.NormalizeSettled | scripts/tag-system.mjs:32-41 | loading a loaded definition again changes nothing |
| TagSystems.DefPairs | scripts/tag-system.mjs:31-42 | one `set` per definition, under the definition's id |
| TagSystems.PutKeyedById | scripts/tag-system.mjs:32 | setting a tag under its own id keeps every tag under its own id |
| TagSystems.FindKeyedById | scripts/tag-system.mjs:32 | a tag looked up by id has that id |
| TagSystems.RulePairs | scripts/tag-system.mjs:59-66 | each rule is set under its pattern with the `filename:` or `directory:` prefix |
| TagSystems.AssociateLinks | scripts/tag-system.mjs:116-132 | after associating, an image and a tag are linked in either relation exactly when they were before or the image is the one given and the tag in the list; the image always has an entry |
| TagSystems.AssociateInverse | scripts/tag-system.mjs:116-132 | associating keeps the two relations inverse to each other |
| TagSystems.AssociateSetValued | scripts/tag-system.mjs:119-130 | associating keeps every relation entry free of duplicates |
| TagSystems.RuleTags | scripts/tag-system.mjs:96-108 | a tag is produced exactly when a firing `filename:` or `directory:` rule lists it |
| TagSystems.AutoTags | scripts/tag-system.mjs:90-111 | the auto tags are the tags of the firing rules, each once |
| TagSystems.ProcessedTags | scripts/tag-system.mjs:137-160 | the recorded tags are the sidecar and auto tags, each once, restricted to defined ids; the reported auto tags are the defined auto tags |
| TagSystems.StatsInOrder | scripts/tag-system.mjs:181-187 | one stat per tag in map order, with the size of its image set |
| TagSystems.TagStatsEntries | scripts/tag-system.mjs:179-189 | `getTagStats` has one entry per defined tag, whose count is the size of the tag's image set |
| TagSystems.TagStatsOrdered | scripts/tag-system.mjs:188 | the stats are ordered by image count, highest first |
| TagSystems.CountTagsStep | scripts/tag-system.mjs:200-204 | one more tag bumps its count unless it is the query tag |
| TagSystems.BumpCount | scripts/tag-system.mjs:202 | bumping a tag adds one to its count and leaves the other counts alone |
| TagSystems.BumpKeys | scripts/tag-system.mjs:202 | bumping appends a new tag to the keys and keeps them unique |
| TagSystems.CountTagsCount | scripts/tag-system.mjs:200-204 | after one image, each tag's count has grown by one exactly when the image carries it and it is not the query tag |
| TagSystems.CountTagsKeys | scripts/tag-system.mjs:200-204 | after one image, the counted tags are the earlier ones and the image's tags other than the query tag |
| TagSystems.CountImagesCount | scripts/tag-system.mjs:198-205 | each tag's final count is the number of the query tag's images that also carry it |
| TagSystems.CountImagesKeys | scripts/tag-system.mjs:198-205 | a tag is counted exactly when it is not the query tag and shares an image with it |
| TagSystems.RelatedCountsMeaning | scripts/tag-system.mjs:194-205 | every counted entry is another tag with its positive co-occurrence count |
| TagSystems.RelatedTags | scripts/tag-system.mjs:207-213 | each kept entry is paired with its tag looked up by id |
| TagSystems.RelatedTagsOrdered | scripts/tag-system.mjs:207-209 | `getRelatedTags` returns at most `limit` entries, counts non-increasing |
| TagSystems.RelatedTagsCounts | scripts/tag-system.mjs:194-214 | an entry never is the query tag, and its count is the number of shared images, at least one |
| TagSystems.Score | scripts/tag-system.mjs:224-235 | 100 for an exact name, at least 80 for a name prefix, 60 for a name substring, 40 for an alias substring, positive when the description holds the query too |
| TagSystems.Hits | scripts/tag-system.mjs:223-244 | a hit is listed exactly for each tag with a positive score |
| TagSystems.SearchTagsOrdered | scripts/tag-system.mjs:246-248 | at most `limit` hits, by score and then image count, highest first |
| TagSystems.SearchTagsSound | scripts/tag-system.mjs:219-249 | every hit returned belongs to a tag and has a positive score |
| TagSystems.SearchTagsComplete | scripts/tag-system.mjs:219-249 | with a limit no smaller than the tag count, every matching tag is returned |
| TagSystems.HitsBound | scripts/tag-system.mjs:223-244 | there are no more hits than tags |
| TagSystems.TagSystem.constructor | scripts/tag-system.mjs:15-21 | a new system has no tags, no rules and no relations |
| TagSystems.TagSystem.LoadTagDefinitions | scripts/tag-system.mjs:26-48 | an unreadable file changes nothing; otherwise each definition is set under its id; nothing else changes |
| TagSystems.TagSystem.SetTags | scripts/tag-system.mjs:31-42 | the pairs are set in turn and the invariant is kept |
| TagSystems.TagSystem.LoadTagMappings | scripts/tag-system.mjs:53-72 | an unreadable file changes nothing; otherwise the file-name rules and then the directory rules are set with their prefixes |
| TagSystems.TagSystem.SetRules | scripts/tag-system.mjs:59-66 | the rules are set in turn and nothing else changes |
| TagSystems.TagSystem.AssociateImageWithTags | scripts/tag-system.mjs:116-132 | the relations become their association with the image and tags; tags and rules are unchanged |
| TagSystems.TagSystem.ProcessImage | scripts/tag-system.mjs:137-160 | the result is the processed tags and the relations are updated with them; tags and rules are unchanged |
| TagSystems.TagSystem.GenerateAutoTags | scripts/tag-system.mjs:90-111 | the tags of the rules that fire on the lower-cased file name or directory, each once |
| TagSystems.TagSystem.GetImagesForTag | scripts/tag-system.mjs:165-167 | the images listed for a tag are exactly those whose own tag set holds it, each once |
| TagSystems.TagSystem.GetTagsForImage | scripts/tag-system.mjs:172-174 | the tags listed for an image are exactly those whose own image set holds it, each once |
| TagSystems.TagSystem.GetTagStats | scripts/tag-system.mjs:179-189 | one entry per tag with its image count, highest count first |
| TagSystems.TagSystem.GetRelatedTags | scripts/tag-system.mjs:194-214 | at most `limit` entries, counts non-increasing, never the query tag itself |
| TagSystems.TagSystem.SearchTagsOf | scripts/tag-system.mjs:219-249 | at most `limit` hits, each a tag with a positive score |
| IncrementalBuild.PathsOf | scripts/incremental-build.mjs:130 | the paths of the listed files, in order |
| IncrementalBuild.GetAllImageFiles | scripts/incremental-build.mjs:59-82 | the loop keeps, in walk order, the files the listing accepts |
| IncrementalBuild.ListedStep | scripts/incremental-build.mjs:71-77 | one more walked file is appended exactly when it is accepted |
| IncrementalBuild.ListedFiles | scripts/incremental-build.mjs:59-82 | a file is listed exactly when it is walked, lies outside `_thumbs` and has a valid lower-cased extension |
| IncrementalBuild.ThumbsFolderNotListed | scripts/incremental-build.mjs:66-68 | nothing under the `_thumbs` folder is listed |
| IncrementalBuild.DetectChangedFiles | scripts/incremental-build.mjs:87-141 | the loops classify the files and collect the deleted entries as the specification function states |
| IncrementalBuild.ClassifiedCount | scripts/incremental-build.mjs:96-127 | every current file lands in exactly one of added, modified and unchanged |
| IncrementalBuild.ClassifiedMembers | scripts/incremental-build.mjs:101-126 | a file is added exactly when uncached, modified exactly when its hash differs, unchanged otherwise, carrying the cached item |
| IncrementalBuild.ClassIgnoresTime | scripts/incremental-build.mjs:101-126 | the modification time plays no part in the classification; a cached file with the same hash is unchanged |
| IncrementalBuild.DeletedMembers | scripts/incremental-build.mjs:129-138 | an entry is deleted exactly when its path is cached but no longer listed, carrying the cached item |
| IncrementalBuild.StripNumericSuffix | scripts/incremental-build.mjs:200 | the slug is kept, or cut before a final `-` followed only by digits |
| IncrementalBuild.StripSuffixed | scripts/incremental-build.mjs:200 | stripping `base-n` gives `base` back |
| IncrementalBuild.StripKeepsPlain | scripts/incremental-build.mjs:200 | a slug not ending in a digit is kept |
| IncrementalBuild.UntouchedThen | scripts/incremental-build.mjs:196-225 | the unchanged files' cached items come first, then the other items, in order |
| IncrementalBuild.SeedSlugs | scripts/incremental-build.mjs:197-203 | the loop enters the stripped slug of every present item at 0 |
| IncrementalBuild.SeedsMembers | scripts/incremental-build.mjs:197-203 | a base is seeded exactly when some present item with a slug strips to it |
| IncrementalBuild.SeededZeroAll | scripts/incremental-build.mjs:197-203 | seeding equals setting each seed base to 0 in turn |
| IncrementalBuild.ZeroAllEntry | scripts/incremental-build.mjs:201 | after setting bases to 0, each of them holds 0 and every other entry is kept |
| IncrementalBuild.SeededCounter | scripts/incremental-build.mjs:195-203 | after seeding, a base has an entry exactly when it had one or was seeded; seeded bases hold 0, others keep their value |
| IncrementalBuild.SeededBaseGetsFirstSuffix | scripts/incremental-build.mjs:195-211 | a new file whose base is already seeded receives `base-1`, never the bare base |
| IncrementalBuild.SeededCollision | scripts/incremental-build.mjs:195-211 | when an existing item already holds `base-1`, a new file with that base receives the same slug again |
| IncrementalBuild.ToProcess | scripts/incremental-build.mjs:207 | the files to process are the added ones followed by the modified ones |
| IncrementalBuild.AcceptedAlways | scripts/incremental-build.mjs:209-214 | every file to process is processed; none is filtered out |
| IncrementalBuild.DetailOf | scripts/incremental-build.mjs:212 | with the corrected `writeDetailPage`, the page's path is the item's file |
| IncrementalBuild.DetailPages | scripts/incremental-build.mjs:209-214 | one detail page per processed item |
| IncrementalBuild.DetailPagesAt | scripts/incremental-build.mjs:212 | the i-th page is the page of the i-th processed item |
| IncrementalBuild.DetailPageRendered | scripts/incremental-build.mjs:212 | the page written is the rendered template of the item, under its slug |
| IncrementalBuild.ProcessChanged | scripts/incremental-build.mjs:205-214 | the loop's items and counter are those of the processing run, and the pages written are those of the items |
| IncrementalBuild.ProcessNext | scripts/incremental-build.mjs:210-213 | one file extends the run and its pages, or ends the whole run with its rejection |
| IncrementalBuild.WriteDetailPage | scripts/incremental-build.mjs:212 | the page written is the item's detail page |
| IncrementalBuild.ProcessVisit | scripts/incremental-build.mjs:211-213 | one file allocates a slug and adds its item, or rejects |
| IncrementalBuild.ProcessStopped | scripts/incremental-build.mjs:209-214 | once a file is rejected, the later files change nothing |
| IncrementalBuild.DetailPagesSnoc | scripts/incremental-build.mjs:212-213 | one more item adds one more page |
| IncrementalBuild.ProcessAsWrittenFails | scripts/incremental-build.mjs:211-212 | once the script loads, the first file to process already throws, because the item has no `originalPath` |
| IncrementalBuild.WrittenFnFails | scripts/incremental-build.mjs:211-212 | as written, every processed item makes `writeDetailPage` throw |
| IncrementalBuild.CleanupDeletedItems | scripts/incremental-build.mjs:146-158 | the loop removes the directories the cleanup targets name |
| IncrementalBuild.CleanupMembers | scripts/incremental-build.mjs:147-149 | a directory is removed exactly when some deleted entry has an item with that non-empty slug |
| IncrementalBuild.FindByFile | scripts/incremental-build.mjs:253-255 | `allItems.find` returns an item with that file, and none exactly when no item has it |
| IncrementalBuild.EntryPairs | scripts/incremental-build.mjs:250-262 | one cache entry per listed file |
| IncrementalBuild.RebuildCacheFiles | scripts/incremental-build.mjs:243-262 | the loop sets the entries the new-cache function describes |
| IncrementalBuild.EntryPairsKeys | scripts/incremental-build.mjs:257 | the entries are keyed by the listed paths, in order |
| IncrementalBuild.NewFilesKeys | scripts/incremental-build.mjs:250-262 | the new cache has one key per distinct listed path |
| IncrementalBuild.NewFilesFind | scripts/incremental-build.mjs:250-262 | a listed file's entry holds its hash, its time and the item whose file is `assets/<path>` |
| IncrementalBuild.Unwrap | scripts/incremental-build.mjs:222-225 | when every item is present, the manifest is the items themselves |
| IncrementalBuild.PagesOf | scripts/incremental-build.mjs:238 | one sitemap page per manifest item, with its file and slug |
| IncrementalBuild.FinishBuild | scripts/incremental-build.mjs:216-262 | cleanup, manifest, sitemap and cache are those the build function gives for the processed items |
| IncrementalBuild.IncrementalBuildRun | scripts/incremental-build.mjs:163-270 | the whole run, once the script loads, gives the outcome of the build function |
| IncrementalBuild.ScriptAsWrittenFails | scripts/incremental-build.mjs:14 | because the imported module declares `loadMetadata` twice, every run fails with that SyntaxError, whatever the cache, the files and the inputs, the no-change run included |
| IncrementalBuild.CorrectedScriptBuilds | scripts/incremental-build.mjs:14 | with the duplicate removed, a run of the script is the build `Build` describes |
| IncrementalBuild.ProcessedItems | scripts/incremental-build.mjs:205-214 | a successful run gives one item per file to process, at `assets/<rel>`, with the slug allocated for it |
| IncrementalBuild.ProcessFails | scripts/incremental-build.mjs:209-214 | processing fails exactly when some file to process cannot be decoded |
| IncrementalBuild.BuildSkips | scripts/incremental-build.mjs:188-192 | the build writes nothing exactly when no file was added, modified or deleted |
| IncrementalBuild.UntouchedCached | scripts/incremental-build.mjs:118-126 | from a coherent cache, every unchanged file carries its cached item, whose file is `assets/<path>` |
| IncrementalBuild.ProcessedListed | scripts/incremental-build.mjs:222-225 | every processed file is covered by some manifest item |
| IncrementalBuild.AddedCovered | scripts/incremental-build.mjs:207-225 | every added file is covered by the manifest |
| IncrementalBuild.ModifiedCovered | scripts/incremental-build.mjs:207-225 | every modified file is covered by the manifest |
| IncrementalBuild.UntouchedCovered | scripts/incremental-build.mjs:222-225 | from a coherent cache, every unchanged file is covered by the manifest |
| IncrementalBuild.ProcessedItemsAt | scripts/incremental-build.mjs:205-214 | a successful run puts each processed item at its file |
| IncrementalBuild.FileCovered | scripts/incremental-build.mjs:222-225 | from a coherent cache, every listed file is covered by the manifest |
| IncrementalBuild.EntryPairsFrom | scripts/incremental-build.mjs:250-262 | every new cache entry comes from a listed file |
| IncrementalBuild.CoversFound | scripts/incremental-build.mjs:253-255 | a covered file is found by `allItems.find` |
| IncrementalBuild.NewFilesCoherent | scripts/incremental-build.mjs:243-262 | when every listed file has a manifest item, the new cache is coherent |
| IncrementalBuild.CoherentAllPresent | scripts/incremental-build.mjs:222-225 | from a coherent cache, no manifest entry is missing |
| IncrementalBuild.FinishCoherent | scripts/incremental-build.mjs:216-262 | from a coherent cache, finishing succeeds and leaves a coherent cache |
| IncrementalBuild.BuildCoherent | scripts/incremental-build.mjs:163-270 | from a coherent cache, the build fails only on an undecodable file, and a completed build leaves a coherent cache |
| IncrementalBuild.BuildUndefinedItem | scripts/incremental-build.mjs:222-238 | an unchanged file whose cache entry has no item makes the route generation throw |
| IncrementalBuild.FinishManifest | scripts/incremental-build.mjs:222-262 | the manifest, detail pages and cache keys finishing writes are as the write predicate states |
| IncrementalBuild.BuildManifest | scripts/incremental-build.mjs:163-270 | a completed build writes the cached unchanged items then the processed items, their pages, and one cache entry per listed path |
| IncrementalBuild.FirstBuild | scripts/incremental-build.mjs:35-46 | without a cache every listed file is added, and the empty cache is coherent |
| Catalogue.RunSpec | scripts/build-index.mjs:33-90 | the walk's result is the items built from the accepted files with the slugs allocated in turn, and it fails exactly when one of them fails to build |
| Catalogue.RunStopsAtFailure | scripts/build-index.mjs:33-43 | once a file's processing throws, later files change nothing |
| Catalogue.RunItems | scripts/image-processor.mjs:99-121 | a successful walk gives one item per accepted file, each built from that file with its allocated slug |
| Catalogue.RunSucceedsIff | scripts/ImageProcessor.php:19-35 | the loop succeeds exactly when every accepted file builds with its allocated slug |
| Catalogue.RunFailsIff | scripts/build-index.php:401-409 | the loop fails exactly when some accepted file cannot be processed |
| Catalogue.AcceptedMembers | scripts/build-index.mjs:38-40 | a file is handled exactly when it is walked and the filter accepts it |
| OrderedMaps.Find | scripts/tag-system.mjs:166-182 | `map.get(k)` is undefined exactly when no entry has key `k`, and otherwise a value entered under `k` |
| OrderedMaps.PutKeys | scripts/tag-system.mjs:32-65 | `map.set` keeps a present key where it stands and appends a new one |
| OrderedMaps.PutFind | scripts/tag-system.mjs:32-65 | after `set(k, v)`, `get(k)` is `v` and every other key reads as before |
| OrderedMaps.PutUnique | scripts/tag-system.mjs:32-65 | setting never enters a key twice |
| OrderedMaps.PutAllFind | scripts/tag-system.mjs:59-66 | after a run of `set` calls, a key holds what the last call for it set, or what it held before |
| OrderedMaps.PutAllKeys | scripts/tag-system.mjs:59-66 | after a run of `set` calls, old keys keep their place and new keys follow in order of first setting |

## Left out

- Front-end pages, layout and the JSX of `components/OptimizedImage.js`: React rendering, not cataloguing logic.
- `scripts/build-watcher.mjs`, `scripts/build-parallel.php`, `scripts/build.php` and `scripts/test-parallel.php`: file watching, timers and process fan-out. The orchestrator's merge rule (concatenate the chunks in order, stop at the first failure) is modelled by `ChunkSlices.Merge`.
- Image codecs (sharp, the GD calls, `scripts/generate-webp.js`): foreign libraries. Of the PHP thumbnail code, the sizing arithmetic and the errors GD raises for it are kept; the doubles it uses are modelled by `PhpNumber` as rounded reals with an unbounded exponent, so overflow, subnormal numbers and NaN are not modelled (no image side comes near them).
- Hashing (`calculateFileHash`, md5), directory walks (`walkDirectory`, `ensureDir`, `walk`, `walkDir`), `getimagesize`, `filemtime`, `fs.stat` and file writes: I/O. Their results are inputs and the written files are returned values.
- JSON parsing and writing (`assets.json`, `.build-cache.json`, `.meta.json`, tag files): a document is taken in its parsed form; a file that is missing or does not parse is `None`. The cache's write-then-read round trip is not modelled.
- `Utils.FormatSize`: the numeral `toFixed`/`number_format` writes for KB and MB is a parameter, because it is floating-point formatting; the unit choice and the plain-bytes branch are modelled.
- Inline HTML bodies of `writeDetailPage` in `scripts/build-index.mjs` and `scripts/build-index.php`: presentational markup.
- Console output and exit codes other than success or failure.
- Case mapping is ASCII only (`toLowerCase`, `strtolower`, `strtoupper`, `ucwords`); JavaScript's Unicode case mapping of other letters is not modelled.
- `UrlEncoding`: a string is taken to be its UTF-8 bytes. Reading bytes back as text, which is only used to state the round trip, treats a cut-short sequence as U+FFFD and does not reject other malformed input.
- `TagSystems`: the `images` map is created but never written by the source, so it is not a field. `loadImageMetadata` is file I/O, and manual tags are a parameter of `processImage`. A definitions or rules file whose entries are malformed part-way is not modelled, including a tag definition without `name`, which makes `searchTags` throw at `tagInfo.name.toLowerCase()` (scripts/tag-system.mjs:228); a whole file is read or is `None`. The default limits of `getRelatedTags` (10) and `searchTags` (20) are passed explicitly.
- `Ranking.SortDesc`: proved to be a permutation ranked by the key; that ties keep their order (stability of `Array.prototype.sort`) is not proved.
- `TagMapping`: a rule table is a list of keys, so keys inherited from `Object.prototype` (such as `constructor`) are not modelled.
- `HtmlGeneratorPhp`: the tag array is taken to have the keys 0 to n-1. With other keys, `$index === count($tags) - 1` could pick a different tag, or none, as `{{@last}}`.
- `HtmlGeneratorJs`: the fallback template used when `detail.html` cannot be read, and the reading itself, are I/O; the template is a parameter.
- `IncrementalBuild`: paths relative to the assets directory stand for the full paths the script uses. One `now` value stands for every `new Date()` reading. Detail pages written before a failing file are not modelled; a failed build returns only its error.
- `ImageProcessorPhp`: `realpath` is the identity on the walked paths. A thumbnail is named, checked for freshness and sized, and the errors GD raises on the way (a zero side, a thumbnail side that truncates to zero under PHP's double arithmetic) are modelled; drawing and writing the thumbnail are not, and the file list is the walk's snapshot, so a thumbnail written during the walk is not seen by it.
- `ImageProcessorPhp` and `BuildIndexPhp`: GD is taken to support JPEG, PNG and WebP (and, for `build-index.php`, GIF); a PHP build without one of these readers is not modelled.
- Slugs.SlugVariantsAgree: holds under ASCII case mapping only. For a non-ASCII letter PHP's byte-wise `strtolower` and JavaScript's Unicode `toLowerCase` differ, so the two slugs can differ.
- ImageProcessorPhp.SlugBaseOf: its agreement with the JavaScript slug base rests on Slugs.SlugVariantsAgree and so holds under ASCII case mapping only.
- BuildIndexPhp.SlugBaseAgrees: holds under ASCII case mapping only, for the same reason.
- ChunkSlices.IntVal: the fraction and exponent of a numeric string are read as exact rationals and truncated toward zero. PHP reads them as a correctly rounded double, so a decimal within a rounding step of an integer (`0.99999999999999999999` gives 1 in PHP, 0 here) and the saturation at `PHP_INT_MAX` of a huge numeral are not modelled.
- ChunkSlices.ChunkIndexArg: inherits ChunkSlices.IntVal's exact reading, so an argument such as `0.99999999999999999999` is rejected here where PHP reads it as chunk 1.
- ImageProcessorPhp.GdThumbnailFits, ImageProcessorPhp.GdScaledSide and ImageProcessorPhp.GdSideZero: stated for positive sides below 2^31 (`MaxSide`), a zero side being the division error `ThumbnailErrorCases` covers; no image GD reads has a longer side (PNG's own limit is 2^31 - 1), and the bound keeps `side · 480` inside the range where two roundings cannot move a truncation by more than one.
- ImageProcessorPhp.ThumbnailErrorCases: states the two directions separately, requires sides below 2^31, and leaves open the case where the shorter side times 480 equals the longer side. There PHP's rounding decides: 23520×49 throws (`TieThumbnailThrows`), 960×2 does not (`TieThumbnailDrawn`).
- BuildIndexPhp.ThumbnailErrorCases: the same two directions, bound and open tie case for `createThumbnail`; 23520×49 throws (`TieImageStopsWalk`), 960×2 does not (`TieImageIsDrawn`).
- BuildIndexPhp.ThumbnailNeverUpscales and BuildIndexPhp.ScaledHeightBound: the scaled-height clause is stated for sides below 2^31 and a width limit of at most 480, the only limit the script passes.
- `SitemapPhp`: `date('c')` is the parameter `now`; `generateSitemap`'s file write is I/O.

## Findings

| source | as written | input that shows it | evidently intended | confidence | as-written member | corrected member |
|---|---|---|---|---|---|---|
| scripts/image-processor.mjs:11-32 | `async function loadMetadata` is declared twice at the module's top level, an early SyntaxError in an ES module; scripts/incremental-build.mjs:14 imports the module, so the build script throws before `incrementalBuild()` runs and exits with code 1 | any run of `scripts/incremental-build.mjs`, including one where no file changed | `loadMetadata` declared once | not executed | ImageProcessorJs.ModuleDoesNotLoad, IncrementalBuild.ScriptAsWrittenFails | ImageProcessorJs.CorrectedModuleLoads, IncrementalBuild.CorrectedScriptBuilds |
| components/OptimizedImage.js:14,17-24 | `getWebPPath` cuts at the last `.` of the whole path, and the base path contains `.` (`.github.io`) | `getWebPPath(normalizePath("photo"))` gives `/yohyama0216.github.webp` | only a `.` in the last path segment starts an extension; an extensionless path is kept | not executed | OptimizedImage.WebPPathCutsBasePath, OptimizedImage.SourcesOfExtensionlessImage | OptimizedImage.WebPPathInLastSegment, OptimizedImage.CorrectedSources, OptimizedImage.CorrectedKeepsExtensionlessPath |
| scripts/incremental-build.mjs:211-212, scripts/html-generator.mjs:50 | once the duplicate `loadMetadata` of the first row is removed, `writeDetailPage(item)` passes an item from `processImage`, which has `file` but no `originalPath`, so `path.extname(undefined)` throws and the build exits with code 1 whenever a file is added or modified | any run with one added file, e.g. a first build over `a/b.jpg` | the detail page is rendered from the item with its image path as `originalPath` | not executed | IncrementalBuild.ProcessAsWrittenFails, HtmlGeneratorJs.ProcessedItemsFail | IncrementalBuild.ProcessChanged, IncrementalBuild.DetailPageRendered |
