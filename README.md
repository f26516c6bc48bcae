# Blog post page: loader, front matter and code-block renderer

This project models the blog post page of a personal site, `src/components/BlogPost.tsx`, in Dafny, and proves properties of the model.

The page takes a post id from the route and fetches `/blogContent/<id>.md`. It then reads the post's front matter from the markdown text:

- a `# ` heading on the first line becomes the title;
- `<!-- date: … -->`, `<!-- readTime: … -->` and `<!-- tags: a, b -->` comments among the first ten lines set the metadata;
- every line that starts with `<!--` after trimming is removed from the body.

The page shows a spinner while loading, a not-found page on an error, and otherwise the article. In the article, the markdown renderer is customised:

- image paths are rewritten to be served from the site root;
- external links open in a new tab;
- fenced code blocks get a language label, looked up from the `language-<tag>` class of their `code` element, and a copy button meant to read "Copied!" for two seconds after a successful copy (see Findings: as written it keeps reading "Copy").

The project is made of these modules:

- `Wrappers` holds the `Option` used for JavaScript's `undefined`/`null`.
- `JsString` models the JavaScript string operations the page relies on:
  - `split` and `join` on one character;
  - `trim`, with the ECMAScript whitespace set;
  - ASCII `toLowerCase`/`toUpperCase`;
  - `join('')`.
- `CommentPattern` models the regular expression `key:\s*(.+?)\s*-->` as a leftmost, backtracking search. The search is proved sound and complete against a declarative description of a match, and it is proved to return the value of a well-formed `<!-- key: value -->` comment.
- `FrontMatter` covers:
  - the title and metadata scan, as a fold over the trimmed lines of the window, plus the loop that computes it (`ScanWindow`);
  - the comment filter;
  - the whole parse (`ParsePost` / `ReadPost`).
- `Render` covers:
  - `fixImagePath`, the image `src` and the link attributes;
  - `extractLanguageFromClassName`, `getLanguageDisplayName` and `extractTextFromChildren`;
  - the `pre` and inline `code` customisations, over a small tree of React children.
- `BlogPostPage` covers:
  - the page's state as a class with the four state hooks as fields;
  - the load effect, as one method taking the fetch outcome;
  - `copyToClipboard`, the timer, the button text, and which view is shown.

## Behaviour of the code worth knowing

- **Metadata keys.** A later metadata comment for the same key overwrites an earlier one (`FrontMatter.LastSettingWins`).
- **Error state.** `error` is never cleared and `loading` is never set back to true, so after a failed load a successful load of another post still shows the not-found page (`BlogPostPage.ErrorOutlivesReload`).
- **Stale results.** There is no check that a fetch result still belongs to the current id.

## Model

| member | source | states |
|---|---|---|
| JsString.SplitPieces | src/components/BlogPost.tsx:54 | `content.split('\n')` yields one more line than the text has newlines, and no line contains a newline |
| JsString.JoinSplit | src/components/BlogPost.tsx:54 | joining the lines of a text with `'\n'` gives the text back |
| JsString.SplitJoin | src/components/BlogPost.tsx:81-83 | splitting a `'\n'`-join of newline-free lines gives those lines back |
| JsString.SplitAppend | src/components/BlogPost.tsx:54 | the lines of `a + "\n" + b` are the lines of `a` followed by the lines of `b` |
| JsString.FirstPiece | src/components/BlogPost.tsx:61 | `lines[0]` exists and is the text before the first newline: a newline-free prefix that ends at a newline or at the end of the text |
| JsString.TrimEnds | src/components/BlogPost.tsx:67 | a trimmed string neither starts nor ends with whitespace |
| JsString.TrimSlice | src/components/BlogPost.tsx:67 | a trimmed string is a contiguous slice of the input, and only whitespace lies outside it |
| JsString.TrimAllSpace | src/components/BlogPost.tsx:82 | a string trims to `""` exactly when it is all whitespace, in both directions |
| JsString.TrimIdempotent | src/components/BlogPost.tsx:106 | trimming twice is the same as trimming once |
| JsString.TrimUnchanged | src/components/BlogPost.tsx:106 | a string with no whitespace at either end is its own trim |
| JsString.ConcatAppend | src/components/BlogPost.tsx:189 | `join('')` of two lists concatenated is the concatenation of their joins |
| CommentPattern.SpaceRunIsMaximal | src/components/BlogPost.tsx:69 | the greedy `\s*` run consists of whitespace and stops at a non-space or at the end |
| CommentPattern.LazyEndSound | src/components/BlogPost.tsx:69 | the lazy `.+?` never crosses a line terminator on its way to the closing `-->` |
| CommentPattern.CaptureEndSound | src/components/BlogPost.tsx:69 | the captured group holds no line terminator, since `.` does not match one |
| CommentPattern.MatchFromSound | src/components/BlogPost.tsx:69 | what the search returns is the match JavaScript reports (`LeftmostMatch`): no match starts earlier, the leading `\s*` keeps as much whitespace as a match allows, and the lazy `(.+?)` then ends as early as it can |
| CommentPattern.MatchFromFinds | src/components/BlogPost.tsx:69 | the search succeeds whenever some match starts at or after the starting point |
| CommentPattern.MatchFrom | src/components/BlogPost.tsx:69 | the search for `name\s*(.+?)\s*-->` from a start position; a result is a non-empty capture inside the line |
| CommentPattern.LeftmostMatchUnique | src/components/BlogPost.tsx:69 | the description of the reported match fixes one position, one capture start and one capture end |
| CommentPattern.LazyEndLeast | src/components/BlogPost.tsx:69 | the lazy `.+?` stops no later than any end from which `\s*-->` matches and that it can reach without a line terminator |
| CommentPattern.CaptureEndLeast | src/components/BlogPost.tsx:69 | from a given start, the capture ends no later than any match from that start |
| CommentPattern.AfterNameLargest | src/components/BlogPost.tsx:69 | the greedy `\s*`, giving back one character at a time, stops at the latest start a capture can follow |
| CommentPattern.HereFindsMatch | src/components/BlogPost.tsx:69 | a match at a position makes the search stop there, with a capture starting no earlier than the match's |
| CommentPattern.MatchHereIsLeftmost | src/components/BlogPost.tsx:69 | where the search stops at its start position, it returns the match JavaScript reports there |
| CommentPattern.LeftmostSkip | src/components/BlogPost.tsx:69 | a position holding no match can be skipped: the reported match from the next position is the one from here |
| CommentPattern.Capture | src/components/BlogPost.tsx:69 | `line.match(…)?.[1]` is never the empty string |
| CommentPattern.CaptureComplete | src/components/BlogPost.tsx:69 | when the line matches, the capture is defined |
| CommentPattern.CaptureSound | src/components/BlogPost.tsx:69 | a defined capture holds no line terminator and is the group of the match JavaScript reports |
| CommentPattern.CaptureMeaning | src/components/BlogPost.tsx:68-75 | the capture is defined iff the line matches the pattern; it is then the group of the match JavaScript reports, and holds no line terminator |
| CommentPattern.CommentRoundTrip | src/components/BlogPost.tsx:68-75 | from `<!-- key: value -->` with a value that has no line terminator, no `-->` and no edge whitespace, the capture is exactly `value` |
| CommentPattern.CommentMatchesAtName | src/components/BlogPost.tsx:69 | searching a well-formed comment from just after `<!-- ` finds the match at the key, with the value's bounds as its group |
| CommentPattern.CommentSearchSkipsOpening | src/components/BlogPost.tsx:69 | searching from the start of the comment gives the same match as searching from just after `<!-- ` |
| FrontMatter.PrefixesExclusive | src/components/BlogPost.tsx:68-76 | at most one of the three comment prefixes starts a line, so the else-if chain is never ambiguous |
| FrontMatter.Setting | src/components/BlogPost.tsx:68-73 | a key takes a value from a trimmed line only if the line has the key's prefix, and the value is non-empty |
| FrontMatter.ScanLine | src/components/BlogPost.tsx:67-77 | one pass of the loop body never empties the date or the read time: `capture \|\| previous` keeps a non-empty value |
| FrontMatter.ScanKeepsNonEmpty | src/components/BlogPost.tsx:66-78 | a date or read time that starts out non-empty is non-empty after the whole scan |
| FrontMatter.SplitTagsPieces | src/components/BlogPost.tsx:75 | `split(',').map(trim)` gives one tag more than there are commas; no tag contains a comma or has edge whitespace |
| FrontMatter.TagsRoundTrip | src/components/BlogPost.tsx:75 | splitting a comma-join of comma-free tags gives each tag back, trimmed |
| FrontMatter.ScanLineSetting | src/components/BlogPost.tsx:67-77 | one line changes exactly the key it sets, to its value, and leaves the other two keys alone |
| FrontMatter.ScanLinesAppend | src/components/BlogPost.tsx:66-78 | scanning `a + b` is scanning `b` from the result of scanning `a` |
| FrontMatter.LastSettingWins | src/components/BlogPost.tsx:66-78 | a key's final value is the value of the last line that sets it |
| FrontMatter.NoSettingKeepsValue | src/components/BlogPost.tsx:55-78 | a key no line sets keeps its initial value |
| FrontMatter.Window | src/components/BlogPost.tsx:66 | the scanned lines are the first `min(10, lines.length)` lines |
| FrontMatter.DefaultsKept | src/components/BlogPost.tsx:55-78 | with no setting in the window, date is today, readTime is "5 min read" and tags is empty |
| FrontMatter.LastSettingInWindow | src/components/BlogPost.tsx:66-78 | a key's value is that of the last line among the first ten that sets it |
| FrontMatter.MetadataIgnoresLaterLines | src/components/BlogPost.tsx:61-78 | text after the tenth line has no effect on the title or the metadata |
| FrontMatter.CommentSets | src/components/BlogPost.tsx:68-76 | a line `<!-- key: value -->` with a plain value sets that key to exactly `value` |
| FrontMatter.EmptyDateCommentSetsSpace | src/components/BlogPost.tsx:69 | `<!-- date: -->` sets the date to a single space: the backtracking `\s*` gives one up to `.+?` |
| FrontMatter.EmptyDateCapture | src/components/BlogPost.tsx:69 | on `<!-- date: -->` the leftmost match starts at `date:` and its group is the single space before `-->` |
| FrontMatter.FirstLine | src/components/BlogPost.tsx:61 | the first line is the text up to the first newline |
| FrontMatter.HeadingTitle | src/components/BlogPost.tsx:61-63 | a first line `# heading` makes the title the trimmed heading |
| FrontMatter.DefaultTitle | src/components/BlogPost.tsx:55 | without a `# ` first line the title is `Blog Post <id>` |
| FrontMatter.StripComments | src/components/BlogPost.tsx:81-82 | the filter never adds lines |
| FrontMatter.StripKeeps | src/components/BlogPost.tsx:81-82 | a line is kept iff it is a line of the input that does not start with `<!--` after trimming |
| FrontMatter.StripAppend | src/components/BlogPost.tsx:81-82 | the filter works line by line and keeps the order of the lines |
| FrontMatter.NoCommentsUnchanged | src/components/BlogPost.tsx:81-82 | a text without comment lines passes through unchanged |
| FrontMatter.StripIdempotent | src/components/BlogPost.tsx:81-82 | filtering twice is filtering once |
| FrontMatter.BlankLineKept | src/components/BlogPost.tsx:82 | blank lines are kept, so paragraph breaks survive |
| FrontMatter.CleanContentStable | src/components/BlogPost.tsx:81-83 | re-parsing the cleaned body removes nothing more: it has no comment lines left |
| FrontMatter.HeadingKept | src/components/BlogPost.tsx:61-83 | a `# ` heading on the first line stays at the head of the body, so the title also appears in the article text |
| FrontMatter.ScanWindow | src/components/BlogPost.tsx:66-78 | the loop over the first ten lines computes the metadata fold |
| FrontMatter.ParsePost | src/components/BlogPost.tsx:54-92 | the stored post keeps the route id, always has a non-empty read time, and has a non-empty date whenever today's date is non-empty |
| FrontMatter.ReadPost | src/components/BlogPost.tsx:54-92 | the post built from the fetched text is the parse of that text |
| Render.FixImagePath | src/components/BlogPost.tsx:201-214 | the path starts with `/`, and after the slash it is a suffix of the input, at most one character longer |
| Render.FixImagePathIdempotent | src/components/BlogPost.tsx:201-214 | fixing a fixed path changes nothing |
| Render.FixImagePathFixed | src/components/BlogPost.tsx:207-213 | a path is left as it is iff it already starts with `/` |
| Render.PublicPathServedFromRoot | src/components/BlogPost.tsx:203-204 | `public/x` is served as `/x` |
| Render.RelativePathMadeRooted | src/components/BlogPost.tsx:212-213 | a path neither under `public/` nor rooted becomes `"/" + src`, e.g. `rel/b.png` becomes `/rel/b.png` |
| Render.ImageSource | src/components/BlogPost.tsx:354 | the `src` is empty iff the markdown gave none or an empty one; otherwise it is the fixed, rooted path |
| Render.Link | src/components/BlogPost.tsx:392-393 | a link gets `target="_blank"` iff its href starts with `http`, and gets `rel="noopener noreferrer"` exactly when it gets the target |
| Render.LinkExamples | src/components/BlogPost.tsx:392-393 | `https://…` opens in a new tab; a site-relative link and a missing href do not |
| Render.WordRunMaximal | src/components/BlogPost.tsx:142 | `\w+` takes word characters and stops at a non-word character or at the end |
| Render.FirstLanguageAtLeftmost | src/components/BlogPost.tsx:142 | the search finds the leftmost `language-` that a word character follows |
| Render.ExtractLanguage | src/components/BlogPost.tsx:140-144 | the extracted language is made of word characters only and is no longer than the class name |
| Render.ExtractLanguageEmpty | src/components/BlogPost.tsx:140-144 | the language is `""` iff the class name has no `language-` followed by a word character |
| Render.ExtractLanguageFound | src/components/BlogPost.tsx:140-144 | otherwise it is the whole word after the leftmost such `language-` |
| Render.LanguageClassRoundTrip | src/components/BlogPost.tsx:140-144 | the class `language-<w>` of a word `w` yields `w` |
| Render.DisplayNameMeaning | src/components/BlogPost.tsx:146-179 | the name is empty only for an empty tag; tags that differ only in case get the same name; a tag outside the table (own keys only) is shown upper-cased: its lower-cased form is the tag's, with no lower-case letter left |
| Render.DisplayName | src/components/BlogPost.tsx:146-179 | `getLanguageDisplayName` with an own-key lookup: the name is empty exactly when the tag is |
| Render.Label | src/components/BlogPost.tsx:425 | `displayLanguage \|\| 'CODE'` is never empty |
| Render.LabelMeaning | src/components/BlogPost.tsx:425 | the label is `CODE` for no language and the display name otherwise; it is never empty |
| Render.InheritedNamesAreLanguages | src/components/BlogPost.tsx:142 | `language-constructor` and `language-__proto__` do yield the tags `constructor` and `__proto__` |
| Render.ConstructorLabelAsWritten | src/components/BlogPost.tsx:179 | as written, the tag `constructor` is looked up as `Object.prototype.constructor`: a function, not a label |
| Render.ProtoLabelAsWritten | src/components/BlogPost.tsx:179 | as written, the tag `__proto__` is looked up as `Object.prototype`: an object, not a label |
| Render.LabelAsWrittenAgrees | src/components/BlogPost.tsx:179 | for every other tag, the lookup as written gives the corrected label |
| Render.ExtractTextIsLeaves | src/components/BlogPost.tsx:183-198 | the text of a child tree is the concatenation of its string leaves, in order |
| Render.ExtractAllIsLeaves | src/components/BlogPost.tsx:188-189 | the same for an array of children |
| Render.ExtractText | src/components/BlogPost.tsx:183-198 | `extractTextFromChildren` over strings, arrays, elements and other values; `Render.ExtractTextIsLeaves` states its meaning |
| Render.FirstCode | src/components/BlogPost.tsx:403-406 | the child found is a `code` element |
| Render.FirstCodeLeftmost | src/components/BlogPost.tsx:403-406 | the child found is the first `code` element, and there is none iff no child is one |
| Render.RenderPreMeaning | src/components/BlogPost.tsx:401-425 | a `pre` becomes a code block iff a child is a `code` element; then the label is never empty and the code is the text of the first `code` child; otherwise the children are left as they are |
| Render.RenderPre | src/components/BlogPost.tsx:401-425 | a `pre` without a `code` child is left as it is, and a code block always has a non-empty label |
| Render.LanguageCodeNotInline | src/components/BlogPost.tsx:457-458 | a `code` element with any non-empty class, whether or not it names a language, is never styled inline |
| Render.IsInline | src/components/BlogPost.tsx:457-458 | `!className`: a `code` styled inline names no language |
| BlogPostPage.LoadError | src/components/BlogPost.tsx:38-94 | no error iff the id is present and the response is ok; otherwise the fixed messages or the thrown Error's message |
| BlogPostPage.Page.constructor | src/components/BlogPost.tsx:26-29 | no post, loading, no error, no copied block |
| BlogPostPage.Page.Load | src/components/BlogPost.tsx:37-97 | fetches `/blogContent/<id>.md` only for a present id; an error keeps the previous post, a success stores the parse of the text; loading ends in every case |
| BlogPostPage.Page.CopyToClipboard | src/components/BlogPost.tsx:103-118 | the clipboard receives the trimmed text; the block is marked copied only when the copy succeeds |
| BlogPostPage.Page.Expire | src/components/BlogPost.tsx:111 | the timer clears the copied mark, whichever block it belongs to |
| BlogPostPage.Page.CopyButtonText | src/components/BlogPost.tsx:432-442 | the button reads "Copied!" iff its block is the copied one |
| BlogPostPage.Page.View | src/components/BlogPost.tsx:216-245 | for a page whose loading ended with an error or a post: the spinner iff loading; the not-found page iff loading is over and there is a non-empty error or no post, and it then always has an error value; the article iff loading is over, the error is absent or empty and a post is stored, and it shows that post |
| BlogPostPage.FirstLoad | src/components/BlogPost.tsx:36-101 | a fresh page that loads a post successfully shows the parsed post |
| BlogPostPage.ErrorOutlivesReload | src/components/BlogPost.tsx:36-101 | after a failed load of one post, a successful load of another post (the effect re-runs on an id change) still shows "Blog post not found" |
| BlogPostPage.CopiedLabelAsWritten | src/components/BlogPost.tsx:415 | as written, the block's id is drawn again on the next render, so its button does not read "Copied!" after a copy |
| BlogPostPage.CopiedLabelStableId | src/components/BlogPost.tsx:428-442 | with a stable id the button reads "Copied!" after a successful copy, and "Copy" once the timer fires |

## Left out

- The markdown pipeline (`react-markdown`, GFM, syntax highlighting, raw HTML) is a library. The body is kept as text; only the customised components are modelled.
- `fetch` and `response.text()` are a `Response` parameter: not ok, ok with its text, or a rejection with an optional Error message. Network behaviour and timing are not modelled.
- `new Date().toISOString().split('T')[0]`, the UTC date part of the current time, is the parameter `today`.
- The clipboard library's result is the boolean parameter `copied`; an exception from it counts as `false`. `console.error` logging is left out.
- `setTimeout` is the `Expire` method. The two-second delay itself is not modelled.
- `Math.random` ids are parameters of the members that use them.
- Concurrency: a load is one sequential transition. Interleavings of an outstanding fetch with a later id change are not modelled; the code has no guard against them.
- `formatDate`, `window.scrollTo`, `navigate` and `scrollToBlogSection` are presentation and navigation; they are not modelled.
- Styling, headings, paragraphs, lists, tables, blockquotes and the `video` component have no logic and are not modelled.
- The image `onError` handler and the `alt` caption are not modelled.
- In the children tree, numbers, booleans and `null` are one `Other` case with no text. `React.Children.toArray` dropping `null` and booleans does not change which `code` element is found.
- A non-string `className` on a `code` element is not modelled.
- JsString.Lower, JsString.Upper: map ASCII letters only. The language tag comes from `\w+`, which matches ASCII characters only, so these are the only letters they ever see.
- Render.DisplayName: models the corrected own-key lookup; the lookup as written is `Render.LabelAsWritten`, proved to agree with it on every tag except `constructor` and `__proto__`.
- React's rendering of a function or a plain object as a child is not modelled: `Render.LabelAsWritten` states the value the lookup returns, not what appears on screen.

## Findings

| source | as written | input that shows it | evidently intended | confidence | as-written member | corrected member |
|---|---|---|---|---|---|---|
| src/components/BlogPost.tsx:179 | `languageMap[lang.toLowerCase()]` looks the tag up on a plain object literal, so names inherited from `Object.prototype` are found | a fenced code block tagged `constructor` (class `language-constructor`) or `__proto__` | only the table's own entries are labels; other tags show upper-cased, e.g. `CONSTRUCTOR` | not executed | Render.ConstructorLabelAsWritten | Render.LabelMeaning |
| src/components/BlogPost.tsx:415 | the code block's id comes from `Math.random()` inside the `pre` renderer, so every render draws a new one; the render that `setCopiedCode` triggers compares the stored id with a new id | a successful click on "Copy": the new id differs from the stored one except with probability 36^-9 | the button reads "Copied!" for two seconds after a successful copy | not executed | BlogPostPage.CopiedLabelAsWritten | BlogPostPage.CopiedLabelStableId |
