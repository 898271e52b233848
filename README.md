# Article pipeline of ivantregear.com, modelled in Dafny

This project models the article-ingestion and metadata pipeline of the
personal site ITregear.github.io. Articles are markdown files with front
matter (`title`, `date`). From them the site derives:

- slugs, titles and dates with their defaults;
- excerpts and three variants of the SEO description (capped at 160, 300 and about 150 characters);
- the preview image of an article, and relative image references rewritten against an image registry;
- the page metadata and the schema.org `Article`/`Person` records;
- the newest-first ordering of posts;
- the prerender list and the static pages written for each article.

Around this sit three small pieces of state:

- the link-metadata cache kept in browser storage;
- the selected tab for a location;
- the hero and header image indices, one of them persisted in storage.

Every regular expression of the pipeline is written out as a scanner over
strings (module `Patterns`). It covers lazy `.*?` stopping at the first
closing character and never crossing a line break, backtracking where a lazy
bracket text has to grow, multiline `^`, and the global flag. The rest
follows the source files one module each:

| module | source file |
|---|---|
| `Text`, `Results` | string helpers standing for the JavaScript built-ins used (`trim`, `indexOf`, `split`, `replace` with a string, `toLowerCase`, `String(n)`) |
| `Patterns` | the regular expressions of all the files below |
| `Content` | the article record, the front-matter result and the site constants shared by the files below |
| `Markdown` | src/lib/markdown.tsx |
| `StaticHtml` | scripts/generate-static-html.js |
| `ThoughtPage` | pages/thoughts/@slug/index.page.server.tsx |
| `Images` | src/lib/images.ts |
| `LinkMetadata` | src/lib/link-metadata.ts |
| `PostIndex` | app/thoughts/page.tsx |
| `Ordering` | the `localeCompare` sort used by app/thoughts/page.tsx, src/pages/home.tsx and src/pages/thoughts.tsx |
| `Home` | src/pages/home.tsx |
| `ArticlePage` | src/pages/article.tsx |
| `ThoughtsPage` | src/pages/thoughts.tsx |
| `Renderer` | renderer/_default.page.server.tsx |
| `Seo` | src/components/seo.tsx |
| `Tabs` | src/components/ui/tabs.tsx |
| `Header` | src/components/header.tsx |

Several kinds of input become parameters:

- file system listings and existence checks;
- the bundler's glob results;
- the front-matter parser's result;
- `fetch` replies, `JSON.parse`/`JSON.stringify`, `new URL(…).href`, and the random hero pick.

Code that updates state in place is modelled as methods, each proved equal to a specification function:

- sorting in place (`Ordering.SortInPlace` on an `array`);
- the image `Map` (`Images.ImageRegistry`);
- `localStorage` (`LinkMetadata.Storage`, `Header.HeaderState`);
- the React state of the article page and the carousel (`ArticlePage.ArticleState`, `Home.HeroState`);
- the accumulation loops of the description builders and of the static generator.

## Model

| member | source | states |
|---|---|---|
| Text.TrimStart | src/components/header.tsx:13 | the result is a suffix of the input, does not start with white space, and only white space was dropped |
| Text.Trim | src/lib/markdown.tsx:83 | no white space at either end; empty exactly when the input is all white space; an input with no white space at its ends is kept |
| Text.TrimIsSlice | src/lib/markdown.tsx:83 | the result is one contiguous slice of the input, and every character dropped before or after it is white space |
| Text.IndexOf | src/lib/markdown.tsx:118 | -1 when the character is absent, otherwise its first position |
| Text.LastIndexOf | src/lib/markdown.tsx:111-113 | -1 when the character is absent, otherwise its last position |
| Text.RemoveFirst | scripts/generate-static-html.js:232 | unchanged when the text does not occur; otherwise the characters before its first occurrence followed by those after it, so putting the text back there gives the input |
| Text.StripSuffix | app/thoughts/page.tsx:49 | removes the ending when present (result plus ending is the input), otherwise changes nothing |
| Text.FirstPiece | src/lib/markdown.tsx:100 | a prefix inside which no occurrence of the separator starts; when shorter than the input, the separator occurs right after it; the whole input when there is no separator |
| Text.LastSegment | src/lib/images.ts:12 | the text after the last '/': holds no '/' and ends the input |
| Text.ReplaceChars | src/pages/home.tsx:21 | same length; each listed character becomes the replacement, every other one is kept |
| Text.ToLower | pages/thoughts/@slug/index.page.server.tsx:60 | same length, ASCII capitals lowered, every other character kept |
| Text.Take | src/pages/article.tsx:127 | `substring(0, n)`: a prefix of the input of length `min(n, length)` |
| Text.TrimEnd | pages/thoughts/@slug/index.page.server.tsx:69 | a prefix of the input not ending in white space, only white space dropped |
| Text.IndexOfSub | scripts/generate-static-html.js:232 | -1 exactly when the text never occurs, otherwise the first position where it does |
| Text.NatToString | src/components/header.tsx:28 | at least one character, all decimal digits, and no leading zero beyond the first |
| Patterns.FindLazy | src/lib/markdown.tsx:75 | the first occurrence of the closing text on the same line, or none when none is on that line |
| Patterns.LazyRef | src/lib/markdown.tsx:73 | a found reference spans opener, bracket text, middle, target and ')', the target holding no ')' and no line break |
| Patterns.ImageAt | scripts/generate-static-html.js:45 | an image found at the front spans "![" alt middle target ")"; nothing is found unless the input starts with "![" |
| Patterns.FirstImageFound | scripts/generate-static-html.js:23-29 | the leftmost image reference: one is found at some position, and none before it; none found means no position has one |
| Patterns.SplitSentences | scripts/generate-static-html.js:56 | at least one piece, and no piece holds '.', '!' or '?' |
| Patterns.SplitSentencesContents | scripts/generate-static-html.js:56 | the pieces put together are the text without its '.', '!' and '?', and there is one piece more than there are maximal runs of those characters |
| Patterns.MatchFlagIgnored | src/lib/markdown.tsx:73-82 | a pattern without `^` matches the same whether or not it is at a line start, so the multiline flag changes nothing for it |
| Patterns.RelativeIsImage | scripts/generate-static-html.js:23-29 | a relative image reference is also an image reference of the general pattern |
| Patterns.NoMatchUnchanged | src/lib/markdown.tsx:73-82 | a global replace leaves a text in which its pattern never matches as it is |
| Patterns.FrontMatterNeedsLineStart | src/lib/markdown.tsx:72 | the front-matter pattern matches only at a line start, so a one-line text never loses more than its front |
| Patterns.NoFrontMatter | src/lib/markdown.tsx:97 | a one-line text not opening with "---" keeps all of its text |
| Patterns.ImageRemovedWhole | src/lib/markdown.tsx:73 | an image `![alt](target)` is removed whole by the image pass |
| Patterns.LinkPassKeepsAlt | src/lib/markdown.tsx:78 | the link pass alone would turn the same image into "!" plus its alt text |
| Patterns.RelativeImageFound | scripts/generate-static-html.js:23-29 | when the leftmost image points into ./images/, the relative-image search finds one too |
| Patterns.NoImageNoRelative | scripts/generate-static-html.js:23-29 | text with no image has no relative image either |
| Patterns.LocalImageRewritten | src/pages/article.tsx:38-41 | a relative image at the front becomes `![alt](url)` when resolved and stays as written when not, and the rewrite continues with the rest |
| Patterns.UnresolvedKept | pages/thoughts/@slug/index.page.server.tsx:86-93 | when no relative image resolves, the rewrite returns the text unchanged |
| Content.Or | scripts/generate-static-html.js:238 | `x \|\| d`: a missing or empty value gives the default, any other value itself |
| Content.Humanize | scripts/generate-static-html.js:238 | same length; each '-' becomes a space and every other character is kept |
| Content.ArticleUrl | scripts/generate-static-html.js:93 | exactly "https://ivantregear.com/thoughts/" followed by the slug |
| Content.AbsoluteImage | scripts/generate-static-html.js:29-38 | an "http…" target as is, a "/…" target on the domain, anything else none (both directions) |
| Content.ArticleOf | scripts/generate-static-html.js:237-242 | the title is the front-matter title or the slug with hyphens as spaces; the date is the front-matter date or ""; content and slug kept |
| Content.ArticleDataOf | renderer/_default.page.server.tsx:36-56 | headline, description, image, author and page id copied from the metadata; publisher is the author; modified date equals published date |
| Content.MarkdownFiles | scripts/generate-static-html.js:227 | a file is kept exactly when it is listed and ends in ".md"; a one-file listing is kept or dropped whole |
| Content.MarkdownFilesAppend | scripts/generate-static-html.js:227 | the filter keeps the listing order: filtering two listings one after the other gives their filtered parts one after the other |
| Content.SlugRulesAgree | scripts/generate-static-html.js:232 | when ".md" occurs only as the ending, removing its first occurrence and removing the suffix give the same slug |
| Content.SlugRulesDiffer | scripts/generate-static-html.js:232 | "x.mdy.md" gives slug "xy.md" by first-occurrence removal but "x.mdy" by suffix removal |
| Markdown.CleanDescription | src/lib/markdown.tsx:69-92 | cleaned text over 160 characters gives its first 157 plus "..." (length 160); 1-160 characters are returned as is; empty gives the fixed sentence with the title |
| Markdown.SpacesNormalize | src/lib/markdown.tsx:82 | after the white-space pass every run is a single ' ', the text is empty only if it was, and a leading space stays leading |
| Markdown.CleanTextNormalized | src/lib/markdown.tsx:81-83 | the cleaned text has no line break, no run of two white-space characters and no white space at either end |
| Markdown.TrimmedSpacesNormalized | src/lib/markdown.tsx:82-83 | collapsing white space and then trimming leaves normalized text without line breaks |
| Markdown.NoNewlineFirstLine | src/lib/markdown.tsx:86 | text without a line break is its own first line |
| Markdown.ImageAltNeverSurvives | src/lib/markdown.tsx:73-78 | a body that is only an image gives the fallback sentence; had links gone first, "!" and the alt text would remain |
| Markdown.FirstParagraph | src/lib/markdown.tsx:97-100 | the first paragraph holds no blank line |
| Markdown.ExcerptCut | src/lib/markdown.tsx:103-121 | all of a fitting paragraph is kept; otherwise maxLength characters, extended only when the cut is inside a link, then exactly through the first ')' after the cut and at most 100 characters further, and always extended when such a ')' lies within reach |
| Markdown.MarkdownExcerpt | src/lib/markdown.tsx:95-125 | a fitting paragraph is returned unchanged; otherwise the kept prefix, with "..." exactly when something was cut; the excerpt never holds a blank line |
| Markdown.NoBlankLineInPrefix | src/lib/markdown.tsx:124 | a prefix of a paragraph without blank lines, with or without "...", has none either |
| StaticHtml.DropExtension | scripts/generate-static-html.js:14 | a prefix of the name: the name itself, or the part before a last '.' that has at least one character after it |
| StaticHtml.FindWithPrefix | scripts/generate-static-html.js:14 | the first file starting with the prefix, or none when no file does |
| StaticHtml.FirstImageUrl | scripts/generate-static-html.js:22-41 | when a `./images/` image occurs, the domain followed by the asset address of the first one; otherwise the first image of any kind, kept only when its target is absolute; a result is never empty |
| StaticHtml.AssetUrl | scripts/generate-static-html.js:9-20 | always under "/assets/": the first asset starting with the extension-less name, else the name itself |
| StaticHtml.NoImageNoUrl | scripts/generate-static-html.js:29-40 | content without an image has no preview image |
| StaticHtml.RelativeImageWins | scripts/generate-static-html.js:23-26 | when the first image points into ./images/, the preview is an "/assets/" address on the domain |
| StaticHtml.RelativeAnywhereWins | scripts/generate-static-html.js:23-26 | a relative image anywhere, even after absolute ones, gives the domain address of the leftmost relative image, under "/assets/" |
| StaticHtml.NoRelativeFallsThrough | scripts/generate-static-html.js:29-40 | with no relative image anywhere, the preview is the first image of any kind when its target is absolute, and none otherwise |
| StaticHtml.LongSentencesKept | scripts/generate-static-html.js:56 | every kept fragment is longer than 10 characters once trimmed, and no more are kept than given |
| StaticHtml.CutAtWord | scripts/generate-static-html.js:75-78 | a prefix: the text itself exactly when no space lies beyond index 100; otherwise the part before its last space |
| StaticHtml.Description | scripts/generate-static-html.js:43-82 | never empty, at most 300 characters, and it is `DescriptionOf` of the content with markup removed, line breaks turned into spaces, and trimmed |
| StaticHtml.DescriptionOf | scripts/generate-static-html.js:56-81 | accumulated sentences of at least 100 characters are kept; shorter ones give way to the fallback, and an empty fallback to "Read this article by Ivan Tregear"; never empty, at most 300 characters |
| StaticHtml.FallbackOf | scripts/generate-static-html.js:72-79 | the first 300 characters, trimmed, then cut at the last space beyond index 100 (`CutAtWord`); at most 300 characters |
| StaticHtml.DescribeText | scripts/generate-static-html.js:56-81 | the sentence loop with its fallback and fixed sentence equals `DescriptionOf` |
| StaticHtml.FallbackDescription | scripts/generate-static-html.js:73-78 | the substring, trim and cut at the last space past index 100 equal `FallbackOf` |
| StaticHtml.GrowBound | scripts/generate-static-html.js:60-69 | accumulating sentences never passes 300 characters |
| StaticHtml.GrowJoins | scripts/generate-static-html.js:60-69 | the loop's result is the longest run of leading trimmed sentences whose ". "-join fits |
| StaticHtml.AcceptedSentences | scripts/generate-static-html.js:56-69 | the accumulated text is the ". "-join of the first n long sentences; it fits in 300, and adding the next one would not |
| StaticHtml.DescriptionChoice | scripts/generate-static-html.js:56-81 | stated without the loop: the ". "-join of the longest fitting run of leading long sentences when it has at least 100 characters; otherwise the fallback, or the fixed sentence when that is empty |
| StaticHtml.JoinStep | scripts/generate-static-html.js:62-66 | appending ". " and the next non-empty sentence to the join of the first k gives the join of the first k + 1 |
| StaticHtml.FitCountStops | scripts/generate-static-html.js:64-67 | the loop stops at the first sentence that would push the join past 300 characters |
| StaticHtml.CleanDescription | scripts/generate-static-html.js:43-82 | the imperative builder (sentence loop, fallback to the first 300 characters cut at a word, fixed sentence) equals `Description` |
| StaticHtml.AccumulateSentences | scripts/generate-static-html.js:57-69 | the loop with its break equals the greedy accumulation `Grow` |
| StaticHtml.PageFor | scripts/generate-static-html.js:84-119 | the description is `Description` of the content; the image is the extracted one or the default; the url is the article address and the page id; the type is "article"; the author is Ivan Tregear; the title and the published time come from the article; the structured data is `ArticleDataOf` of this metadata |
| StaticHtml.ArticleFromFile | scripts/generate-static-html.js:232-242 | the slug is the file name with its first ".md" removed and the content is the body read |
| StaticHtml.WrittenKeys | scripts/generate-static-html.js:231-255 | a page is written for exactly the slugs of the listed ".md" files |
| StaticHtml.LastFileWins | scripts/generate-static-html.js:247-252 | the page under a slug is the one of the last file with that slug |
| StaticHtml.LastListedFileWins | scripts/generate-static-html.js:227-252 | for the whole listing: the page under a slug is the one built from the last ".md" file with that slug |
| StaticHtml.ListedAt | scripts/generate-static-html.js:227 | a ".md" file keeps its place among the filtered files, and only files listed after it follow it |
| StaticHtml.GenerateStaticHtml | scripts/generate-static-html.js:217-258 | nothing is written without the article directory; otherwise the loop writes `Written` over the ".md" files |
| ThoughtPage.ImageUrl | pages/thoughts/@slug/index.page.server.tsx:10-18 | an address exactly when the image exists, and it is the image directory followed by the name |
| ThoughtPage.FirstImageUrl | pages/thoughts/@slug/index.page.server.tsx:20-41 | a preview image, when there is one, is a non-empty address |
| ThoughtPage.NoImageNoUrl | pages/thoughts/@slug/index.page.server.tsx:29-40 | content without an image has no preview image |
| ThoughtPage.ExistingRelativeWins | pages/thoughts/@slug/index.page.server.tsx:21-26 | the first relative image, when its file exists, gives the preview on the domain |
| ThoughtPage.MissingRelativeFallsThrough | pages/thoughts/@slug/index.page.server.tsx:21-38 | a missing relative image falls through to the first image of any kind, which is kept only when absolute |
| ThoughtPage.NonBlankKept | pages/thoughts/@slug/index.page.server.tsx:55 | every kept fragment is non-blank once trimmed, and no more are kept than given |
| ThoughtPage.ShortDescription | pages/thoughts/@slug/index.page.server.tsx:43-70 | at most 151 characters; the gathered sentences when there are any, else the trimmed first 150 characters (at most 150) |
| ThoughtPage.GatherBound | pages/thoughts/@slug/index.page.server.tsx:58-67 | each appended sentence leaves the description at most 151 characters, since the separator is not counted |
| ThoughtPage.CleanDescription | pages/thoughts/@slug/index.page.server.tsx:43-70 | the imperative builder equals `ShortDescription` |
| ThoughtPage.GatherSentences | pages/thoughts/@slug/index.page.server.tsx:56-67 | the loop with its skips and break equals `Gather` |
| ThoughtPage.Qualifying | pages/thoughts/@slug/index.page.server.tsx:60 | every kept fragment is longer than 10 characters and does not contain the title's first word |
| ThoughtPage.GatherIsFit | pages/thoughts/@slug/index.page.server.tsx:58-67 | unqualified fragments never matter: the loop is the greedy accumulation over the qualifying ones |
| ThoughtPage.AcceptedSentences | pages/thoughts/@slug/index.page.server.tsx:58-67 | the result is the ". "-join of the first n qualifying sentences; the next would have reached the bound |
| ThoughtPage.TakenCountStops | pages/thoughts/@slug/index.page.server.tsx:61-65 | the loop stops at the first qualifying sentence that would reach 150 with the text so far |
| ThoughtPage.EmptyWordGathersNothing | pages/thoughts/@slug/index.page.server.tsx:60 | a title whose first word is empty excludes every sentence, since every text contains "" |
| ThoughtPage.EmptyFirstWord | pages/thoughts/@slug/index.page.server.tsx:60-69 | such a title leaves only the fallback text |
| ThoughtPage.EmptyTextEmptyDescription | pages/thoughts/@slug/index.page.server.tsx:69 | an empty cleaned text gives an empty description |
| ThoughtPage.ImageRewritten | pages/thoughts/@slug/index.page.server.tsx:86-93 | a relative image whose file exists points at the image directory, keeping its alt text; a missing one is kept as written |
| ThoughtPage.MissingImagesKept | pages/thoughts/@slug/index.page.server.tsx:86-93 | when no referenced image exists, the body is unchanged |
| ThoughtPage.OnBeforeRender | pages/thoughts/@slug/index.page.server.tsx:72-128 | fails with "Article not found: slug" exactly when there is no file; otherwise the article has the rewritten body, and the meta has title "… - Ivan Tregear", the article url, the short description, the image or the default, type article, the date and the author |
| Images.RegistryKeys | src/lib/images.ts:11-16 | a file name is a key exactly when it is non-empty and some glob path ends in it |
| Images.Step | src/lib/images.ts:11-16 | one more glob entry sets its non-empty file name, and a new name goes last in the order |
| Images.OrderListsKeys | src/lib/images.ts:9-16 | the insertion order lists each key once and nothing else |
| Images.LaterOverwrites | src/lib/images.ts:14 | the URL under a file name is the one of the last glob path ending in it |
| Images.ImageRegistry.constructor | src/lib/images.ts:9 | the registry starts empty |
| Images.ImageRegistry.Set | src/lib/images.ts:14 | `Map.set`: the URL is replaced, a new name goes last, a known one keeps its place |
| Images.ImageRegistry.Get | src/lib/images.ts:19-21 | the URL exactly when the name is registered with a non-empty URL, otherwise none |
| Images.ImageRegistry.AvailableFilenames | src/lib/images.ts:24-26 | every registered name, once each |
| Images.BuildRegistry | src/lib/images.ts:9-16 | the loop builds the map `FilenameMap` and the key order `FilenameOrder` |
| LinkMetadata.FetchSingle | src/lib/link-metadata.ts:26-44 | metadata exactly for an ok reply with status "success" and data; title and publisher default to "", a missing or empty date to none |
| LinkMetadata.Storage.constructor | src/lib/link-metadata.ts:12 | storage with the given items and availability |
| LinkMetadata.Storage.SetItem | src/lib/link-metadata.ts:20 | the item is stored when storage accepts writes; otherwise nothing changes |
| LinkMetadata.ReadCache | src/lib/link-metadata.ts:10-16 | empty when storage is unavailable, the entry is missing or empty, or parsing fails; otherwise the parsed cache |
| LinkMetadata.WriteCache | src/lib/link-metadata.ts:18-24 | the serialised cache goes under the cache key when storage accepts it; a failure changes nothing |
| LinkMetadata.Uncached | src/lib/link-metadata.ts:57-63 | exactly the listed URLs without a cache entry |
| LinkMetadata.CachedResultsServed | src/lib/link-metadata.ts:57-60 | the first loop's results hold exactly the listed cached URLs, under their cached values |
| LinkMetadata.AddFetchedEffect | src/lib/link-metadata.ts:70-76 | a URL of the uncached list is set exactly when its fetch succeeded; any other key is untouched |
| LinkMetadata.CachedUrlServed | src/lib/link-metadata.ts:57-60 | a listed cached URL is served with its cached value |
| LinkMetadata.UncachedUrlFetched | src/lib/link-metadata.ts:70-76 | a listed uncached URL is in the result exactly when its fetch succeeded, with the fetched value |
| LinkMetadata.OnlyListedUrls | src/lib/link-metadata.ts:50-80 | no unlisted URL appears in the result |
| LinkMetadata.WriteBackPreserves | src/lib/link-metadata.ts:69-77 | the written cache keeps the re-read entries of URLs not fetched and has every successful fetch |
| LinkMetadata.FetchAllLinkMeta | src/lib/link-metadata.ts:50-80 | the result is `AllLinkMeta` of the cache read first; storage is untouched when every URL is cached, and otherwise the re-read cache with the successful fetches is written |
| LinkMetadata.SplitCached | src/lib/link-metadata.ts:57-63 | the first loop yields the cached results and the uncached URLs in listing order, as `CachedResults` and `Uncached` |
| LinkMetadata.MergeFetched | src/lib/link-metadata.ts:69-76 | the second loop adds each successful fetch to both the results and the re-read cache, as `AddFetched` |
| Ordering.BeforeIrreflexive | app/thoughts/page.tsx:62 | no date comes before itself |
| Ordering.BeforeTransitive | app/thoughts/page.tsx:62 | the date order is transitive |
| Ordering.BeforeTotal | app/thoughts/page.tsx:62 | two different dates are ordered one way and not the other |
| Ordering.AtMostTransitive | app/thoughts/page.tsx:62 | "not newer than" is transitive |
| Ordering.EmptyIsLeast | app/thoughts/page.tsx:62 | the empty date is not newer than any other, and only the empty date is not newer than it |
| Ordering.InsertPermutes | app/thoughts/page.tsx:62 | inserting adds exactly the one element |
| Ordering.InsertSorted | app/thoughts/page.tsx:62 | inserting into a newest-first list keeps it newest first |
| Ordering.SortByDateDescCorrect | app/thoughts/page.tsx:62 | the sort is a permutation of its input and puts it newest first |
| Ordering.UndatedLast | app/thoughts/page.tsx:62 | after the sort, undated entries come after all dated ones |
| Ordering.SortStable | src/pages/thoughts.tsx:34 | the sort is stable: for every date, the entries with that date (the undated ones among them) keep their listing order |
| Ordering.InsertSplit | src/pages/home.tsx:57 | inserting places the element after the prefix that is not older and before the older rest |
| Ordering.SortInPlace | src/pages/home.tsx:57 | sorting the array in place leaves in it the newest-first sort of its old contents |
| Ordering.InsertAt | src/pages/home.tsx:57 | one step: the element moves into the sorted prefix, the rest of the array is unchanged |
| PostIndex.PostOf | app/thoughts/page.tsx:44-58 | slug is the file name without the ".md" ending; title defaults to the slug with hyphens as spaces, date to ""; content is the body; excerpt is the 200-character excerpt |
| PostIndex.PostsOf | app/thoughts/page.tsx:43-60 | one post per file, in order, each the post of its file |
| PostIndex.GetPostsCorrect | app/thoughts/page.tsx:31-63 | no posts without the directory; otherwise exactly the posts of the ".md" files, newest first, undated last |
| PostIndex.PostOfSomeFile | app/thoughts/page.tsx:43-58 | every post in the list is the post of some listed file |
| PostIndex.PostsFromMarkdownFiles | app/thoughts/page.tsx:41-58 | every listed post comes from a listed ".md" file whose name is the slug plus ".md" |
| Home.StemPrefix | src/pages/home.tsx:21 | removing ".png" keeps the characters before it |
| Home.HeroLabel | src/pages/home.tsx:21 | a label holds no '/', '-' or '_' |
| Home.HeroLabelOfName | src/pages/home.tsx:18-23 | the label is the file name without ".png", with each '-' and '_' a space and every other character kept |
| Home.PreviewOf | src/pages/home.tsx:42-54 | slug is the file name without ".md"; title defaults to the slug with hyphens as spaces, date to ""; excerpt is the 220-character excerpt |
| Home.PreviewsOf | src/pages/home.tsx:41-55 | one preview per glob entry, in glob order |
| Home.Slice | src/pages/home.tsx:69 | `slice(0, limit)`: the first `min(limit, length)` elements |
| Home.ThoughtPreviews | src/pages/home.tsx:34-70 | the in-place sort followed by the slice equals the first `limit` of the newest-first previews |
| Home.ShownAreLatest | src/pages/home.tsx:57-69 | at most `limit` previews are shown, newest first, drawn from the given ones, and every preview left out is no newer than every one shown |
| Home.HeroState.constructor | src/pages/home.tsx:144-146 | index 0 without images, otherwise the (given) pick |
| Home.HeroState.ShuffleHero | src/pages/home.tsx:149-152 | the index becomes `NextHero` of the old one and stays in range |
| Home.HeroState.ShowsShuffle | src/pages/home.tsx:231 | the button is offered exactly when there is more than one image |
| Home.NextHero | src/pages/home.tsx:149-152 | no change without images; otherwise in range, one forward, and 0 exactly after the last image |
| Home.ShuffledForward | src/pages/home.tsx:151 | before the wrap, k shuffles move k images forward |
| Home.ShuffledWraps | src/pages/home.tsx:151 | shuffling past the last image returns to the first |
| Home.ShuffledCompose | src/pages/home.tsx:151 | a + b shuffles are a shuffles followed by b |
| Home.EveryImageReached | src/pages/home.tsx:149-152 | from any image every image is reached in fewer than count presses, and count presses return to the start |
| ArticlePage.ImageRewritten | src/pages/article.tsx:38-41 | a relative image points at its resolved bundle address, keeping its alt text |
| ArticlePage.NoImageUnchanged | src/pages/article.tsx:38-41 | a body without relative images is unchanged |
| ArticlePage.LoadArticle | src/pages/article.tsx:24-53 | none exactly when the file is not bundled or loading fails; otherwise the article with defaults and rewritten body |
| ArticlePage.ArticleState.constructor | src/pages/article.tsx:21 | the article state starts empty |
| ArticlePage.ArticleState.FetchArticle | src/pages/article.tsx:24-53 | each branch leaves the state equal to `LoadArticle` |
| ArticlePage.SeoDescription | src/pages/article.tsx:127 | exactly "<title> by Ivan Tregear. ", then the first 160 characters of the content, then "..." |
| ArticlePage.PageAddressIsSlug | src/pages/article.tsx:96-132 | the canonical address always names the requested slug; the structured data is an Article exactly when the article loaded, then with its address and title |
| ArticlePage.LoadedArticleHead | src/pages/article.tsx:123-132 | a loaded article's head has its title, its description, a published-time tag exactly when it has a date, the author tag, and its date as published and modified |
| ArticlePage.MissingArticleNotFound | src/pages/article.tsx:96-104 | an unbundled slug gets the not-found title, the slug's address and the author's Person record |
| ThoughtsPage.TitleOf | src/pages/thoughts.tsx:28 | the front-matter title, else the file name without ".md" (hyphens kept), else "Untitled"; never empty |
| ThoughtsPage.PostOf | src/pages/thoughts.tsx:27-31 | the post's title is `TitleOf` the entry, its date the front-matter date or "" when missing or empty, its content the body |
| ThoughtsPage.PostsOf | src/pages/thoughts.tsx:24-32 | one post per glob entry, the i-th built from the i-th entry |
| ThoughtsPage.UsePosts | src/pages/thoughts.tsx:19-40 | the posts sorted in place equal the newest-first sort of the posts |
| ThoughtsPage.PostsNewestFirst | src/pages/thoughts.tsx:34 | every post once, newest first, undated last |
| ThoughtsPage.StripImagesPrefix | src/pages/thoughts.tsx:50 | a leading "./images/" or ".images/" removed, anything else kept |
| ThoughtsPage.ImageSource | src/pages/thoughts.tsx:47-52 | absolute and site-rooted sources kept; anything else under the image directory, prefix stripped; the result is always absolute or site-rooted |
| ThoughtsPage.MissingSourceIsDirectory | src/pages/thoughts.tsx:48-50 | a missing or empty source becomes the image directory itself |
| ThoughtsPage.RelativeImageSource | src/pages/thoughts.tsx:50 | "./images/name" becomes the image directory plus name |
| ThoughtsPage.ImageSourceIdempotent | src/pages/thoughts.tsx:47-52 | rewriting a rewritten source changes nothing |
| Renderer.UrlsOf | renderer/_default.page.server.tsx:131-134 | one address per file |
| Renderer.UrlsOfAt | renderer/_default.page.server.tsx:131-134 | the i-th address is "/thoughts/" plus the i-th file with its first ".md" removed |
| Renderer.PrerenderOnePerFile | renderer/_default.page.server.tsx:120-138 | none without the directory; otherwise one address per ".md" file, in listing order |
| Renderer.PrerenderMatchesGenerated | renderer/_default.page.server.tsx:128-134 | an article address is prerendered exactly when the static generator writes a page for its slug |
| Renderer.Render | renderer/_default.page.server.tsx:17-56 | without metadata a minimal document titled "Ivan Tregear"; otherwise the metadata with the structured data built from it |
| Seo.Default | src/components/seo.tsx:14-23 | a default parameter replaces only a missing value, not an empty one |
| Seo.Resolve | src/components/seo.tsx:14-23 | title, description, image, url, type and author take the site defaults when omitted; the times have no default |
| Seo.StructuredDataOf | src/components/seo.tsx:24-59 | an Article exactly for type "article", with headline = title, id = url and modified = modifiedTime if truthy else publishedTime; otherwise the fixed Person record |
| Seo.MetaContent | src/components/seo.tsx:61-114 | description, url and title tags carry those values; each article tag is present exactly for an article with a truthy value and carries it; only article tags are ever absent |
| Seo.HeadOf | src/components/seo.tsx:64-108 | the title element is the title, the canonical link is the url, and the structured data is `StructuredDataOf` |
| Tabs.FindIndex | src/components/ui/tabs.tsx:67-72 | -1 exactly when no tab selects the location; otherwise the first tab that does |
| Tabs.SelectedTab | src/components/ui/tabs.tsx:59-72 | "/" selects 0, "/thoughts" and "/thoughts/…" 1, "/top-secret" 2, anything else -1 |
| Tabs.NoOutlineOffTabs | src/components/ui/tabs.tsx:109-110 | on an address no tab claims, no outline is drawn whatever the layout |
| Header.JsRem | src/components/header.tsx:8 | JavaScript `%`: in [0, n) for a non-negative dividend, in (-n, 0] for a negative one |
| Header.GetNextIndex | src/components/header.tsx:7-9 | one forward, 0 after the last image, and in [0, count) for a non-negative index |
| Header.DigitRun | src/components/header.tsx:13 | the leading digits, stopping at the first non-digit |
| Header.GetCurrentIndex | src/components/header.tsx:11-15 | 0 when nothing or "" is stored or parsing gives NaN; otherwise the parsed value, not clamped |
| Header.StoredIndexReadsBack | src/components/header.tsx:11-28 | a stored index reads back as itself: `parseInt(String(n), 10) === n` |
| Header.DigitsOfNat | src/components/header.tsx:13 | the digits of n have value n |
| Header.HeaderState.constructor | src/components/header.tsx:18-23 | 0 without a window, otherwise the stored index |
| Header.HeaderState.PlaneImage | src/components/header.tsx:33-49 | an image exactly when the index is in range |
| Header.HeaderState.HandleClick | src/components/header.tsx:25-31 | the index becomes `GetNextIndex` of the old one and the same value is stored under "heroImageIndex" |
| Header.ClickSurvivesReload | src/components/header.tsx:11-31 | after a click, a new page reads back the index the click moved to |

## Left out

- Rendering. This covers React components, JSX, class names, the `getMarkdownComponents` maps, the HTML templates of the build script and the renderer, and the order of tags in the head. The head is modelled as a keyed function from tag to content.
- I/O. This covers the file system, the bundler's glob imports, `fetch`, `localStorage`, `JSON.parse`/`JSON.stringify`, `new URL(…)` and `path.join`. All of them are parameters. Path joining is taken as plain concatenation. `fetch` is a function of the URL, so a URL listed twice among the uncached ones gets the same reply both times; in the source these are two independent requests, and the cache keeps the later reply.
- Concurrency. `Promise.all` fan-out is taken in order. No other writer touches the link-metadata cache between its two reads.
- The front-matter parser. It is assumed to succeed, and `title`/`date` are read as strings: a YAML date becoming a `Date` object is not modelled. Its failure on the article page is the "loading fails" case of `ArticlePage.LoadArticle`.
- JSON `null` cache entries. An entry is served whenever its key is present, as for any object value.
- Strings are sequences of characters. UTF-16 code units, `localeCompare` collation (modelled as lexicographic order, which matches ISO dates) and non-ASCII `toLowerCase` are not modelled.
- Floating point. The tab outline geometry and its SVG path builder are left out; `Tabs.OutlineDrawn` keeps only the condition under which a path is drawn.
- Randomness. The initial hero pick is a parameter of `Home.HeroState.constructor`. The random pages of the other site copies are not part of this model.
- The `?? "Field Notes"` and `?? ""` fallbacks of src/pages/home.tsx. `split('/').pop()` always yields a string, so they are unreachable and not modelled.
- Header.GetNextIndex: requires at least one image. With none the source computes NaN, but then no image is rendered and the click handler that calls it does not exist.
- Header.HeaderState.HandleClick: requires the index to be in range, for the same reason: the handler is attached only to a rendered image.
- ThoughtPage.FirstImageUrl: its own contract states only that a result is non-empty. The precedence rules are stated by `ThoughtPage.NoImageNoUrl`, `ThoughtPage.ExistingRelativeWins` and `ThoughtPage.MissingRelativeFallsThrough`.
- ArticlePage.PageSeo and Seo.MetaOf carry no contract of their own. What they produce is stated by `ArticlePage.PageAddressIsSlug`, `ArticlePage.LoadedArticleHead`, `ArticlePage.MissingArticleNotFound` and `Seo.MetaContent`.
- The redacted-text component (random positions and SVG paths) is not part of this model. Its position-picking loop cannot terminate when there are too few sentences.
- The excerpt can still cut a link in half when its ')' lies 100 or more characters past the cut. The model states what the code does and claims no more.
