# hello-interview converters, modelled in Dafny

hello-interview turns saved lesson pages into Markdown and then builds an
EPUB book from them. This project models its core parts and proves
properties about them:

- **The newer converter**, `hello-interview/parser.py`.
  - `preprocess` runs a fixed, ordered table of rewrite passes over the
    parsed page. Each pass renames elements, replaces their attributes, or
    removes whole subtrees.
  - It then extracts the svgs. Every class-less `<svg>` is numbered from 1
    and gets its missing `width`/`height` from its `viewbox`. It is
    recorded as a side file `{prefix}_{NN}.svg` and replaced by an
    `<img>`.
  - `parse_all` writes a Setext title, an optional metadata fence, and
    every later section of the body.
  - Two converters render callouts: a fenced `:::` form, and a GitHub
    alert form driven by a prefix table.
- **The older converter**, `hello-interview/parser/parser.py`. It has the
  same kind of passes, but different accordion rules and no svg step. It
  renders raw HTML blockquotes and `h4` headings, and its `parse_all`
  writes the children of the first element.
- **The book builder**, `hello-interview/build.py`. It covers:
  - section and chapter titles;
  - the `# Table of Contents` file;
  - the image filter;
  - copying sections into `output/temp/`;
  - the pandoc command line, whose files are in sorted order.
- **The image-reference rewriter**, `hello-interview/download-image.py`.
  - It finds the Markdown image references, left to right.
  - Each http(s) reference gets a local name
    `i-{doc}-d{index}{ext}`.
  - The image is fetched unless that file already exists.
  - Every occurrence of the url is then replaced by the local name, unless
    the url could not be parsed or the fetch failed.

The tree is a value: `Node = Element(Head, children) | Text`. A `Head`
holds the tag, the class tokens (`None` when there is no class attribute),
and the other attributes.

A pass is a declarative `Rule`: a `Matcher` and an `Action`. `RunPasses`
applies the table in a loop, in source order. Foreign code is passed in as
parameters:

- the HTML parser (its tree is the input);
- markdownify's generic rendering (`render`);
- `str(svg)` (`serialize`);
- the file system (file contents as `Option<string>`, and the set of
  existing paths);
- the network (`fetched: nat -> bool`, indexed by reference number).

Files:

| file | module | models |
|---|---|---|
| `strings.dfy` | `Strings` | `str` operations: `split`, `replace`, `join`, `title`, `upper`, `strip`, `:02` padding, basenames |
| `dom.dfy` | `Dom` | the tree, its document-order views, `find` / `select_one` |
| `rules.dfy` | `Rules` | passes as rules, their semantics, and generic pass lemmas |
| `svg.dfy` | `SvgExtraction` | the svg extraction loop of the newer `preprocess` |
| `parser.dfy` | `Parser` | newer `preprocess`, converters, `parse_all` |
| `legacy_parser.dfy` | `LegacyParser` | older `preprocess`, raw HTML converters, `parse_all` |
| `ordering.dfy` | `Ordering` | `sorted` on names: insertion sort, sorted and a permutation |
| `build.dfy` | `Build` | titles, TOC, image filter, temp directory, pandoc command |
| `download_image.dfy` | `DownloadImage` | `download_images` |

## Model

| member | source | states |
|---|---|---|
| `Rules.RunPasses` | hello-interview/parser.py:43-114 | the passes run one after another, in table order, each over the tree the previous one left |
| `Rules.ApplyRulesAppend` | hello-interview/parser.py:43-114 | running a table in two parts is running the whole table |
| `Rules.ExactClassMatch` | hello-interview/parser.py:46 | for a class string containing a space and tokens without spaces, `class_=` matches exactly when the joined tokens equal the string |
| `Rules.FirstMarker` | hello-interview/parser.py:98-103 | gives the kind of the first marker present in the classes, or `None` exactly when no marker is present |
| `Rules.RetagHeads` | hello-interview/parser.py:46-48 | a renaming pass rewrites every element head pointwise, in document order, and keeps the number of elements |
| `Rules.RetagLabels` | hello-interview/parser.py:46-48 | a renaming pass keeps the tree's shape: the labels in document order are the old ones, each rewritten |
| `Rules.MapHeads` | hello-interview/parser.py:46-48 | the heads after one rename step, index by index |
| `Rules.MapHeadsAppend` | hello-interview/parser.py:46-48 | the step maps two halves of a document independently |
| `Rules.MapLabels` | hello-interview/parser.py:46-48 | the labels after one rename step, index by index |
| `Rules.MapLabelsAppend` | hello-interview/parser.py:46-48 | the label step maps two halves independently |
| `Rules.RetagText` | hello-interview/parser.py:46-48 | a renaming pass leaves the text of the page unchanged |
| `Rules.RetagNothing` | hello-interview/parser.py:46-48 | a renaming pass that selects nothing leaves the tree unchanged |
| `Rules.PruneHeads` | hello-interview/parser.py:66-71 | after `decompose`, no selected element remains, and the heads left are a subsequence of the old ones |
| `Rules.PruneLabels` | hello-interview/parser.py:66-71 | `decompose` takes each selected element with all it holds and nothing else: the labels left (head and number of children, in document order) are exactly those of the old nodes that are neither selected nor below a selected element, and the top level keeps exactly its unselected nodes |
| `Rules.PruneCount` | hello-interview/parser.py:66-71 | the pruned top level holds as many nodes as the old top level has unselected ones |
| `Rules.PruneLabelsUnder` | hello-interview/parser.py:66-71 | below a selected element no node survives; elsewhere the surviving labels are the labels of the pruned forest |
| `Rules.SurvivorsAppend` | hello-interview/parser.py:66-71 | the survivors of two documents one after the other are the survivors of each |
| `Rules.PruneNothing` | hello-interview/parser.py:66-71 | a removal pass that selects nothing leaves the tree unchanged |
| `Rules.StaysAbsent` | hello-interview/parser.py:66-114 | what is absent stays absent through passes that cannot create it |
| `Rules.PruneKeepsAbsent` | hello-interview/parser.py:66-71 | removal never creates an element |
| `Rules.RetagKeepsAbsent` | hello-interview/parser.py:74-107 | a rename that cannot produce a head matching `m` keeps such heads absent |
| `Rules.StepKeepsAbsent` | hello-interview/parser.py:74-107 | the same, for one head |
| `Rules.RewriteSetsTag` | hello-interview/parser.py:75 | a rename gives the head the action's tag |
| `Rules.SelectedHasTag` | hello-interview/parser.py:74 | a tag selector only selects heads with that tag |
| `Rules.RenamesHeads` | hello-interview/parser.py:50-63 | a table of renaming passes keeps the text and maps each head to the composition of the steps |
| `Rules.SubseqConcat` | hello-interview/parser.py:66-71 | subsequences concatenate, so pruning siblings composes |
| `Rules.SubseqMembers` | hello-interview/parser.py:66-71 | a head kept after pruning was in the tree before |
| `Dom.FindFirst` | hello-interview/parser.py:147-150 | `find` / `select_one` return a selected element of the tree |
| `Dom.FindFirstIsFirst` | hello-interview/parser.py:147-150 | `find` / `select_one` return the subtree at the first position, in document order, whose head the query selects, and nothing when no head is selected |
| `Dom.FirstSelected` | hello-interview/parser.py:147-150 | the position of a head the query selects, with no selected head before it; the length when none is selected |
| `Dom.SubtreesHeads` | hello-interview/parser.py:147-150 | the i-th subtree in document order is an element whose head is the i-th head |
| `Dom.FirstSelectedAppend` | hello-interview/parser.py:147-150 | the first selected position of two documents one after the other is in the first when it has one, else in the second, shifted |
| `Dom.FlaggedLabels` | hello-interview/parser.py:66-71 | the flagged document lists exactly the labels of the tree, in document order |
| `Dom.DecodeLabels` | hello-interview/parser.py:66-131 | a forest is given back from its labels in document order and its number of top-level nodes, leaving whatever follows untouched |
| `Dom.LabelsDetermine` | hello-interview/parser.py:66-131 | two forests with the same labels and the same number of top-level nodes are equal, so the label statements about the passes fix the whole resulting tree |
| `Dom.FindFirstNone` | hello-interview/parser.py:147-150 | `find` returns nothing exactly when no element is selected |
| `Dom.ElementsOf` | hello-interview/parser.py:144 | no more children are kept than there are, and all are elements |
| `Dom.ElementsOfMembers` | hello-interview/parser.py:144 | a child is kept exactly when it is an element |
| `Dom.ElementsOfOrder` | hello-interview/parser.py:144 | the kept children keep their order: those before any child come before it, those after it after it |
| `Parser.BlockquotePasses` | hello-interview/parser.py:50-89 | one `blockquote` pass per table entry, in table order, all of them renaming |
| `Parser.Lookup` | hello-interview/parser.py:50-89 | the kind of the first entry with that exact class string, or `None` exactly when there is none |
| `Parser.LookupLast` | hello-interview/parser.py:50-89 | lookup in a table extended at the end prefers the earlier entries |
| `Parser.LookupFirst` | hello-interview/parser.py:50-89 | an entry whose class string appears in no earlier entry gives its own kind |
| `Parser.DifferentSuffixes` | hello-interview/parser.py:74-84 | accordion class strings that differ in their last token differ |
| `Parser.BlockquotePassesHead` | hello-interview/parser.py:50-63 | the table's passes turn one head into what `AsBlockquote` says: the first matching kind with the class as the only attribute, or the head unchanged |
| `Parser.BlockquoteTablePasses` | hello-interview/parser.py:50-89 | over a whole tree: text kept, element count kept, each head becomes its `AsBlockquote` |
| `Parser.ChipPass` | hello-interview/parser.py:46-48 | every `span` whose class string is exactly the chip's becomes `code` with no attributes; every other element is untouched |
| `Parser.CalloutPasses` | hello-interview/parser.py:50-63 | each callout `div` becomes a `blockquote` whose only attribute is its kind; nothing else changes |
| `Parser.CalloutKinds` | hello-interview/parser.py:50-63 | `mui-1ygn9bx` is `info`, `mui-1147lff` is `tip`, and both `mui-o9fqh4` and `mui-8d9r5j` are `warning` |
| `Parser.AccordionPasses` | hello-interview/parser.py:74-89 | each accordion and problem `div` becomes a `blockquote` with its kind; nothing else changes |
| `Parser.AccordionKinds` | hello-interview/parser.py:74-89 | each of the four class strings gives its own kind: `solution-bad`, `solution-good`, `solution-great`, `problem` |
| `Parser.CalloutTableSpaced` | hello-interview/parser.py:50-63 | every callout class string holds a space, so matching it is whole-string matching |
| `Parser.AccordionTableSpaced` | hello-interview/parser.py:74-89 | every accordion class string holds a space |
| `Parser.PanelHeadingPass` | hello-interview/parser.py:95-103 | an element with id `panel1bh-header` becomes `h4`; its attributes become the first marker's kind, or stay as they were when no marker is present; every other element is untouched |
| `Parser.ImagePrefix` | hello-interview/parser.py:117-118 | the prefix has no `/` and no `.` |
| `Parser.Preprocess` | hello-interview/parser.py:43-136 | the passes, then the svg extraction on the result |
| `Parser.EarlyPassesRemove` | hello-interview/parser.py:65-71 | the caption `div`s go with all they hold, then the `button`s with all they hold: after each removal the labels left are those of the nodes neither removed nor below a removed one, in document order, and the top level keeps exactly its unremoved nodes; no caption `div` and no `button` is left |
| `Parser.LatePassesKeep` | hello-interview/parser.py:73-114 | the later passes create none of those, and remove every classed svg |
| `Parser.PassesRemove` | hello-interview/parser.py:43-114 | after all passes, no caption `div`, no `button`, no classed `svg` |
| `Parser.ExtractLeavesNoSvg` | hello-interview/parser.py:116-131 | after the extraction, no `svg`, `button` or caption `div` is left |
| `Parser.LeftHeadClean` | hello-interview/parser.py:116-131 | a head kept by the extraction, or an `img` it adds, is none of those |
| `Parser.PreprocessRemoves` | hello-interview/parser.py:43-136 | a completed `preprocess` leaves no `svg`, no `button` and no caption `div` |
| `Parser.FencedBlockquoteParts` | hello-interview/parser.py:7-9 | the fenced callout is `:::`, the classes joined by spaces, the text unchanged, then `:::` and a blank line |
| `Parser.GitHubPrefixTotal` | hello-interview/parser.py:24-37 | the prefix is non-empty exactly for the six keys of the table; `problem` gets none; `info` renders as `[!NOTE]` |
| `Parser.SolutionCalloutsUnprefixed` | hello-interview/parser.py:26-37 | as written, the hyphenated `solution-*` kinds that `preprocess` emits get no prefix |
| `Parser.EmittedKindsPrefixed` | hello-interview/parser.py:26-37 | corrected table: every kind `preprocess` emits except `problem` gets the prefix that its dotted key has |
| `Parser.ReadPageOutcome` | hello-interview/parser.py:144-150 | refused for a missing body exactly when no `body` exists; for the first `body`, refused for missing metadata exactly when it has no element child, and for a missing title exactly when its first element child holds no `h1`; a page read has the first `h1`'s text as its title and the later element children, in order, as its sections |
| `Parser.HeaderUnderline` | hello-interview/parser.py:155-157 | the title, a newline, then `=` as many times as the title is long; the header ends there exactly when there is neither an author nor a difficulty |
| `Parser.HeaderFence` | hello-interview/parser.py:157-163 | with an author or a difficulty, a blank line and a fence follow, holding `\nAuthor: ` and the author, then `\nLevel : ` and the upper-cased difficulty, each when present, closed by a fence and a blank line |
| `Parser.ChunksNext` | hello-interview/parser.py:165-169 | each section's rendering follows those before it, with its terminator |
| `Parser.ChunksAppend` | hello-interview/parser.py:165-169 | rendering is compositional over document order |
| `Parser.OutputPathOfHtml` | hello-interview/parser.py:152 | `x.html` is written to `x.md` when `.html` occurs nowhere else |
| `Parser.AppendChunks` | hello-interview/parser.py:165-169 | the loop appends the rendered sections in order, each followed by the terminator |
| `Parser.WriteMarkdown` | hello-interview/parser.py:143-169 | writes the header and the sections, or reports the error that `parse_all` raises |
| `Parser.ParseAll` | hello-interview/parser.py:138-169 | the side files of `preprocess`, then the Markdown of the normalised page, or an error where the source raises |
| `LegacyParser.AccordionTableSpaced` | hello-interview/parser/parser.py:59-70 | every accordion class string of the older file holds a space |
| `LegacyParser.AccordionPasses` | hello-interview/parser/parser.py:59-70 | each accordion `div` becomes what the first entry of its class string says; nothing else changes |
| `LegacyParser.AccordionKinds` | hello-interview/parser/parser.py:59-70 | `solution.bad` only for the string with `Mui-expanded`, `solution.good` for `mui-11r69q9`, and `solution.great` for no class string at all |
| `LegacyParser.ExpandedDiffers` | hello-interview/parser/parser.py:60-64 | the `Mui-expanded` string is not the plain one with any suffix |
| `LegacyParser.SameSelectorTwice` | hello-interview/parser/parser.py:64-70 | a second pass with the selector of a pass that renamed its matches away does nothing |
| `LegacyParser.StepLeavesUnselected` | hello-interview/parser/parser.py:64-66 | an element renamed by the pass is no longer selected by it |
| `LegacyParser.GreatPassIsDead` | hello-interview/parser/parser.py:27-82 | as written, removing the `solution.great` pass changes no page |
| `LegacyParser.RawBlockquoteParts` | hello-interview/parser/parser.py:7-9 | the raw blockquote is the opening tag with the joined classes, the text unchanged, then `</blockquote>` and a blank line |
| `LegacyParser.RawH4Form` | hello-interview/parser/parser.py:11-15 | raw `<h4 class=...>` exactly when a solution class is present, otherwise `#### text`; the text unchanged either way |
| `LegacyParser.MarkedHeadingsStayRaw` | hello-interview/parser/parser.py:73-80 | every heading that the header pass marks renders as raw HTML |
| `LegacyParser.FirstElementIsTopLevel` | hello-interview/parser/parser.py:87 | `find(True)` is the first top-level element |
| `LegacyParser.ParseAll` | hello-interview/parser/parser.py:84-97 | `output.md` holds each element child of the first element, rendered, each followed by a newline |
| `SvgExtraction.Svgs` | hello-interview/parser.py:119 | every collected node is a class-less `svg` element |
| `SvgExtraction.SvgsInOrder` | hello-interview/parser.py:119 | `find_all('svg', class_=False)` lists exactly the class-less svgs of the tree, nested ones included, in document order |
| `SvgExtraction.FirstBad` | hello-interview/parser.py:120-125 | all svgs before the returned index can be filled; the svg at it cannot |
| `SvgExtraction.ReplaceSvgs` | hello-interview/parser.py:129-131 | the counter advances by the number of svgs replaced |
| `SvgExtraction.ReplaceSvgsLabels` | hello-interview/parser.py:119-131 | the labels of the replaced tree, in document order, are the old ones with the svg numbered `k + j` in `find_all` order made a child-less `<img>` of side file `k + j` when no other collected svg holds it, the labels of what the collected svgs hold dropped, and every other label kept in place |
| `SvgExtraction.ExtractTree` | hello-interview/parser.py:116-131 | a completed extraction leaves a tree whose labels are those of `ReplaceSvgsLabels` with the svgs numbered from 1, and whose top level keeps its number of nodes; with `Dom.LabelsDetermine` this fixes the tree |
| `SvgExtraction.CountFlagged` | hello-interview/parser.py:119 | the flagged document holds as many collected svgs as `find_all` lists |
| `SvgExtraction.SubstitutedUnder` | hello-interview/parser.py:129-131 | nothing inside a collected svg is left after the replacement |
| `SvgExtraction.SubstitutedAppend` | hello-interview/parser.py:119-131 | the replacement of two documents one after the other is the replacement of each, the numbering running on |
| `SvgExtraction.SideFiles` | hello-interview/parser.py:126-128 | one side file per svg handled |
| `SvgExtraction.ExtractSvgs` | hello-interview/parser.py:116-131 | the loop records exactly the side files, and the tree, of the extraction specification |
| `SvgExtraction.ExtractCount` | hello-interview/parser.py:119-128 | the files written number the svgs handled; the pass completes exactly when all are written; it stops at an svg whose viewbox is too short |
| `SvgExtraction.ExtractFiles` | hello-interview/parser.py:119-128 | file `j` is named after `j + 1` and holds the `j`-th svg after its dimensions are filled |
| `SvgExtraction.SideFilesAt` | hello-interview/parser.py:126-128 | the same, for every index of the file list |
| `SvgExtraction.SideFileAt` | hello-interview/parser.py:126-128 | the same, for one index |
| `SvgExtraction.SvgNameInjective` | hello-interview/parser.py:126 | different numbers give different file names |
| `SvgExtraction.FillDimsSpec` | hello-interview/parser.py:120-125 | fails exactly when a missing dimension has no viewbox field; present attributes are kept; a missing width is field 2 and a missing height field 3 |
| `SvgExtraction.FillDimsFromViewBox` | hello-interview/parser.py:120-125 | with a four-field viewbox and no dimensions, width and height are its last two fields |
| `SvgExtraction.ReplaceSvgsHeads` | hello-interview/parser.py:129-131 | every head after replacement is an old non-svg head or the `img` of one of the numbers used |
| `SvgExtraction.ReplacedSvgHeads` | hello-interview/parser.py:129-131 | the same when the first node is a replaced svg |
| `SvgExtraction.KeptElementHeads` | hello-interview/parser.py:129-131 | the same when the first node is kept |
| `SvgExtraction.ExtractHeads` | hello-interview/parser.py:116-131 | a completed extraction leaves only old non-svg heads and class-less `img` heads |
| `SvgExtraction.NoSvgSurvives` | hello-interview/parser.py:110-131 | when every svg is class-less, none survives the replacement |
| `Ordering.SortByCorrect` | hello-interview/build.py:34 | `sorted` gives an ordered permutation of its input |
| `Ordering.InsertSorted` | hello-interview/build.py:34 | inserting into an ordered list keeps it ordered |
| `Ordering.InsertPermutes` | hello-interview/build.py:34 | inserting adds exactly one element |
| `Ordering.LteTotal` | hello-interview/build.py:34 | any two names compare |
| `Ordering.LteTrans` | hello-interview/build.py:34 | the name order is transitive |
| `Ordering.LteAntisymmetric` | hello-interview/build.py:34 | names that compare both ways are equal |
| `Build.Dirs` | hello-interview/build.py:34 | exactly the directories of `content/` |
| `Build.SectionDirsSorted` | hello-interview/build.py:32-34 | the sections are the directories, sorted by name |
| `Build.MarkdownFiles` | hello-interview/build.py:38 | exactly the `*.md` files |
| `Build.ChapterFilesSorted` | hello-interview/build.py:36-38 | the chapters are the `.md` files, sorted by name |
| `Build.StemSuffix` | hello-interview/build.py:43 | stem plus suffix is the name; with the last dot at `i`, the suffix is `name[i:]` and the stem `name[:i]` when `0 < i < len(name) - 1`, and otherwise the suffix is empty and the stem is the whole name; a name without a dot has an empty suffix |
| `Build.ImageByLastDot` | hello-interview/build.py:43 | with the last dot at `i`, a file is an image exactly when the dot is neither first nor last and the lower-cased text from it is an image extension |
| `Build.ImageFiles` | hello-interview/build.py:40-43 | keeps exactly the files whose lower-cased suffix is an image extension |
| `Build.ImageSuffixCaseBlind` | hello-interview/build.py:43 | every name `x.PNG` with a non-empty `x` is an image: the test ignores case |
| `Build.ImageSuffixLastOnly` | hello-interview/build.py:43 | only the last suffix counts: no name `x.svg.md` is an image |
| `Build.ImageSuffixDotfile` | hello-interview/build.py:43 | a name `.e` with no further dot has no suffix, so it is not an image, whatever `e` is |
| `Build.DigitRun` | hello-interview/build.py:81 | the longest run of leading digits |
| `Build.StripNumberPrefixSpec` | hello-interview/build.py:81 | the result is a suffix of the name, shorter exactly when the name starts with digits and a hyphen |
| `Build.StripsOnePrefix` | hello-interview/build.py:81 | `digits-rest` becomes `rest`, so one prefix at most is stripped |
| `Build.DigitRunStops` | hello-interview/build.py:81 | the run ends at the first non-digit |
| `Build.SectionTitleAt` | hello-interview/build.py:79-82 | each character of the section title: a hyphen becomes a space, a letter is upper-cased exactly after a non-letter or at the start and lower-cased otherwise |
| `Build.SpaceRunSpec` | hello-interview/build.py:68 | `\s+` takes the whole run of white space |
| `Build.LineEndSpec` | hello-interview/build.py:68 | `$` in multiline mode: the first newline or the end |
| `Build.LastNonNewlineSpec` | hello-interview/build.py:68 | `(.+)` backtracks to the last non-newline before `$` |
| `Build.HeadingMatchShape` | hello-interview/build.py:68 | a match at a line start is `#`, white space, then a non-empty capture without newline |
| `Build.TitleFromFirstLine` | hello-interview/build.py:68-70 | `# t` on the first line gives `t` stripped |
| `Build.SkipLine` | hello-interview/build.py:68 | a line that is not a heading is skipped |
| `Build.HashThenNewline` | hello-interview/build.py:68 | `\s+` may run over a newline: `#` alone on a line takes the next line as the title |
| `Build.BlankHeading` | hello-interview/build.py:68-70 | a heading of spaces only gives an empty title |
| `Build.NoHashNoHeading` | hello-interview/build.py:68 | text without `#` has no heading |
| `Build.TitleFallback` | hello-interview/build.py:72-74 | with no heading, the title is the stem made into a section title |
| `Build.SectionRefs` | hello-interview/build.py:93-96 | one reference per chapter, in chapter order |
| `Build.GenerateToc` | hello-interview/build.py:84-101 | writes the TOC text to `output/temp/generated_toc.md` |
| `Build.TocLinesNext` | hello-interview/build.py:88-96 | each section adds its heading, then its chapter lines |
| `Build.AppendChapterLines` | hello-interview/build.py:93-96 | the inner loop appends one link per chapter in order |
| `Build.LinksOfRefLines` | hello-interview/build.py:96 | every chapter line is a link |
| `Build.TocLinks` | hello-interview/build.py:84-99 | the links of the TOC are the chapters of the sorted sections, in order |
| `Build.SectionLinks` | hello-interview/build.py:88-96 | the links of one section are its sorted chapters |
| `Build.CopyFilesSticks` | hello-interview/build.py:45-61 | the first unreadable file stops the copying |
| `Build.CopyFilesOutcome` | hello-interview/build.py:45-61 | copying succeeds exactly when every file reads, and each copy is an exact copy of one of the files |
| `Build.PrepareNext` | hello-interview/build.py:111-121 | sections are prepared one after another, and an error stops the loop |
| `Build.PrepareSticks` | hello-interview/build.py:111-121 | an error stays the result |
| `Build.CopyImages` | hello-interview/build.py:45-48 | copies the section's image files in order |
| `Build.CopyEach` | hello-interview/build.py:47-48 | the copy loop equals its specification |
| `Build.CopyAndAdjustChapter` | hello-interview/build.py:50-61 | fails exactly when the chapter cannot be read; otherwise writes identical content to `output/temp/<section>/<name>` |
| `Build.PrepareTempDirectory` | hello-interview/build.py:103-123 | the loop equals the preparation specification |
| `Build.CopyChapters` | hello-interview/build.py:119-121 | copies the sorted chapters and lists their temp paths in order |
| `Build.SectionOutcome` | hello-interview/build.py:111-121 | a section is prepared exactly when all its images and chapters read |
| `Build.PrepareOutcome` | hello-interview/build.py:103-123 | the temp directory is prepared exactly when every image and chapter reads |
| `Build.CopyOfWider` | hello-interview/build.py:45-61 | a copy of a file of a subset is a copy of a file of the section |
| `Build.SectionCopies` | hello-interview/build.py:111-121 | a section appends its chapters' paths and copies of its own files, keeping what came before |
| `Build.CopiesOfWider` | hello-interview/build.py:45-61 | copies of a sublist are copies of the section's files |
| `Build.PreparedCopies` | hello-interview/build.py:103-123 | every copy made is an exact copy of a file of some section |
| `Build.PreparedTempFiles` | hello-interview/build.py:103-123 | the content files are the chapters' temp paths, sections and chapters in sorted order |
| `Build.Parents` | hello-interview/build.py:139 | the resource path holds the parent of each content file, in order |
| `Build.CommandLayout` | hello-interview/build.py:133-150 | the command has 13 fixed words, with metadata and TOC at 11 and 12, then the content files in order, then `--css style.css` exactly when the stylesheet exists |
| `Build.TempPathParent` | hello-interview/build.py:139 | a chapter's parent is its section's temp directory |
| `Build.AssembleCommand` | hello-interview/build.py:133-150 | the list built step by step is the command |
| `Build.BuildEpub` | hello-interview/build.py:125-184 | fails before pandoc when preparation fails; otherwise writes the TOC and runs the command; the book is built exactly when pandoc succeeds, and the temp directory is kept exactly when pandoc exits with an error (a pandoc that cannot be launched fails, and the temp directory goes) |
| `Build.TocMatchesCommand` | hello-interview/build.py:84-150 | the TOC links and the content files name the same chapters in the same order |
| `DownloadImage.LineFind` | hello-interview/download-image.py:17 | the first occurrence on the same line, with no newline before it; nothing exactly when no occurrence starts before the next newline |
| `DownloadImage.MatchAt` | hello-interview/download-image.py:17 | a match starts with `![`; its capture is followed by `)` and holds no `)` and no newline |
| `DownloadImage.MatchAtSpec` | hello-interview/download-image.py:17 | the pattern matches at `p` exactly when `![`, `](` and `)` follow on one line; the match takes the first `](` after `![` and the first `)` after that |
| `DownloadImage.OneReference` | hello-interview/download-image.py:17 | `![x](u)` on one line, with no `]` in `x` and no `)` in `u`, is matched at its `!` with `u` as the capture |
| `DownloadImage.ImageUrls` | hello-interview/download-image.py:17 | the urls captured left to right; none holds `)` or a newline |
| `DownloadImage.ImageUrlsLeftmost` | hello-interview/download-image.py:17-19 | the first url from `p` is the capture at the leftmost position where the pattern matches, and the search goes on after its `)` |
| `DownloadImage.ImageUrlsNone` | hello-interview/download-image.py:17-19 | there is no url from `p` on exactly when the pattern matches nowhere from `p` on |
| `DownloadImage.ImageUrlsSkip` | hello-interview/download-image.py:17 | positions where the pattern does not match add no url |
| `DownloadImage.MatchClean` | hello-interview/download-image.py:17 | a capture without those characters at any position holds neither |
| `DownloadImage.PlainTextNoUrls` | hello-interview/download-image.py:17 | text without `!` holds no reference |
| `DownloadImage.ExtLadder` | hello-interview/download-image.py:23-31 | first match wins: `.png` exactly when `.png` occurs; `.gif` exactly when `.gif` occurs and neither earlier test holds; `.jpg` otherwise |
| `DownloadImage.SplitExtParts` | hello-interview/download-image.py:12 | `splitext`: the root is the whole name, or the name cut before a last dot that has something other than dots before it; when such a dot exists the root is that cut |
| `DownloadImage.StripTrailingSlashes` | hello-interview/download-image.py:11 | removes exactly the slashes at the end: a prefix, followed only by slashes, that does not itself end in a slash |
| `DownloadImage.DirNameBasename` | hello-interview/download-image.py:11-12 | directory, slashes, then base name make up the path |
| `DownloadImage.LocalNameInjective` | hello-interview/download-image.py:33 | two references with different indices never get the same local name |
| `DownloadImage.DigitsBeforeDot` | hello-interview/download-image.py:33 | the index in a name ends at the extension's dot |
| `DownloadImage.JoinPathInjective` | hello-interview/download-image.py:34 | joining one directory with different relative names gives different paths |
| `DownloadImage.LocalPathsDistinct` | hello-interview/download-image.py:33-34 | references at different positions are saved to different paths |
| `DownloadImage.NetlocEnd` | hello-interview/download-image.py:22 | the network location ends at the first `/`, `?` or `#` |
| `DownloadImage.HttpNetloc` | hello-interview/download-image.py:20-22 | for `http://` or `https://` followed by a host without `/`, `?` or `#` and a path, the url is http(s) and its network location is that host |
| `DownloadImage.BracketedUrl` | hello-interview/download-image.py:22 | a url whose network location is `[h]` with an optional port fails to parse exactly when `h` is refused as a bracketed host |
| `DownloadImage.BracketedNetloc` | hello-interview/download-image.py:22 | the bracketed network location `[h]` plus a port is refused exactly when the host `h` is refused |
| `DownloadImage.HostWithoutColon` | hello-interview/download-image.py:22 | a bracketed host without a colon and not starting with `v` (such as `foo` or `1.2.3.4`) is no IPv6 address and is refused, so `urlparse` raises |
| `DownloadImage.SkipThenHextet` | hello-interview/download-image.py:22 | `::` followed by one group of one to four hex digits is an IPv6 address and is accepted in brackets |
| `DownloadImage.FutureHost` | hello-interview/download-image.py:22 | `v`, hex digits, a dot and any further text without a newline is an IPvFuture host and is accepted in brackets |
| `DownloadImage.OutcomeRules` | hello-interview/download-image.py:20-54 | an http(s) url that parses is fetched exactly when its file is missing; it is rewritten exactly when the file exists or the fetch succeeds; any other url is neither fetched nor rewritten |
| `DownloadImage.RewriteNext` | hello-interview/download-image.py:19-54 | each reference rewrites the text that the earlier ones left, or leaves it |
| `DownloadImage.Picked` | hello-interview/download-image.py:19-50 | the selected positions, strictly increasing, and all of them |
| `DownloadImage.AttemptsNext` | hello-interview/download-image.py:36-44 | each reference appends its download, if any, after the earlier ones |
| `DownloadImage.DownloadImages` | hello-interview/download-image.py:7-60 | the loop writes the text and requests the downloads that the specification gives |
| `DownloadImage.MissingFileNoWrite` | hello-interview/download-image.py:8-10 | a missing file is not written and nothing is fetched; an existing one is always written back |
| `DownloadImage.NoHttpNoChange` | hello-interview/download-image.py:19-20 | when no reference is http(s), the text is unchanged and nothing is fetched, although every reference uses up an index |
| `DownloadImage.NoHttpKeepsText` | hello-interview/download-image.py:19-20 | the text part of that |
| `DownloadImage.NonePicked` | hello-interview/download-image.py:19-20 | nothing selected means nothing picked |
| `DownloadImage.RewriteReplacesAll` | hello-interview/download-image.py:54 | a rewrite replaces every occurrence: the pieces between occurrences, none holding the url, joined by the local name |
| `DownloadImage.LeftAloneNoChange` | hello-interview/download-image.py:45-50 | a reference that is not rewritten (not http, unparsable, or failed) leaves the text unchanged |
| `DownloadImage.AttemptsFresh` | hello-interview/download-image.py:20-44 | every download is of an http(s) url, to a path that did not exist, and that belongs to one of the references |
| `DownloadImage.AttemptFresh` | hello-interview/download-image.py:20-44 | the same, for one reference |
| `DownloadImage.AttemptsDistinct` | hello-interview/download-image.py:33-44 | no two downloads go to the same path |
| `Strings.TitleCaseAt` | hello-interview/build.py:82 | `str.title`, character by character: upper-cased after a non-letter or at the start, lower-cased after a letter |
| `Strings.ReplaceChar` | hello-interview/build.py:82 | `replace('-', ' ')`, character by character |
| `Strings.ReplaceAllIsJoin` | hello-interview/download-image.py:54 | `str.replace` splits on the pattern and joins with the replacement |
| `Strings.SplitOnJoin` | hello-interview/download-image.py:54 | splitting on a pattern and joining with it gives back the text |
| `Strings.SplitOnPiecesClean` | hello-interview/download-image.py:54 | no piece holds the pattern |
| `Strings.ReplaceAllAbsent` | hello-interview/download-image.py:54 | text without the pattern is unchanged |
| `Strings.SplitJoin` | hello-interview/parser.py:123-125 | `split(' ')` joined by a space gives back the text |
| `Strings.SplitPiecesClean` | hello-interview/parser.py:123-125 | no field holds the separator |
| `Strings.SplitFirstPiece` | hello-interview/parser.py:123-125 | a split of `x c y`, where `x` has no `c`, starts with `x` |
| `Strings.PadTwoRoundTrip` | hello-interview/parser.py:126 | `:02` padding reads back as the number |
| `Strings.ParseNatToString` | hello-interview/download-image.py:33 | the decimal index reads back as the number |
| `Strings.Upper` | hello-interview/parser.py:162 | `upper()`, character by character |
| `Strings.Repeat` | hello-interview/parser.py:156 | `'=' * n` is `n` copies |
| `Strings.StripLeft` | hello-interview/build.py:70 | removes exactly the leading white space |
| `Strings.StripRight` | hello-interview/build.py:70 | removes exactly the trailing white space |
| `Strings.Basename` | hello-interview/parser.py:118 | the part after the last `/`: a suffix without `/`, preceded by a `/` whenever it is shorter than the path |
| `Strings.BeforeFirstDot` | hello-interview/parser.py:118 | `split('.')[0]`: a prefix without a dot, ending at the first dot |
| `Strings.LastIndexOf` | hello-interview/download-image.py:12 | the last position of the character, or `None` exactly when it does not occur |

## Left out

- The `convert` overrides (hello-interview/parser.py:17-21, hello-interview/parser/parser.py:17-21) are not modelled. `parse_one` passes a string, not a `Tag`, so their branch never runs.
- The commented-out `convert_h4` of the newer file is not modelled.
- The HTML parser, markdownify's generic rendering and `str(svg)` are foreign libraries. The tree is the input, and the renderings are the parameters `render` and `serialize`. `GitHubBlockquote` takes markdownify's blockquote text as an opaque string.
- File and network effects are modelled only as their results: `open`, `write`, `os.walk`, `shutil.copy2`, `mkdir`, `rmtree`, `os.path.exists`, `requests.get` and the pandoc `subprocess.run`. Printing, logging and the `__main__` drivers are left out. In the newer file's driver, the first exception aborts the whole batch.
- `preprocess` changes the tree in place. Here each pass gives a new tree. Elements are not shared between places in the tree, so no aliasing is lost.
- A side file is recorded by its name. The directory it goes into, `path.dirname(file_path)`, is not part of the record.
- `SvgExtraction.Filled` leaves an svg unchanged when its dimensions cannot be filled. The pass raises before writing such an svg, so that value is never used.
- Case handling (`title`, `upper`, `lower`) is ASCII only, and `\d` is the ASCII digits only. `\s` and `strip()` use the full `str.isspace` set (`Strings.IsSpace`).
- Sub-directories inside a section directory, and `Path` ordering beyond comparing names, are not part of this model.
- The image rewriter writes a file chunk by chunk. A partial file left by a failed download is not modelled. A download that fails, including a write error caught by the outer `except`, is `fetched(i) == false`.
- `DownloadImage.OutcomeOf` takes the set of existing paths as fixed for the whole run. This is sound because `AttemptsDistinct` proves that no download lands on another reference's path. The model still does not track which files each download creates.
- UrlParseFails: models the network location, the unmatched-bracket check and `_check_bracketed_netloc` / `_check_bracketed_host` with the IPvFuture, IPv4 and IPv6 grammars of `ipaddress`. The NFKC check `_checknetloc`, which raises for some non-ASCII network locations, is not modelled: it needs the Unicode normalisation tables. A url whose host holds such a character (U+2100, say) is therefore fetched and rewritten by the model, where the source skips it.
- hello-interview/svg-downloader-script.js is not part of this model: it is browser DOM and canvas code.
- FindFirst: its own contract says only that the result is a selected element whose head is in the tree. That it is the first selected element in document order is stated by the lemma `Dom.FindFirstIsFirst`, which a function contract cannot call.
- ElementsOf: its own contract says only that at most as many are kept as there are children, all elements. That every element child is kept, and in order, is stated by `Dom.ElementsOfMembers` and `Dom.ElementsOfOrder`.
- ReplaceSvgs: its own contract states only the counter. The resulting tree is characterised by `SvgExtraction.ReplaceSvgsLabels`.

## Findings

| source | as written | input that shows it | evidently intended | confidence | as-written member | corrected member |
|---|---|---|---|---|---|---|
| hello-interview/parser.py:26-37 | the GitHub prefix table is keyed by `solution.bad`, `solution.good` and `solution.great`, but the newer `preprocess` emits `solution-bad`, `solution-good` and `solution-great` (hello-interview/parser.py:74-84) | a solution accordion `div` with class `... mui-ifi55z` becomes `<blockquote class="solution-bad">` and renders with an empty prefix, `\n> ` | the solution callouts get `[!WARNING]` / `[!IMPORTANT]` as the table intends | medium, not executed | `Parser.SolutionCalloutsUnprefixed` | `Parser.EmittedKindsPrefixed` |
| hello-interview/parser/parser.py:63-70 | the `solution.good` and `solution.great` passes select the same class string `... mui-11r69q9`; the first renames every match to `blockquote`, so the second never fires | any page with a `div` of class `... MuiAccordion-gutters mui-11r69q9` gets `solution.good`; no page ever gets `solution.great` | a distinct class string for `solution.good` (the newer file uses `mui-nhbct3`, hello-interview/parser.py:78) | high, not executed | `LegacyParser.GreatPassIsDead` | `Parser.AccordionKinds` |
