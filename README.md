# mubu2markdown: the outline extractor, modelled in Dafny

`mubu_parser.py` turns an HTML page exported by the Mubu outliner into an outline
tree ready to be written as OPML. `MubuPost.parse_to_opml` checks the page first:
it needs a title, the publish marker 幕布文档 and one root node list. It then turns
every list item into an outline node:

- the node's text is the item's content in markdown, with links as `[label](href)`,
  styled runs wrapped in their delimiters and a heading level as leading `#`s;
- the node's attributes carry the item's image list (`mubu_imgs`) and the images
  and fenced code blocks of its note region (`mkd_imgs`, `mkd_codes`);
- the node's children are the outlines of the item's nested items.

A created date written into the title overrides the file's own date.

The model is split into modules:

| file | module | what it holds |
|---|---|---|
| `dom.dfy` | `Dom` | the element tree (tag, attributes, optional text, children, and an id standing for node identity), the child and descendant selections the xpath queries perform, failures as a `Result` |
| `text.dfy` | `Text` | `str.strip`, `str.split(' ')`, substring search and the four regular expressions (`heading(\d)`, `.*\!\[.*\](`, ```` ```(.\|\n)+``` ````, `\d{8}`) written out as scans |
| `formatter.dfy` | `Formatter` | `_append_content_with_class` |
| `title.dfy` | `TitleDate` | `_try_find_created_time_in_title` |
| `tokenizer.dfy` | `NoteTokenizer` | the note-region scan with its `index_in_elements` cursor |
| `content.dfy` | `ContentWalk` | the pre-order walk over the `content mm-editor` div with its `iterated_elts` set |
| `extractor.dfy` | `Extractor` | `_elements_to_outlines` and `parse_to_opml` as functions, and what is proved about them |
| `post.dfy` | `MubuParser` | class `MubuPost`: its fields, and the loops and recursion of `_elements_to_outlines` and `parse_to_opml` as methods proved equal to those functions |

The source's loops are methods:

- the note scan, the content walk and the image-list loop;
- the outline loop with its recursion into nested lists;
- the loops that attach children with `append_child`.

Each method's postcondition equates its result with a specification function. The
properties are then proved about those functions. `ParseToOpml` updates the post's
`createdTime` field as the source does, and its postcondition states the new value
of that field.

Points where the code's behaviour is easy to misread, and which the model follows
as written:

- The code takes the first `div.title` and only requires that its text is not
  empty; it takes the first publish link; it requires exactly one root node list.
- At index 1 of the stripped note text it tests for a newline character (`'\n'`).
- An item's content, note tokens and heading are computed in the code's order, so
  the first failing step decides which failure is reported.

## Model

| member | source | states |
|---|---|---|
| Formatter.AppendContentWithClass | mubu_parser.py:67-82 | the run comes back unchanged exactly when the class is absent, empty, or none of the styled classes (the four exact names, or one naming both `italic` and `bold`) |
| Formatter.FormatExactClasses | mubu_parser.py:71-78 | `codespan`, `bold`, `italic` and `strikethrough` give `` `t` ``, `**t**`, `*t*` and `~~t~~` |
| Formatter.FormatBoldItalic | mubu_parser.py:79-80 | a class that is none of the exact names and contains both `italic` and `bold` gives `***t***` |
| Formatter.FormatPassthrough | mubu_parser.py:69-82 | no class, an empty class and an unstyled class leave the run as it is |
| Formatter.FormatWraps | mubu_parser.py:67-82 | for every class, the result is the run between two copies of one delimiter from a fixed set, and that delimiter is empty exactly for unstyled classes |
| Formatter.FormatBoldItalicExample | mubu_parser.py:79-80 | the class `bold italic` gives `***foo***` |
| Text.Strip | mubu_parser.py:147-150 | the stripped text is no longer than the input and neither starts nor ends with whitespace; StripIsSlice ties it to the input |
| Text.StripIsSlice | mubu_parser.py:147-150 | the stripped text is the slice of the input between a run of leading and a run of trailing whitespace |
| Text.TrimStart | mubu_parser.py:147 | the result is a suffix of the input, everything removed is whitespace, and it does not start with whitespace |
| Text.TrimEnd | mubu_parser.py:148 | the result is a prefix of the input, everything removed is whitespace, and it does not end with whitespace |
| Text.TrimNewlines | mubu_parser.py:155 | `rstrip('\n')` keeps a prefix, removes only newlines, and leaves no trailing newline |
| Text.SplitSpace | mubu_parser.py:88 | `split(' ')` gives at least one piece and no piece holds a space |
| Text.JoinSplit | mubu_parser.py:88 | joining the pieces with spaces gives back the class string |
| Text.SplitJoin | mubu_parser.py:88 | splitting a join of space-free pieces gives back the pieces |
| Text.SplitPrefix | mubu_parser.py:88 | a space-free word followed by a space is the first piece |
| Text.HasToken | mubu_parser.py:88 | defines `token in s.split(' ')` as membership in `SplitSpace`, whose pieces JoinSplit and SplitJoin pin down |
| Text.HeadingDigits | mubu_parser.py:90-91 | every match found is a digit that occurs right after `heading` in the class (soundness; HeadingFirst and HeadingOne give completeness) |
| Text.NoHeadingDigits | mubu_parser.py:90-91 | a class without `heading` has no match |
| Text.HeadingDigitsFront | mubu_parser.py:90-91 | `heading<d>` at the front is the first match, followed by the matches in the rest |
| Text.HeadingFirst | mubu_parser.py:90-91 | no match exactly when `heading<d>` occurs nowhere; otherwise the first match is the digit of the first occurrence, and the matching resumes right after it |
| Text.HeadingApart | mubu_parser.py:90-91 | two occurrences of `heading<d>` never overlap, so the left-to-right scan misses none |
| Text.HeadingOne | mubu_parser.py:90-91 | exactly one match exactly when `heading<d>` occurs exactly once, and the match is then the digit of that occurrence |
| Text.Repeat | mubu_parser.py:173 | `n * '#'` is n copies of the character |
| Text.ImageOpenerIff | mubu_parser.py:136 | the image pattern matches exactly when some `![` is followed on the same line by `](` |
| Text.CloseOnLineIff | mubu_parser.py:136 | the tail of the image pattern matches exactly when `](` occurs with no newline before it |
| Text.ImageOpener | mubu_parser.py:136 | defines the image test; ImageOpenerIff states what it accepts |
| Text.CodeFence | mubu_parser.py:137 | defines the code test; CodeFenceIff states what it accepts |
| Text.ContainsIff | mubu_parser.py:107 | `sub in s` holds exactly when sub occurs at some position of s |
| Text.CodeFenceIff | mubu_parser.py:137 | the code pattern matches exactly when one fence is followed by another that starts at least four characters later, with one character or more between them |
| Text.CodeFenceBlock | mubu_parser.py:137 | an opening fence, a non-empty body and a closing fence match the code pattern |
| TitleDate.DateTokens | mubu_parser.py:54-55 | every token `findall` yields is eight digits that occur in the title |
| TitleDate.DateTokenCount | mubu_parser.py:54-56 | the number of tokens is the sum, over the maximal runs of digits, of each run's length divided by 8 |
| TitleDate.RunTokens | mubu_parser.py:54-55 | a run of n digits at the front yields n div 8 tokens before the scan leaves it |
| TitleDate.LeadingDigits | mubu_parser.py:54-55 | the length of the run of digits at the front, with a non-digit after it |
| TitleDate.TryFindCreatedTimeInTitle | mubu_parser.py:52-59 | with exactly one token, the date is an eight-digit string from the title (TitleDateIsFirstMatch says which); otherwise it is the file's date, and the lookup fails when the file has no date |
| TitleDate.TitleDateIsFirstMatch | mubu_parser.py:54-57 | with exactly one token, the date returned is the eight digits at the first position of the title where eight digits start |
| TitleDate.FirstDateToken | mubu_parser.py:54-55 | `findall` finds nothing exactly when eight digits start nowhere; otherwise its first token is the eight digits at the first such position |
| TitleDate.NoDigitsNoTokens | mubu_parser.py:54-55 | text without digits in front adds no token |
| TitleDate.TitleWithOneDate | mubu_parser.py:56-57 | a title whose only digits are one eight-digit date yields that date |
| TitleDate.TitleWithTwoDates | mubu_parser.py:58-59 | a title with two dates keeps the file's date |
| NoteTokenizer.FirstToken | mubu_parser.py:141-166 | an image token is only produced when a sibling follows the opener |
| NoteTokenizer.CleanText | mubu_parser.py:145-150 | defines the span-text clean-up; CleanExample and ImageToken use it |
| NoteTokenizer.Tokens | mubu_parser.py:140-161 | defines the tokens of a note region; TokenizeNote, TokensStep, TokenStride and TokensAppend state its properties |
| NoteTokenizer.ScanToken | mubu_parser.py:141-161 | one turn of the loop: on failure the whole scan fails with that error; otherwise the cursor advances by the stride and the tokens found so far followed by the tokens of the rest are the tokens of the region |
| NoteTokenizer.TokenizeNote | mubu_parser.py:138-166 | the loop yields the tokens of the region as `Tokens` defines them, and on success 2·\|images\| + \|codes\| equals the number of children |
| NoteTokenizer.TokensStep | mubu_parser.py:141-161 | at a cursor, the tokens are the first token there followed by the tokens after its two (image) or one (code) children, or that token's failure |
| NoteTokenizer.TokenStride | mubu_parser.py:140-161 | a successful scan consumes every child: 2·\|images\| + \|codes\| = number of children |
| NoteTokenizer.TokensAppend | mubu_parser.py:140-161 | a prefix that tokenizes on its own contributes its tokens first, in document order |
| NoteTokenizer.ImageToken | mubu_parser.py:152-157 | an opener span followed by a link gives the cleaned text followed by the `href` without trailing newlines, or fails without `href`; the image test is taken before the code test |
| NoteTokenizer.CodeToken | mubu_parser.py:158-161 | a fenced span that is no image opener is one code token, kept verbatim |
| NoteTokenizer.TokenFailures | mubu_parser.py:151-166 | a tag other than `span`, text matching neither pattern, and an opener with no sibling each abort the scan |
| NoteTokenizer.OpenerExample | mubu_parser.py:136 | `![alt](` matches the image pattern |
| NoteTokenizer.NewlineExample | mubu_parser.py:155 | the newline at the end of an `href` is dropped |
| NoteTokenizer.CleanExample | mubu_parser.py:145-150 | a span text without surrounding whitespace passes the clean-up unchanged |
| Dom.Filter | mubu_parser.py:92 | a selection keeps only matching elements and every matching element; FilterFirst and FilterAppend give its order |
| Dom.FilterAppend | mubu_parser.py:92 | selecting from consecutive elements selects from each in turn, so a selection keeps document order |
| Dom.FilterFirst | mubu_parser.py:92 | a non-empty selection starts with the first matching element and goes on with the selection after it, so `[0]` is the first match |
| Dom.FilterStep | mubu_parser.py:92 | the first element is selected when it matches and skipped otherwise |
| Dom.ChildrenWhere | mubu_parser.py:92 | a child step selects exactly the children with the tag and class asked for |
| Dom.ChildrenWhereMembers | mubu_parser.py:92 | an element is selected exactly when it is a child that the step matches |
| Dom.PreOrder | mubu_parser.py:97 | defines `iter()`: the element followed by the pre-orders of its children; WalkElement and WalkForest walk it |
| Dom.SelectAll | mubu_parser.py:184 | defines `//tag[@class]` as the selection over the pre-order of the page |
| Dom.SelectChildSteps | mubu_parser.py:187-190 | defines `//p/c`: the elements matching c whose parent matches p, in pre-order |
| ContentWalk.FirstLabel | mubu_parser.py:107 | the label found is a child whose class contains `content-link-text`, and none precedes it; no label means no child qualifies |
| ContentWalk.Piece | mubu_parser.py:104-115 | defines what one visited element contributes; PlainLeaf and LinkExample state its cases |
| ContentWalk.WalkFrom | mubu_parser.py:97-115 | defines the walk over the remaining pre-order with the seen set; WalkStep states one turn |
| ContentWalk.ContentOf | mubu_parser.py:92-115 | defines the content of an editor div; ContentMatchesRender states what it equals |
| ContentWalk.EditorContent | mubu_parser.py:94-115 | the walk over `iter()` (skipping the div itself and every element already seen) yields what `ContentOf` defines |
| ContentWalk.WalkStep | mubu_parser.py:97-115 | one turn of the walk: a seen element is skipped; otherwise its piece is appended and it and its label are marked, or the walk fails with the piece's failure |
| ContentWalk.ContentMatchesRender | mubu_parser.py:94-115 | on a tree of distinct elements, the walk equals a structural rendering: the children in order, each link as `[label](href)` followed by its other children, each other element as its formatted text followed by its children; the label is never emitted twice; a div without children gives empty content |
| ContentWalk.WalkElement | mubu_parser.py:97-113 | walking a subtree's pre-order renders that subtree and marks all its elements |
| ContentWalk.WalkForest | mubu_parser.py:97-113 | walking a sequence of subtrees renders them in order |
| ContentWalk.RenderForestAppend | mubu_parser.py:97-113 | the rendering of consecutive siblings is the concatenation of their renderings |
| ContentWalk.PlainLeaf | mubu_parser.py:112-113 | a childless element that is no link contributes its text formatted after its class |
| ContentWalk.LinkExample | mubu_parser.py:106-111 | a div holding one link with its label gives exactly `[label](href)` |
| Extractor.SubItems | mubu_parser.py:175 | the nested items are `li` elements lower in the tree than the item; SubItemsMembers says which ones and StepChildrenAppend gives their order |
| Extractor.StepChildrenAppend | mubu_parser.py:175 | the children selected below consecutive elements are those selected below each in turn, in order |
| Extractor.StepChildrenOne | mubu_parser.py:175 | below one element, the selected children are its children the step matches, in document order |
| Extractor.StepChildrenMembers | mubu_parser.py:175 | an element is selected exactly when it is a matching child of one of the elements |
| Extractor.TwoSteps | mubu_parser.py:175 | two child steps select exactly the grandchildren reached through a child the first step matches |
| Extractor.SubItemsMembers | mubu_parser.py:175 | the nested items are exactly the `li` children of the `ul` children of the item's `div.children` children |
| Extractor.FirstSource | mubu_parser.py:128 | the source found belongs to an `img` child with `src`, and no earlier child is one; none found means no child qualifies |
| Extractor.ImageSources | mubu_parser.py:127-128 | one source per image item |
| Extractor.ImageSourcesPerItem | mubu_parser.py:124-129 | the list succeeds exactly when every image item has an `img` with `src`, gives their sources in order, and fails with a missing element otherwise |
| Extractor.MubuImageList | mubu_parser.py:119-129 | defines `mubu_imgs`; ImageSourcesPerItem states its values and CollectMubuImages computes it |
| Extractor.HeadingPrefix | mubu_parser.py:172-173 | defines the heading prefix; HeadingPrefixCases states it over the class string |
| Extractor.HeadingPrefixCases | mubu_parser.py:172-173 | d `#`s and a space when `heading<d>` occurs exactly once in the class, and nothing otherwise |
| Extractor.OutlineAttrs | mubu_parser.py:116-170 | only the three known keys; each is present exactly when its list is not empty and then holds that list |
| Extractor.ItemFields | mubu_parser.py:87-173 | a converted item's attributes hold only known keys with non-empty lists |
| Extractor.OutlineOf | mubu_parser.py:84-179 | defines one item's outline; OutlineFields, OutlineText, OutlineWellFormed and DepthMatches state its properties |
| Extractor.OutlinesOf | mubu_parser.py:84-180 | defines the outlines of sibling items; OutlinesPerItem and FirstFailureReported state its properties |
| Extractor.OutlinesPerItem | mubu_parser.py:84-180 | the list converts exactly when every item does, and then gives one outline per item, in order |
| Extractor.FirstFailureReported | mubu_parser.py:86-180 | the failure reported is that of the first item that fails |
| Extractor.ItemWithoutNodeAborts | mubu_parser.py:87-89 | an item whose class lacks the `node` token fails, and so does its whole list |
| Extractor.OutlineFields | mubu_parser.py:174-179 | an outline is its item's own text and attributes with the outlines of the nested items, in order, as children |
| Extractor.FieldsParts | mubu_parser.py:92-173 | the text is the heading prefix, the content walk of the first content div and a newline when a note region exists; the attributes come from the image list and the note's tokens |
| Extractor.OutlineText | mubu_parser.py:92-173 | an outline's text is the heading prefix, the content walk of the first content div, and a newline when the item has a note region |
| Extractor.OutlineHeading | mubu_parser.py:172-174 | an item whose class holds `heading<d>` exactly once has an outline text starting with d `#`s and a space |
| Extractor.HeadingThree | mubu_parser.py:172-173 | the class `node heading3` puts `### ` before the text |
| Extractor.NodeHeadingThree | mubu_parser.py:90-91 | `node heading3` has the one heading match `3` |
| Extractor.OutlineWellFormed | mubu_parser.py:116-179 | every outline of an item's tree has only known attribute keys with non-empty lists |
| Extractor.OutlinesWellFormed | mubu_parser.py:175-179 | the same for every outline of a list of items |
| Extractor.DepthMatches | mubu_parser.py:175-179 | the outline tree is exactly as deep as the nesting of the list items |
| Extractor.DepthsMatch | mubu_parser.py:175-179 | the same for a list of items |
| Extractor.NoMubuImagesUnlessWanted | mubu_parser.py:118 | without image lists wanted, no outline has `mubu_imgs` |
| Extractor.CodeOnlyNote | mubu_parser.py:158-170 | a note region holding one fenced block gives `mkd_codes` = that block and no `mkd_imgs` |
| Extractor.CodeOnlyTokens | mubu_parser.py:158-161 | the tokens of a note region holding one fenced block are that one code |
| Extractor.TitleMissing | mubu_parser.py:184 | a page without a title div fails with a missing element |
| Extractor.TitleEmpty | mubu_parser.py:184-185 | a first title without text, or with empty text, is refused |
| Extractor.ForeignDocument | mubu_parser.py:187-189 | past the title, a publish link that does not read 幕布文档 once stripped is refused as not a Mubu page |
| Extractor.NodeListCount | mubu_parser.py:190-192 | past the title and the marker, any number of root node lists other than one is refused |
| Extractor.ParseDocument | mubu_parser.py:182-199 | defines the document check and conversion; TitleMissing, TitleEmpty, ForeignDocument, NodeListCount and DocumentAccepted state its outcomes |
| Extractor.CreatedAfterParse | mubu_parser.py:184-186 | defines the created date left on the post; DocumentAccepted and ParseToOpml use it |
| Extractor.DocumentAccepted | mubu_parser.py:182-199 | a parsed page has: the first title's text; the marker 幕布文档; one node list with one top-level outline per list item, in order; the file's modified date; and the created date left on the post. That created date comes from the title when it holds one date, and is otherwise the file's |
| MubuParser.MubuPost.constructor | mubu_parser.py:26-33 | a file date is kept only when its timestamp is positive |
| MubuParser.MubuPost.CollectMubuImages | mubu_parser.py:119-129 | the loop over the image items yields the item sources as `MubuImageList` defines them, failing on an item without an image |
| MubuParser.MubuPost.ElementFields | mubu_parser.py:87-173 | the item's steps, in the source's order, yield the fields `ItemFields` defines |
| MubuParser.MubuPost.ElementToOutline | mubu_parser.py:174-179 | one item's outline, nested items attached, as `OutlineOf` defines it |
| MubuParser.MubuPost.ElementsToOutlines | mubu_parser.py:84-180 | the loop over the items yields the outlines `OutlinesOf` defines |
| MubuParser.MubuPost.ParseToOpml | mubu_parser.py:182-199 | the result is `ParseDocument` of the page and the post's dates; the created date field afterwards is the title's date once the title has been read, whatever fails later |
| MubuParser.AttachChildren | mubu_parser.py:176-178 | `append_child` in a loop keeps the text and attributes and adds the outlines as the last children, in order |

## Left out

- Reading the file and its timestamps (`__init__`, `os.stat`, `datetime`): the constructor receives the page as an element tree, plus the two timestamps and their `%Y%m%d` dates.
- HTML parsing by lxml and the general xpath engine: the queries the code makes become selections by tag and class over the tree in `Dom`.
- Comments and processing instructions, which `iter()` would visit, and tail text: the element tree has neither.
- `Outline`, `OPML`, `Head`, `Body` and `Generator` from `lib.opml_processor`, which are not part of this model. An outline is a value holding its text, attributes and children. `OPML(head, body)` is represented by a `Document` holding the title, the two dates and the top-level outlines.
- `append_child` mutating an outline object in place: the model appends to the children of an outline value, so sharing and aliasing of outline objects are not captured.
- The insertion order of the attribute dictionary: attributes are a map.
- Exception types, their messages and `sourceline` diagnostics: each failure is one variant of `Error`. `NoteTextMissing` stands for the type error that matching the patterns against absent span text raises.
- `_is_code_span` (never called) and the `__main__` block.
- `\d` in the regular expressions is modelled as ASCII `0`-`9`; Python also accepts other Unicode digits.
- Element identity (`sub in iterated_elts`) is modelled by the element `id`. ContentWalk.ContentMatchesRender: proved only for trees whose elements have distinct ids, which is the case for the trees a parser builds.
