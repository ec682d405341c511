# Obsidian-Memos core, modelled in Dafny

Obsidian-Memos keeps short notes ("memos") as single lines in an Obsidian vault's daily notes.
Each memo is addressed by a synthetic id: the note's date stamp followed by the memo's line
number. This project models the parts of the plugin that compute rather than render.

- **Writing a memo** (`CreateMemo`, `create_memo.dfy`).
  - The note is split into lines.
  - The first line containing the configured anchor is found, then the next heading or `---` line after it.
  - The search walks back over blank lines to choose where the memo line goes.
  - That one line is spliced in.
  - The memo line is formatted: a task or plain bullet, the time or a template, and newlines escaped as `<br>`.
  - The id is built from the date stamp and the line number.
- **Editing a memo** (`UpdateMemo`, `update_memo.dfy`).
  - The id is read back as a 14-character stamp and a line index.
  - A stamp leading the new text overrides the id's date.
  - The note is found by explicit path or by date.
  - The first occurrence of the old text in the indexed line is replaced.
  - That line is then replaced at the first place its old text occurs in the note.
- **The feed** (`MemoList`, `memo_list.dfy`).
  - Each memo goes through a show/hide flag, with these clauses:
    - done tasks;
    - comments;
    - a stored query;
    - the tag, matched against every `/`-prefix of the memo's tags;
    - an inclusive time window;
    - a content type;
    - a text.
  - The shown memos are then cut into pages of ten.
- **The page bar** (`Pagination`, `pagination.dfy`).
  - The page list: every page, or seven entries with ellipses.
  - The previous and next buttons, and when each is disabled.
- **The memo store helpers** (`MemoService`, `memo_service.dfy`).
  - Lookup by id.
  - Tag extraction.
  - The tag list and the per-tag memo counts.
  - The linked-memo and comment-memo filters.
- **The images of a memo** (`MemoImage`, `memo_image.dfy`).
  - Image links are split into external URLs and links to vault files.
  - Vault links are resolved to file records, and an unresolved link is kept with empty paths.

Shared pieces:

- `memos.dfy` (`Memos`) holds:
  - the memo record;
  - the date (`Moment`) and its fixed-width formats;
  - the abstract regular expressions (`Regex`, `Patterns`).
- `strings.dfy` (`Strings`) models the JavaScript string operations the code relies on:
  - `includes`/`indexOf`;
  - `replace` with a string pattern (first occurrence only);
  - `split`/`join` on one character;
  - `trim`;
  - `parseInt`.
- `seqs.dfy` (`Seqs`) holds `filter`, `findIndex`, `slice` with JavaScript's negative and clamped positions, and insertion-ordered `Set` contents.
- `wrappers.dfy` (`Wrappers`) holds `Option` and `Result`.

The regular expressions of `helpers/consts` are not part of this model. A `Regex` is therefore a record of four functions, one for each way the code uses an expression: `match`, `test`, `replace` by a group, and `exec` for one group. The same goes for the host: the vault, the metadata cache, `decodeURIComponent`, the daily-note lookup and the date parser are function-valued parameters (`Host`, `Vault`, `Feed`).

## Model

| member | source | states |
|---|---|---|
| CreateMemo.GetLinesInString | src/obComponents/obCreateMemo.ts:20-33 | the cut-at-each-line-break loop returns exactly the `'\n'`-split lines |
| CreateMemo.LinesRoundTrip | src/obComponents/obCreateMemo.ts:20-33 | joining the lines with `'\n'` gives the text back; there is one line more than there are line breaks; no line holds a line break |
| CreateMemo.EscapeRegExp | src/obComponents/obCreateMemo.ts:15-17 | the escaped text is at most twice as long as the text, and text without special characters comes back unchanged |
| CreateMemo.EscapeRegExpIsLiteral | src/obComponents/obCreateMemo.ts:15-17 | the escaped anchor is made of plain non-special characters and backslashes before special characters only (no class escape such as `\d`), and it stands for exactly the anchor text, so matching it is substring containment |
| CreateMemo.TargetLineSpec | src/obComponents/obCreateMemo.ts:163-166 | the target line contains the anchor and no earlier line does; -1 means no line does |
| CreateMemo.TargetLineIs | src/obComponents/obCreateMemo.ts:163-166 | any index with that property is the target line |
| CreateMemo.TargetLineMissing | src/obComponents/obCreateMemo.ts:166-168 | the target is -1 exactly when no line contains the anchor |
| CreateMemo.EmptyAnchorTargetsFirstLine | src/obComponents/obCreateMemo.ts:163-166 | an empty anchor selects line 0 |
| CreateMemo.LeadingHashesSpec | src/obComponents/obCreateMemo.ts:178 | the `^#+` count covers the whole leading run of `#` and stops at the first other character |
| CreateMemo.IsHeaderLine | src/obComponents/obCreateMemo.ts:178 | a heading line has at least two characters, and one without `---` starts with `#` |
| CreateMemo.IsBlankLine | src/obComponents/obCreateMemo.ts:185 | a line is blank exactly when every character of it is whitespace |
| CreateMemo.LastNonBlankSpec | src/obComponents/obCreateMemo.ts:182-190 | the backward scan stops at a non-blank line (or the target itself) after which every line up to the heading is blank |
| CreateMemo.LastNonBlankIs | src/obComponents/obCreateMemo.ts:182-190 | any position with that property is the one the scan stops at |
| CreateMemo.ScanBackForText | src/obComponents/obCreateMemo.ts:182-190 | the `for` loop with `break` returns that last non-blank position |
| CreateMemo.InsertSpot | src/obComponents/obCreateMemo.ts:176-195 | the chosen position lies in -1 .. last line; it is the last line exactly when no heading was found, and before the last line otherwise |
| CreateMemo.InsertSpotPosition | src/obComponents/obCreateMemo.ts:176-195 | without a heading after the target the position is the last line; otherwise it lies between the target and the first heading after it, on a non-blank line (or the target), with only blank lines up to the heading |
| CreateMemo.InsertSpotAppends | src/obComponents/obCreateMemo.ts:166-192 | the position is -1 exactly when no line has the anchor and some heading has only blank lines before it |
| CreateMemo.InsertAfterHandler | src/obComponents/obCreateMemo.ts:160-197 | the handler returns the text inserted at the chosen position |
| CreateMemo.InsertTextAfterPositionInBody | src/obComponents/obCreateMemo.ts:199-236 | the returned `posNum` is the position passed in |
| CreateMemo.InsertTextLines | src/obComponents/obCreateMemo.ts:205-228 | for -1 the text becomes a new last line; otherwise the new lines are the old ones with the text right after line `pos`, everything else kept in order |
| CreateMemo.InsertAfterLines | src/obComponents/obCreateMemo.ts:160-228 | a one-line memo adds exactly that line to the note, right after line `posNum` or at the end for -1 |
| CreateMemo.InsertSpotAfterInsert | src/obComponents/obCreateMemo.ts:176-192 | in a section that ends at a heading, after a non-blank memo line is put in, the next position chosen is right after it |
| CreateMemo.InsertTwice | src/obComponents/obCreateMemo.ts:160-228 | two memos written in turn into such a section land on adjacent lines in writing order, every other line kept |
| CreateMemo.EscapeNewlinesSingleLine | src/obComponents/obCreateMemo.ts:39 | the escaped content has no line break |
| CreateMemo.EscapeNewlinesKeepsPlainText | src/obComponents/obCreateMemo.ts:39 | content without line breaks and without `<br><br>` is unchanged |
| CreateMemo.FormatMemoLine | src/obComponents/obCreateMemo.ts:54-66 | the memo line starts with `- [ ] ` for a task and `- ` otherwise |
| CreateMemo.FormatMemoLineShape | src/obComponents/obCreateMemo.ts:54-66 | without a template the line reads bullet, two digits, `:`, two digits, `:`, two digits, a space, then the escaped content; with a template free of line breaks it is one line |
| CreateMemo.AllLinesFromFile | src/obComponents/obCreateMemo.ts:238 | the `/\r?\n/` split has as many pieces as the `'\n'` split, each but the last without the `\r` before its break |
| CreateMemo.InsertedLineHoldsMemo | src/obComponents/obCreateMemo.ts:125-130 | the memo's line index names the line holding the memo, and equals the line number the code computes unless the position was -1 |
| CreateMemo.LineNumberPastAppendedMemo | src/obComponents/obCreateMemo.ts:125-127 | for position -1 the computed line number is the line count plus one: two past the line holding the memo |
| CreateMemo.LineNumberPastAppendedMemoExample | src/obComponents/obCreateMemo.ts:125-127 | the note `# Day` with a missing anchor gets the memo on line 1 but line number 3 |
| CreateMemo.WaitForInsert | src/obComponents/obCreateMemo.ts:35-157 | the note written is the old one with the memo line inserted; the memo has id stamp + line number (milliseconds in the stamp only for a task in a new note), the raw content, equal creation and update dates, an empty deletion date and type `TASK-TODO` or `JOURNAL` |
| CreateMemo.WrittenMemoId | src/obComponents/obCreateMemo.ts:121-155 | a memo written into an existing note has an all-digit id longer than 14 characters that starts with its 14-digit date stamp |
| UpdateMemo.TimeString | src/obComponents/obUpdateMemo.ts:20 | the first 14 characters of the id, or all of a shorter id |
| UpdateMemo.IdTail | src/obComponents/obUpdateMemo.ts:21 | what follows the stamp: stamp and tail make up the id |
| UpdateMemo.LastSix | src/obComponents/obUpdateMemo.ts:55 | the last six characters of the id (all of a shorter one) |
| UpdateMemo.ChangeDateStamp | src/obComponents/obUpdateMemo.ts:23-27 | fourteen leading digits of the new text win, otherwise the id's stamp |
| UpdateMemo.TypeOrJournal | src/obComponents/obUpdateMemo.ts:54 | a missing or empty type becomes `JOURNAL`, any other is kept |
| UpdateMemo.ChangeMemo | src/obComponents/obUpdateMemo.ts:11-59 | with no note found the edit fails with `File not found`; an edited memo keeps its id, has the path of the note written, equal creation and update dates, the escaped one-line text and a non-empty type |
| UpdateMemo.GetFile | src/obComponents/obUpdateMemo.ts:61-68 | the note looked up is the daily note named by the id's first fourteen characters (all of a shorter id) |
| UpdateMemo.MemoIdRoundTrip | src/obComponents/obUpdateMemo.ts:20-21 | an id made of a 14-character stamp and a line number reads back as that stamp and that number |
| UpdateMemo.MillisIdLineIndex | src/obComponents/obUpdateMemo.ts:20-21 | an id with a 17-digit stamp reads back with the milliseconds as leading digits of the line index, which is then at least the line number |
| UpdateMemo.CreatedIdNamesItsLine | src/obComponents/obUpdateMemo.ts:20-21 | the id of a memo written at a position other than -1 reads back as its date and the index of the line holding it |
| UpdateMemo.GetFileOfCreatedId | src/obComponents/obUpdateMemo.ts:61-68 | `getFile` finds the daily note of the creation date for both stamp widths |
| UpdateMemo.ChangeMemoFailures | src/obComponents/obUpdateMemo.ts:37-44 | the edit fails with `File not found` exactly when no note is found, and on the missing line exactly when the index is not a number or is outside the note's lines |
| UpdateMemo.ChangeMemoFindsNote | src/obComponents/obUpdateMemo.ts:29-39 | an explicit path decides the note; otherwise the daily note of the new text's leading stamp, else of the id's stamp |
| UpdateMemo.ChangeMemoRecord | src/obComponents/obUpdateMemo.ts:47-58 | the result keeps the id, holds the escaped one-line text, has creation and update dates from the chosen stamp, defaults its type to `JOURNAL` and has the id's last six characters as `hasId` |
| UpdateMemo.AllLinesWithoutCarriageReturn | src/obComponents/obUpdateMemo.ts:70 | without `\r` the `/\r?\n/` split is the `'\n'` split |
| UpdateMemo.ReplaceLineAt | src/obComponents/obUpdateMemo.ts:45 | replacing a line's text where it first occurs, when that is where the line starts, changes that line alone |
| UpdateMemo.ChangeMemoReplacesIndexedLine | src/obComponents/obUpdateMemo.ts:41-46 | when the indexed line's text first occurs at that line, the new note is the old one with only that line changed: its first occurrence of the old text replaced by the escaped text |
| UpdateMemo.ChangeMemoEditsEarlierCopy | src/obComponents/obUpdateMemo.ts:43-45 | editing line 1 of the note `a` / `a` changes line 0 instead |
| MemoList.TagPrefixesAre | src/components/MemoList.tsx:64-70 | the strings one tag adds are exactly its `/`-prefixes (the tag and each part before one of its `/`) |
| MemoList.TagPrefixesExample | src/components/MemoList.tsx:64-70 | `a/b/c` adds `a/b` but not `a/` nor `b` |
| MemoList.ExpandedTagsAre | src/components/MemoList.tsx:62-91 | the tag set holds exactly the `/`-prefixes of the tags visited |
| MemoList.TagSetAre | src/components/MemoList.tsx:60-91 | the tag set of a memo is the `/`-prefixes of the trimmed groups of the three expressions' matches |
| MemoList.AddTagPrefixes | src/components/MemoList.tsx:64-70 | the `temp` loop adds exactly the tag's `/`-prefixes to the set |
| MemoList.AddMatchedTags | src/components/MemoList.tsx:62-71 | one outer loop adds the `/`-prefixes of every match's trimmed group |
| MemoList.Shows | src/components/MemoList.tsx:41-122 | unless a stored query decides, a shown memo is neither a comment nor a done task hidden by the setting |
| MemoList.ShouldShow | src/components/MemoList.tsx:41-122 | the clause-by-clause flag equals: the stored query's verdict (or "not a hidden done task and not a comment"), and the tag, window, type and text clauses |
| MemoList.ShowsWithoutFilter | src/components/MemoList.tsx:34-39 | with no filter and done tasks not hidden, the full filter keeps exactly the non-comment memos, like the short branch |
| MemoList.ShownMemos | src/components/MemoList.tsx:38-126 | the feed is no longer than the memos, holds only memos of the store, and holds no comment unless a stored query decides |
| MemoList.ShownMemosAreShown | src/components/MemoList.tsx:38-126 | both branches give the memos that pass the flag, in feed order, and nothing else |
| MemoList.StoredQueryReshows | src/components/MemoList.tsx:53-58 | a stored query can show a hidden done task that is also a comment |
| MemoList.ShownPassesClauses | src/components/MemoList.tsx:60-120 | a shown memo is in the feed, has the tag in its tag set, lies in the window with both bounds included, has the content type and contains the text |
| MemoList.TotalPages | src/components/MemoList.tsx:131 | the page count is the least number of ten-item pages holding all memos |
| MemoList.PageOf | src/components/MemoList.tsx:132-133 | a page has at most ten memos; from page 1 on it is the slice of the feed from `(page - 1) * 10`: ten memos, fewer on the last page, none past it, each the feed's memo at that offset |
| MemoList.PageHolds | src/components/MemoList.tsx:131-133 | shown memo `i` is item `i % 10` of page `i / 10 + 1` |
| MemoList.PageNonEmpty | src/components/MemoList.tsx:131-133 | from page 1 on, a page is non-empty exactly up to the page count |
| Pagination.Run | src/components/Pagination.tsx:20-21 | the pages `lo` to `hi` in order |
| Pagination.RenderPageNumbers | src/components/Pagination.tsx:13-47 | the `push` loops of each branch build the page list |
| Pagination.PageList | src/components/Pagination.tsx:13-47 | the list has at most seven entries, and every number in it is a page from 1 to the page count |
| Pagination.PageListShape | src/components/Pagination.tsx:15-41 | with more than seven pages the list has seven entries, from page 1 to the last page |
| Pagination.PageListAll | src/components/Pagination.tsx:42-47 | with at most seven pages the list is every page in order |
| Pagination.PageListOrdered | src/components/Pagination.tsx:15-47 | the pages listed are in range and increasing; neighbours are consecutive, and an ellipsis stands between two numbers with a gap |
| Pagination.PageListShowsCurrent | src/components/Pagination.tsx:17-47 | the current page and its neighbours that exist are listed |
| Pagination.Render | src/components/Pagination.tsx:11-81 | the bar shows exactly for two pages or more; "previous" is disabled exactly on page 1 and "next" exactly on the last page; the bar lists the page list; from a page in range, an enabled button leads to a page in range |
| Pagination.RenderShowsCurrent | src/components/Pagination.tsx:11-81 | the bar of a page in range lists that page and the pages its enabled buttons lead to |
| MemoService.FindById | src/services/memoService.ts:78-80 | a memo found is one of the memos and has the id |
| MemoService.FindByIdSpec | src/services/memoService.ts:78-80 | the memo found is the first with the id; nothing is found exactly when no memo has it |
| MemoService.GetMemoByIdFindsFirst | src/services/memoService.ts:78-87 | a memo is found by its id when no earlier memo shares it |
| MemoService.TagOfMatch | src/services/memoService.ts:236-244 | a match stands for no tag exactly when none of the three expressions tests true on it; a tag is trimmed |
| MemoService.TagsOfMatchesAre | src/services/memoService.ts:236-244 | a tag comes out exactly when some match stands for it under the `test` chain |
| MemoService.ContentTags | src/services/memoService.ts:226-247 | a memo's tags are distinct and trimmed |
| MemoService.ContentTagsAre | src/services/memoService.ts:226-247 | a memo's tags are distinct and are exactly the tags its matches stand for, with no prefix added |
| MemoService.TagsStep | src/services/memoService.ts:236-244 | one more match adds its tag unless it has none or the set has it |
| MemoService.AddMatchTags | src/services/memoService.ts:236-246 | the `forEach` over the matches yields their tags, each once, in first-seen order |
| MemoService.ExtractTagsFromContent | src/services/memoService.ts:226-247 | the result is the memo's tag list |
| MemoService.ListsWithPositive | src/services/memoService.ts:144-150 | a tag is counted in some memo exactly when it is among all memos' tags |
| MemoService.ListsWithTagLists | src/services/memoService.ts:144-150 | counting over the tag lists counts memos carrying the tag |
| MemoService.CountStep | src/services/memoService.ts:148 | the old count of a tag, or 0, plus one counts one more memo for a tag not yet seen in this memo |
| MemoService.CountTags | src/services/memoService.ts:146-149 | the inner `forEach` adds the memo's tags to the set and counts each once |
| MemoService.UpdateTagsState | src/services/memoService.ts:138-160 | the state gets the distinct tags of all memos, in first-seen order, and a count per tag keyed by exactly those tags; the rest of the state is unchanged |
| MemoService.TagCountsBounded | src/services/memoService.ts:144-157 | each count is the number of memos with the tag, between 1 and the number of memos |
| MemoService.GetLinkedMemos | src/services/memoService.ts:175-177 | exactly the memos whose content contains the id, in the store's order |
| MemoService.GetCommentMemos | src/services/memoService.ts:182-184 | exactly the memos whose content contains `comment: ` and the id, in the store's order |
| MemoService.CommentsAreLinked | src/services/memoService.ts:175-184 | every comment memo of an id is also a linked memo of it |
| MemoImage.LinkOf | src/components/MemoImage.tsx:48-75 | an unresolved name keeps both texts and has empty paths; a resolved one gets the resource path and file path, and `''` as alt text when there is none |
| MemoImage.LinkOfResolvedIff | src/components/MemoImage.tsx:50-75 | with non-empty file paths, a link has a file path exactly when its name resolves |
| MemoImage.DetectWikiInternalLink | src/components/MemoImage.tsx:44-77 | the link text is group 1 of the wiki embed, and a non-empty group 5 is kept as the alt text |
| MemoImage.DetectMDInternalLink | src/components/MemoImage.tsx:79-110 | the link text is group 5 of the markdown link, and a non-empty group 2 is kept as the alt text |
| MemoImage.IsWebLink | src/components/MemoImage.tsx:138 | a link is a web link exactly when `http` occurs somewhere in it |
| MemoImage.ResolvedWikiLinks | src/components/MemoImage.tsx:129-134 | one record per wiki embed |
| MemoImage.ResolvedWikiLinksAt | src/components/MemoImage.tsx:129-134 | record `k` is wiki embed `k` resolved |
| MemoImage.Defined | src/components/MemoImage.tsx:145 | the web-image matches, in order |
| MemoImage.PushWikiLinks | src/components/MemoImage.tsx:129-134 | the first loop appends every wiki embed resolved |
| MemoImage.PushMarkdownLinks | src/components/MemoImage.tsx:135-144 | the second loop sends each `http` link's group 5 to the external list and resolves every other link |
| MemoImage.ExtractImages | src/components/MemoImage.tsx:112-147 | the external and internal lists are the ones described by the lemmas below |
| MemoImage.NoImagesWithoutGuard | src/components/MemoImage.tsx:112-116 | without an image URL in the text both lists stay empty |
| MemoImage.MarkdownLinksPartition | src/components/MemoImage.tsx:135-144 | every markdown link gives exactly one entry, external or internal |
| MemoImage.ImagesPartitionLinks | src/components/MemoImage.tsx:112-147 | together the lists hold one entry per web image, per wiki embed and per markdown link |
| MemoImage.WebLinkUrlsFrom | src/components/MemoImage.tsx:137-138 | each external entry from a markdown link is group 5 of a link containing `http` |
| MemoImage.ResolvedLocalLinksFrom | src/components/MemoImage.tsx:139-141 | each internal entry from a markdown link is a link without `http`, resolved |
| MemoImage.ExternalImagesFrom | src/components/MemoImage.tsx:145 | the external list starts with the web-image matches; each later entry comes from an `http` markdown link |
| MemoImage.InternalImagesFrom | src/components/MemoImage.tsx:129-144 | the internal list starts with the wiki embeds resolved; each later entry is a non-`http` markdown link resolved |

## Left out

- Host I/O: `vault.read`, `vault.modify`, the daily-note lookups, `utils.createDailyNoteCheck`, `metadataCache.getFirstLinkpathDest` and `vault.getResourcePath`. They are parameters: the note read is an input, and the note written is part of the result.
- Asynchrony: `async`/`await` is not modelled. Each operation is one sequential step.
- The date library: `moment()` parsing and formatting. A `Moment` is a record of numeric fields with its fixed-width formats written out. Parsing a stamp and `utils.getTimeStampByDate` are host functions. An invalid date's output is not modelled.
- The regular expressions of `helpers/consts`: their patterns are not part of this model, so they are described only by what the code asks of them.
- The `lastIndex` state of global expressions: the model's `test` and `exec` are stateless. In JavaScript, calling `test` or `exec` on a `/g` expression advances its `lastIndex`.
  - `MARKDOWN_URL_REG` must be global, because `matchAll` (MemoImage.tsx line 139) rejects a non-global expression. `WIKI_IMAGE_URL_REG` is used with `match` as a list of all matches (line 123), so it is global too.
  - So in `detectWikiInternalLink` and `detectMDInternalLink` (MemoImage.tsx lines 46-47 and 81-82), the first `exec` on the matched text leaves `lastIndex` at its end. The second `exec`, for the alt-text group, then returns `null`.
  - The program therefore loses the alt text: `altText` is `undefined` for an unresolved link and `''` for a resolved one. `MemoImage.DetectWikiInternalLink` and `MemoImage.DetectMDInternalLink` keep a non-empty group 5 or group 2 as the alt text instead.
- `$` patterns in replacement strings: replacement text is inserted literally. The code passes user text as the replacement in `String.replace` (obCreateMemo.ts lines 63-65, obUpdateMemo.ts lines 44-45), where JavaScript would expand `$&`, `$1` and similar.
- `checkShouldShowMemoWithFilters` and `JSON.parse`. A stored query is given as its parse outcome, whether it parsed to an array, together with the filter's verdict. `JSON.parse` throwing on a malformed query is not modelled.
- `tagCounts[tag] || 0` for names the object prototype already defines, such as `constructor`. The model's map starts empty.
- `memoService.pushMemo` in `waitForInsert`: a store side effect.
- Lines 229-233 of obCreateMemo.ts: this branch is dead, because `/[\s\S]*?/g` matches every string. Only the branch that is taken is modelled.
- `decodeURIComponent` is a host function; the `URIError` it throws on a malformed escape is not modelled.
- React: rendering, state, effects, scrolling and the click handlers of `MemoList`, `Pagination` and `MemoImage`.
- The remote API and store glue of `memoService`: fetching, hiding, restoring and deleting memos, the `appStore.dispatch` calls, and the methods that only delegate (`createMemo`, `importMemos`, `updateMemo`).
- UpdateMemo.ChangeMemoReplacesIndexedLine: stated for notes without `\r` and where the indexed line's text first occurs at that line. Other cases are shown only by the `ChangeMemoEditsEarlierCopy` example.
- MemoList.ShouldShow: a content type outside the four the code names asks nothing, as in the code. The equality of `memo.content.match(...)` with `null` is modelled as an empty list of matches.
- JavaScript numbers: page numbers, line numbers and counts are unbounded integers. The model has no 2^53 limit, and `parseInt` results beyond it are not rounded.
