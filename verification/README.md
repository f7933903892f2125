# A model of the page synchronizer's reconciliation core

The synchronizer publishes Markdown documents as pages of a Confluence wiki.
For each configured document, `updatePage` does the following:

- renders the text to storage-format markup, taking the page title from the leading `# ` heading when none is configured;
- puts an optional information banner in front of the markup;
- consults a local cache of the last markup sent;
- finds the page by its configured id, or searches for it by title, or creates it from a blank scaffold;
- reconciles the page's attachments: it deletes the remote ones no local file claims and uploads the new or changed local ones;
- fetches the current remote page and compares it with the new markup, ignoring the volatile `id="…"` and `ac:macro-id="…"` attributes;
- if the page changed or the run is forced, writes the cache file and sends the update, with the version number raised by one.

This project models that core in Dafny as pure functions, split into modules:

| module | file | what it models |
|---|---|---|
| `Wrappers` | wrappers.dfy | `Option` and `Result` |
| `JsStrings` | js_strings.dfy | the JavaScript string built-ins the core relies on: literal global replace, `trim`, prefix tests |
| `MarkdownUtils` | markdown_utils.dfy | `extractTitle`, the anchored heading regular expression |
| `ConfluenceTypes` | confluence_types.dfy | the page, document, configuration and attachment records, and JavaScript truthiness of optional strings |
| `VersionNumbers` | version_numbers.dfy | `parseInt`, `toString` and `increaseVersionNumber` |
| `DynamicIds` | dynamic_ids.dfy | `removeDynamicIds` and `isRemoteUpdateRequired` |
| `Attachments` | attachments.dfy | the extraction of image references, the name sanitiser, the local/remote matching, the delete and upload sets, and the final rewrite of referenced names |
| `PageBuilder` | page_builder.dfy | `addPrefix`, `newBlankPage`, and the record update `sendPageToConfluence` performs |
| `WikiFormat` | wiki_format.dfy | `convertToWikiFormat` with the renderer as a parameter |
| `Sync` | update_page.dfy | `sendPageToConfluence`, `updateAttachments`, `sendPageUpdate` and `updatePage` as a decision machine |

The decision machine maps its inputs to the ordered trace of operations it issues, plus whether the call throws. An operation is a search, create, listing, delete, upload, fetch, cache write or update. The inputs are:

- the document text, the renderer, the configuration, the resolved space and the force flag;
- the local files, as a map of sizes;
- the cache directory, as a map from a file's path below it to its contents, plus the set of paths below it that are directories, in every spelling that names one;
- the remote side's replies.

The remote side is an oracle: each reply is a function of the trace issued so far, and `None` or `false` means the call throws.

The `try`/`catch` of `updatePage` is modelled faithfully. A step yields either `Next(value, run)` or `Raised(run)`, and the catch block resumes in the state the try block threw in. As a result, a page id adopted from a search survives into the catch block. There, `sendPageToConfluence` sends the blank scaffold as an *update* of the found page rather than as a create.

JavaScript's regular expressions are modelled explicitly, including their left-to-right non-overlapping global scan, lazy `.+?` and backtracking over optional parts. Where the code's behaviour is surprising, the model keeps it and a lemma exhibits it:

- `removeDynamicIds` is not idempotent.
- The local side decodes `&#39;` and the remote side does not.
- The cache is read under the configured id, `undefined` when there is none, but written under the resolved id.
- The cache entry holds the markup after the attachment names are rewritten, but the next run compares it with the markup before the rewrite. So a page that references `images/a.png` never gets a cache hit (`Sync.RerunAfterWrite`, `Attachments.ImagePathRewritten`).
- A web-address reference is not uploaded, yet its name is still sanitised in the markup.

The code replaces `..` and `/` each by one `_`, so `../images/a.png` becomes `__images_a.png` (`Attachments.SanitizeExample`).

## Model

| member | source | states |
|---|---|---|
| MarkdownUtils.ExtractTitle | src/utils/MarkdownUtils.ts:1-8 | throws exactly when the text does not start with `#` followed by a character other than a line break; otherwise the title is non-empty and holds no line break, the rest is empty or starts at a line break, and `#` or `# `, then the title, then the rest, gives back the whole text |
| MarkdownUtils.SpaceConsumedIff | src/utils/MarkdownUtils.ts:2-7 | the optional space after `#` is consumed exactly when a title character follows it on the same line; otherwise the space itself becomes the title |
| MarkdownUtils.HeadingMustLead | src/utils/MarkdownUtils.ts:2-6 | the pattern is anchored: text whose first character is not `#` has no title, whatever heading follows |
| MarkdownUtils.Examples | src/utils/MarkdownUtils.ts:2-7 | `# Intro\nx`, `#Intro`, `## Sub` and `# \nx` give the titles `Intro`, `Intro`, `# Sub` and ` `; `#` and `#\nTitle` throw |
| JsStrings.Trim | src/UpdatePage.ts:38-39 | the trimmed text neither starts nor ends with whitespace and is no longer than the input |
| JsStrings.TrimKeepsCore | src/UpdatePage.ts:38-39 | the trimmed text is a contiguous piece of the input with only whitespace cut on either side |
| JsStrings.TrimIgnoresSurroundingSpace | src/UpdatePage.ts:38-39 | whitespace added at both ends does not change the trimmed text |
| JsStrings.TrimUnpadded | src/UpdatePage.ts:38-39 | text that neither starts nor ends with whitespace is its own trim |
| JsStrings.ReplaceAllAbsent | src/UpdatePage.ts:38 | replacing a pattern that does not occur changes nothing |
| JsStrings.ReplaceAllShrinks | src/UpdatePage.ts:38 | replacing a pattern by a shorter text never lengthens, and strictly shortens when the pattern occurs |
| JsStrings.ReplaceAllIsIdentityIff | src/UpdatePage.ts:38 | replacing by a shorter text leaves the input unchanged if and only if the pattern does not occur |
| VersionNumbers.IncreaseVersionNumber | src/UpdatePage.ts:151-153 | a version without a leading number becomes `NaN`; otherwise the result reads back as one more than the input's value |
| VersionNumbers.ParseIntString | src/UpdatePage.ts:152 | `parseInt` reads back every integer `toString` writes |
| VersionNumbers.ParseDigits | src/UpdatePage.ts:152 | a run of decimal digits reads as the number it spells |
| VersionNumbers.ParseMinus | src/UpdatePage.ts:152 | a leading minus negates the number the digits after it spell, and without digits the result is `NaN` |
| VersionNumbers.IncreaseDecimal | src/UpdatePage.ts:151-153 | the decimal string of `n` becomes the decimal string of `n + 1` |
| VersionNumbers.IncreaseNonNumber | src/UpdatePage.ts:151-153 | a version that starts with neither whitespace, a sign nor a digit becomes `NaN` |
| DynamicIds.RemoveDynamicIds | src/UpdatePage.ts:33-35 | removing dynamic ids never lengthens the markup |
| DynamicIds.RemovesAttribute | src/UpdatePage.ts:33-35 | an `id` or `ac:macro-id` attribute with a non-empty quote-free value, with its leading space, is deleted whole and the scan resumes after it |
| DynamicIds.KeepsEmptyAttribute | src/UpdatePage.ts:34 | an attribute with an empty value is kept, because the value must have at least one character |
| DynamicIds.NoOpenerUnchanged | src/UpdatePage.ts:33-35 | markup in which neither ` id="` nor ` ac:macro-id="` occurs is unchanged |
| DynamicIds.NoQuoteUnchanged | src/UpdatePage.ts:33-35 | markup without a double quote is unchanged |
| DynamicIds.NotIdempotent | src/UpdatePage.ts:33-35 | deleting one attribute can splice another together (` i id="v"d="w"` becomes ` id="w"`), which a second pass deletes, so the function is not idempotent |
| DynamicIds.SelfComparison | src/UpdatePage.ts:37-41 | markup compared with itself counts as changed exactly when its normalised form still contains `&#39;`, which only the local side decodes |
| DynamicIds.ApostropheReportedAsChange | src/UpdatePage.ts:37-41 | markup holding `&#39;` and no dynamic-id opener, with no whitespace at either end, counts as changed when compared with itself |
| DynamicIds.IdValuesIgnored | src/UpdatePage.ts:37-41 | after any common text holding no opener, markup that differs in the value or name of a dynamic-id attribute, and whose tails normalise alike, is judged exactly as identical markup is |
| DynamicIds.StripsTo | src/UpdatePage.ts:33-35 | a dynamic-id attribute after text holding no opener is deleted whole and the scan goes on after it; applied to each attribute in turn, it shows that tails differing only in their dynamic-id values normalise alike, as `IdValuesIgnored` asks |
| DynamicIds.OpenerFreePrefix | src/UpdatePage.ts:33-35 | text holding no opener, quotes and spaces included, passes through unchanged, and the scan resumes where it ends |
| DynamicIds.MacroHeadKept | src/UpdatePage.ts:33-35 | the head `<ac:structured-macro ac:name="…"` of a macro passes through unchanged |
| DynamicIds.MacroIdValuesIgnored | src/UpdatePage.ts:33-41 | two renderings of a macro that differ only in the `ac:macro-id` value are not drift |
| DynamicIds.SurroundingSpaceIgnored | src/UpdatePage.ts:37-41 | whitespace around either side does not count as a change, on both the local and the remote side, provided the markup does not start with `i` or `a`, which could join the whitespace into an attribute opener |
| DynamicIds.LeadingSpaceCanJoinAttribute | src/UpdatePage.ts:37-41 | without that proviso, a leading space can complete an attribute the remote markup lacks, and the pair counts as changed |
| Attachments.Sanitize | src/UpdatePage.ts:60 | the remote file name is never longer than the local name |
| Attachments.SanitizeIsClean | src/UpdatePage.ts:60 | a remote file name holds neither `/` nor `..` |
| Attachments.SanitizeCleanUnchanged | src/UpdatePage.ts:60 | a name without `/` and `..` is its own remote name |
| Attachments.SanitizeIdempotent | src/UpdatePage.ts:60 | sanitising a remote name again changes nothing |
| Attachments.SanitizeChangesIff | src/UpdatePage.ts:60 | a name changes if and only if it holds a `/` or a `..` |
| Attachments.SanitizeCleanPrefix | src/UpdatePage.ts:60 | a clean part not ending in a dot passes through, and the scan resumes after it |
| Attachments.SanitizeAppend | src/UpdatePage.ts:60 | sanitising distributes over a split whose right part does not start with a dot |
| Attachments.SanitizeExample | src/UpdatePage.ts:60 | `../dir/file` becomes `__dir_file` |
| Attachments.LazyEnd | src/UpdatePage.ts:44 | the lazy name group ends at a quote, and, for the reference pattern, the quote is followed by spaces and `/>` |
| Attachments.LazyEndSound | src/UpdatePage.ts:44 | the name the lazy group takes stays on one line and ends where the pattern can continue |
| Attachments.LazyEndFirst | src/UpdatePage.ts:44 | the lazy group takes the shortest name after which the pattern continues |
| Attachments.LazyEndComplete | src/UpdatePage.ts:44 | whenever some one-line name lets the pattern continue, the lazy group finds an end no later than it |
| Attachments.ReferencesSingleLine | src/UpdatePage.ts:44 | every reference the global match returns lies on one line |
| Attachments.ReferenceFound | src/UpdatePage.ts:44 | a well-formed reference at the start of the markup is matched whole, and the global match goes on after it |
| Attachments.ReferenceName | src/UpdatePage.ts:44-45 | the name recovered from a well-formed reference by the greedy `.*"(.+)".*` is exactly the quoted file name |
| Attachments.Names | src/UpdatePage.ts:44-45 | one name is recovered per matched reference |
| Attachments.Kept | src/UpdatePage.ts:46-53 | a name is kept if and only if it is not a web address and the file it names exists |
| Attachments.KeptAppend | src/UpdatePage.ts:46-53 | the filters distribute over a split of the name list, so order and repetitions are kept |
| Attachments.KeptOne | src/UpdatePage.ts:46-53 | one name is kept, exactly once, if and only if it survives both filters |
| Attachments.ToLocal | src/UpdatePage.ts:54-62 | the record built for a kept name carries the resolved path, the file's size, the sanitised remote name, and no remote id |
| Attachments.ExtractAttachments | src/UpdatePage.ts:43-63 | every extracted attachment comes from a referenced name, is sized from the file system, is named for the remote side by sanitising and is not yet matched |
| Attachments.ExtractedIff | src/UpdatePage.ts:43-63 | a name is extracted if and only if the markup references it, it is not a web address and its file exists |
| Attachments.FirstMatch | src/UpdatePage.ts:90-94 | the remote attachment found is the first in listing order with the remote name and the local size, and none is found exactly when none matches |
| Attachments.MapLocal | src/UpdatePage.ts:89-99 | matching changes only the remote id, sets it to the first matching remote attachment's id, and leaves an unmatched attachment as it was |
| Attachments.MatchedIff | src/UpdatePage.ts:89-99 | an unmatched attachment gets an id if and only if some remote attachment has its remote name and size |
| Attachments.SizeMismatchUnmatched | src/UpdatePage.ts:92-93 | a local file whose size no remote attachment has is never matched, whatever the names |
| Attachments.MatchAll | src/UpdatePage.ts:127-129 | one result per local attachment, in order; each differs from its local only in the id, which is the first matching remote attachment's id, or the old id when none matches |
| Attachments.UpToDateIds | src/UpdatePage.ts:106 | one id slot per local attachment |
| Attachments.OutOfDate | src/UpdatePage.ts:106-109 | a remote attachment is deleted if and only if it is listed and no local attachment carries its id |
| Attachments.OutOfDateOrder | src/UpdatePage.ts:107-111 | deletions follow the listing order |
| Attachments.UnmatchedDeleted | src/UpdatePage.ts:101-113 | a remote attachment that no local file matches is deleted |
| Attachments.FirstMatchKept | src/UpdatePage.ts:101-113 | the remote attachment a local file matched is never deleted |
| Attachments.ToUpload | src/UpdatePage.ts:135 | a forced run uploads every extracted attachment; otherwise exactly those without a truthy remote id |
| Attachments.ToUploadAppend | src/UpdatePage.ts:135-145 | the upload filter distributes over a split of the list, so uploads follow the order of the attachments and an attachment listed twice is uploaded twice |
| Attachments.ToUploadOne | src/UpdatePage.ts:135 | one attachment is uploaded, exactly once, if and only if the run is forced or it has no truthy remote id |
| Attachments.UploadIff | src/UpdatePage.ts:135 | without force, an attachment is uploaded if and only if no remote attachment matched it, or the match has an empty id |
| Attachments.RewriteAt | src/UpdatePage.ts:147 | a rewrite match covers the reference opener and at least one name character |
| Attachments.RewriteReferences | src/UpdatePage.ts:147 | the rewrite never lengthens the markup |
| Attachments.RewriteWithoutReference | src/UpdatePage.ts:147 | markup without a reference opener is left as it is |
| Attachments.RewritePlainPrefix | src/UpdatePage.ts:147 | text without `<` passes through, and the rewrite resumes after it |
| Attachments.SanitizeOpener | src/UpdatePage.ts:147 | sanitising a whole match changes only the file name, not the opener |
| Attachments.RewriteOne | src/UpdatePage.ts:147 | a reference's name is replaced by its sanitised form, even for a web address that is never uploaded |
| Attachments.RewriteAgreesWithUpload | src/UpdatePage.ts:147 | a well-formed reference at the start of the text is rewritten to exactly the sanitised name it is uploaded under at line 60, and the rewrite goes on after it |
| Attachments.ReferencesWithoutOpener | src/UpdatePage.ts:44 | markup without the reference opener yields no reference |
| Attachments.ReferencesOpenerFreePrefix | src/UpdatePage.ts:44 | text without the opener in front of a tag yields no reference, and the global match goes on at the tag |
| Attachments.RewriteOpenerFreePrefix | src/UpdatePage.ts:147 | text without the opener in front of a tag passes through the rewrite, and the rewrite goes on at the tag |
| Attachments.SegmentStep | src/UpdatePage.ts:43-147 | a well-formed reference behind text without the opener is matched whole, and the rewrite keeps the text and sanitises the name |
| Attachments.ReferencesOfJoin | src/UpdatePage.ts:44 | in a page of well-formed references, each behind any text without the opener, every reference is matched, in order |
| Attachments.NamesOfJoin | src/UpdatePage.ts:44-45 | the names recovered from such a page are the file names of all its references, in order and with repetitions |
| Attachments.ExtractJoin | src/UpdatePage.ts:43-63 | one attachment is extracted per reference of such a page, in order, exactly for the names that survive both filters |
| Attachments.RewriteOfJoin | src/UpdatePage.ts:147 | the rewrite of such a page sanitises the name of every reference and leaves all other text as it is |
| Attachments.WrappedReference | src/UpdatePage.ts:43-147 | one reference between two texts without the opener is the only match, gives the only name, and is the only thing the rewrite changes |
| Attachments.ImageReference | src/UpdatePage.ts:43-147 | the same holds for a reference inside `<ac:image>…</ac:image>`, as the renderer writes images |
| Attachments.UncleanNameRewritten | src/UpdatePage.ts:147 | a page with one reference whose name holds `/` or `..` is changed by the rewrite |
| Attachments.ImagePathRewritten | src/UpdatePage.ts:147 | an image referenced as `images/a.png` changes the markup under the rewrite |
| PageBuilder.AddPrefix | src/UpdatePage.ts:196-204 | the markup is unchanged if and only if the prefix is empty; otherwise the result starts with the banner holding the prefix, ends with the markup, and is exactly as long as the two together |
| PageBuilder.AddPrefixInjective | src/UpdatePage.ts:196-204 | different markups never give the same prefixed text |
| PageBuilder.NewBlankPage | src/UpdatePage.ts:206-221 | the scaffold has an empty title and body, version `1`, no ancestors and the given space |
| PageBuilder.PreparePage | src/UpdatePage.ts:165-181 | the title and body are replaced; the ancestors only when a parent is set; the version is kept present or absent and raised by one; the type and space are kept |
| PageBuilder.VersionOneSentAsTwo | src/UpdatePage.ts:179-181 | a page at version `1` is sent at version `2` |
| PageBuilder.BlankPageSentAtVersionTwo | src/UpdatePage.ts:206-212 | a page created from the blank scaffold is sent at version `2` |
| PageBuilder.PrepareTwice | src/UpdatePage.ts:165-181 | preparing twice differs from preparing once only in the version, which is raised once more |
| WikiFormat.EmptyCellAt | src/UpdatePage.ts:75 | an empty cell match starts and ends with a bar |
| WikiFormat.FixWithoutBar | src/UpdatePage.ts:75 | text without a bar is unchanged |
| WikiFormat.FixOneCell | src/UpdatePage.ts:75 | a bar, spaces and a bar become `\|&nbsp;\|`, and the scan resumes after the second bar |
| WikiFormat.ConvertToWikiFormat | src/UpdatePage.ts:74-87 | throws exactly when no title is configured and the text does not start with a heading; the page data returned always has a title, and only its title can differ from the input |
| WikiFormat.TitleFromHeading | src/UpdatePage.ts:76-78 | without a configured title, `# title` becomes the title and only the text after it is rendered |
| WikiFormat.HeadingParsed | src/UpdatePage.ts:65-72 | a heading with one space before a title parses back into that title and rest |
| Sync.SendPage | src/UpdatePage.ts:155-194 | without a title nothing is sent; with an id one update of that id is sent, and without one a single create; only a create returns an id; the call throws exactly when the update fails or the create returns no page |
| Sync.SendPageStep | src/UpdatePage.ts:155-194 | sending adds at most one operation, never writes the cache, and creates only at version `2` when the page comes from the scaffold |
| Sync.DeleteOps | src/UpdatePage.ts:110-112 | the delete phase issues only deletes |
| Sync.UploadOps | src/UpdatePage.ts:135-145 | the upload phase issues only uploads |
| Sync.UpdateAttachments | src/UpdatePage.ts:115-149 | without an id nothing is issued and the markup is returned unchanged; with one, the listing comes first, a failed listing throws straight after it, and the markup returned is the rewritten one |
| Sync.AttachmentOps | src/UpdatePage.ts:126-145 | with the listing in hand, the listing is followed by exactly the deletes of the out-of-date attachments and then the uploads of the attachments to upload |
| Sync.UpdateAttachmentsStep | src/UpdatePage.ts:115-149 | the attachment phase never searches, creates or writes the cache, and every delete comes before every upload |
| Sync.SendPageUpdate | src/UpdatePage.ts:223-226 | without an id nothing happens |
| Sync.SendPageUpdateLists | src/UpdatePage.ts:228 | with an id, the attachment listing is the first operation |
| Sync.SendPageUpdateStep | src/UpdatePage.ts:223-241 | updating a page never searches or creates, and each cache write is immediately followed by the update of the same page with the same markup |
| Sync.FetchAndSend | src/UpdatePage.ts:229-240 | the page data is left as it is |
| Sync.FetchAndSendWritesIff | src/UpdatePage.ts:232-240 | after the fetch, the cache is written and then the update sent if and only if the run is forced or the markup drifted; the write is keyed by the page's id and holds the markup the update carries; when that id names a directory the write throws and nothing is sent |
| Sync.FetchAndSendStep | src/UpdatePage.ts:232-240 | fetching and sending appends the fetch, then either nothing or the cache write immediately followed by the update |
| Sync.CreatePage | src/UpdatePage.ts:292-297 | creating changes nothing in the page data except the id |
| Sync.CreatePageCreates | src/UpdatePage.ts:292-293 | for a page without an id, the scaffold's create is the first operation |
| Sync.CreatePageUpdates | src/UpdatePage.ts:306-311 | for a page that already has an id, the scaffold goes out as one update of that page, whatever the reply |
| Sync.CreatePageStep | src/UpdatePage.ts:292-297 | the create path keeps the write-then-update order and creates only at version `2` |
| Sync.TryFind | src/UpdatePage.ts:278-299 | the try block changes nothing in the page data except the id |
| Sync.TryFindFound | src/UpdatePage.ts:279-284 | search results hand the first result's id to the page update |
| Sync.TryFindThrows | src/UpdatePage.ts:279 | a search that throws ends the try block right after the search |
| Sync.TryFindStep | src/UpdatePage.ts:278-299 | the try block keeps the write-then-update order and creates only at version `2` |
| Sync.CatchCreate | src/UpdatePage.ts:300-313 | without a space, the catch block returns at once without issuing anything |
| Sync.CatchCreateStep | src/UpdatePage.ts:300-313 | the catch block keeps the write-then-update order and creates only at version `2` |
| Sync.FindOrCreate | src/UpdatePage.ts:273-313 | without a title it returns at once, and only the id of the page data can change |
| Sync.FindOrCreateKeeps | src/UpdatePage.ts:300-313 | the catch block only adds to what the try block issued |
| Sync.FindOrCreateStep | src/UpdatePage.ts:273-313 | the search-and-create block keeps the write-then-update order and creates only at version `2` |
| Sync.Finish | src/UpdatePage.ts:316-321 | the final step only appends, and a throw in the block ends the call as a throw |
| Sync.FinishStep | src/UpdatePage.ts:316-321 | the final step adds at most the fetch of the page |
| Sync.FinishKeeps | src/UpdatePage.ts:316-321 | whatever the block issued begins the trace of the whole call |
| Sync.UpdatePage | src/UpdatePage.ts:243-247 | a document whose title cannot be found throws before any operation |
| Sync.UpdatePageDisciplined | src/UpdatePage.ts:243-327 | in every run each cache write is immediately followed by the update of the same page with the same markup, and every page is created at version `2` |
| Sync.ExplicitIdNeverSearchesOrCreates | src/UpdatePage.ts:269-271 | a page configured with an id is never searched for or created |
| Sync.CacheHitSkipsRemote | src/UpdatePage.ts:253-267 | without force, a cache file (not a directory) holding exactly the markup ends the call before any operation, without error |
| Sync.WrittenEntryHitsIff | src/UpdatePage.ts:237-259 | an entry written with the rewritten markup matches the markup before the rewrite if and only if the rewrite changed nothing |
| Sync.RerunStart | src/UpdatePage.ts:253-271 | after the entry is written, the next run over a page with an id stops at the cache exactly when the rewrite changed nothing, and sends the update otherwise |
| Sync.UpdateById | src/UpdatePage.ts:253-271 | with an id that is not a directory and no cache hit (or force), the call sends the update under that id and then fetches the page |
| Sync.RerunAfterWrite | src/UpdatePage.ts:228-271 | the next run after the cache write, without force, ends without any operation if and only if the rewrite left the markup as it was; otherwise it lists the page's attachments again |
| Sync.CacheReadUnderUndefined | src/UpdatePage.ts:253 | a page without an id reads the cache under the name `undefined`, which every such page shares |
| Sync.DirectoryKeyThrows | src/UpdatePage.ts:253-257 | a cache key that names a directory makes the cache read throw before any operation |
| Sync.DotIdsThrow | src/UpdatePage.ts:253-257 | the configured ids `""`, `.` and `..` name the cache directory or its parent, so the call throws before any operation |
| Sync.SearchStart | src/UpdatePage.ts:269-273 | a page without an id, past the cache, goes to the search-and-create block with a title |
| Sync.SearchRunPrefix | src/UpdatePage.ts:314-321 | whatever the search-and-create block issues first begins the trace of the whole call |
| Sync.NotFoundWithoutSpace | src/UpdatePage.ts:279-304 | with no space, a search with no results or a search that throws ends the call after the search, without error |
| Sync.NoResultsFlow | src/UpdatePage.ts:285-293 | a search without results, with a space, is followed by the create of the blank scaffold |
| Sync.NoResultsCreates | src/UpdatePage.ts:285-293 | a search without results, with a space, makes the call create the blank scaffold under the page's title, at version `2`, right after the search |
| Sync.SearchFailureFlow | src/UpdatePage.ts:300-307 | a search that throws is followed by the create of the blank scaffold |
| Sync.SearchFailureCreates | src/UpdatePage.ts:300-307 | a search that throws makes the call create the blank scaffold under the page's title, at version `2`, right after the search |
| Sync.FirstResultFlow | src/UpdatePage.ts:279-284 | a search with results is followed by the listing of the first result's attachments |
| Sync.FirstResultUsed | src/UpdatePage.ts:279-284 | the call adopts the first search result's id and lists its attachments right after the search |
| Sync.FoundFailureFlow | src/UpdatePage.ts:279-311 | a found page whose listing throws is then updated with the scaffold |
| Sync.ListingThrows | src/UpdatePage.ts:122-126 | a listing that throws ends `sendPageUpdate` right after it |
| Sync.FindOrCreateCatches | src/UpdatePage.ts:278-313 | when the try block throws, the catch block runs from the state the try block reached |
| Sync.FoundPageFailureUpdatesScaffold | src/UpdatePage.ts:278-311 | when the attachment listing of a found page throws, the catch block sends the blank scaffold as an update of the found page, at version `2`, holding the markup, right after the listing |
| Sync.FetchThrows | src/UpdatePage.ts:228-231 | a fetch that throws ends `sendPageUpdate` right after it, behind the listing and the attachment operations |
| Sync.UpdateThrows | src/UpdatePage.ts:228-240 | when the update throws, `sendPageUpdate` throws right after the fetch, the cache write and the update |
| Sync.FetchAndSendUpdateThrows | src/UpdatePage.ts:231-240 | the same, once the attachments are reconciled |
| Sync.FoundRaisedFlow | src/UpdatePage.ts:279-311 | whichever call in the update of a found page throws, the catch block then sends the scaffold as an update of the found page |
| Sync.FoundPageRaiseUpdatesScaffold | src/UpdatePage.ts:278-311 | whichever call in the update of a found page throws (listing, fetch, cache write or update), the call's trace continues from that point with the blank scaffold sent as an update of the found page, at version `2`, holding the markup |
| Sync.CachedPrefix | src/UpdatePage.ts:228-239 | a forced run on a found page whose id is not a directory reaches a cache write under the found id holding the rewritten markup |
| Sync.FoundPageCachedUnderId | src/UpdatePage.ts:237-239 | a forced run on a found page writes the rewritten markup under the found id, not under `undefined`, the key the read used |

## Left out

- Rendering with `marked` and the wiki renderer (lines 79-86) is a function parameter. Its output is not modelled.
- Reading the document file is left out: its text is a parameter.
- Creating the cache directory (`mkdir`, `getCachePath`, lines 14-31 and 249-252) is left out. The cache directory is a map from file name to contents.
- The file system is a map of file sizes plus an uninterpreted path resolver. `existsSync`, `statSync` and `path.resolve` are not modelled further.
- The temporary copy and removal of each attachment around its upload (lines 136-144) are left out. An upload is one operation. The copy goes into the cache directory under the sanitised name (lines 137-138). So an attachment named like a cache key, such as a page id or `undefined`, overwrites and then removes that entry. If that path is a directory, `copyFileSync` throws. "Uploads never throw" below is therefore true of the client call only.
- Logging (`signale`) and the page path computed only for messages (lines 230, 244, 323-326) are left out.
- The retries and error handling of the API client are left out. Deletes and uploads never throw, because the client catches their errors. A failed search, listing, fetch, create or update throws.
- A cache key is a path below the cache directory. The keys `""`, `.` and `..` and the paths in the set of directories make both the read and the write throw. Any other failure of the cache write, such as a key below a subdirectory that does not exist, is left out: the file system's other contents are not modelled. Keys are compared as strings and not resolved as paths, so the set of directories must also list every other spelling of a directory, such as `./` or `a/..`.
- The `if (!attachments)` test at line 130 is not modelled, because the value is always an array.
- A search reply whose `results` field is missing behaves like an empty result list and is represented as one.
- Sync.UpdatePage: the reply of the final fetch (line 321) is used only for a message. The model records the fetch and whether it throws.
- VersionNumbers.IncreaseVersionNumber: integers are unbounded, so precision lost beyond 2^53 in JavaScript numbers is not modelled.
- PageBuilder.PreparePage: a version record without a number (the `?? "1"` at line 180) cannot be represented, because a version is modelled as its number string.
- JavaScript strings are sequences of UTF-16 code units. The model's characters are Unicode scalar values, so surrogate pairs are not modelled.
- Driving the pages of a configuration one after another, the command line and the API client are not part of this model.
- Run-to-run idempotence, that a second run over an unchanged page makes no mutating call, is not proved, because it does not hold. The cache stores the rewritten markup but is compared with the raw markup (`Sync.RerunAfterWrite`). A page without an id reads under `undefined` but writes under its resolved id (`Sync.FoundPageCachedUnderId`). And `&#39;` in the markup always counts as a change on the remote side.
- Idempotence of `removeDynamicIds` is not proved, because it does not hold. `DynamicIds.NotIdempotent` exhibits markup that a second pass changes.
