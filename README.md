# A verified model of the blog's text-processing core

This project models, in Dafny, the parts of the blog (a React client with a Python build
script) that transform text and normalise data, and proves what they promise.

- **Link lock.** `scripts/process_build.py` rewrites post bodies before a build. Links and bare
  URLs to http, https or magnet targets become `[🔒 加密链接点击解密](encrypted:PAYLOAD)`.
  PAYLOAD is the base64url text of a 12-byte nonce followed by the AES-GCM output.
  The decryption dialog (`DecryptDialog.jsx`) undoes the framing. The model proves that both
  sides agree on the key derivation and that decrypting a locked link gives back its URL
  (`build_script.dfy`, `decrypt_dialog.dfy`, `crypto.dfy`).
- **Block editor document.** A post body is stored as markdown with `[image:ID]` and
  `[download:ID]` placeholders and `### ` headings.
  - The renderer cuts a body into nodes (`content_renderer.dfy`, `placeholders.dfy`).
  - The two parsers turn a body into editor blocks (`md_parser.dfy`, `md_parser_js.dfy`).
  - Both editors edit the never-empty block list and serialise it back (`blocks.dfy`,
    `write_modal_hook.dfy`, `write_modal_legacy.dfy`).
  - The serialised placeholder ids are exactly what the parser recovers.
- **Front matter and excerpts.** `markdownUtils` holds the line-driven YAML front-matter
  parser, the `<!--more-->` excerpt, the image-path rewrite and the field defaults
  (`markdown_utils.dfy`).
- **Records.** These models normalise the server's JSON and the signed-in user:
  `PostResponse` with its recursive `Comment`, `PostRequest` and `User` (`post_response.dfy`,
  `post_request.dfy`, `user.dfy`).
- **Utilities.** These cover multi-term search, the plain-text formatter, the reading-time
  estimate, the comment-forest count and the comment box, tag grouping on the tags page, and
  the in-browser mock file system (`search_utils.dfy`, `text_formatter.dfy`,
  `reading_time.dfy`, `comments.dfy`, `tags.dfy`, `mock_fs.dfy`).

`text.dfy` and `wrappers.dfy` hold the string helpers (JavaScript and Python whitespace,
`trim`, `split`, `indexOf`, ASCII lower-casing) and the `Option`/`Result` values used
throughout.

Regular expressions are modelled as explicit scanners over `seq<char>`, following the
engine's lazy and greedy choices. Loops in the source are methods with loop invariants,
proved against specification functions. Components whose state hooks change become classes
whose methods update those fields.

## Model

| member | source | states |
|---|---|---|
| BuildScript.NormalizePath | scripts/process_build.py:21 | the path with `\` replaced keeps its length and holds no backslash |
| BuildScript.IsWhitelisted | scripts/process_build.py:19-37 | true exactly when some entry matches the normalised path: an entry ending in `/` as a prefix, any other entry as a suffix |
| BuildScript.UrlSafe | scripts/process_build.py:55 | the URL-safe alphabet swap keeps the length and turns padded base64 into padded base64url |
| BuildScript.EncryptUrl | scripts/process_build.py:49-55 | with sound primitives the payload is base64url text whose length is a multiple of 4 |
| BuildScript.LockTextHasNoUrl | scripts/process_build.py:79-80 | a locked link contains `http://`, `https://` or `magnet:?` at no index, since its label is fixed, its code alphanumeric and its payload base64url |
| BuildScript.Render | scripts/process_build.py:84 | rendering a pass draws exactly one nonce per lock and leaves a lock-free text as it was |
| BuildScript.CodeAt | scripts/process_build.py:76 | a captured extraction code is 4 to 6 ASCII letters and digits |
| BuildScript.ExtractCode | scripts/process_build.py:91 | a code is found exactly when the pattern matches at some index, and it is 4 to 6 letters and digits |
| BuildScript.LinkAt | scripts/process_build.py:62 | a match is a well-formed link (non-empty text without `]`, non-empty url without `)`) that starts the text |
| BuildScript.LinkAtComplete | scripts/process_build.py:62 | any well-formed link at the start of the text is the one the scanner finds |
| BuildScript.EncryptLink | scripts/process_build.py:64-82 | the piece covers the whole match; it is a lock exactly when the url is http, https or magnet and neither an image nor already encrypted; a lock keeps the url and the text's code |
| BuildScript.Scan1Covers | scripts/process_build.py:84 | the pieces of pass 1 concatenate back to its input |
| BuildScript.Scan1Locks | scripts/process_build.py:84 | every lock of pass 1 is what `encrypt_link` makes of one link match |
| BuildScript.LinkUrlHasNoScheme | scripts/process_build.py:73 | a link inside a text without any scheme has a url that pass 1 does not lock |
| BuildScript.Scan1NoLocks | scripts/process_build.py:84 | pass 1 locks nothing in a text without any scheme |
| BuildScript.FirstBlockUrlIsFirst | scripts/process_build.py:107 | the block scan finds the leftmost URL start after the scan position, and finds one whenever there is one |
| BuildScript.FirstBlockUrlNone | scripts/process_build.py:107 | a text without any scheme has no URL start |
| BuildScript.BlockStart | scripts/process_build.py:107 | a block starts just after the last `\n` or `.` before its URL, and holds neither before the URL |
| BuildScript.LineEnd | scripts/process_build.py:107 | a block runs to the end of its line: no `\n` inside, a `\n` or the end of text after |
| BuildScript.InnerUrlAt | scripts/process_build.py:95 | an inner match is a URL of the inner pattern and cannot be extended |
| BuildScript.InnerScanCovers | scripts/process_build.py:104 | the inner pieces are non-empty and concatenate back to the block |
| BuildScript.InnerScanLocks | scripts/process_build.py:97-102 | every inner lock replaces exactly one URL and carries the block's single extraction code |
| BuildScript.InnerScanMaximal | scripts/process_build.py:95 | the text after a locked URL never continues that URL |
| BuildScript.BlockPieces | scripts/process_build.py:87-104 | one block's pieces cover the text from the scan position to the block end, which lies further on |
| BuildScript.Scan2Covers | scripts/process_build.py:108 | the pieces of pass 2 concatenate back to its input: text outside the URLs is kept |
| BuildScript.Scan2Locks | scripts/process_build.py:108 | every lock of pass 2 replaces exactly one URL of the inner pattern |
| BuildScript.ProcessWithoutSchemeIsIdentity | scripts/process_build.py:57-110 | `ProcessMarkdownContent`: a body with none of `http://`, `https://`, `magnet:` comes out unchanged and draws no nonce |
| BuildScript.LockIsLink | scripts/process_build.py:62 | a locked link is itself one link match of the pass-1 pattern, with an `encrypted:` target |
| BuildScript.Pass1KeepsLocks | scripts/process_build.py:69-70 | pass 1 leaves an already locked link as it is |
| BuildScript.ProcessSourceMarkdown | scripts/process_build.py:112-136 | the loop over the listed files ends in the state the file-by-file specification describes |
| BuildScript.ProcessFilesFrame | scripts/process_build.py:124-126 | no file is created, and whitelisted or unlisted files are left as they were |
| BuildScript.ProcessFilesStep | scripts/process_build.py:124-136 | one iteration touches only its own file: a whitelisted file is left as it was, any other keeps its metadata and gets its body rewritten, and no file is created |
| BuildScript.ProcessFilesRewrites | scripts/process_build.py:129-136 | with distinct paths, each listed file that is not whitelisted ends up rewritten |
| DecryptDialog.KdfAgreement | src/components/DecryptDialog.jsx:72-81 | the client derives its key with the build's salt, iteration count, hash and key size, and cuts the nonce at the build's nonce length |
| DecryptDialog.SameKey | src/components/DecryptDialog.jsx:64-83 | for every password the client key equals the key `generate_key` derives |
| DecryptDialog.Repad | src/components/DecryptDialog.jsx:61 | the padded text is the input followed only by `=`, and its length is the least multiple of 4 not below the input's |
| DecryptDialog.RepadPadded | src/components/DecryptDialog.jsx:61 | a text whose length is already a multiple of 4 gets no padding |
| DecryptDialog.ToStandard | src/components/DecryptDialog.jsx:62 | the alphabet swap keeps the length |
| DecryptDialog.ToStandardInvertsUrlSafe | src/components/DecryptDialog.jsx:62 | `-`→`+` and `_`→`/` undo the build's URL-safe swap on padded base64 |
| DecryptDialog.SplitNonce | src/components/DecryptDialog.jsx:86-87 | the nonce and ciphertext concatenate back to the decoded bytes, and the nonce is the first 12 bytes (all of them when shorter) |
| DecryptDialog.SplitNonceJoin | src/components/DecryptDialog.jsx:86-87 | splitting `nonce + ciphertext` gives back the nonce and the ciphertext the build concatenated |
| DecryptDialog.DecryptUrl | src/components/DecryptDialog.jsx:54-103 | a payload that does not decode as base64 yields no url |
| DecryptDialog.DecryptEncrypt | src/components/DecryptDialog.jsx:54-98 | with sound primitives, decrypting what `encrypt_url` produced with the same password gives back the url, for any url that does not start with a byte order mark (the dialog's default `TextDecoder` drops one) |
| DecryptDialog.LockedUrlNoBom | scripts/process_build.py:73-107 | every url either build pass locks starts with `http://`, `https://` or `magnet:`, so never with a byte order mark |
| DecryptDialog.ExtractPayloadSpec | src/components/DecryptDialog.jsx:119-121 | with `encrypted:` in the input the payload is the trimmed text between its first and any second occurrence; otherwise the whole trimmed input |
| DecryptDialog.ExtractLockPayload | src/components/DecryptDialog.jsx:119-121 | the target of a locked link yields exactly its base64url payload |
| DecryptDialog.Dialog.constructor | src/components/DecryptDialog.jsx:13-18 | every field starts empty or false |
| DecryptDialog.Dialog.Open | src/components/DecryptDialog.jsx:21-30 | opening loads the encrypted data into the input and clears password, error, url and result |
| DecryptDialog.Dialog.HandleDecrypt | src/components/DecryptDialog.jsx:109-137 | an empty password or input sets the guard error and changes nothing else; otherwise the decryption outcome sets the error, or the url and the result flag for a non-empty url, and ends not decrypting |
| DecryptDialog.Dialog.ResultTimeout | src/components/DecryptDialog.jsx:33-45 | when the timer was armed the result, url and input are cleared, otherwise nothing changes; no timer is left armed |
| DecryptDialog.UnlockLockedLink | src/components/DecryptDialog.jsx:109-127 | opening the dialog on a locked link and typing the build password shows the original url with no error, for a url that does not start with a byte order mark, as every locked url does not |
| DecryptDialog.Dialog.TypeInput | src/components/DecryptDialog.jsx:185 | typing in the encrypted-text box sets only that text |
| DecryptDialog.Dialog.TypePassword | src/components/DecryptDialog.jsx:204 | typing in the password box sets only the password |
| Placeholders.IdRunSpec | src/utils/mdParser.ts:29 | the lazy `(.*?)\]` captures the longest run of characters that are neither `]` nor line terminators |
| Placeholders.IdRunUnique | src/utils/mdParser.ts:29 | any such maximal run is the one the scanner takes, so the capture is unique |
| Placeholders.PlaceholderAtSound | src/components/post/content/ContentRenderer.tsx:40 | a match at a position is `[image:`/`[download:`, a valid id and `]`, and is a prefix of the text there |
| Placeholders.PlaceholderAtText | src/components/post/content/ContentRenderer.tsx:40 | the text of a placeholder with a valid id is matched as exactly that placeholder, whatever follows |
| Placeholders.PlaceholderTextNoNewline | src/components/post/content/ContentRenderer.tsx:40 | a placeholder's text never holds a line break |
| Placeholders.ScanFound | src/components/post/content/ContentRenderer.tsx:43 | the positioned `matchAll` results carry exactly the placeholders the left-to-right search finds |
| Placeholders.MatchesPlaced | src/components/post/content/ContentRenderer.tsx:43 | the matches are in increasing, non-overlapping order and each one's text stands at its index |
| Placeholders.NoBracketNoneFound | src/components/post/content/ContentRenderer.tsx:40 | a text without `[` holds no placeholder |
| Placeholders.FoundSplit | src/utils/mdParser.ts:29 | the placeholders of a text are those of its parts when the cut falls before a line break |
| Placeholders.FoundText | src/utils/mdParser.ts:29 | a placeholder's own text followed by more text yields that placeholder first |
| ContentRenderer.Tokenize | src/components/post/content/ContentRenderer.tsx:40-57 | the nodes re-join to the body, their placeholders are the matches in order, no text node is empty and no two text nodes are adjacent; an empty body gives no node (same loop at src/components/common/ContentRenderer.jsx:15-30) |
| ContentRenderer.LastWith | src/components/post/content/ContentRenderer.tsx:36-37 | `new Map(list.map(...))` answers the last entry with the id, and nothing exactly when no entry has it |
| ContentRenderer.RenderNodeGate | src/components/post/content/ContentRenderer.tsx:63-121 | a node renders nothing exactly when it is a placeholder whose id is not listed; text goes to markdown; a download link is shown only to a signed-in reader and carries that download's url, otherwise the sign-in button |
| ContentRenderer.RenderAllAt | src/components/post/content/ContentRenderer.tsx:60 | the i-th view is the rendering of the i-th node |
| ContentRenderer.Render | src/components/post/content/ContentRenderer.tsx:23-122 | the body is tokenised as above, every node is rendered, an empty body renders nothing and no download link is shown when signed out (same as src/components/common/ContentRenderer.jsx:9-95) |
| Blocks.Swap | src/components/post/editor/useWriteModal.ts:138 | the two positions exchange their blocks, every other position is kept, and the list is a permutation of the old one |
| Blocks.Move | src/components/post/editor/useWriteModal.ts:134-140 | moving past either end changes nothing; otherwise the block and its neighbour swap and nothing else changes |
| Blocks.MoveDownUp | src/components/post/editor/useWriteModal.ts:134-140 | moving a block down and then up again restores the list |
| Blocks.WithoutId | src/components/post/editor/useWriteModal.ts:148 | the filter keeps exactly the blocks whose id differs |
| Blocks.Remove | src/components/post/editor/useWriteModal.ts:146-151 | the result is never empty: the filtered list, without the id, or a single fresh empty text block when nothing is left |
| Blocks.WithoutIdKeeps | src/components/post/editor/useWriteModal.ts:148 | every block with another id survives the filter |
| Blocks.WithoutIdAppend | src/components/post/editor/useWriteModal.ts:148 | filtering a concatenation is filtering each part and concatenating, so kept blocks keep their order |
| Blocks.SpliceStart | src/components/post/editor/useWriteModal.ts:129 | `splice` clamps its start into the list and counts a negative start from the end |
| Blocks.SpliceIn | src/components/post/editor/useWriteModal.ts:129 | inserting puts the block at the clamped start and keeps the blocks before and after it in order |
| Blocks.SpliceAfter | src/components/post/editor/useWriteModal.ts:125-132 | inserting after `index` puts the new block at `index + 1`, keeps both sides in order and adds exactly that block |
| Blocks.MapId | src/components/post/editor/useWriteModal.ts:143 | the map changes only the blocks with the id and keeps the length |
| Blocks.MapIdKeeps | src/components/post/editor/useWriteModal.ts:143 | an update that keeps ids keeps every id, and every block with another id |
| Blocks.Markdowns | src/components/post/editor/useWriteModal.ts:209-213 | one markdown piece per block, in block order |
| Blocks.MarkdownFound | src/components/post/editor/useWriteModal.ts:210-213 | a block whose text holds no placeholder serialises to text whose placeholders are just the block's own image or download id |
| Blocks.SerializeFound | src/components/post/editor/useWriteModal.ts:209-214 | the placeholders of the serialised body are the image and download ids of the blocks, in block order, so the parser recovers them |
| Blocks.Excerpt | src/components/post/editor/useWriteModal.ts:216 | the excerpt is at most 150 characters |
| Blocks.ExcerptNoText | src/components/post/editor/useWriteModal.ts:216 | the excerpt is empty when no block is a text block |
| Blocks.ExcerptAtFirst | src/components/post/editor/useWriteModal.ts:216 | when the first text block is at `i`, the excerpt is that block's content cut to 150 characters, whatever the blocks after it hold |
| MdParser.HeadingAt | src/utils/mdParser.ts:44 | a heading match is `### ` then no line terminator up to a `\n` it includes |
| MdParser.HeadingAtIff | src/utils/mdParser.ts:44 | after `### `, the lazy `.*?\n` matches exactly when the first line terminator is `\n`, and ends just after it |
| MdParser.SplitHeadingsConcat | src/utils/mdParser.ts:44 | the split pieces, headings kept, concatenate back to the text |
| MdParser.KeptMember | src/utils/mdParser.ts:44 | `.filter(p => p.trim())` keeps exactly the non-blank pieces |
| MdParser.ClassifyShape | src/utils/mdParser.ts:45-51 | a non-blank piece becomes a heading exactly when its trim starts with `### `, with that prefix removed; otherwise a text block holding its trim |
| MdParser.ClassifyAll | src/utils/mdParser.ts:45-51 | one block per kept piece, with consecutive ids |
| MdParser.TextBlocksShape | src/utils/mdParser.ts:41-52 | the blocks of a gap get consecutive ids and are text or headings |
| MdParser.TextBlocksBlank | src/utils/mdParser.ts:44 | a blank gap yields no block |
| MdParser.NodeBlocksFacts | src/utils/mdParser.ts:55-74 | a placeholder yields one block carrying its id, a gap only text-shaped blocks; all resolved against the records with consecutive ids |
| MdParser.FlattenFacts | src/utils/mdParser.ts:36-89 | the ids recovered from the blocks are the placeholders of the nodes, and block ids count up by one |
| MdParser.ExpandFacts | src/utils/mdParser.ts:36-89 | the same for the parser's own grouping: ids in order, image blocks invalid exactly when the id is unknown, download blocks likewise |
| MdParser.AppendText | src/utils/mdParser.ts:45-51 | pushing a gap's pieces appends exactly its blocks and advances the counter by their number |
| MdParser.Walk | src/utils/mdParser.ts:34-89 | the match walk cuts the body into the renderer's nodes and emits the blocks those nodes expand to: numbered from `now`, each resolved, standing for exactly the body's placeholders in order |
| MdParser.ParseBlocks | src/utils/mdParser.ts:17-93 | blank body without records gives one empty text block; otherwise the expanded blocks, or one empty text block when none; never empty; ids increase from the clock; recovered ids are the body's placeholders in order; every resource block resolved |
| MdParser.Reload | src/utils/mdParser.ts:29-76 | parsing what the editor serialised recovers the image and download ids of the blocks, in order |
| MdParserJs.SeparatorAt | src/utils/mdParser.js:8 | a separator match is non-empty and lies inside the text |
| MdParserJs.PiecesConcat | src/utils/mdParser.js:9 | the split pieces, separators kept, concatenate back to the body |
| MdParserJs.ExactIdIff | src/utils/mdParser.js:21 | the anchored pattern matches exactly `[image:` (or `[download:`), an id without line terminators and a final `]`, and captures that id |
| MdParserJs.FirstWith | src/utils/mdParser.js:24 | `find` answers the first record with the id, and nothing exactly when none has it |
| MdParserJs.ClassifyPiece | src/utils/mdParser.js:11-50 | each block carries the id it was given |
| MdParserJs.ImagePieceFacts | src/utils/mdParser.js:21-32 | an image block keeps the id, its content and preview are the first matching record's src, and it is invalid exactly when no record has the id |
| MdParserJs.DownloadPieceFacts | src/utils/mdParser.js:35-46 | a download block keeps the id, takes description and url from the first matching record, is invalid exactly when none has the id, and then gets empty fields |
| MdParserJs.ClassifyPieceKind | src/utils/mdParser.js:13-49 | a piece is a heading exactly when its trim starts with `### ` (prefix removed), text exactly when it is neither a heading nor an exact placeholder, and text keeps its trim |
| MdParserJs.ClassifyPieceResource | src/utils/mdParser.js:21-46 | a piece that is exactly a placeholder becomes that image or download block |
| MdParserJs.ParseJs | src/utils/mdParser.js:3-51 | an empty body gives one empty text block; any other body gives one block per non-blank piece |
| MdParserJs.ParseJsBlocks | src/utils/mdParser.js:9-13 | the j-th block classifies the j-th non-blank piece, with id clock reading plus j |
| MdParserJs.ParseJsIdsIncrease | src/utils/mdParser.js:12 | with a clock that never goes back, block ids strictly increase |
| MdParserJs.ParseJsEmptyIff | src/utils/mdParser.js:4-9 | the result is empty exactly for a non-empty, whitespace-only body |
| MdParserJs.ParseJsSpacesEmpty | src/utils/mdParser.js:4-9 | as written, a body of two spaces yields no block at all |
| MdParserJs.ParseBodyNonEmpty | src/utils/mdParser.js:3-51 | the corrected parser never returns an empty list and agrees with the original whenever that one is non-empty |
| MdParserJs.ParseBodyFields | src/utils/mdParser.js:25-45 | every image block has a preview url and every download block a url |
| WriteModalHook.UpdatedFacts | src/components/post/editor/useWriteModal.ts:143 | an update sets exactly the named field, keeps id, type, resource and file, and leaves the block invalid only when it was invalid and a blank url was entered |
| WriteModalHook.UpdateIdempotent | src/components/post/editor/useWriteModal.ts:142-144 | applying the same field update twice is the same as applying it once |
| WriteModalHook.ContentDoneFacts | src/components/post/editor/useWriteModal.ts:62-67 | the initial single empty text block is not content; writing non-blank text into an existing text or heading block makes the content done |
| WriteModalHook.FinalizeBlocks | src/components/post/editor/useWriteModal.ts:192-207 | the loop yields the finalised blocks, the uploaded images and the recorded downloads, each in block order |
| WriteModalHook.FinalizedAt | src/components/post/editor/useWriteModal.ts:195-207 | the j-th finalised block is the j-th block finalised with the j-th clock reading |
| WriteModalHook.DownloadsRecorded | src/components/post/editor/useWriteModal.ts:201-205 | a download block with a url gets a non-empty resource id and is recorded under it with its description and url |
| WriteModalHook.ImagesRecorded | src/components/post/editor/useWriteModal.ts:196-200 | an image block with a chosen file takes the upload's id as resource id and the upload is recorded as a content image |
| WriteModalHook.StampIdIsId | src/components/post/editor/useWriteModal.ts:202 | a generated `dl_` id is a valid placeholder id |
| WriteModalHook.FinalOfSafe | src/components/post/editor/useWriteModal.ts:196-206 | finalising keeps block content free of placeholders and resource ids valid |
| WriteModalHook.PublishedPlaceholders | src/components/post/editor/useWriteModal.ts:209-214 | the serialised body's placeholders are exactly those emitted for the finalised image and download blocks, in order |
| WriteModalHook.LoadBody | src/components/post/editor/useWriteModal.ts:84-90 | the body is loaded as `parseMDToBlocks` gives it: one empty text block for a blank body without records, else the expansion of a split of the body into text and placeholder nodes that rejoins to it (one empty text block when empty); never empty, numbered from the clock, re-emitting exactly the stored body's placeholders, every resource block resolved against the stored images and downloads |
| WriteModalHook.Editor.constructor | src/components/post/editor/useWriteModal.ts:47-57 | the editor starts at step 1 in edit mode with nothing entered and one empty text block |
| WriteModalHook.Editor.Reset | src/components/post/editor/useWriteModal.ts:69-73 | `resetState` clears the form back to one empty text block and keeps the categories and the select state |
| WriteModalHook.Editor.LoadCategories | src/components/post/editor/useWriteModal.ts:100-105 | fetched category ids replace the list; a failed fetch keeps it |
| WriteModalHook.Editor.LoadPost | src/components/post/editor/useWriteModal.ts:75-97 | a failed load changes nothing; a loaded post sets title, category, tags and cover preview, and its blocks are what `parseMDToBlocks` gives for the body: one empty text block for a blank body without records, else the expansion of the body's split into text and placeholders (one empty text block when empty), numbered from the clock, restoring the placeholders, each resolved |
| WriteModalHook.Editor.InsertBlock | src/components/post/editor/useWriteModal.ts:125-132 | only the block list changes: a new empty block goes right after the given index, with the blocks before and after kept in place |
| WriteModalHook.Editor.MoveBlock | src/components/post/editor/useWriteModal.ts:134-140 | the blocks become a permutation of the old ones; moving past an end changes nothing |
| WriteModalHook.Editor.UpdateBlock | src/components/post/editor/useWriteModal.ts:142-144 | only the block with the id is updated and every position keeps its id |
| WriteModalHook.Editor.RemoveBlock | src/components/post/editor/useWriteModal.ts:146-151 | the blocks with the id are dropped and an emptied list becomes one fresh text block |
| WriteModalHook.Editor.HandleImageSelect | src/components/post/editor/useWriteModal.ts:153-157 | no file changes nothing; a file is attached, with its preview, to the block with the id |
| WriteModalHook.Editor.HandleTagKeyDown | src/components/post/editor/useWriteModal.ts:160-167 | Enter appends the trimmed input exactly when it is non-empty and new, so tags stay distinct |
| WriteModalHook.Editor.HandleNewCategoryKeyDown | src/components/post/editor/useWriteModal.ts:169-179 | Enter with non-blank input selects it, adds it to the categories once and closes the select; otherwise nothing changes |
| WriteModalHook.Editor.Publish | src/components/post/editor/useWriteModal.ts:181-216 | without a token no request is built; with one, the request is built from the form, the uploads and the serialised finalised blocks |
| WriteModalLegacy.LegacyUpdatedFacts | src/components/post/WriteModal.jsx:120-132 | the legacy update sets the field like the hook's, keeps id, type, resource and file, and clears `invalid` only for a download given a non-blank url; otherwise the flag is kept |
| WriteModalLegacy.Dedup | src/components/post/WriteModal.jsx:287 | `[...new Set(..)]` keeps exactly the members of its input |
| WriteModalLegacy.DedupFacts | src/components/post/WriteModal.jsx:287 | the deduplicated list has no repeats and a list without repeats is kept as it is |
| WriteModalLegacy.AddTag | src/components/post/WriteModal.jsx:287 | adding a tag to distinct tags appends it only when it is new |
| WriteModalLegacy.Numbered | src/components/post/WriteModal.jsx:175-178 | the i-th pushed content image is labelled `插图 i+1` and keeps its id and src |
| WriteModalLegacy.NumberedSnoc | src/components/post/WriteModal.jsx:175-178 | pushing one more image numbers it after those already pushed |
| WriteModalLegacy.SyncPass | src/components/post/WriteModal.jsx:171-187 | the synchronous part of the block pass yields the finalised blocks, the already-stored images numbered in order and the recorded downloads |
| WriteModalLegacy.UploadPass | src/components/post/WriteModal.jsx:173-176 | the uploads resolve after the synchronous pushes, so uploaded images are numbered after the stored ones |
| WriteModalLegacy.LegacyFinalizedAt | src/components/post/WriteModal.jsx:171-187 | the j-th finalised block is the j-th block finalised with the j-th random suffix |
| WriteModalLegacy.UploadRecorded | src/components/post/WriteModal.jsx:173-176 | an image block with a file takes the upload's id and the upload is recorded |
| WriteModalLegacy.KeptRecorded | src/components/post/WriteModal.jsx:177-179 | an image block with a stored resource id is kept unchanged and recorded with its preview url |
| WriteModalLegacy.CountKind | src/components/post/WriteModal.jsx:338-339 | the count of blocks of one type up to a position is at most the number of blocks |
| WriteModalLegacy.KeptImagesAll | src/components/post/WriteModal.jsx:177-179 | when every image is already stored, each one is recorded, in order |
| WriteModalLegacy.PreviewMatchesPublished | src/components/post/WriteModal.jsx:338 | when every image is stored, the number shown in the preview is the number it is published under |
| WriteModalLegacy.PreviewNumberDiverges | src/components/post/WriteModal.jsx:338-339 | with a new upload before a stored image, the preview shows the stored image as number 2, while publishing (lines 175-178) labels it number 1 |
| WriteModalLegacy.BlockOrderImagesAll | src/components/post/WriteModal.jsx:336-338 | numbered in block order, with every image block published, there is one record per image block, and a prefix of the blocks gives a prefix of the records |
| WriteModalLegacy.CorrectedPreviewMatches | src/components/post/WriteModal.jsx:336-338 | numbered in block order, every image block, uploaded or kept, is published under the number `图 n` the preview shows for it |
| WriteModalLegacy.LegacyFinalOfSafe | src/components/post/WriteModal.jsx:181-184 | finalising keeps content free of placeholders and resource ids valid |
| WriteModalLegacy.LegacyPublishedPlaceholders | src/components/post/WriteModal.jsx:189-194 | the serialised body's placeholders are exactly those emitted for the finalised image and download blocks |
| WriteModalLegacy.LegacyEditor.constructor | src/components/post/WriteModal.jsx:33-44 | the editor starts at step 1 in edit mode with nothing entered and one empty text block |
| WriteModalLegacy.LegacyEditor.Reset | src/components/post/WriteModal.jsx:98-102 | the form goes back to one empty text block; categories and the select state are kept |
| WriteModalLegacy.LegacyEditor.LoadCategories | src/components/post/WriteModal.jsx:72-77 | fetched category ids replace the list; a failed fetch keeps it |
| WriteModalLegacy.LegacyEditor.LoadPost | src/components/post/WriteModal.jsx:79-96 | a missing post changes nothing; a found post sets the form, and its blocks are `parseMDToBlocks` of its body as written, which leaves no block exactly when the body is whitespace but not empty (see Findings) |
| WriteModalLegacy.BodyLoadable | src/utils/mdParser.js:4-9 | a parsed stored body has no block exactly when it is whitespace but not empty, and every image and download block it has carries its preview or url |
| WriteModalLegacy.LegacyEditor.InsertBlock | src/components/post/WriteModal.jsx:104-109 | a new empty block goes right after the index |
| WriteModalLegacy.LegacyEditor.MoveBlock | src/components/post/WriteModal.jsx:111-118 | the blocks are moved like the hook's: the block and its neighbour swap, or nothing changes at an end |
| WriteModalLegacy.LegacyEditor.UpdateBlock | src/components/post/WriteModal.jsx:120-132 | only the block with the id is updated, and every position keeps its id and type |
| WriteModalLegacy.LegacyEditor.HandleImageSelect | src/components/post/WriteModal.jsx:135-144 | no file changes nothing; a file is attached, with its preview, to the block with the id |
| WriteModalLegacy.LegacyEditor.RemoveBlock | src/components/post/WriteModal.jsx:146-151 | the blocks with the id are dropped and an emptied list becomes one fresh text block |
| WriteModalLegacy.LegacyEditor.TagEnter | src/components/post/WriteModal.jsx:287 | Enter adds the trimmed input through a set, so the tags stay distinct and a new tag is appended once; an empty input is added as well |
| WriteModalLegacy.LegacyEditor.CategoryEnter | src/components/post/WriteModal.jsx:280 | Enter selects the raw, untrimmed input and closes the select |
| WriteModalLegacy.LegacyEditor.PickCategory | src/components/post/WriteModal.jsx:278 | choosing a listed category selects it and closes the select |
| WriteModalLegacy.LegacyEditor.StepBack | src/components/post/WriteModal.jsx:365 | the step goes back by one, never below 1 |
| WriteModalLegacy.LegacyEditor.StepNext | src/components/post/WriteModal.jsx:368 | the step goes forward by one, never above 3 |
| WriteModalLegacy.LegacyEditor.Publish | src/components/post/WriteModal.jsx:153-199 | an unfinished step sends the editor back to the first unfinished one and builds no request; a finished form builds the request from the form, the uploads and the serialised blocks |
| PostRequests.MapImages | src/models/PostRequest.ts:41-45 | each content image is mapped, in order, to its request form |
| PostRequests.MapDownloads | src/models/PostRequest.ts:47-51 | each download is mapped, in order, to its request form |
| PostRequests.NewPostRequestDefaults | src/models/PostRequest.ts:29-53 | `NewPostRequest`: falsy title, content and excerpt fall back to empty text and a falsy category to `未分类`, non-array tags to none, the cover src to empty text and the cover alt to the title, and `topped` is true only for a true input; the same constructor is src/models/PostRequest.js:6-35 |
| PostRequests.NewPostRequestLists | src/models/PostRequest.ts:41-51 | the images and downloads keep their number, ids and sources, a truthy alt, description or url is kept, and a falsy one becomes empty text |
| PostRequests.StrArr | src/models/PostRequest.ts:62 | the tags are emitted as a JSON array of the same strings |
| PostRequests.ImagesJson | src/models/PostRequest.ts:64 | each content image becomes its JSON object, in order |
| PostRequests.DownloadsJson | src/models/PostRequest.ts:65 | each download becomes its JSON object, in order |
| PostRequests.ToJson | src/models/PostRequest.ts:56-68 | the JSON object has exactly the nine request keys, so nothing such as a slug or author id leaks; the same method is src/models/PostRequest.js:41-53 |
| PostRequests.StrsRoundTrip | src/models/PostRequest.ts:62 | reading the tags array back gives the tags |
| PostRequests.ImagesRoundTrip | src/models/PostRequest.ts:64 | reading the images array back gives the images |
| PostRequests.DownloadsRoundTrip | src/models/PostRequest.ts:65 | reading the downloads array back gives the downloads |
| PostRequests.OfJsonFields | src/models/PostRequest.ts:56-68 | an object carrying each request field under its key reads back as that request |
| PostRequests.ToJsonRoundTrip | src/models/PostRequest.ts:56-68 | reading back the serialised request gives the request |
| PostRequests.Validate | src/models/PostRequest.ts:70-73 | validation passes exactly when title and content are both non-blank, and a blank title is reported before a blank content |
| PostRequests.ValidateJs | src/models/PostRequest.js:58-63 | a passing validation returns true |
| PostRequests.ValidateAgree | src/models/PostRequest.js:58-63 | on a constructed request the category check never fires, because the constructor defaults the category (line 10), so both validations pass and fail alike with the same error |
| PostResponses.NewCommentFields | src/models/PostResponse.ts:14-25 | a comment keeps its id, defaults content, date, parent and nickname, keeps an avatar only when truthy, and builds one reply per raw reply when the replies are an array |
| PostResponses.NewCommentIdempotent | src/models/PostResponse.ts:14-25 | normalising an already normalised comment changes nothing |
| PostResponses.DecimalValue | src/models/PostResponse.ts:65 | the decimal digits of a number are digits and read back as the number |
| PostResponses.DecimalLeading | src/models/PostResponse.ts:65 | a decimal rendering starts with 0 only for zero |
| PostResponses.DecimalPrefix | src/models/PostResponse.ts:65 | reading digits stops at the first non-digit and gives the number |
| PostResponses.UnsignedDecimal | src/models/PostResponse.ts:65 | a decimal number followed by a non-digit that is not an `x` reads back as the number |
| PostResponses.ParseIntDigit | src/models/PostResponse.ts:65 | a text starting with a digit is read without a sign |
| PostResponses.ParseIntPositive | src/models/PostResponse.ts:65 | `parseInt` of a decimal number with trailing text gives the number |
| PostResponses.ParseIntMinus | src/models/PostResponse.ts:65 | a leading minus negates the value read |
| PostResponses.ParseIntNegative | src/models/PostResponse.ts:65 | `parseInt` of a minus sign and a decimal number gives the negative number |
| PostResponses.ParseIntDecimal | src/models/PostResponse.ts:65 | `parseInt` reads back both signs of a decimal number |
| PostResponses.ViewsFacts | src/models/PostResponse.ts:65 | missing views count as 0, a decimal count is read back, and text not starting with a digit or sign gives 0 |
| PostResponses.StripTags | src/models/PostResponse.ts:77 | removing tags leaves no `<` and adds no character |
| PostResponses.RemoveKind | src/models/PostResponse.ts:78-79 | removing placeholders adds no character (with `RemoveFront`, which deletes a placeholder of the kind at the front) |
| PostResponses.CollapseChars | src/models/PostResponse.ts:80 | collapsing whitespace adds only spaces |
| PostResponses.SquishChars | src/models/PostResponse.ts:80-81 | collapsing and trimming adds only spaces |
| PostResponses.CleanExcerptFacts | src/models/PostResponse.ts:76-81 | the cleaned excerpt has no `<`, no whitespace run and no edge whitespace, and every other character comes from the raw excerpt; the same cleaning is src/models/PostResponse.js:14-19 |
| PostResponses.StripTagsPlain | src/models/PostResponse.ts:77 | text without `<` is left alone |
| PostResponses.RemoveFront | src/models/PostResponse.ts:78-79 | a `[image:id]` or `[download:id]` placeholder at the front is deleted whole, and the rest is cleaned as it would be on its own |
| PostResponses.RemoveKindPlain | src/models/PostResponse.ts:78-79 | text without `[` is left alone |
| PostResponses.CleanExcerptPlain | src/models/PostResponse.ts:76-81 | an excerpt that is already clean is kept as it is |
| PostResponses.PostIdSlug | src/models/PostResponse.ts:60-61 | with an id or a slug both id and slug are set; the id is the raw id, else the raw slug, else `_id`; the slug is the raw slug, else the raw id |
| PostResponses.PostResponseDefaults | src/models/PostResponse.ts:59-91 | `NewPostResponse`: title, status, category, content and both times are the truthy raw value or their defaults; arrays are kept and non-arrays become none; the cover image is the raw one; the excerpt is the cleaned raw excerpt; the author falls back to `未知作者`; each raw comment is normalised at its own position |
| PostResponses.IsEditedFacts | src/models/PostResponse.ts:100-102 | a post without an update time, which then takes the creation time (line 64), is never edited, and an edited post has two different, valid times |
| PostResponses.ResponsesAgree | src/models/PostResponse.js:4-35 | the legacy response agrees with the typed one on every shared field, the author without an id; its date is the creation time when both sources are the same |
| Users.NewUserFacts | src/models/User.ts:20-53 | `NewUser`: a user is authenticated exactly when the raw id is truthy, nickname and avatar fall back to their defaults and are never empty, and the safe avatar is the avatar |
| Users.NewUserIdempotent | src/models/User.ts:20-26 | building a user from a built user's fields gives the same user |
| Users.FromStorageFacts | src/models/User.ts:31-39 | `FromStorage`: no data, unparsable data or JSON null gives no user; a primitive gives the default user; a stored user reads back as itself |
| MarkdownUtils.ReplaceAllNoHit | src/utils/markdownUtils.ts:116-122 | a global replace that matches nowhere leaves the text unchanged |
| MarkdownUtils.ReplaceAllKeeps | src/utils/markdownUtils.ts:116-122 | a global replace whose every replacement is the matched text itself leaves the text unchanged |
| MarkdownUtils.LineEnd | src/utils/markdownUtils.ts:101-102 | the end of the line a lazy `.*?` may cover: no line terminator before it |
| MarkdownUtils.GetImagePath | src/utils/markdownUtils.ts:27-30 | the result always starts with `http` or `/`; such a source is kept and any other is placed under `/src/posts/<id>/` |
| MarkdownUtils.GetImagePathIdempotent | src/utils/markdownUtils.ts:27-30 | resolving a resolved path changes nothing |
| MarkdownUtils.ImageRefRewritten | src/utils/markdownUtils.ts:115-123 | an image reference at the front is rewritten with its resolved source and its alt text kept, and the rest is processed on |
| MarkdownUtils.ImageRefAt | src/utils/markdownUtils.ts:117 | the pattern matches `![alt](src)` with an alt free of `]` and a non-empty src free of `)`, and captures both |
| MarkdownUtils.ImageRefPutsBack | src/utils/markdownUtils.ts:118-121 | with sources left as they are, each rewrite gives back the matched text |
| MarkdownUtils.ProcessOnlyTouchesSources | src/utils/markdownUtils.ts:115-123 | image processing changes nothing but image sources; the same function is src/utils/markdownUtils.js:83-91 |
| MarkdownUtils.LinkAt | src/utils/markdownUtils.ts:102 | a link match has a text part and a target part that end inside the text |
| MarkdownUtils.Tidy | src/utils/markdownUtils.ts:100-107 | the cleaned excerpt has no line break, no whitespace run and no edge whitespace |
| MarkdownUtils.ExcerptFacts | src/utils/markdownUtils.ts:97-110 | `ExcerptWith`, so `GenerateExcerptAsWritten` and the corrected `GenerateExcerpt`: for either link rule (the `$1` one as written, or the corrected one): without `<!--more-->` the excerpt is empty; with it, the excerpt is the text before the first marker, cleaned, single-spaced and with no line break; the same function is src/utils/markdownUtils.js:137-158 |
| MarkdownUtils.LinkFound | src/utils/markdownUtils.ts:102 | the link pattern finds `[text](target)` with its text and target ending where they should |
| MarkdownUtils.LinkLaidOut | src/utils/markdownUtils.ts:102 | a text laid out as a plain link is matched as that link |
| MarkdownUtils.LinkKeepsTarget | src/utils/markdownUtils.ts:102 | as written, `$1` replaces a link with its target |
| MarkdownUtils.LinkKeepsText | src/utils/markdownUtils.ts:102 | the corrected replacement keeps the link text |
| MarkdownUtils.TidyPlainRest | src/utils/markdownUtils.ts:101-107 | text with nothing left to remove comes out of the cleaning as it went in |
| MarkdownUtils.WordFacts | src/utils/markdownUtils.ts:101-107 | a plain word holds nothing any cleaning step removes |
| MarkdownUtils.MarkerAfter | src/utils/markdownUtils.ts:98-99 | text followed by the marker splits with that text as the first part |
| MarkdownUtils.LinkExcerptSetup | src/utils/markdownUtils.ts:98-107 | a link of two plain words before the marker reaches the link step untouched |
| MarkdownUtils.LinkExcerptShowsTarget | src/utils/markdownUtils.ts:102 | as written, the excerpt of `[text](target)<!--more-->` is the target, not the link text the comment promises |
| MarkdownUtils.LinkExcerptShowsText | src/utils/markdownUtils.ts:102 | the corrected excerpt of `[text](target)<!--more-->` is the link text |
| MarkdownUtils.WsRun | src/utils/markdownUtils.ts:37 | a whitespace run stays inside the text |
| MarkdownUtils.CloseFrom | src/utils/markdownUtils.ts:37 | the lazy group ends at the first place where whitespace and `---` follow, and at none when there is no such place |
| MarkdownUtils.FenceOf | src/utils/markdownUtils.ts:37-42 | a front-matter match needs a leading `---` and lies inside the text |
| MarkdownUtils.ParseFrontMatterLoop | src/utils/markdownUtils.ts:35-87 | the line loop computes the data and the remaining body the front-matter function defines |
| MarkdownUtils.ParseLine | src/utils/markdownUtils.ts:53-80 | one pass of the loop body, with its `continue`s, moves the three loop variables exactly as one step of the line fold |
| MarkdownUtils.NoFenceNoData | src/utils/markdownUtils.ts:40-42 | `ParseFrontMatter`: a text without a leading `---` has no front matter and is returned whole |
| MarkdownUtils.DocumentFence | src/utils/markdownUtils.ts:37-45 | `ParseFrontMatter`: for `---`, a block, `---` and a body, the group is the block and the rest is the trimmed body |
| MarkdownUtils.LayoutFence | src/utils/markdownUtils.ts:37 | a document laid out with a fenced block captures that block |
| MarkdownUtils.FenceFrom | src/utils/markdownUtils.ts:37 | the match is determined by the opening whitespace and the first closing fence |
| MarkdownUtils.NotClosingInside | src/utils/markdownUtils.ts:37 | no closing fence is found inside a block without `---` |
| MarkdownUtils.BlankLineSkipped | src/utils/markdownUtils.ts:53-54 | a blank line changes nothing |
| MarkdownUtils.OrphanItemIgnored | src/utils/markdownUtils.ts:56-60 | a list item with no open key is dropped |
| MarkdownUtils.StepKeepsInv | src/utils/markdownUtils.ts:52-81 | each line keeps every stored list non-empty |
| MarkdownUtils.FoldKeepsInv | src/utils/markdownUtils.ts:52-81 | the whole loop keeps every stored list non-empty |
| MarkdownUtils.ParsedListsNonEmpty | src/utils/markdownUtils.ts:65-84 | a list is stored only when it has items |
| MarkdownUtils.KeyValueStep | src/utils/markdownUtils.ts:63-80 | a line with a colon flushes the open list, then stores a non-empty value or opens the key |
| MarkdownUtils.FirstColon | src/utils/markdownUtils.ts:63 | the key ends at the first colon |
| MarkdownUtils.ScalarLine | src/utils/markdownUtils.ts:63-79 | `key: value` stores the value under the key and closes the key |
| MarkdownUtils.KeyLine | src/utils/markdownUtils.ts:70-79 | `key:` opens the key for a list |
| MarkdownUtils.ItemLines | src/utils/markdownUtils.ts:56 | one `- ` line per item |
| MarkdownUtils.ItemStep | src/utils/markdownUtils.ts:56-59 | an item under an open key is collected |
| MarkdownUtils.ItemsCollected | src/utils/markdownUtils.ts:56-59 | items under an open key are collected in order |
| MarkdownUtils.ListBlock | src/utils/markdownUtils.ts:56-85 | a key followed by items stores the items as a list, and stores nothing for no items |
| MarkdownUtils.MarkdownFileDefaults | src/utils/markdownUtils.ts:128-163 | `MarkdownFileWith`, so `ParseMarkdownFile` and `ParseMarkdownFileJs`: title, date, tags, categories, category, photos and topped come from the front matter with their defaults; the content is the rendered body after image rewriting, and the excerpt is the rendered as-written excerpt of that body, or empty when there is none; a failed render gives the error record; the same function is src/utils/markdownUtils.js:93-135 |
| MarkdownUtils.StripSlashFacts | src/utils/markdownUtils.ts:135 | a leading `/` is removed from a photo path and nothing else changes |
| SearchUtils.Filter | src/utils/searchUtils.ts:14-25 | the kept posts are exactly those whose text has every term, in their order and with their multiplicity |
| SearchUtils.SearchFacts | src/utils/searchUtils.ts:6-26 | `SearchPosts`: a blank query finds nothing; otherwise the result is an in-order selection holding exactly the posts whose combined text holds every lower-cased term |
| SearchUtils.SearchJsFacts | src/utils/searchUtils.js:2-15 | `SearchPostsJs`: the same for the legacy search, with its untrimmed terms and its template text |
| SearchUtils.TermsOfWord | src/utils/searchUtils.ts:7-12 | a one-word query is one lower-cased term |
| SearchUtils.FilterNarrows | src/utils/searchUtils.ts:24 | more terms never find more posts |
| SearchUtils.SplitSpace | src/utils/searchUtils.ts:12 | splitting on spaces distributes over a space join |
| SearchUtils.TermsAppend | src/utils/searchUtils.ts:7-12 | adding a word to a query adds its terms to the end |
| SearchUtils.SearchNarrows | src/utils/searchUtils.ts:6-26 | adding a word to the query never widens the result |
| SearchUtils.SearchJsNarrows | src/utils/searchUtils.js:2-15 | adding a word to the legacy query never widens the result |
| SearchUtils.FilterSame | src/utils/searchUtils.ts:14-25 | two tests that agree on every post filter alike |
| SearchUtils.EmptyTermHarmless | src/utils/searchUtils.ts:24 | an empty term matches every text |
| SearchUtils.LeadingSpaceJs | src/utils/searchUtils.js:6 | a leading space gives the legacy search an extra empty term, which changes nothing |
| SearchUtils.HaystacksAgree | src/utils/searchUtils.js:9-11 | for a post with all four fields the two versions search the same text |
| SearchUtils.SearchesAgree | src/utils/searchUtils.ts:6-26 | for a trimmed query and complete posts both versions find the same posts |
| SearchUtils.MissingTagsAsEmpty | src/utils/searchUtils.ts:19-21 | a post without tags is searched as if its tag list were empty |
| SearchUtils.UndefinedInUntaggedJs | src/utils/searchUtils.js:9-11 | the legacy text of an untagged post contains `undefined` |
| SearchUtils.UndefinedMatchesUntaggedJs | src/utils/searchUtils.js:9-11 | as written, searching `undefined` finds every untagged post |
| SearchUtils.WordMatchesJs | src/utils/searchUtils.js:8-14 | a lower-case word in a post's legacy text finds the post |
| SearchUtils.UntaggedNotMatched | src/utils/searchUtils.ts:19-21 | the typed search, which the model uses, does not find an untagged post for `undefined` when its fields lack a `u` |
| SearchUtils.WordMisses | src/utils/searchUtils.ts:14-25 | a lower-case word that is not in a post's text does not find it |
| TextFormatter.Before | src/components/common/TextFormatter.jsx:10 | the first position holding a given character, or the end when there is none |
| TextFormatter.BeforeAt | src/components/common/TextFormatter.jsx:10 | a position holding the character with none before it is the one found |
| TextFormatter.Delimited | src/components/common/TextFormatter.jsx:27-31 | a delimited match has a non-empty inside and lies within the text |
| TextFormatter.DelimitedAt | src/components/common/TextFormatter.jsx:27-31 | an opening, a non-empty inside free of the closing character and a closing are matched with that inside |
| TextFormatter.DelimitedHit | src/components/common/TextFormatter.jsx:27-31 | a delimited match consumes at least one character |
| TextFormatter.DelimitedReplaced | src/components/common/TextFormatter.jsx:27-31 | a delimited span at the front is replaced by what its inside maps to, and the rest is processed on |
| TextFormatter.ReplaceAllStep | src/components/common/TextFormatter.jsx:10-32 | a global replace emits the replacement for a match at the front and carries on after it |
| TextFormatter.EntityValue | src/components/common/TextFormatter.jsx:13-24 | every entity decodes to one character |
| TextFormatter.FormatText | src/components/common/TextFormatter.jsx:7-36 | the formatted text has no line break, no whitespace run and no edge whitespace |
| TextFormatter.TagRemoved | src/components/common/TextFormatter.jsx:10 | an HTML tag is removed |
| TextFormatter.EntityDecoded | src/components/common/TextFormatter.jsx:12-25 | an entity is replaced by its value, and an unknown one by a space |
| TextFormatter.MarkersRemoved | src/components/common/TextFormatter.jsx:29-31 | bold, italic and code markers are removed and their inside kept |
| TextFormatter.LinkToText | src/components/common/TextFormatter.jsx:27 | a link is replaced by its text |
| TextFormatter.HitsStartWithMarkup | src/components/common/TextFormatter.jsx:10-32 | each rule matches only at its markup character |
| TextFormatter.NoRuleApplies | src/components/common/TextFormatter.jsx:10-32 | a rule leaves text without its markup character alone |
| TextFormatter.PlainRulesKeep | src/components/common/TextFormatter.jsx:10-32 | text without any markup character passes every rule unchanged |
| TextFormatter.PlainUnchanged | src/components/common/TextFormatter.jsx:7-36 | plain, already tidy text is formatted to itself |
| TextFormatter.TruncateFacts | src/components/common/TextFormatter.jsx:38-44 | `ProcessContent`: without a positive limit, or within it, the formatted text is shown whole; over it, its first `limit` characters and `...` are shown |
| TextFormatter.RenderFacts | src/components/common/TextFormatter.jsx:5-50 | falsy content renders nothing; other content renders tidy text |
| ReadingTime.CeilDivFacts | src/components/common/ReadingTimeEstimate.jsx:9 | the rounded-up quotient is the least count of whole minutes that hold the words |
| ReadingTime.CeilDivMonotone | src/components/common/ReadingTimeEstimate.jsx:9 | more words never take fewer minutes |
| ReadingTime.PiecesAreWords | src/components/common/ReadingTimeEstimate.jsx:8 | a trimmed non-empty text splits into non-empty pieces without whitespace |
| ReadingTime.SplitJoined | src/components/common/ReadingTimeEstimate.jsx:8 | words joined by single spaces split back into exactly those words |
| ReadingTime.WordCountOfWords | src/components/common/ReadingTimeEstimate.jsx:8 | n words separated by single spaces count as n words |
| ReadingTime.ReadingMinutesFacts | src/components/common/ReadingTimeEstimate.jsx:6-11 | `ReadingMinutes`: any text takes at least one minute, the fewest whole minutes that hold its words at 200 a minute, and a blank text takes exactly one |
| Comments.CountFromNodes | src/components/post/comment/CommentSection.tsx:22-26 | the reduce from any start adds the number of comments in the whole tree |
| Comments.CountIsNodes | src/components/post/comment/CommentSection.tsx:22-26 | the total is the number of comments in the tree, replies at every depth included, and 0 for no comments; the same count is src/components/post/PostLayout.tsx:36-42 and src/components/post/content/PostLayout.tsx:38-44 |
| Comments.FlattenAppend | src/components/post/comment/CommentSection.tsx:23-25 | the comments of two lists are those of the first followed by those of the second |
| Comments.CountAppend | src/components/post/comment/CommentSection.tsx:23-25 | the count is additive over concatenation |
| Comments.CountAtLeastTopLevel | src/components/post/comment/CommentSection.tsx:23-25 | the total is at least the number of top-level comments |
| Comments.CountOne | src/components/post/comment/CommentSection.tsx:24 | one comment counts itself plus its replies |
| Comments.RawNodeReplies | src/components/post/PostLayout.jsx:20-23 | the traversal visits a comment and then its replies |
| Comments.RawFlattenAppend | src/components/post/PostLayout.jsx:19-24 | the traversal of two lists is the traversal of each in turn |
| Comments.RepliesSmaller | src/components/post/PostLayout.jsx:22 | a comment's replies hold fewer comments than the list it is in |
| Comments.Traverse | src/components/post/PostLayout.jsx:19-24 | the traversal adds one per comment visited, replies at every depth included |
| Comments.TotalCommentsCount | src/components/post/PostLayout.jsx:17-27 | the count is the number of comments in the tree, and 0 when there are none |
| Comments.NormalisedCount | src/models/PostResponse.ts:89-91 | the reduce over normalised comments counts exactly the raw comments the traversal visits |
| Comments.RecentComments | src/components/post/PostLayout.jsx:14 | the recent comments are the first two, or all when there are fewer; the same slice is src/components/post/PostLayout.tsx:34 and src/components/post/content/PostLayout.tsx:36 |
| Comments.OwnerVersionsAgree | src/components/post/PostLayout.tsx:33 | signed-out viewers are never owners, the two versions agree whenever a user is present, and the typed one never grants what the legacy one denies |
| Comments.NullUserOwnsJsx | src/components/post/PostLayout.jsx:13 | as written, a signed-in state without a user object is the owner of a post without an author id |
| Comments.OwnerNeedsUser | src/components/post/PostLayout.tsx:33 | the typed check never grants ownership without a user; the same check is src/components/post/content/PostLayout.tsx:35 |
| Comments.OwnerFacts | src/components/post/PostLayout.tsx:33 | a signed-in admin owns every post, and any other user exactly the posts whose author id is theirs |
| Comments.CommentSection.constructor | src/components/post/comment/CommentSection.tsx:33-35 | the section starts with an empty draft, not submitting and the delete dialog closed |
| Comments.CommentSection.OpenDeleteModal | src/components/post/comment/CommentSection.tsx:66-68 | the dialog opens on the given comment |
| Comments.CommentSection.HandlePostMain | src/components/post/comment/CommentSection.tsx:37-50 | a blank draft or a missing token sends nothing and changes nothing; otherwise the draft is sent, cleared only on success, and submitting ends either way |
| Comments.CommentSection.ExecuteDelete | src/components/post/comment/CommentSection.tsx:52-64 | without a comment id or a token nothing is sent and nothing changes; otherwise the delete is sent and the dialog is closed whether or not it succeeds |
| Tags.PushAllEntry | src/pages/Tags.jsx:27-30 | pushing a post under each of its tags appends it to a tag's list once per occurrence of the tag, and adds exactly its tags as keys |
| Tags.BuildTagMap | src/pages/Tags.jsx:25-31 | the two nested loops build exactly the specification map `TagMap`, post by post and tag by tag |
| Tags.TagMapGroups | src/pages/Tags.jsx:25-31 | `TagMap`: each tag's list holds, in input order, every post once per occurrence of the tag, and a tag is a key exactly when some post carries it |
| Tags.KeysAreOccurringTags | src/pages/Tags.jsx:28-29 | every key is a tag some post carries, and its list is never empty |
| Tags.GroupHasPost | src/pages/Tags.jsx:26-29 | every post carrying a tag is in that tag's list |
| Tags.Toggle | src/pages/Tags.jsx:56 | clicking selects the tag exactly when it was not already selected |
| Tags.ToggleTwice | src/pages/Tags.jsx:55-57 | clicking a tag twice leaves it selected only when it was selected before |
| Tags.TagsPage.constructor | src/pages/Tags.jsx:12-15 | the page starts loading, with no tags, no error and no selection |
| Tags.TagsPage.FetchTags | src/pages/Tags.jsx:20-40 | a failed fetch shows only the error; otherwise the stored map is the grouping of the posts, a malformed hash is an error, and the hash's tag is selected only when it is non-empty and a key |
| Tags.TagsPage.HandleTagClick | src/pages/Tags.jsx:55-59 | the selection toggles, and the page navigates to the new tag's hash, or to the bare path when no tag is left |
| MockFs.SlashFreeTail | src/utils/mockFs.ts:21 | the `[^/]+` group is the longest slash-free tail of the text |
| MockFs.EndsWithParts | src/utils/mockFs.ts:21 | a text ends with `a + b` exactly when it ends with `b` and the rest ends with `a` |
| MockFs.TailIsWord | src/utils/mockFs.ts:21 | after a `/`, a slash-free ending is the whole slash-free tail |
| MockFs.FolderOf | src/utils/mockFs.ts:21-22 | a match names a folder the key is `/src/posts/<folder>/index.md` for |
| MockFs.FolderOfComplete | src/utils/mockFs.ts:21-22 | any folder the key is the index of is the one the match captures, so no match means no such folder |
| MockFs.FolderUnique | src/utils/mockFs.ts:21 | a key names at most one folder |
| MockFs.Readdir | src/utils/mockFs.ts:17-25 | the listing is the folders of the post files in first-seen order; the same function is src/utils/mockFs.js:6-24 |
| MockFs.FoldersFacts | src/utils/mockFs.ts:19-24 | the listed folders are distinct, and a folder is listed exactly when some post file is its index |
| MockFs.StripSlash | src/utils/mockFs.ts:28 | one leading `/` is removed and nothing else changes |
| MockFs.FindEnding | src/utils/mockFs.ts:29 | `find` answers the first key ending with the path, and nothing exactly when no key does |
| MockFs.ReadsFirstMatch | src/utils/mockFs.ts:29-30 | `ReadFile`: the content of the first file whose key ends with the path is returned |
| MockFs.MissingFileFails | src/utils/mockFs.ts:31 | a path no key ends with fails with `File not found` |
| MockFs.LeadingSlashIgnored | src/utils/mockFs.ts:28 | a path with a leading `/` reads the same file as without it |
| MockFs.ListedFoldersReadable | src/utils/mockFs.ts:17-31 | every listed folder's index file can be read |
| MockFs.ReadFileVersionsAgree | src/utils/mockFs.js:27-47 | `ReadFileJs`: the legacy reader returns the same markdown when it is non-empty, fails only where the typed one fails or finds an empty file, and always with `File not found` |
| MockFs.ImageFallback | src/utils/mockFs.js:38-41 | with no markdown match, the first image whose key ends with the path is returned |

## Left out

- AES-GCM (NIST SP 800-38D), PBKDF2-HMAC-SHA256 (section 5.2 of RFC 8018), the standard base64 codec (section 4 of RFC 4648) and UTF-8 are foreign library code. They are a record of functions passed as a parameter; `Crypto.Sound` states only that each decoder inverts its encoder, UTF-8 decoding only on text that does not start with U+FEFF, because the browser's default `TextDecoder` drops a leading byte order mark.
- DecryptDialog.DecryptEncrypt, DecryptDialog.UnlockLockedLink: the round trip is not promised for a url starting with U+FEFF, which Python's `encode()` writes out and the dialog's decoder drops; the build never locks such a url (`DecryptDialog.LockedUrlNoBom`).
- `os.urandom(12)` is a nonce stream parameter. `Date.now()`, `new Date().toISOString()`, `Math.random()` and `URL.createObjectURL` are parameters too.
- The build script's file I/O is not modelled: loading and dumping files with the `frontmatter` package, writing them back, and `copy_images`. A post file is a record of metadata and body.
- `scripts/bloggui.py` (a Tk GUI around git and npm calls) is not part of this model.
- The network calls are inputs to the model, as an outcome flag or the data received: `getPostById`, `getCategories`, `getTagsData`, the image upload, the create and update calls, and the comment calls. Notifications, `onClose`, `onRefresh` and `onWriteSuccess` callbacks are not modelled; the comment box returns whether a refresh happens.
- `marked` rendering is a parameter, as is the `getImagePath` that `markdownUtils.js` imports from a module that does not export it.
- React rendering, anime.js animations, navigation history and `copyToClipboard` are not modelled. For the post edit button only the ownership predicate is modelled.
- `getFormattedDate` depends on locale and time zone. It is not modelled, and `isEdited` takes date parsing as a parameter.
- Lengths are counted in code points, where JavaScript counts UTF-16 units. This matters for the `slice(0, 150)` excerpt, the formatter's limit and the re-padding of base64url text.
- Lower-casing is modelled for ASCII letters only.
- `Promise.all` over async block callbacks is modelled with uploads finishing in block order. In the legacy editor the stored images are pushed before any upload resolves.
- `WriteModalHook.Editor.Publish`: the `isSubmitting` flag, the server's returned status and the thrown errors are not modelled; the contract stops at the request that is sent.
- `WriteModalLegacy.LegacyEditor.Publish`: the same holds for the legacy editor.
- `DecryptDialog.Dialog.HandleDecrypt`: the outer catch that reports an unexpected error is not modelled. `decryptUrl` already catches every failure, and the prefix strip cannot throw.
- `Tags.TagsPage.FetchTags`: the tag map is a Dafny `map`. The source's plain object would give a tag named like an inherited `Object.prototype` member (such as `constructor`) a truthy function, and its `push` would then fail.
- `Tags.TagsPage.HandleTagClick`: the navigation target carries the raw tag, not its `encodeURIComponent` form. `decodeURIComponent` of the hash is a parameter, with `None` standing for the thrown error.
- `Users.FromStorageFacts`: `JSON.parse` is a parameter that classifies the stored text; the JSON grammar is not modelled.
- JavaScript values of unexpected types (a number where a string is read, say) are modelled as missing (`None`), except where the source tests `Array.isArray`, and except a post's `views`, where a numeric server value is read as its decimal text (`PostResponses.ViewsFacts`).
- SearchUtils.HaystackJs: a `null` field and a missing field are both `None` and print as `undefined`, whereas the template string prints a `null` field as `null`.

## Findings

| source | as written | input that shows it | evidently intended | confidence | as-written member | corrected member |
|---|---|---|---|---|---|---|
| src/utils/mdParser.js:4-9 | a non-empty but whitespace-only body passes the `!content` check, and every split piece is then filtered out as blank, so no block is returned; the older editor's never-empty block list becomes empty | a body of two spaces | one empty text block, as for an empty body | medium, not executed | MdParserJs.ParseJsSpacesEmpty | MdParserJs.ParseBodyNonEmpty |
| src/utils/markdownUtils.ts:102 | the link rule replaces a link with `$1`, its first capture group, which is the target URL (the same at src/utils/markdownUtils.js:148) | `[text](target)<!--more-->` gives the excerpt `target` | keep the link text, as the line's comment says | high, not executed | MarkdownUtils.LinkExcerptShowsTarget | MarkdownUtils.LinkExcerptShowsText |
| src/components/post/WriteModal.jsx:170-178 | a kept image's record is pushed before any upload answers, so kept images are numbered first and uploads after them, while the preview (line 338, whose comment at line 336 promises to match the submit logic) numbers images in block order | a new upload followed by a stored image: the preview shows the stored image as `图 2`, the post names it `插图 1` | images numbered in block order, uploads and stored images alike | medium, not executed | WriteModalLegacy.PreviewNumberDiverges | WriteModalLegacy.CorrectedPreviewMatches |
| src/utils/searchUtils.js:9-11 | the template string writes `undefined` for a post without tags | searching `undefined` finds every untagged post | a missing tag list adds nothing to the searched text, as in src/utils/searchUtils.ts:16-21 | medium, not executed | SearchUtils.UndefinedMatchesUntaggedJs | SearchUtils.UntaggedNotMatched |
| src/components/post/PostLayout.jsx:13 | with no user object, `user?.id === post.author?.id` compares `undefined` with `undefined` | signed in, `user` null, a post without an author id | ownership needs a user, as in src/components/post/PostLayout.tsx:33 | low, not executed | Comments.NullUserOwnsJsx | Comments.OwnerNeedsUser |
