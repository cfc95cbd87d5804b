# docx-compiler: a Dafny model of the document-merging core

The repository merges documents that are hyperlinked from a master `.docx` into one compiled
`.docx`. This project models its merging core as pure functions over an abstract document,
and proves properties of that model:

- **Link extraction** (`Links`). This models `DocxUtils.extrac_links_from_doc_per_line`. It builds the table of
  hyperlink relationships, then resolves every `w:hyperlink` node of the body paragraphs
  through it, in document order.
- **Content transplant** (`Transplant`). This models `DocxUtils.copy_docx_with_pictures`. Each source paragraph
  becomes one text paragraph with the same style and copied runs. Each resolvable inline
  picture then becomes a picture paragraph 12 cm wide. Pictures go through the scratch file
  `temp_image.png`.
- **Document-id extraction** (`GoogleDocs`). This models `extrair_doc_id`, which is `re.search(r'/d/([a-zA-Z0-9-_]+)', url)`.
  It is stated as the leftmost, maximal, non-empty id after a `/d/`.
- **Compilation driver** (`Compiler`). This models `DocCompiler.get_handler` and the loop of `compile_to_docx`
  as a left fold over the extracted links. The fold skips some links, annotates failures and
  places page breaks.

The data model (`DocModel`) is as follows:
- A `Document` is body paragraphs plus a relationship table.
- A `Paragraph` is a style id, its direct runs, and its hyperlink and picture nodes.
- Each of a `Run`'s formatting overrides is an `Option`, where `None` means unset/inherited.
- The compiled output is a sequence of `Block`s: heading, text paragraph, picture, the
  empty paragraph a refused picture insertion leaves behind, page break, or error notice.
- Files on disk are a map from `Path` to bytes.

The collaborators the core calls are fields of an `Environment`, and each one may fail:
- `mkdirFault(dir)`: whether `temp_dir.mkdir(exist_ok=True)` would raise.
- `download(id)`: the handler's HTTP export.
- `open(bytes)`: python-docx parsing a container.
- `pictureFault(bytes)`: whether `add_picture` would raise on these image bytes.

A raised exception becomes `Err(message)`, or `Some(message)` for `mkdirFault` and `pictureFault`.

The copy functions thread the output and the files through the same loops as the source.
Each one is related by a lemma to a state-free reference:
- `Transplant.Expected` over `Transplant.Transplanted`: the content a copy appends, cut at the
  first refused picture and followed there by the empty paragraph its insertion opened.
- `Compiler.Outcome` and `Compiler.LinkSection`: how one link ends (skipped, failed after a
  partial copy, or merged) and what it contributes to the output.

Notes on the source as written:
- The names do not match across files. `compiler.py` imports `GoogleDocsHandler` and calls
  `extract_doc_id` / `download_doc`. `doc_handlers/google_docs_handler.py` defines
  `GooogleDocsHandler` with `extrair_doc_id` / `baixar_doc`, and that class does not subclass
  `DocumentHandler`. The model treats `extrair_doc_id` as the implementation of the
  interface's `extract_doc_id`, and `baixar_doc` as its `download_doc` (`Handlers.Handler`).
- The model follows the code in these places, where one might expect otherwise:
  - Transient files are not always cleaned up. `temp_image.png` stays on disk when
    `add_picture` raises, because the unlink is not in a `finally`. Downloaded `.docx` files
    in the staging directory are never deleted.
  - A refused picture is not skipped. It aborts the copy of the rest of that document: the
    exception reaches the driver, which appends an error paragraph. Before that, python-docx's
    `add_picture` has already appended a paragraph with one empty run (it adds the paragraph
    and run, then reads the image into them), and that paragraph stays in the output.
  - Page breaks are not "N−1 between sections". A break follows a link only when the link was
    fully processed and its 1-based index is below the number of extracted links. A link that
    ends in an error paragraph gets no break. A skipped last link leaves the previous link's
    break at the end of the output (`Compiler.TrailingBreakWhenLastSkipped`).
- Runs nested inside a `w:hyperlink` are not among a paragraph's direct runs. `copy_docx_with_pictures`
  therefore does not copy them; in the model `Paragraph.runs` holds the direct runs only.

## Model

| member | source | states |
|---|---|---|
| Text.Contains | compiler.py:37 | Python's `sub in s` holds exactly when `sub` occurs in `s` at some index |
| Links.HyperlinkTable | utils/docx_utils.py:26 | the lookup table holds exactly the relationships whose type contains "hyperlink", each mapped to its target reference |
| Links.ExtractLinks | utils/docx_utils.py:23-34 | every returned URL is the target of some relationship of the document whose type contains "hyperlink" |
| Links.ExtractLinksInDocumentOrder | utils/docx_utils.py:28-32 | the URLs are the resolvable hyperlink nodes of the whole body, resolved, in paragraph order and then node order within a paragraph |
| Links.ExtractLinksCount | utils/docx_utils.py:28-32 | the number of URLs equals the number of node positions that resolve, so duplicate URLs are all kept |
| Links.UnresolvedNodeIgnored | utils/docx_utils.py:30-32 | removing a node whose `r:id` is missing, empty or not a hyperlink relationship leaves the result unchanged, so such a node contributes nothing and raises nothing |
| Links.OnlyHyperlinkRelationshipsUsed | utils/docx_utils.py:26 | documents whose hyperlink-typed relationships agree give the same links, whatever their other relationships are |
| Links.NoHyperlinksNoLinks | utils/docx_utils.py:24-34 | a body without hyperlink nodes yields no links |
| Transplant.CopyRun | utils/docx_utils.py:63-68 | a copied run has the source's text and its bold, italic, underline, size and font name, unset ones included, and no other run property |
| Transplant.CopyRuns | utils/docx_utils.py:62-68 | the copied runs match the source one for one, in order. Each has the same text, bold, italic, underline, size and font name, including unset values. No other run property is carried over |
| Transplant.TextBlock | utils/docx_utils.py:59-68 | the paragraph appended for a source paragraph has the source's style id and exactly as many runs, each with the same text and five attributes |
| Transplant.RelatedParts | utils/docx_utils.py:75-76 | the related parts are exactly the document's internal relationships, by id, each holding its part's bytes |
| Transplant.EmbeddedImage | utils/docx_utils.py:72-76 | a picture yields image bytes exactly when it has a blip whose embed id names a related part, and then they are that part's bytes |
| Transplant.PicturesOfParagraph | utils/docx_utils.py:71-85 | one picture paragraph per insertable picture element and none for the others. Each is 12 cm wide and holds a related part's bytes |
| Transplant.InsertPictureExpected | utils/docx_utils.py:79-86 | inserting one picture (`Transplant.InsertPicture`: stage in `temp_image.png`, `add_picture`, unlink) appends the 12 cm picture and removes the scratch file; on a refused image it leaves the empty paragraph and the scratch file and reports the error |
| Transplant.CopyPicturesExpected | utils/docx_utils.py:71-86 | the picture loop (`Transplant.CopyPictures`) appends the picture paragraphs in element order up to the first refused image. For that image it appends the empty paragraph `add_picture` opened, then stops with the image's error |
| Transplant.CopyParagraphsExpected | utils/docx_utils.py:57-86 | the paragraph loop (`Transplant.CopyParagraphs`) appends each paragraph's text paragraph and then its pictures, in source order, up to the first refused image, which leaves one empty paragraph before the copy stops |
| Transplant.CopyDocxTransplants | utils/docx_utils.py:55-86 | `copy_docx_with_pictures` (`Transplant.CopyDocx`) on a container that opens gives exactly the transplanted content cut at the first refused picture, plus the empty paragraph that picture's insertion left, with the matching error and file effects |
| Transplant.CopyDocxAppendsOnly | utils/docx_utils.py:55-59 | copying never changes the paragraphs already in the destination. A container that cannot be found or opened adds nothing and reports an error |
| Transplant.CopyDocxScratchFile | utils/docx_utils.py:80-86 | after a successful copy that inserted a picture, `temp_image.png` is gone. After a refused picture it is left on disk. No other file changes |
| Transplant.TransplantedTextParagraphs | utils/docx_utils.py:57-59 | the transplanted content holds exactly one text paragraph per source paragraph, in source order, each the copy of its source |
| GoogleDocs.IdRun | doc_handlers/google_docs_handler.py:11 | the greedy group is the longest run of `[A-Za-z0-9_-]` characters at its start: it is followed by the end of the url or a character outside the class |
| GoogleDocs.FirstMatch | doc_handlers/google_docs_handler.py:11 | the search returns the leftmost position where "/d/" is followed by an id character, and no earlier position qualifies |
| GoogleDocs.ExtractDocId | doc_handlers/google_docs_handler.py:10-12 | it returns None exactly when no "/d/" is followed by an id character. Otherwise the id is non-empty, uses only id characters, directly follows the leftmost qualifying "/d/", and is maximal |
| GoogleDocs.SearchResultUnique | doc_handlers/google_docs_handler.py:11 | at most one position and one id satisfy the leftmost-maximal description of the search |
| GoogleDocs.ExtractDocIdIsSearch | doc_handlers/google_docs_handler.py:10-12 | the returned id is exactly the one described by the leftmost-maximal search, in both directions |
| GoogleDocs.ExampleDocId | compiler.py:32-33 | the documented Google Docs url "https://docs.google.com/document/d/ABC123XYZ456/edit" (`GoogleDocs.ExampleUrl`) yields the id "ABC123XYZ456" |
| Compiler.GetHandler | compiler.py:36-39 | a handler is returned exactly when the link contains "docs.google.com/document/d/", and none otherwise |
| Compiler.PlannedId | compiler.py:71-80 | an id the loop proceeds with is never empty: an empty id is skipped like a missing one |
| Compiler.PlannedIdSkips | compiler.py:71-80 | a link is skipped exactly when it has no handler or its url has no "/d/" followed by an id character. Otherwise the id processed is the search result |
| Compiler.StagingPathRoundTrip | compiler.py:82 | the staging file lies directly in the staging directory, and its name minus ".docx" gives back the document id |
| Compiler.StagingPathsDistinct | compiler.py:82 | distinct ids stage to distinct files, and no staging file is the scratch image file |
| Compiler.CompileToDocx | compiler.py:61-68 | compilation fails exactly when the staging directory cannot be created or the source cannot be opened. Otherwise the output starts with the level-1 heading "Compiled document" |
| Compiler.CopyOfDownload | compiler.py:82-94 | copying a staged download appends what the link's outcome says was copied. It stops with the outcome's error exactly when the outcome is a failure, and otherwise the whole content is appended |
| Compiler.ProcessLinkAppendsSection | compiler.py:70-94 | one loop iteration (`Compiler.ProcessLink`) appends exactly the link's section to the output and changes nothing before it |
| Compiler.CompileFromSections | compiler.py:70-94 | the output of the loop (`Compiler.CompileFrom`) is its initial output followed by every remaining link's section in list order. Nothing is reordered or deduplicated, and a failure does not stop later links |
| Compiler.CompiledDocument | compiler.py:65-96 | a source that opens compiles to the heading followed by the sections of the extracted links, in extraction order |
| Compiler.NoLinksHeadingOnly | compiler.py:65-68 | with zero links the output is still produced, and holds only the heading |
| Compiler.SkippedLinkNoEffect | compiler.py:71-80 | a link with no handler or no id leaves the output and the files unchanged |
| Compiler.FailedDownloadAnnotated | compiler.py:81-94 | a failed download appends exactly the paragraph "Not possible to proccess file {link}: {e}", no page break, and writes no file |
| Compiler.UnreadableDownloadAnnotated | compiler.py:82-94 | a download that does not open appends exactly one error paragraph and no page break. The download stays staged |
| Compiler.RefusedPictureKeepsPartialCopy | compiler.py:86-94 | when a picture is refused mid-copy, the paragraphs already copied stay, followed by the empty paragraph of the refused insertion, exactly one error paragraph and no page break |
| Compiler.SucceededLink | compiler.py:82-90 | a fully processed link appends its whole content, then a page break exactly when its index is below the number of links. Its download stays at the staging path |
| Compiler.SectionBreaks | compiler.py:89-90 | a link's section holds a page break exactly when the link is fully processed and its 1-based index is below the number of links, and then it holds exactly one |
| Compiler.CompiledPageBreaks | compiler.py:70-90 | the compiled document holds exactly as many page breaks as there are fully processed links that are not last in the list |
| Compiler.LastLinkAddsNoBreak | compiler.py:89-90 | the last link of the list is never followed by a page break of its own |
| Compiler.TrailingBreakWhenLastSkipped | compiler.py:70-90 | in any list of at least two links whose last link is skipped and whose second-to-last is fully processed, the output ends with that link's page break |

## Left out

- `main.py`: argument parsing, defaults, and the source-existence check are command-line plumbing.
- `baixar_doc`: the HTTP request, its headers, its 30 s timeout and the status check are not modelled. The download is `Environment.download`, an arbitrary function that returns bytes or an error.
- python-docx: container parsing is not modelled. It is `Environment.open`, so the source and each download are parsed by an arbitrary fallible function.
- Saving: `compiled_doc.save` is not modelled. The compiled output is the returned block sequence, and a failure to save is not modelled.
- Image validation: `add_picture`'s reading of image headers is `Environment.pictureFault`. Image contents and media types are opaque bytes.
- Styles: a style is an opaque style id. How python-docx resolves a style object from another document is not modelled.
- Widths: the picture width is the constant 12 × 360000 EMU. Cm-to-EMU conversion and aspect-ratio scaling are not modelled.
- Side effects: console `print`s have no effect on the output.
- Compiler.CompileToDocx: which directories exist is not modelled. Creating the staging directory is `Environment.mkdirFault`, an arbitrary fallible function; its failure aborts compilation before the source is read.
- Writes: writing `temp_image.png` and writing a download to its staging path are assumed to succeed. Disk errors are not modelled.
- Transplant.CopyDocx: when the staged file is missing, the error text is the fixed message "Package not found". It stands in for the message of the `FileNotFoundError` raised for the missing path, which names that path.
- Compiler.CompileToDocx: when the source file is missing, the error is the same fixed message "Package not found", standing in for the `FileNotFoundError` message naming the path.
