/** The compilation driver (compiler.py): handler dispatch by url shape, and the loop that
    turns each extracted link into a section of the compiled document. */
module Compiler {
  import opened Results
  import opened Text
  import opened Seqs
  import opened DocModel
  import opened Handlers
  import GoogleDocs
  import Links
  import Transplant

  /** The heading the compiled document opens with, at level 1. */
  const Title := "Compiled document"

  /** Links containing this text are Google Docs documents. */
  const GoogleDocsMarker := "docs.google.com/document/d/"

  const DocxSuffix := ".docx"

  /** `get_handler`: the Google Docs handler for links containing the marker, otherwise none. */
  function GetHandler(link: string): (h: Option<Handler>)
    ensures h.Some? <==> exists i :: OccursAt(GoogleDocsMarker, link, i)
  {
    if Contains(link, GoogleDocsMarker) then Some(GoogleDocsHandler) else None
  }

  /** The paragraph recording that a link's download or copy raised `e`. */
  function ErrorText(link: string, e: string): string {
    "Not possible to proccess file " + link + ": " + e
  }

  /** `temp_dir / f"{doc_id}.docx"`. */
  function StagingPath(dir: Path, id: string): Path {
    Path(dir.segments + [id + DocxSuffix])
  }

  /** The parent directory and the file name of a path with at least one segment. */
  function Parent(p: Path): Path
    requires p.segments != []
  {
    Path(p.segments[..|p.segments| - 1])
  }

  function FileName(p: Path): string
    requires p.segments != []
  {
    p.segments[|p.segments| - 1]
  }

  /** The id a staged file name was made from: the name without its ".docx" suffix. */
  function StagedId(name: string): Option<string> {
    if |name| >= |DocxSuffix| && name[|name| - |DocxSuffix|..] == DocxSuffix then
      Some(name[..|name| - |DocxSuffix|])
    else
      None
  }

  /** The staging path lies directly in the staging directory and its name gives back the id. */
  lemma StagingPathRoundTrip(dir: Path, id: string)
    ensures StagingPath(dir, id).segments != []
    ensures Parent(StagingPath(dir, id)) == dir
    ensures StagedId(FileName(StagingPath(dir, id))) == Some(id)
  {
    var p := StagingPath(dir, id);
    assert p.segments[..|p.segments| - 1] == dir.segments;
    var name := id + DocxSuffix;
    assert name[|name| - |DocxSuffix|..] == DocxSuffix;
    assert name[..|name| - |DocxSuffix|] == id;
  }

  /** Distinct ids are staged in distinct files, and never in the scratch image file. */
  lemma StagingPathsDistinct(dir: Path, a: string, b: string)
    ensures StagingPath(dir, a) == StagingPath(dir, b) ==> a == b
    ensures StagingPath(dir, a) != Transplant.TempImagePath
  {
    StagingPathRoundTrip(dir, a);
    StagingPathRoundTrip(dir, b);
    var name := a + DocxSuffix;
    assert name[|name| - 1] == 'x';
    assert FileName(StagingPath(dir, a)) == name;
    assert FileName(Transplant.TempImagePath)[13] == 'g';
  }

  /** The id the loop proceeds with, or `None` when the link is skipped: no handler, no id
      found, or an empty one. */
  function PlannedId(link: string): (id: Option<string>)
    ensures id.Some? ==> id.value != ""
  {
    match GetHandler(link)
    case None => None
    case Some(h) =>
      match h.ExtractId(link)
      case None => None
      case Some(id) => if id == "" then None else Some(id)
  }

  /** A link is skipped exactly when it lacks the Google Docs marker or has no "/d/" followed by
      an id character; otherwise the id processed is the search result. */
  lemma PlannedIdSkips(link: string)
    ensures PlannedId(link).None? <==>
      (forall i :: !OccursAt(GoogleDocsMarker, link, i)) || (forall i :: !GoogleDocs.MatchesAt(link, i))
    ensures PlannedId(link).Some? ==> exists i :: GoogleDocs.IsSearchResult(link, i, PlannedId(link).value)
  {
  }

  /** The compiled output so far and the files on disk. */
  datatype Compilation = Compilation(out: seq<Block>, files: Files)

  /** One iteration of the loop of `compile_to_docx`, for the `idx`-th (1-based) of `total` links. */
  function ProcessLink(env: Environment, tempDir: Path, link: string, idx: nat, total: nat, st: Compilation): Compilation {
    match GetHandler(link)
    case None => st
    case Some(h) =>
      match h.ExtractId(link)
      case None => st
      case Some(id) =>
        if id == "" then st
        else
          var path := StagingPath(tempDir, id);
          match h.Download(env, id)
          case Err(e) => Compilation(st.out + [Notice(ErrorText(link, e))], st.files)
          case Ok(bytes) =>
            var c := Transplant.CopyDocx(env, path, st.out, st.files[path := bytes]);
            match c.error
            case Some(e) => Compilation(c.out + [Notice(ErrorText(link, e))], c.files)
            case None => Compilation(c.out + (if idx < total then [PageBreak] else []), c.files)
  }

  /** The loop itself: a left fold of `ProcessLink` over the links from position `i` on. */
  function CompileFrom(env: Environment, tempDir: Path, links: seq<string>, i: nat, st: Compilation): Compilation
    requires i <= |links|
    decreases |links| - i
  {
    if i == |links| then st
    else CompileFrom(env, tempDir, links, i + 1, ProcessLink(env, tempDir, links[i], i + 1, |links|, st))
  }

  /** `compile_to_docx` from the loaded files: creating the staging directory and opening the
      source are the failures that propagate; otherwise the output is the heading followed by
      the sections of the links. */
  function CompileToDocx(env: Environment, source: Path, tempDir: Path, files: Files): (r: Result<Compilation>)
    ensures r.Err? <==> env.mkdirFault(tempDir).Some? || source !in files || env.open(files[source]).Err?
    ensures r.Ok? ==> |r.value.out| >= 1 && r.value.out[0] == Heading(Title, 1)
  {
    if env.mkdirFault(tempDir).Some? then Err(env.mkdirFault(tempDir).value)
    else if source !in files then Err(Transplant.PackageNotFound)
    else
      match env.open(files[source])
      case Err(e) => Err(e)
      case Ok(doc) =>
        var links := Links.ExtractLinks(doc);
        var start := Compilation([Heading(Title, 1)], files);
        CompileFromSections(env, tempDir, links, 0, start);
        Ok(CompileFrom(env, tempDir, links, 0, start))
  }

  // ---------------------------------------------------------------------------------------
  // What each link contributes, independently of the state the loop threads.

  /** The transplanted content of a document when nothing is refused. */
  function Content(doc: Document): seq<Block> {
    Transplant.Transplanted(Transplant.RelatedParts(doc.rels), doc.paragraphs)
  }

  /** How the processing of one link ends, independently of the state the loop threads:
      skipped; failed with an error after appending `partial`; or merged with `content`. */
  datatype LinkOutcome = Skipped | Failed(partial: seq<Block>, error: string) | Merged(content: seq<Block>)

  /** The outcome of a link: skipped without handler or id; failed when the download or its
      opening fails (nothing appended) or when a picture is refused (the content before it
      appended, then the empty paragraph the refused insertion opened); merged otherwise. */
  function Outcome(env: Environment, link: string): LinkOutcome {
    match PlannedId(link)
    case None => Skipped
    case Some(id) =>
      match env.download(id)
      case Err(e) => Failed([], e)
      case Ok(bytes) =>
        match env.open(bytes)
        case Err(e) => Failed([], e)
        case Ok(doc) =>
          var t := Content(doc);
          var k := Transplant.FirstRejected(env, t);
          if k < |t| then Failed(t[..k] + [EmptyParagraph], env.pictureFault(t[k].image).value) else Merged(t)
  }

  /** A link is fully processed: it has a handler and an id, its download succeeds, the
      download opens, and none of its pictures is refused. */
  predicate Succeeds(env: Environment, link: string) {
    Outcome(env, link).Merged?
  }

  /** The paragraphs the `idx`-th of `total` links adds to the output: nothing when skipped;
      what was copied followed by one error paragraph when it failed; otherwise its content
      and, unless it is the last link of the list, a page break. */
  function LinkSection(env: Environment, link: string, idx: nat, total: nat): seq<Block> {
    match Outcome(env, link)
    case Skipped => []
    case Failed(partial, e) => partial + [Notice(ErrorText(link, e))]
    case Merged(content) => content + (if idx < total then [PageBreak] else [])
  }

  /** The sections of all links, in list order, each with its 1-based index. */
  function Sections(env: Environment, links: seq<string>): (ss: seq<seq<Block>>)
    ensures |ss| == |links|
  {
    seq(|links|, k requires 0 <= k < |links| => LinkSection(env, links[k], k + 1, |links|))
  }

  /** Copying a staged download appends what the link's outcome says was copied, and stops
      with its error exactly when the outcome is a failure. */
  lemma CopyOfDownload(env: Environment, tempDir: Path, link: string, id: string, bytes: Bytes, st: Compilation)
    requires PlannedId(link) == Some(id) && env.download(id) == Ok(bytes)
    ensures
      var path := StagingPath(tempDir, id);
      var c := Transplant.CopyDocx(env, path, st.out, st.files[path := bytes]);
      var o := Outcome(env, link);
      && (o.Failed? ==> c.error == Some(o.error) && c.out == st.out + o.partial)
      && (!o.Failed? ==> o.Merged? && c.error.None? && c.out == st.out + o.content)
  {
    var path := StagingPath(tempDir, id);
    var files := st.files[path := bytes];
    if env.open(bytes).Ok? {
      Transplant.CopyDocxTransplants(env, path, st.out, files, env.open(bytes).value);
    }
  }

  /** One loop iteration appends the link's section and nothing else. */
  lemma ProcessLinkAppendsSection(env: Environment, tempDir: Path, link: string, idx: nat, total: nat, st: Compilation)
    ensures ProcessLink(env, tempDir, link, idx, total, st).out == st.out + LinkSection(env, link, idx, total)
  {
    match PlannedId(link)
    case None =>
    case Some(id) =>
      if env.download(id).Ok? {
        CopyOfDownload(env, tempDir, link, id, env.download(id).value, st);
      }
  }

  /** One unfolding of the fold, with what the iteration appended. */
  lemma CompileFromStep(env: Environment, tempDir: Path, links: seq<string>, i: nat, st: Compilation) returns (next: Compilation)
    requires i < |links|
    ensures CompileFrom(env, tempDir, links, i, st) == CompileFrom(env, tempDir, links, i + 1, next)
    ensures next.out == st.out + Sections(env, links)[i]
  {
    next := ProcessLink(env, tempDir, links[i], i + 1, |links|, st);
    ProcessLinkAppendsSection(env, tempDir, links[i], i + 1, |links|, st);
  }

  /** The loop's output is its starting output followed by the remaining sections, in order:
      no link is dropped, reordered or merged with another, and a failing link does not stop
      the ones after it. */
  lemma {:induction false} CompileFromSections(env: Environment, tempDir: Path, links: seq<string>, i: nat, st: Compilation)
    requires i <= |links|
    ensures CompileFrom(env, tempDir, links, i, st).out == st.out + Flatten(Sections(env, links)[i..])
    decreases |links| - i
  {
    if i == |links| {
      assert Sections(env, links)[i..] == [];
    } else {
      var next := CompileFromStep(env, tempDir, links, i, st);
      CompileFromSections(env, tempDir, links, i + 1, next);
      FlattenSuffixAppend(st.out, Sections(env, links), i);
    }
  }

  /** The whole loop appends every section, in list order. */
  lemma CompiledSections(env: Environment, tempDir: Path, links: seq<string>, st: Compilation)
    ensures CompileFrom(env, tempDir, links, 0, st).out == st.out + Flatten(Sections(env, links))
  {
    CompileFromSections(env, tempDir, links, 0, st);
    assert Sections(env, links)[0..] == Sections(env, links);
  }

  /** A source that opens compiles to the heading followed by every link's section, in the
      order the links were extracted. */
  lemma CompiledDocument(env: Environment, source: Path, tempDir: Path, files: Files, doc: Document)
    requires env.mkdirFault(tempDir).None? && source in files && env.open(files[source]) == Ok(doc)
    ensures CompileToDocx(env, source, tempDir, files).Ok?
    ensures CompileToDocx(env, source, tempDir, files).value.out
      == [Heading(Title, 1)] + Flatten(Sections(env, Links.ExtractLinks(doc)))
  {
    var links := Links.ExtractLinks(doc);
    CompileFromSections(env, tempDir, links, 0, Compilation([Heading(Title, 1)], files));
    assert Sections(env, links)[0..] == Sections(env, links);
  }

  /** A source without links still compiles, to the heading alone. */
  lemma NoLinksHeadingOnly(env: Environment, source: Path, tempDir: Path, files: Files, doc: Document)
    requires env.mkdirFault(tempDir).None? && source in files && env.open(files[source]) == Ok(doc)
    requires Links.ExtractLinks(doc) == []
    ensures CompileToDocx(env, source, tempDir, files) == Ok(Compilation([Heading(Title, 1)], files))
  {
    CompiledDocument(env, source, tempDir, files, doc);
  }

  /** A skipped link (no handler, or no id in it) leaves output and files as they were. */
  lemma SkippedLinkNoEffect(env: Environment, tempDir: Path, link: string, idx: nat, total: nat, st: Compilation)
    requires (forall i :: !OccursAt(GoogleDocsMarker, link, i)) || (forall i :: !GoogleDocs.MatchesAt(link, i))
    ensures ProcessLink(env, tempDir, link, idx, total, st) == st
    ensures LinkSection(env, link, idx, total) == []
  {
  }

  /** A failed download adds exactly one error paragraph naming the link and the error, no
      page break, and writes no file. */
  lemma FailedDownloadAnnotated(env: Environment, tempDir: Path, link: string, idx: nat, total: nat, st: Compilation, id: string, e: string)
    requires PlannedId(link) == Some(id) && env.download(id) == Err(e)
    ensures ProcessLink(env, tempDir, link, idx, total, st) == Compilation(st.out + [Notice(ErrorText(link, e))], st.files)
  {
  }

  /** A download that does not open as a document adds exactly one error paragraph and no
      page break; the downloaded bytes stay staged under the id. */
  lemma UnreadableDownloadAnnotated(env: Environment, tempDir: Path, link: string, idx: nat, total: nat, st: Compilation, id: string, bytes: Bytes, e: string)
    requires PlannedId(link) == Some(id) && env.download(id) == Ok(bytes) && env.open(bytes) == Err(e)
    ensures ProcessLink(env, tempDir, link, idx, total, st)
      == Compilation(st.out + [Notice(ErrorText(link, e))], st.files[StagingPath(tempDir, id) := bytes])
  {
    var path := StagingPath(tempDir, id);
    Transplant.CopyDocxAppendsOnly(env, path, st.out, st.files[path := bytes]);
  }

  /** Copying is not transactional: when a picture of the downloaded document is refused,
      the paragraphs appended before it stay, followed by the empty paragraph the refused
      insertion opened, one error paragraph and no page break; the downloaded file stays staged. */
  lemma RefusedPictureKeepsPartialCopy(env: Environment, tempDir: Path, link: string, idx: nat, total: nat, st: Compilation, id: string, bytes: Bytes, doc: Document)
    requires PlannedId(link) == Some(id) && env.download(id) == Ok(bytes) && env.open(bytes) == Ok(doc)
    requires Transplant.FirstRejected(env, Content(doc)) < |Content(doc)|
    ensures
      var t := Content(doc);
      var k := Transplant.FirstRejected(env, t);
      var r := ProcessLink(env, tempDir, link, idx, total, st);
      && r.out == st.out + t[..k] + [EmptyParagraph, Notice(ErrorText(link, env.pictureFault(t[k].image).value))]
      && StagingPath(tempDir, id) in r.files && r.files[StagingPath(tempDir, id)] == bytes
  {
    var path := StagingPath(tempDir, id);
    ProcessLinkAppendsSection(env, tempDir, link, idx, total, st);
    StagingPathsDistinct(tempDir, id, id);
    Transplant.CopyDocxScratchFile(env, path, st.out, st.files[path := bytes], doc);
  }

  /** A fully processed link appends its whole content, then a page break exactly when its
      1-based index is below the number of links; its download stays staged under the id. */
  lemma SucceededLink(env: Environment, tempDir: Path, link: string, idx: nat, total: nat, st: Compilation, id: string, bytes: Bytes, doc: Document)
    requires PlannedId(link) == Some(id) && env.download(id) == Ok(bytes) && env.open(bytes) == Ok(doc)
    requires Transplant.FirstRejected(env, Content(doc)) == |Content(doc)|
    ensures
      var r := ProcessLink(env, tempDir, link, idx, total, st);
      && r.out == st.out + Content(doc) + (if idx < total then [PageBreak] else [])
      && StagingPath(tempDir, id) in r.files && r.files[StagingPath(tempDir, id)] == bytes
  {
    var path := StagingPath(tempDir, id);
    ProcessLinkAppendsSection(env, tempDir, link, idx, total, st);
    StagingPathsDistinct(tempDir, id, id);
    Transplant.CopyDocxScratchFile(env, path, st.out, st.files[path := bytes], doc);
  }

  // ---------------------------------------------------------------------------------------
  // Page breaks.

  /** The number of page breaks among `bs`. */
  function CountBreaks(bs: seq<Block>): nat
    decreases |bs|
  {
    if bs == [] then 0 else (if bs[0] == PageBreak then 1 else 0) + CountBreaks(bs[1..])
  }

  lemma {:induction false} CountBreaksAppend(a: seq<Block>, b: seq<Block>)
    ensures CountBreaks(a + b) == CountBreaks(a) + CountBreaks(b)
    decreases |a|
  {
    if a == [] {
      assert a + b == b;
    } else {
      assert (a + b)[1..] == a[1..] + b;
      CountBreaksAppend(a[1..], b);
    }
  }

  lemma {:induction false} NoBreakNoCount(bs: seq<Block>)
    requires PageBreak !in bs
    ensures CountBreaks(bs) == 0
    decreases |bs|
  {
    if bs != [] {
      assert bs[0] in bs;
      assert forall b :: b in bs[1..] ==> b in bs;
      NoBreakNoCount(bs[1..]);
    }
  }

  /** Transplanted content never holds a page break: only the driver adds them. */
  lemma {:induction false} NoBreakInContent(parts: map<string, Bytes>, ps: seq<Paragraph>)
    ensures PageBreak !in Transplant.Transplanted(parts, ps)
    decreases |ps|
  {
    if ps != [] {
      Transplant.PicturesOfParagraph(parts, ps[0].pictures);
      NoBreakInContent(parts, ps[1..]);
    }
  }

  /** What a link appends before the error paragraph or the page break never holds a page
      break. */
  lemma OutcomeHasNoBreak(env: Environment, link: string)
    ensures Outcome(env, link).Failed? ==> PageBreak !in Outcome(env, link).partial
    ensures Outcome(env, link).Merged? ==> PageBreak !in Outcome(env, link).content
  {
    match PlannedId(link)
    case None =>
    case Some(id) =>
      match env.download(id)
      case Err(_) =>
      case Ok(bytes) =>
        match env.open(bytes)
        case Err(_) =>
        case Ok(doc) =>
          var t := Content(doc);
          NoBreakInContent(Transplant.RelatedParts(doc.rels), doc.paragraphs);
          assert forall b :: b in t[..Transplant.FirstRejected(env, t)] + [EmptyParagraph] ==> b in t || b == EmptyParagraph;
  }

  /** Break-free blocks followed by `tail` hold as many breaks as `tail`. */
  lemma BreaksOfTail(head: seq<Block>, tail: seq<Block>)
    requires PageBreak !in head
    ensures PageBreak in head + tail <==> PageBreak in tail
    ensures CountBreaks(head + tail) == CountBreaks(tail)
  {
    NoBreakNoCount(head);
    CountBreaksAppend(head, tail);
  }

  /** A link's section holds a page break exactly when the link is fully processed and its
      1-based index is below the number of links; it then holds exactly one. */
  lemma SectionBreaks(env: Environment, link: string, idx: nat, total: nat)
    ensures PageBreak in LinkSection(env, link, idx, total) <==> Succeeds(env, link) && idx < total
    ensures CountBreaks(LinkSection(env, link, idx, total)) == if Succeeds(env, link) && idx < total then 1 else 0
  {
    OutcomeHasNoBreak(env, link);
    match Outcome(env, link)
    case Skipped =>
    case Failed(partial, e) =>
      var tail := [Notice(ErrorText(link, e))];
      BreaksOfTail(partial, tail);
      assert tail[1..] == [];
    case Merged(content) =>
      var tail: seq<Block> := if idx < total then [PageBreak] else [];
      BreaksOfTail(content, tail);
      if idx < total {
        assert tail[1..] == [];
      }
  }

  /** The (0-based) positions of the links a page break follows: fully processed and not
      last in the list. */
  ghost function BreakingLinks(env: Environment, links: seq<string>): set<int> {
    set k | 0 <= k < |links| - 1 && Succeeds(env, links[k])
  }

  /** For each link (0-based), whether a page break follows it. */
  ghost function BreakFlags(env: Environment, links: seq<string>): (flags: seq<bool>)
    ensures |flags| == |links|
  {
    seq(|links|, k requires 0 <= k < |links| => Succeeds(env, links[k]) && k + 1 < |links|)
  }

  lemma {:induction false} BreaksInSections(env: Environment, links: seq<string>, m: nat)
    requires m <= |links|
    ensures CountBreaks(Flatten(Sections(env, links)[..m])) == |TruePositions(BreakFlags(env, links), m)|
    decreases m
  {
    var ss := Sections(env, links);
    if m == 0 {
      assert ss[..0] == [];
      assert TruePositions(BreakFlags(env, links), 0) == {};
    } else {
      BreaksInSections(env, links, m - 1);
      FlattenPrefixStep(ss, m);
      CountBreaksAppend(Flatten(ss[..m - 1]), ss[m - 1]);
      var flags := BreakFlags(env, links);
      assert CountBreaks(ss[m - 1]) == if flags[m - 1] then 1 else 0 by {
        SectionBreaks(env, links[m - 1], m, |links|);
      }
      TruePositionsStep(flags, m);
    }
  }

  /** The heading followed by the sections holds one page break per fully processed link
      that is not last in the list. */
  lemma OutputBreaks(env: Environment, links: seq<string>)
    ensures CountBreaks([Heading(Title, 1)] + Flatten(Sections(env, links)))
      == |BreakingLinks(env, links)|
  {
    BreaksInSections(env, links, |links|);
    assert Sections(env, links)[..|links|] == Sections(env, links);
    CountBreaksAppend([Heading(Title, 1)], Flatten(Sections(env, links)));
    assert [Heading(Title, 1)][1..] == [];
    var flags := BreakFlags(env, links);
    assert TruePositions(flags, |links|) == BreakingLinks(env, links) by {
      forall k | 0 <= k < |links|
        ensures flags[k] <==> k < |links| - 1 && Succeeds(env, links[k])
      {
      }
    }
  }

  /** The compiled document holds one page break per fully processed link that is not the
      last of the list: skipped and failed links add none. */
  lemma CompiledPageBreaks(env: Environment, source: Path, tempDir: Path, files: Files, doc: Document)
    requires env.mkdirFault(tempDir).None? && source in files && env.open(files[source]) == Ok(doc)
    ensures
      var links := Links.ExtractLinks(doc);
      CountBreaks(CompileToDocx(env, source, tempDir, files).value.out)
        == |BreakingLinks(env, links)|
  {
    CompiledDocument(env, source, tempDir, files, doc);
    OutputBreaks(env, Links.ExtractLinks(doc));
  }

  /** The last link of the list is never followed by a page break of its own. */
  lemma LastLinkAddsNoBreak(env: Environment, links: seq<string>)
    requires links != []
    ensures PageBreak !in Sections(env, links)[|links| - 1]
  {
    var n := |links|;
    SectionAt(env, links, n - 1);
    LastSectionNoBreak(env, links[n - 1], n);
  }

  /** The `k`-th section (0-based) is the section of the `k`-th link at 1-based index `k + 1`. */
  lemma SectionAt(env: Environment, links: seq<string>, k: nat)
    requires k < |links|
    ensures Sections(env, links)[k] == LinkSection(env, links[k], k + 1, |links|)
  {
  }

  /** The section of the link whose index equals the number of links holds no page break. */
  lemma LastSectionNoBreak(env: Environment, link: string, n: nat)
    ensures PageBreak !in LinkSection(env, link, n, n)
  {
    OutcomeHasNoBreak(env, link);
  }

  /** Whether a break follows a link is decided by its index in the full list, so when the
      last link is skipped and the one before it was fully processed, the output ends with
      that link's page break. */
  lemma TrailingBreakWhenLastSkipped(env: Environment, tempDir: Path, links: seq<string>, st: Compilation)
    requires |links| >= 2
    requires Outcome(env, links[|links| - 1]).Skipped? && Succeeds(env, links[|links| - 2])
    ensures
      var out := CompileFrom(env, tempDir, links, 0, st).out;
      out != [] && out[|out| - 1] == PageBreak
  {
    LastTwoSections(env, links);
    CompiledEndsWithBreak(env, tempDir, links, st);
  }

  /** A loop whose last section is empty and whose section before it ends with a page break
      produces an output ending with that page break. */
  lemma CompiledEndsWithBreak(env: Environment, tempDir: Path, links: seq<string>, st: Compilation)
    requires |links| >= 2 && Sections(env, links)[|links| - 1] == []
    requires
      var sec := Sections(env, links)[|links| - 2];
      sec != [] && sec[|sec| - 1] == PageBreak
    ensures
      var out := CompileFrom(env, tempDir, links, 0, st).out;
      out != [] && out[|out| - 1] == PageBreak
  {
    var ss := Sections(env, links);
    assert |ss| == |links|;
    FlattenEndsWith(st.out, ss, PageBreak);
    CompiledSections(env, tempDir, links, st);
  }

  lemma LastTwoSections(env: Environment, links: seq<string>)
    requires |links| >= 2
    requires Outcome(env, links[|links| - 1]).Skipped? && Succeeds(env, links[|links| - 2])
    ensures Sections(env, links)[|links| - 1] == []
    ensures
      var sec := Sections(env, links)[|links| - 2];
      sec != [] && sec[|sec| - 1] == PageBreak
  {
    SectionAt(env, links, |links| - 1);
    SectionAt(env, links, |links| - 2);
  }
}
