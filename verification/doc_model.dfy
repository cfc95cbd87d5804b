/** The abstract word-processing document the merger reads and writes.

    A source `Document` is what python-docx exposes of a loaded container: its body
    paragraphs and its relationship table. The compiled output is written as a
    sequence of `Block`s, one per paragraph the merger appends to it. */
module DocModel {
  import opened Results

  /** Opaque binary content: a container file, an image part. */
  type Bytes = seq<bv8>

  /** A run's underline override when it is set: on, off, or a named underline style. */
  datatype Underline = Underlined | NotUnderlined | UnderlineStyle(name: string)

  /** The smallest unit of formatted text. `None` means "not set here, inherited".
      `size` is a length in EMU. `fontName` is the run's font name as python-docx's
      `font.name` reads and writes it: setting it writes both the ASCII and the high-ANSI
      font, so the pair is this one field. `other` stands for every run property the merger
      does not carry over (colour, highlight, strike-through, ...), by property name. */
  datatype Run = Run(
    text: string,
    bold: Option<bool>,
    italic: Option<bool>,
    underline: Option<Underline>,
    size: Option<nat>,
    fontName: Option<string>,
    other: map<string, string>)

  /** A `w:hyperlink` node; `rid` is its `r:id` attribute, absent on malformed nodes. */
  datatype HyperlinkNode = HyperlinkNode(rid: Option<string>)

  /** An `a:blip` node; `embed` is its `r:embed` attribute. */
  datatype Blip = Blip(embed: Option<string>)

  /** A `pic:pic` drawing element and the first `a:blip` below it, if any. */
  datatype PictureNode = PictureNode(blip: Option<Blip>)

  /** A body paragraph: its style id, its runs (the paragraph's direct runs, as
      python-docx lists them), and, in document order, the hyperlink nodes and the
      picture elements found anywhere below it. */
  datatype Paragraph = Paragraph(
    styleId: string,
    runs: seq<Run>,
    hyperlinks: seq<HyperlinkNode>,
    pictures: seq<PictureNode>)

  /** What a relationship points to: an external reference (a URL) or a part of the
      package, identified by its reference relative to the source part (as the
      relationship's `Target` attribute writes it) and holding its bytes. */
  datatype RelTarget = External(url: string) | Internal(partRef: string, blob: Bytes)

  datatype Relationship = Relationship(relType: string, target: RelTarget)

  /** A loaded document: body paragraphs plus the relationship table of its main part. */
  datatype Document = Document(paragraphs: seq<Paragraph>, rels: map<string, Relationship>)

  /** A paragraph appended to the compiled output. `EmptyParagraph` is the paragraph with
      one empty run that inserting a picture appends before it reads the image, left in
      place when the image is refused. */
  datatype Block =
    | Heading(text: string, level: nat)
    | TextParagraph(styleId: string, runs: seq<Run>)
    | Picture(image: Bytes, width: nat)
    | EmptyParagraph
    | PageBreak
    | Notice(text: string)

  /** A file-system path as its segments; a relative path is relative to the working directory. */
  datatype Path = Path(segments: seq<string>)

  /** The files on disk the merger touches. */
  type Files = map<Path, Bytes>

  /** The fallible collaborators the merger calls but does not implement:
      - `download`: fetches the exported container of a document id (HTTP GET, status check);
      - `open`: parses container bytes into a `Document` (python-docx `Document(path)`);
      - `pictureFault`: why inserting these image bytes would raise, if it would;
      - `mkdirFault`: why creating a directory (existing ones accepted) would raise, if it would. */
  datatype Environment = Environment(
    mkdirFault: Path -> Option<string>,
    download: string -> Result<Bytes>,
    open: Bytes -> Result<Document>,
    pictureFault: Bytes -> Option<string>)
}
