/** Content transplant from a staged source document into the growing output
    (utils/docx_utils.py, lines 36-86). */
module Transplant {
  import opened Results
  import opened Seqs
  import opened DocModel

  /** EMU per centimetre, and the fixed display width of inserted pictures (12 cm). */
  const EmuPerCm: nat := 360000
  const PictureWidth: nat := 12 * EmuPerCm

  /** The scratch file each picture is staged through, relative to the working directory. */
  const TempImagePath := Path(["temp_image.png"])

  /** Stands in for the message of the `FileNotFoundError` raised when a container path that is
      not on disk is opened (the message names the path). */
  const PackageNotFound := "Package not found"

  /** Text and the five copied formatting overrides agree, unset ones included. */
  predicate SameFormatting(a: Run, b: Run) {
    && a.text == b.text
    && a.bold == b.bold
    && a.italic == b.italic
    && a.underline == b.underline
    && a.size == b.size
    && a.fontName == b.fontName
  }

  /** A fresh run with the source's text whose five overrides are then assigned from the source. */
  function CopyRun(r: Run): (c: Run)
    ensures SameFormatting(c, r)
    ensures c.other == map[]
  {
    Run(r.text, r.bold, r.italic, r.underline, r.size, r.fontName, map[])
  }

  function CopyRuns(rs: seq<Run>): (cs: seq<Run>)
    ensures |cs| == |rs|
    ensures forall i :: 0 <= i < |rs| ==> SameFormatting(cs[i], rs[i]) && cs[i].other == map[]
    decreases |rs|
  {
    if rs == [] then [] else [CopyRun(rs[0])] + CopyRuns(rs[1..])
  }

  /** The text paragraph appended for a source paragraph: same style, and its runs copied
      one for one, in order. */
  function TextBlock(p: Paragraph): (b: Block)
    ensures b.TextParagraph? && b.styleId == p.styleId
    ensures |b.runs| == |p.runs|
    ensures forall i :: 0 <= i < |p.runs| ==> SameFormatting(b.runs[i], p.runs[i])
  {
    TextParagraph(p.styleId, CopyRuns(p.runs))
  }

  /** python-docx `related_parts`: the package parts of the internal relationships, by id. */
  function RelatedParts(rels: map<string, Relationship>): (parts: map<string, Bytes>)
    ensures forall id :: id in parts <==> id in rels && rels[id].target.Internal?
    ensures forall id :: id in parts ==> parts[id] == rels[id].target.blob
  {
    map id | id in rels && rels[id].target.Internal? :: rels[id].target.blob
  }

  /** A picture element is insertable when it has a blip whose embed id names a related part. */
  predicate Insertable(parts: map<string, Bytes>, pic: PictureNode) {
    pic.blip.Some? && pic.blip.value.embed.Some? && pic.blip.value.embed.value in parts
  }

  /** The bytes of the picture's image part, when it is insertable. */
  function EmbeddedImage(parts: map<string, Bytes>, pic: PictureNode): (img: Option<Bytes>)
    ensures img.Some? <==> Insertable(parts, pic)
    ensures img.Some? ==> img.value == parts[pic.blip.value.embed.value]
  {
    match pic.blip
    case None => None
    case Some(blip) =>
      match blip.embed
      case None => None
      case Some(id) => if id in parts then Some(parts[id]) else None
  }

  function PictureBlock(parts: map<string, Bytes>, pic: PictureNode): Option<Block> {
    match EmbeddedImage(parts, pic)
    case Some(img) => Some(Picture(img, PictureWidth))
    case None => None
  }

  /** The picture paragraphs a paragraph's pictures yield when every insertion succeeds. */
  function Pictures(parts: map<string, Bytes>, pics: seq<PictureNode>): seq<Block> {
    FilterMap(PictureBlock, parts, pics)
  }

  /** What one source paragraph contributes when nothing fails: its text paragraph, then
      its picture paragraphs. */
  function Section(parts: map<string, Bytes>, p: Paragraph): seq<Block> {
    [TextBlock(p)] + Pictures(parts, p.pictures)
  }

  /** What a whole body contributes when nothing fails, paragraph by paragraph. */
  function Transplanted(parts: map<string, Bytes>, ps: seq<Paragraph>): seq<Block>
    decreases |ps|
  {
    if ps == [] then [] else Section(parts, ps[0]) + Transplanted(parts, ps[1..])
  }

  /** A picture paragraph whose image the destination would refuse. */
  predicate Rejected(env: Environment, b: Block) {
    b.Picture? && env.pictureFault(b.image).Some?
  }

  /** The position of the first refused picture in `bs`, or `|bs|` when there is none. */
  function FirstRejected(env: Environment, bs: seq<Block>): (k: nat)
    ensures k <= |bs|
    ensures k < |bs| ==> Rejected(env, bs[k])
    ensures forall j :: 0 <= j < k ==> !Rejected(env, bs[j])
    decreases |bs|
  {
    if bs == [] then 0
    else if Rejected(env, bs[0]) then 0
    else 1 + FirstRejected(env, bs[1..])
  }

  predicate HasPicture(bs: seq<Block>) {
    exists j :: 0 <= j < |bs| && bs[j].Picture?
  }

  /** The state of the output, the files and the pending error after a copy. */
  datatype Step = Step(out: seq<Block>, files: Files, error: Option<string>)

  /** The step that appending `bs` one block at a time produces: every block up to the
      first refused picture is appended; at that picture the copy stops with its error,
      after the empty paragraph its insertion opened, its bytes left in the scratch file.
      Without a refusal the scratch file is gone once some picture went through it. */
  function Expected(env: Environment, bs: seq<Block>, out: seq<Block>, files: Files): Step {
    var k := FirstRejected(env, bs);
    if k < |bs| then
      Step(out + bs[..k] + [EmptyParagraph], files[TempImagePath := bs[k].image], env.pictureFault(bs[k].image))
    else if HasPicture(bs) then
      Step(out + bs, files - {TempImagePath}, None)
    else
      Step(out + bs, files, None)
  }

  /** Stage the bytes in the scratch file, insert them at the fixed width, delete the
      scratch file. The insertion first appends a paragraph with an empty run and then reads
      the image into it, so a refused image raises after that paragraph is in the output and
      before the delete. */
  function InsertPicture(env: Environment, img: Bytes, out: seq<Block>, files: Files): Step {
    var staged := files[TempImagePath := img];
    match env.pictureFault(img)
    case Some(e) => Step(out + [EmptyParagraph], staged, Some(e))
    case None => Step(out + [Picture(img, PictureWidth)], staged - {TempImagePath}, None)
  }

  /** The loop over the picture elements of one paragraph. */
  function CopyPictures(env: Environment, parts: map<string, Bytes>, pics: seq<PictureNode>, out: seq<Block>, files: Files): Step
    decreases |pics|
  {
    if pics == [] then Step(out, files, None)
    else
      match EmbeddedImage(parts, pics[0])
      case None => CopyPictures(env, parts, pics[1..], out, files)
      case Some(img) =>
        var s := InsertPicture(env, img, out, files);
        if s.error.Some? then s else CopyPictures(env, parts, pics[1..], s.out, s.files)
  }

  /** The loop over the source paragraphs. */
  function CopyParagraphs(env: Environment, parts: map<string, Bytes>, ps: seq<Paragraph>, out: seq<Block>, files: Files): Step
    decreases |ps|
  {
    if ps == [] then Step(out, files, None)
    else
      var s := CopyPictures(env, parts, ps[0].pictures, out + [TextBlock(ps[0])], files);
      if s.error.Some? then s else CopyParagraphs(env, parts, ps[1..], s.out, s.files)
  }

  /** `copy_docx_with_pictures`: open the staged container at `src`, then copy its body. */
  function CopyDocx(env: Environment, src: Path, out: seq<Block>, files: Files): Step {
    if src !in files then Step(out, files, Some(PackageNotFound))
    else
      match env.open(files[src])
      case Err(e) => Step(out, files, Some(e))
      case Ok(doc) => CopyParagraphs(env, RelatedParts(doc.rels), doc.paragraphs, out, files)
  }

  /** The files after a block went through without a refusal. */
  function FilesAfterBlock(b: Block, files: Files): Files {
    if b.Picture? then files - {TempImagePath} else files
  }

  /** Peeling one block off the front of `Expected`. */
  lemma ExpectedCons(env: Environment, b: Block, bs: seq<Block>, out: seq<Block>, files: Files)
    ensures !Rejected(env, b) ==>
      Expected(env, [b] + bs, out, files) == Expected(env, bs, out + [b], FilesAfterBlock(b, files))
    ensures Rejected(env, b) ==>
      Expected(env, [b] + bs, out, files) == Step(out + [EmptyParagraph], files[TempImagePath := b.image], env.pictureFault(b.image))
  {
    var cs := [b] + bs;
    assert cs[1..] == bs;
    if !Rejected(env, b) {
      var k := FirstRejected(env, bs);
      assert FirstRejected(env, cs) == k + 1;
      var after := FilesAfterBlock(b, files);
      if k < |bs| {
        assert cs[..k + 1] == [b] + bs[..k];
        assert cs[k + 1] == bs[k];
        assert out + cs[..k + 1] + [EmptyParagraph] == (out + [b]) + bs[..k] + [EmptyParagraph];
        assert after[TempImagePath := bs[k].image] == files[TempImagePath := bs[k].image];
      } else {
        assert HasPicture(cs) <==> b.Picture? || HasPicture(bs) by {
          if HasPicture(bs) {
            var j :| 0 <= j < |bs| && bs[j].Picture?;
            assert cs[j + 1] == bs[j];
          }
          if HasPicture(cs) && !b.Picture? {
            var j :| 0 <= j < |cs| && cs[j].Picture?;
            assert j > 0 && bs[j - 1] == cs[j];
          }
          if b.Picture? {
            assert cs[0].Picture?;
          }
        }
        assert after - {TempImagePath} == files - {TempImagePath};
        assert out + cs == out + [b] + bs;
      }
    } else {
      assert FirstRejected(env, cs) == 0;
      assert cs[..0] == [];
      assert out + cs[..0] + [EmptyParagraph] == out + [EmptyParagraph];
    }
  }

  /** Inserting one picture is appending that one picture paragraph: on a refusal the empty
      paragraph the insertion opened stays and the image is left in the scratch file; otherwise
      the picture is appended and the scratch file is gone. */
  lemma InsertPictureExpected(env: Environment, img: Bytes, out: seq<Block>, files: Files)
    ensures InsertPicture(env, img, out, files) == Expected(env, [Picture(img, PictureWidth)], out, files)
  {
    var b := Picture(img, PictureWidth);
    assert [b] + [] == [b];
    ExpectedCons(env, b, [], out, files);
    if !Rejected(env, b) {
      assert FirstRejected(env, []) == 0 && !HasPicture([]);
      assert out + [b] + [] == out + [b];
      assert files[TempImagePath := img] - {TempImagePath} == files - {TempImagePath};
    }
  }

  /** Appending `a + b` is appending `a`, then, unless that stopped, appending `b`. */
  lemma {:induction false} ExpectedAppend(env: Environment, a: seq<Block>, b: seq<Block>, out: seq<Block>, files: Files)
    ensures
      var s := Expected(env, a, out, files);
      Expected(env, a + b, out, files) == if s.error.Some? then s else Expected(env, b, s.out, s.files)
    decreases |a|
  {
    if a == [] {
      assert a + b == b;
      assert FirstRejected(env, a) == 0 && !HasPicture(a);
      assert out + a == out;
    } else {
      var x, rest := a[0], a[1..];
      assert a == [x] + rest;
      assert a + b == [x] + (rest + b);
      ExpectedCons(env, x, rest + b, out, files);
      ExpectedCons(env, x, rest, out, files);
      if !Rejected(env, x) {
        ExpectedAppend(env, rest, b, out + [x], FilesAfterBlock(x, files));
      }
    }
  }

  /** The picture loop appends exactly the picture paragraphs of `Pictures`, up to the first refused one. */
  lemma {:induction false} CopyPicturesExpected(env: Environment, parts: map<string, Bytes>, pics: seq<PictureNode>, out: seq<Block>, files: Files)
    ensures CopyPictures(env, parts, pics, out, files) == Expected(env, Pictures(parts, pics), out, files)
    decreases |pics|
  {
    if pics == [] {
      assert Pictures(parts, pics) == [];
      assert FirstRejected(env, []) == 0 && !HasPicture([]);
      assert out + [] == out;
    } else {
      var rest := Pictures(parts, pics[1..]);
      assert Pictures(parts, pics) == Emit(PictureBlock(parts, pics[0])) + rest;
      match EmbeddedImage(parts, pics[0])
      case None =>
        assert Pictures(parts, pics) == rest;
        CopyPicturesExpected(env, parts, pics[1..], out, files);
      case Some(img) =>
        var b := Picture(img, PictureWidth);
        assert Pictures(parts, pics) == [b] + rest;
        ExpectedCons(env, b, rest, out, files);
        if !Rejected(env, b) {
          assert files[TempImagePath := img] - {TempImagePath} == files - {TempImagePath};
          CopyPicturesExpected(env, parts, pics[1..], out + [b], files - {TempImagePath});
        }
    }
  }

  /** The paragraph loop appends exactly `Transplanted`, up to the first refused picture. */
  lemma {:induction false} CopyParagraphsExpected(env: Environment, parts: map<string, Bytes>, ps: seq<Paragraph>, out: seq<Block>, files: Files)
    ensures CopyParagraphs(env, parts, ps, out, files) == Expected(env, Transplanted(parts, ps), out, files)
    decreases |ps|
  {
    if ps == [] {
      assert FirstRejected(env, []) == 0 && !HasPicture([]);
      assert out + [] == out;
    } else {
      var p := ps[0];
      var text := TextBlock(p);
      ExpectedAppend(env, Section(parts, p), Transplanted(parts, ps[1..]), out, files);
      ExpectedCons(env, text, Pictures(parts, p.pictures), out, files);
      CopyPicturesExpected(env, parts, p.pictures, out + [text], files);
      var s := Expected(env, Section(parts, p), out, files);
      if s.error.None? {
        CopyParagraphsExpected(env, parts, ps[1..], s.out, s.files);
      }
    }
  }

  /** Copying a container that opens: the output grows by the transplanted content up to
      the first refused picture, and the step is exactly `Expected`. */
  lemma CopyDocxTransplants(env: Environment, src: Path, out: seq<Block>, files: Files, doc: Document)
    requires src in files && env.open(files[src]) == Ok(doc)
    ensures CopyDocx(env, src, out, files) == Expected(env, Transplanted(RelatedParts(doc.rels), doc.paragraphs), out, files)
  {
    CopyParagraphsExpected(env, RelatedParts(doc.rels), doc.paragraphs, out, files);
  }

  /** Copying only appends: whatever happens, the paragraphs already in the output stay
      as they were, and a container that cannot be opened adds nothing. */
  lemma CopyDocxAppendsOnly(env: Environment, src: Path, out: seq<Block>, files: Files)
    ensures |CopyDocx(env, src, out, files).out| >= |out|
    ensures CopyDocx(env, src, out, files).out[..|out|] == out
    ensures (src !in files || env.open(files[src]).Err?) ==>
      CopyDocx(env, src, out, files) == Step(out, files, CopyDocx(env, src, out, files).error)
      && CopyDocx(env, src, out, files).error.Some?
  {
    if src in files && env.open(files[src]).Ok? {
      CopyDocxTransplants(env, src, out, files, env.open(files[src]).value);
    }
  }

  /** The scratch image file: gone after a copy that inserted at least one picture and
      succeeded; left behind (holding the refused bytes) after a refused picture; every other
      file untouched. */
  lemma CopyDocxScratchFile(env: Environment, src: Path, out: seq<Block>, files: Files, doc: Document)
    requires src in files && env.open(files[src]) == Ok(doc)
    ensures
      var s := CopyDocx(env, src, out, files);
      var t := Transplanted(RelatedParts(doc.rels), doc.paragraphs);
      && (s.error.None? && HasPicture(t) ==> TempImagePath !in s.files)
      && (s.error.None? && !HasPicture(t) ==> s.files == files)
      && (s.error.Some? ==> TempImagePath in s.files)
      && (forall p :: p != TempImagePath ==> (p in s.files <==> p in files))
      && (forall p :: p != TempImagePath && p in files ==> s.files[p] == files[p])
  {
    CopyDocxTransplants(env, src, out, files, doc);
  }

  /** The text paragraphs among `bs`, in order. */
  function TextParagraphsOf(bs: seq<Block>): seq<Block>
    decreases |bs|
  {
    if bs == [] then [] else (if bs[0].TextParagraph? then [bs[0]] else []) + TextParagraphsOf(bs[1..])
  }

  lemma {:induction false} TextParagraphsOfAppend(a: seq<Block>, b: seq<Block>)
    ensures TextParagraphsOf(a + b) == TextParagraphsOf(a) + TextParagraphsOf(b)
    decreases |a|
  {
    if a == [] {
      assert a + b == b;
    } else {
      assert (a + b)[1..] == a[1..] + b;
      TextParagraphsOfAppend(a[1..], b);
    }
  }

  /** Each picture element with a blip whose embed id names a related part yields exactly one
      picture paragraph of the fixed width holding that part's bytes; the others yield nothing. */
  lemma PicturesOfParagraph(parts: map<string, Bytes>, pics: seq<PictureNode>)
    ensures |Pictures(parts, pics)| == |set i | 0 <= i < |pics| && Insertable(parts, pics[i])|
    ensures forall b :: b in Pictures(parts, pics) ==>
      b.Picture? && b.width == PictureWidth && b.image in parts.Values
  {
    FilterMapLength(PictureBlock, parts, pics);
    assert KeptIndices(PictureBlock, parts, pics) == set i | 0 <= i < |pics| && Insertable(parts, pics[i]);
    forall b | b in Pictures(parts, pics)
      ensures b.Picture? && b.width == PictureWidth && b.image in parts.Values
    {
      FilterMapSource(PictureBlock, parts, pics, b);
    }
  }

  lemma {:induction false} NoTextAmongPictures(parts: map<string, Bytes>, pics: seq<PictureNode>)
    ensures TextParagraphsOf(Pictures(parts, pics)) == []
    decreases |pics|
  {
    if pics != [] {
      NoTextAmongPictures(parts, pics[1..]);
      TextParagraphsOfAppend(Emit(PictureBlock(parts, pics[0])), Pictures(parts, pics[1..]));
    }
  }

  /** Each source paragraph yields exactly one text paragraph, with its style and runs, in
      source order; everything else transplanted is a picture paragraph. */
  lemma {:induction false} TransplantedTextParagraphs(parts: map<string, Bytes>, ps: seq<Paragraph>)
    ensures |TextParagraphsOf(Transplanted(parts, ps))| == |ps|
    ensures forall i :: 0 <= i < |ps| ==> TextParagraphsOf(Transplanted(parts, ps))[i] == TextBlock(ps[i])
    decreases |ps|
  {
    if ps != [] {
      var p := ps[0];
      TransplantedTextParagraphs(parts, ps[1..]);
      NoTextAmongPictures(parts, p.pictures);
      TextParagraphsOfAppend(Section(parts, p), Transplanted(parts, ps[1..]));
      TextParagraphsOfAppend([TextBlock(p)], Pictures(parts, p.pictures));
      assert TextParagraphsOf([TextBlock(p)]) == [TextBlock(p)] by {
        assert [TextBlock(p)][1..] == [];
      }
    }
  }
}
