/** Ordered hyperlink extraction from a loaded document (utils/docx_utils.py, lines 9-34). */
module Links {
  import opened Results
  import opened Text
  import opened Seqs
  import opened DocModel

  /** A relationship is used for hyperlinks when its type contains this text. */
  const HyperlinkType := "hyperlink"

  /** python-docx `target_ref`: the URL of an external target; for an internal one, the part's
      reference relative to the source part. */
  function TargetRef(t: RelTarget): string {
    match t
    case External(url) => url
    case Internal(name, _) => name
  }

  predicate IsHyperlink(rel: Relationship) {
    Contains(rel.relType, HyperlinkType)
  }

  /** `url` is the target of some hyperlink relationship of `rels`. */
  ghost predicate IsHyperlinkTarget(rels: map<string, Relationship>, url: string) {
    exists id :: id in rels && IsHyperlink(rels[id]) && TargetRef(rels[id].target) == url
  }

  /** The lookup table from relationship id to target, restricted to hyperlink relationships. */
  function HyperlinkTable(rels: map<string, Relationship>): (table: map<string, string>)
    ensures forall id :: id in table <==> id in rels && IsHyperlink(rels[id])
    ensures forall id :: id in table ==> table[id] == TargetRef(rels[id].target)
  {
    map id | id in rels && IsHyperlink(rels[id]) :: TargetRef(rels[id].target)
  }

  /** The URL one hyperlink node contributes: its id must be present, non-empty and in the table. */
  function Resolve(table: map<string, string>, node: HyperlinkNode): Option<string> {
    match node.rid
    case Some(id) => if id != "" && id in table then Some(table[id]) else None
    case None => None
  }

  /** The URLs of one paragraph, in node order. */
  function ParagraphLinks(table: map<string, string>, nodes: seq<HyperlinkNode>): seq<string> {
    FilterMap(Resolve, table, nodes)
  }

  /** The outer loop over the body paragraphs. */
  function LinksOf(table: map<string, string>, ps: seq<Paragraph>): seq<string>
    decreases |ps|
  {
    if ps == [] then [] else ParagraphLinks(table, ps[0].hyperlinks) + LinksOf(table, ps[1..])
  }

  /** `extrac_links_from_doc_per_line` on an already loaded document. */
  function ExtractLinks(doc: Document): (urls: seq<string>)
    ensures forall u :: u in urls ==> IsHyperlinkTarget(doc.rels, u)
  {
    var table := HyperlinkTable(doc.rels);
    LinksOfFlattens(table, doc.paragraphs);
    ResolvedAreTargets(doc.rels, AllHyperlinks(doc.paragraphs));
    LinksOf(table, doc.paragraphs)
  }

  lemma ResolvedAreTargets(rels: map<string, Relationship>, nodes: seq<HyperlinkNode>)
    ensures forall u :: u in FilterMap(Resolve, HyperlinkTable(rels), nodes) ==> IsHyperlinkTarget(rels, u)
  {
    var table := HyperlinkTable(rels);
    forall u | u in FilterMap(Resolve, table, nodes)
      ensures IsHyperlinkTarget(rels, u)
    {
      FilterMapSource(Resolve, table, nodes, u);
      var i :| 0 <= i < |nodes| && Resolve(table, nodes[i]) == Some(u);
      var id := nodes[i].rid.value;
      assert id in rels && IsHyperlink(rels[id]) && TargetRef(rels[id].target) == u;
    }
  }

  /** All hyperlink nodes of the body in document order: paragraph by paragraph,
      and within a paragraph in node order. */
  function AllHyperlinks(ps: seq<Paragraph>): seq<HyperlinkNode>
    decreases |ps|
  {
    if ps == [] then [] else ps[0].hyperlinks + AllHyperlinks(ps[1..])
  }

  lemma {:induction false} AllHyperlinksAppend(ps: seq<Paragraph>, qs: seq<Paragraph>)
    ensures AllHyperlinks(ps + qs) == AllHyperlinks(ps) + AllHyperlinks(qs)
    decreases |ps|
  {
    if ps == [] {
      assert ps + qs == qs;
    } else {
      assert (ps + qs)[1..] == ps[1..] + qs;
      AllHyperlinksAppend(ps[1..], qs);
    }
  }

  /** The links are the resolvable nodes of the whole body, resolved, in document order. */
  lemma {:induction false} ExtractLinksInDocumentOrder(doc: Document)
    ensures ExtractLinks(doc) == FilterMap(Resolve, HyperlinkTable(doc.rels), AllHyperlinks(doc.paragraphs))
  {
    LinksOfFlattens(HyperlinkTable(doc.rels), doc.paragraphs);
  }

  lemma {:induction false} LinksOfFlattens(table: map<string, string>, ps: seq<Paragraph>)
    ensures LinksOf(table, ps) == FilterMap(Resolve, table, AllHyperlinks(ps))
    decreases |ps|
  {
    if ps != [] {
      LinksOfFlattens(table, ps[1..]);
      FilterMapAppend(Resolve, table, ps[0].hyperlinks, AllHyperlinks(ps[1..]));
    }
  }

  /** One URL per resolvable hyperlink node: duplicates are kept, unresolvable nodes dropped. */
  lemma ExtractLinksCount(doc: Document)
    ensures |ExtractLinks(doc)| == |KeptIndices(Resolve, HyperlinkTable(doc.rels), AllHyperlinks(doc.paragraphs))|
  {
    ExtractLinksInDocumentOrder(doc);
    FilterMapLength(Resolve, HyperlinkTable(doc.rels), AllHyperlinks(doc.paragraphs));
  }

  /** Removing a hyperlink node that does not resolve (no id, empty id, or an id outside
      the hyperlink table) changes nothing: it contributed nothing and raised nothing. */
  lemma UnresolvedNodeIgnored(doc: Document, p: nat, n: nat)
    requires p < |doc.paragraphs| && n < |doc.paragraphs[p].hyperlinks|
    requires Resolve(HyperlinkTable(doc.rels), doc.paragraphs[p].hyperlinks[n]).None?
    ensures
      var hs := doc.paragraphs[p].hyperlinks;
      var pruned := doc.paragraphs[p].(hyperlinks := hs[..n] + hs[n + 1..]);
      ExtractLinks(doc.(paragraphs := doc.paragraphs[p := pruned])) == ExtractLinks(doc)
  {
    var ps := doc.paragraphs;
    var hs := ps[p].hyperlinks;
    var pruned := ps[p].(hyperlinks := hs[..n] + hs[n + 1..]);
    var a, b := AllHyperlinks(ps[..p]), AllHyperlinks(ps[p + 1..]);
    assert ps[p := ps[p]] == ps;
    AllHyperlinksAround(ps, p, ps[p]);
    AllHyperlinksAround(ps, p, pruned);
    assert hs == hs[..n] + [hs[n]] + hs[n + 1..];
    assert AllHyperlinks(ps) == (a + hs[..n]) + [hs[n]] + (hs[n + 1..] + b);
    assert AllHyperlinks(ps[p := pruned]) == (a + hs[..n]) + (hs[n + 1..] + b);
    FilterMapSkips(Resolve, HyperlinkTable(doc.rels), a + hs[..n], hs[n], hs[n + 1..] + b);
    ExtractLinksInDocumentOrder(doc);
    ExtractLinksInDocumentOrder(doc.(paragraphs := ps[p := pruned]));
  }

  /** The node stream of a body with paragraph `p` replaced by `q`. */
  lemma AllHyperlinksAround(ps: seq<Paragraph>, p: nat, q: Paragraph)
    requires p < |ps|
    ensures AllHyperlinks(ps[p := q]) == AllHyperlinks(ps[..p]) + q.hyperlinks + AllHyperlinks(ps[p + 1..])
  {
    var ps' := ps[p := q];
    assert ps' == ps[..p] + [q] + ps[p + 1..];
    AllHyperlinksAppend(ps[..p] + [q], ps[p + 1..]);
    AllHyperlinksAppend(ps[..p], [q]);
    assert [q][1..] == [];
  }

  /** Only hyperlink relationships matter: two documents with the same body whose
      hyperlink relationships agree yield the same links, whatever their other relationships. */
  lemma OnlyHyperlinkRelationshipsUsed(doc: Document, rels: map<string, Relationship>)
    requires forall id :: (id in doc.rels && IsHyperlink(doc.rels[id])) <==> (id in rels && IsHyperlink(rels[id]))
    requires forall id :: id in rels && IsHyperlink(rels[id]) ==> TargetRef(rels[id].target) == TargetRef(doc.rels[id].target)
    ensures ExtractLinks(doc.(rels := rels)) == ExtractLinks(doc)
  {
    assert HyperlinkTable(rels) == HyperlinkTable(doc.rels);
  }

  /** A body without hyperlink nodes yields no links. */
  lemma {:induction false} NoHyperlinksNoLinks(doc: Document)
    requires forall i :: 0 <= i < |doc.paragraphs| ==> doc.paragraphs[i].hyperlinks == []
    ensures ExtractLinks(doc) == []
  {
    NoNodes(doc.paragraphs);
    ExtractLinksInDocumentOrder(doc);
  }

  lemma {:induction false} NoNodes(ps: seq<Paragraph>)
    requires forall i :: 0 <= i < |ps| ==> ps[i].hyperlinks == []
    ensures AllHyperlinks(ps) == []
    decreases |ps|
  {
    if ps != [] {
      assert ps[0].hyperlinks == [];
      NoNodes(ps[1..]);
    }
  }
}
