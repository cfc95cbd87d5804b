/** Document-id extraction of the Google Docs handler (doc_handlers/google_docs_handler.py,
    lines 10-12): `re.search(r'/d/([a-zA-Z0-9-_]+)', url)` and its first group. */
module GoogleDocs {
  import opened Results

  /** The character class `[a-zA-Z0-9-_]`: ASCII letters, digits, hyphen and underscore. */
  predicate IsIdChar(c: char) {
    ('a' <= c <= 'z') || ('A' <= c <= 'Z') || ('0' <= c <= '9') || c == '-' || c == '_'
  }

  /** The pattern can match starting at `i`: "/d/" followed by at least one id character. */
  predicate MatchesAt(url: string, i: int) {
    && 0 <= i && i + 3 < |url|
    && url[i] == '/' && url[i + 1] == 'd' && url[i + 2] == '/'
    && IsIdChar(url[i + 3])
  }

  /** What `re.search` returns: the match starts at the leftmost position where one is
      possible, and the greedy group `id` is the longest run of id characters there. */
  ghost predicate IsSearchResult(url: string, i: int, id: string) {
    && MatchesAt(url, i)
    && (forall j :: 0 <= j < i ==> !MatchesAt(url, j))
    && i + 3 + |id| <= |url|
    && url[i + 3..i + 3 + |id|] == id
    && id != ""
    && (forall c :: c in id ==> IsIdChar(c))
    && (i + 3 + |id| == |url| || !IsIdChar(url[i + 3 + |id|]))
  }

  /** The greedy `+`: the longest run of id characters starting at `j`. */
  function IdRun(url: string, j: nat): (id: string)
    requires j <= |url|
    ensures j + |id| <= |url| && url[j..j + |id|] == id
    ensures forall c :: c in id ==> IsIdChar(c)
    ensures j + |id| == |url| || !IsIdChar(url[j + |id|])
    decreases |url| - j
  {
    if j < |url| && IsIdChar(url[j]) then [url[j]] + IdRun(url, j + 1) else []
  }

  /** The leftmost position at or after `from` where the pattern matches. */
  function FirstMatch(url: string, from: nat): (i: Option<nat>)
    requires from <= |url|
    ensures i.Some? ==> from <= i.value && MatchesAt(url, i.value)
    ensures forall j :: from <= j && (i.None? || j < i.value) ==> !MatchesAt(url, j)
    decreases |url| - from
  {
    if from == |url| then None
    else if MatchesAt(url, from) then Some(from)
    else FirstMatch(url, from + 1)
  }

  /** `extrair_doc_id`: the id after the first "/d/" that is followed by an id character. */
  function ExtractDocId(url: string): (id: Option<string>)
    ensures id.None? <==> forall i :: !MatchesAt(url, i)
    ensures id.Some? ==> exists i :: IsSearchResult(url, i, id.value)
  {
    match FirstMatch(url, 0)
    case None => None
    case Some(i) =>
      var id := IdRun(url, i + 3);
      assert IsSearchResult(url, i, id);
      Some(id)
  }

  /** A maximal run of id characters starting at `j` is the one `IdRun` computes. */
  lemma {:induction false} MaximalRunIsIdRun(url: string, j: nat, id: string)
    requires j + |id| <= |url| && url[j..j + |id|] == id
    requires forall c :: c in id ==> IsIdChar(c)
    requires j + |id| == |url| || !IsIdChar(url[j + |id|])
    ensures IdRun(url, j) == id
    decreases |id|
  {
    if id != [] {
      assert url[j] == id[0] && id[0] in id;
      assert url[j + 1..j + 1 + |id[1..]|] == id[1..];
      assert forall c :: c in id[1..] ==> c in id;
      MaximalRunIsIdRun(url, j + 1, id[1..]);
    }
  }

  /** The search result is determined by the url: at most one position and one id qualify. */
  lemma SearchResultUnique(url: string, i: int, id: string, i': int, id': string)
    requires IsSearchResult(url, i, id) && IsSearchResult(url, i', id')
    ensures i == i' && id == id'
  {
    SearchPositionUnique(url, i, id, i', id');
    MaximalRunIsIdRun(url, i + 3, id);
    MaximalRunIsIdRun(url, i + 3, id');
  }

  lemma SearchPositionUnique(url: string, i: int, id: string, i': int, id': string)
    requires IsSearchResult(url, i, id) && IsSearchResult(url, i', id')
    ensures i == i'
  {
    assert MatchesAt(url, i) && MatchesAt(url, i');
  }

  /** `ExtractDocId` returns exactly the search result, and `None` exactly when there is none. */
  lemma ExtractDocIdIsSearch(url: string, id: string)
    ensures ExtractDocId(url) == Some(id) <==> exists i :: IsSearchResult(url, i, id)
  {
    if i :| IsSearchResult(url, i, id) {
      assert ExtractDocId(url).Some?;
      var j :| IsSearchResult(url, j, ExtractDocId(url).value);
      SearchResultUnique(url, i, id, j, ExtractDocId(url).value);
    }
  }

  /** The example url of the handler's documentation, assembled from short pieces so that
      indexing into it stays cheap. */
  const ExampleUrl := "https://" + "docs.goo" + "gle.com/" + "document" + "/d/" + "ABC123XYZ456" + "/edit"

  /** Positions without a match can be skipped: the search from `from` finds what the search
      from `k` finds. */
  lemma {:induction false} FirstMatchSkips(url: string, from: nat, k: nat)
    requires from <= k <= |url|
    requires forall j :: from <= j < k ==> !MatchesAt(url, j)
    ensures FirstMatch(url, from) == FirstMatch(url, k)
    decreases k - from
  {
    if from < k {
      FirstMatchSkips(url, from + 1, k);
    }
  }

  /** No match starts in positions 24..31 (likewise below, eight positions per lemma). */
  lemma ExampleNoMatchFrom24()
    ensures forall j :: 24 <= j < 32 ==> !MatchesAt(ExampleUrl, j)
  {
    assert !MatchesAt(ExampleUrl, 24);
    assert !MatchesAt(ExampleUrl, 25);
    assert !MatchesAt(ExampleUrl, 26);
    assert !MatchesAt(ExampleUrl, 27);
    assert !MatchesAt(ExampleUrl, 28);
    assert !MatchesAt(ExampleUrl, 29);
    assert !MatchesAt(ExampleUrl, 30);
    assert !MatchesAt(ExampleUrl, 31);
  }

  lemma ExampleNoMatchFrom16()
    ensures forall j :: 16 <= j < 24 ==> !MatchesAt(ExampleUrl, j)
  {
    assert !MatchesAt(ExampleUrl, 16);
    assert !MatchesAt(ExampleUrl, 17);
    assert !MatchesAt(ExampleUrl, 18);
    assert !MatchesAt(ExampleUrl, 19);
    assert !MatchesAt(ExampleUrl, 20);
    assert !MatchesAt(ExampleUrl, 21);
    assert !MatchesAt(ExampleUrl, 22);
    assert !MatchesAt(ExampleUrl, 23);
  }

  lemma ExampleNoMatchFrom8()
    ensures forall j :: 8 <= j < 16 ==> !MatchesAt(ExampleUrl, j)
  {
    assert !MatchesAt(ExampleUrl, 8);
    assert !MatchesAt(ExampleUrl, 9);
    assert !MatchesAt(ExampleUrl, 10);
    assert !MatchesAt(ExampleUrl, 11);
    assert !MatchesAt(ExampleUrl, 12);
    assert !MatchesAt(ExampleUrl, 13);
    assert !MatchesAt(ExampleUrl, 14);
    assert !MatchesAt(ExampleUrl, 15);
  }

  lemma ExampleNoMatchFrom0()
    ensures forall j :: 0 <= j < 8 ==> !MatchesAt(ExampleUrl, j)
  {
    assert !MatchesAt(ExampleUrl, 0);
    assert !MatchesAt(ExampleUrl, 1);
    assert !MatchesAt(ExampleUrl, 2);
    assert !MatchesAt(ExampleUrl, 3);
    assert !MatchesAt(ExampleUrl, 4);
    assert !MatchesAt(ExampleUrl, 5);
    assert !MatchesAt(ExampleUrl, 6);
    assert !MatchesAt(ExampleUrl, 7);
  }

  /** The first "/d/" followed by an id character in the example url is at position 32. */
  lemma ExampleFirstMatch()
    ensures FirstMatch(ExampleUrl, 0) == Some(32)
  {
    ExampleNoMatchFrom0();
    ExampleNoMatchFrom8();
    ExampleNoMatchFrom16();
    ExampleNoMatchFrom24();
    FirstMatchSkips(ExampleUrl, 0, 32);
    assert MatchesAt(ExampleUrl, 32);
  }

  /** The greedy group of the example url is "ABC123XYZ456", stopped by the '/' of "/edit". */
  lemma ExampleIdRun()
    ensures IdRun(ExampleUrl, 35) == "ABC123XYZ456"
  {
    var id := "ABC123XYZ456";
    assert ExampleUrl[35..47] == id;
    assert forall c :: c in id ==> IsIdChar(c);
    assert ExampleUrl[47] == '/';
    MaximalRunIsIdRun(ExampleUrl, 35, id);
  }

  /** The example in the handler's documentation: the id of
      "https://docs.google.com/document/d/ABC123XYZ456/edit" is "ABC123XYZ456". */
  lemma ExampleDocId()
    ensures ExtractDocId(ExampleUrl) == Some("ABC123XYZ456")
  {
    ExampleFirstMatch();
    ExampleIdRun();
  }
}
