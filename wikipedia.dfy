/** What the two Wikipedia clients do with a response once it is parsed:
    listing the titles of a search response, choosing the extract of a page
    response, and quoting the head of a body that failed to parse. */
module Wikipedia {
  import opened Text

  /** One element of `query.search` in a parsed search response. */
  datatype SearchEntry = SearchEntry(title: Bytes, snippet: Bytes)

  /** One value of `query.pages` in a parsed page response. */
  datatype Page = Page(extract: Bytes)

  /** The error `getWikipediaContent` reports for a response without pages. */
  const NoContentFound := Ascii("no content found")

  /** The titles of a search response, one per entry, in the service's order. */
  method ExtractTitles(search: seq<SearchEntry>) returns (titles: seq<Bytes>)
    ensures |titles| == |search|
    ensures forall i :: 0 <= i < |search| ==> titles[i] == search[i].title
  {
    titles := [];
    for k := 0 to |search|
      invariant |titles| == k
      invariant forall i :: 0 <= i < k ==> titles[i] == search[i].title
    {
      titles := titles + [search[k].title];
    }
  }

  /** The extract of a page response, keyed by page id. Go visits a map in
      no defined order and returns the first page it meets, so any page may
      be the one chosen. */
  method SelectPage(pages: map<Bytes, Page>) returns (r: Result<Bytes>)
    ensures r.Err? <==> |pages| == 0
    ensures r.Err? ==> r.error == NoContentFound
    ensures r.Ok? ==> exists id :: id in pages && pages[id].extract == r.value
  {
    if |pages| == 0 {
      return Err(NoContentFound);
    }
    var id :| id in pages;
    return Ok(pages[id].extract);
  }

  function Min(a: int, b: int): (m: int)
    ensures m <= a && m <= b
    ensures m == a || m == b
  {
    if a < b then a else b
  }

  /** The part of an unparsable search body quoted in the error: the body
      itself when it has at most 200 bytes, otherwise its first 200 bytes. */
  function BodySnippet(body: Bytes): (r: Bytes)
    ensures |r| <= 200 && |r| <= |body| && r == body[..|r|]
    ensures |body| <= 200 ==> r == body
    ensures |body| > 200 ==> |r| == 200
  {
    body[..Min(200, |body|)]
  }
}
