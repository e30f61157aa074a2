/** The `/search/:query` extraction: one result per `.bsx` card of the search
    page, in document order, every field read with a fallback to `''`. */
module Search {
  import opened Wrappers
  import opened JsText
  import opened Dom
  import opened MangaHref

  /** One `.bsx` card, reduced to the results of the queries made inside it:
      its first `a`, its first `img`, its `.epxs` (latest chapter label) and
      its `.numscore` (rating). */
  datatype Card = Card(link: Option<Node>, img: Option<Node>, epxs: Option<Node>, numscore: Option<Node>)

  /** One entry of `results`; `manhwaId` is the JSON field `manhwa_id` and
      `latestChapter` is `latest_chapter`. */
  datatype SearchResult = SearchResult(
    title: string,
    manhwaId: string,
    image: string,
    latestChapter: string,
    rating: string)

  /** The record pushed for one card. A missing element or attribute yields
      `''` for the fields read from it and leaves the other fields alone. */
  function ResultOf(card: Card): (r: SearchResult)
    ensures card.link.Some? && "title" in card.link.value.attributes ==>
      r.title == card.link.value.attributes["title"]
    ensures !(card.link.Some? && "title" in card.link.value.attributes) ==> r.title == ""
    ensures card.link.Some? && "href" in card.link.value.attributes ==>
      r.manhwaId == ManhwaId(card.link.value.attributes["href"])
    ensures !(card.link.Some? && "href" in card.link.value.attributes) ==> r.manhwaId == ""
    ensures card.img.Some? && "src" in card.img.value.attributes ==> r.image == card.img.value.attributes["src"]
    ensures !(card.img.Some? && "src" in card.img.value.attributes) ==> r.image == ""
    ensures card.epxs.None? ==> r.latestChapter == ""
    ensures card.epxs.Some? ==> IsTrimOf(card.epxs.value.text, r.latestChapter)
    ensures card.numscore.None? ==> r.rating == ""
    ensures card.numscore.Some? ==> IsTrimOf(card.numscore.value.text, r.rating)
  {
    var url := AttrOr(card.link, "href");
    ManhwaIdEmptyWithoutMarker("");
    SearchResult(
      AttrOr(card.link, "title"),
      ManhwaId(url),
      AttrOr(card.img, "src"),
      TextOr(card.epxs),
      TextOr(card.numscore))
  }

  /** `results`: the cards visited in document order, one record pushed per card. */
  function SearchResults(cards: seq<Card>): (r: seq<SearchResult>)
    ensures |r| == |cards|
    ensures forall i :: 0 <= i < |cards| ==> r[i] == ResultOf(cards[i])
  {
    if |cards| == 0 then [] else SearchResults(cards[..|cards| - 1]) + [ResultOf(cards[|cards| - 1])]
  }

  /** Extraction commutes with splitting the page: the results of two runs
      of cards are the results of each run, in the same order. */
  lemma {:induction false} SearchResultsAppend(a: seq<Card>, b: seq<Card>)
    ensures SearchResults(a + b) == SearchResults(a) + SearchResults(b)
  {
    var r := SearchResults(a + b);
    var joined := SearchResults(a) + SearchResults(b);
    forall i | 0 <= i < |r|
      ensures r[i] == joined[i]
    {
      if i < |a| {
        assert (a + b)[i] == a[i];
      } else {
        assert (a + b)[i] == b[i - |a|];
      }
    }
  }
}
