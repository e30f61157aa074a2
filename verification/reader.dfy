/** The `/read/:chapterId` extraction: scan the page's inline scripts for a
    `ts_reader.run(...)` payload, decide between "not found", failure and
    success, and derive the previous/next chapter ids from the navigation
    buttons. */
module Reader {
  import opened Wrappers
  import opened JsText
  import opened Dom
  import opened JsonValues
  import opened ReaderPayload

  /** The base every navigation `href` is resolved against. */
  const SiteBase: string := "https://komikstation.org"

  /** The status the framework answers with when the handler never sets one. */
  const DefaultStatus: int := 200
  const NotFoundStatus: int := 404
  const FailureStatus: int := 500

  const NotFoundMessage: string := "Reader data not found"
  const FailureMessage: string := "An error occurred while fetching the chapter."

  /** `JSON.parse`: `None` when it throws. */
  type Parser = string -> Option<Json>

  /** `new URL(href, base).pathname`: `None` when the constructor throws. */
  type PathnameOf = (string, string) -> Option<string>

  /** The chapter page, reduced to the results of its queries: the text of
      every `script` in document order, the `h1.entry-title`, the
      `.ch-prev-btn` and the `.ch-next-btn`. */
  datatype ReaderPage = ReaderPage(
    scripts: seq<string>,
    heading: Option<Node>,
    prevButton: Option<Node>,
    nextButton: Option<Node>)

  // ---------------------------------------------------------------------
  // The script scan
  // ---------------------------------------------------------------------

  /** What one script does to the scan. */
  datatype Effect = Skip | Parsed(value: Json) | ParseFailed

  /** A script without the marker, without a match or with an empty capture
      is skipped; otherwise the capture is parsed. */
  function EffectOf(text: string, parse: Parser): (e: Effect)
    ensures e.Parsed? <==>
      && Includes(text, Marker) && MatchPayload(text).Some? && MatchPayload(text).value != ""
      && parse(MatchPayload(text).value).Some?
    ensures e.Parsed? ==> parse(MatchPayload(text).value) == Some(e.value)
    ensures e.ParseFailed? <==>
      && Includes(text, Marker) && MatchPayload(text).Some? && MatchPayload(text).value != ""
      && parse(MatchPayload(text).value).None?
  {
    if !Includes(text, Marker) then Skip
    else match MatchPayload(text)
      case None => Skip
      case Some(c) =>
        if c == "" then Skip
        else match parse(c)
          case None => ParseFailed
          case Some(v) => Parsed(v)
  }

  /** `readerData` and whether some callback set the status to 500. */
  datatype ScanState = ScanState(readerData: Json, failed: bool)

  /** The state before the first script: `readerData` is `null`. */
  const Initial: ScanState := ScanState(JNull, false)

  function Apply(st: ScanState, e: Effect): ScanState {
    match e
    case Skip => st
    case Parsed(v) => st.(readerData := v)
    case ParseFailed => st.(failed := true)
  }

  /** The effects applied in order, as the `forEach` applies them. */
  function Run(effects: seq<Effect>): ScanState {
    if |effects| == 0 then Initial
    else Apply(Run(effects[..|effects| - 1]), effects[|effects| - 1])
  }

  /** The status was set to 500 exactly when some effect was `ParseFailed`. */
  lemma {:induction false} RunFailedMeaning(effects: seq<Effect>)
    ensures Run(effects).failed <==> exists i :: 0 <= i < |effects| && effects[i].ParseFailed?
  {
    if |effects| > 0 {
      var n := |effects| - 1;
      RunFailedMeaning(effects[..n]);
      assert forall i :: 0 <= i < n ==> effects[..n][i] == effects[i];
    }
  }

  /** Without a `Parsed` effect `readerData` keeps its initial `null`. */
  lemma {:induction false} RunWithoutPayload(effects: seq<Effect>)
    ensures (forall i :: 0 <= i < |effects| ==> !effects[i].Parsed?) ==> Run(effects).readerData == JNull
  {
    if |effects| > 0 {
      var n := |effects| - 1;
      RunWithoutPayload(effects[..n]);
      assert forall i :: 0 <= i < n ==> effects[..n][i] == effects[i];
    }
  }

  /** The last `Parsed` effect is `readerData`. */
  lemma {:induction false} RunLastPayload(effects: seq<Effect>)
    ensures forall i :: 0 <= i < |effects| && effects[i].Parsed?
                        && (forall j :: i < j < |effects| ==> !effects[j].Parsed?) ==>
              Run(effects).readerData == effects[i].value
  {
    if |effects| > 0 {
      var n := |effects| - 1;
      RunLastPayload(effects[..n]);
      assert forall i :: 0 <= i < n ==> effects[..n][i] == effects[i];
    }
  }

  /** The effect of each script, in document order. */
  function Effects(scripts: seq<string>, parse: Parser): (r: seq<Effect>)
    ensures |r| == |scripts|
    ensures forall i :: 0 <= i < |scripts| ==> r[i] == EffectOf(scripts[i], parse)
  {
    seq(|scripts|, i requires 0 <= i < |scripts| => EffectOf(scripts[i], parse))
  }

  /** The `forEach` over the scripts. */
  function Scan(scripts: seq<string>, parse: Parser): ScanState {
    Run(Effects(scripts, parse))
  }

  /** With no script yielding a parsed payload, `readerData` stays `null`. */
  lemma ScanWithoutPayload(scripts: seq<string>, parse: Parser)
    ensures (forall i :: 0 <= i < |scripts| ==> !EffectOf(scripts[i], parse).Parsed?) ==> Scan(scripts, parse).readerData == JNull
  {
    RunWithoutPayload(Effects(scripts, parse));
  }

  /** The last script whose payload parses gives `readerData`. */
  lemma ScanLastPayload(scripts: seq<string>, parse: Parser)
    ensures forall i :: 0 <= i < |scripts| && EffectOf(scripts[i], parse).Parsed?
                        && (forall j :: i < j < |scripts| ==> !EffectOf(scripts[j], parse).Parsed?) ==>
              Scan(scripts, parse).readerData == EffectOf(scripts[i], parse).value
  {
    var effects := Effects(scripts, parse);
    RunLastPayload(effects);
    forall i | 0 <= i < |scripts| && EffectOf(scripts[i], parse).Parsed?
               && (forall j :: i < j < |scripts| ==> !EffectOf(scripts[j], parse).Parsed?)
      ensures effects[i].Parsed? && forall j :: i < j < |effects| ==> !effects[j].Parsed?
    {
    }
  }

  /** The status was set to 500 exactly when some script's payload failed to parse. */
  lemma ScanFailedMeaning(scripts: seq<string>, parse: Parser)
    ensures Scan(scripts, parse).failed <==> exists i :: 0 <= i < |scripts| && EffectOf(scripts[i], parse).ParseFailed?
  {
    var effects := Effects(scripts, parse);
    RunFailedMeaning(effects);
    if exists i :: 0 <= i < |scripts| && EffectOf(scripts[i], parse).ParseFailed? {
      var i :| 0 <= i < |scripts| && EffectOf(scripts[i], parse).ParseFailed?;
      assert effects[i].ParseFailed?;
    }
  }

  // ---------------------------------------------------------------------
  // The outcome
  // ---------------------------------------------------------------------

  /** `readerData.sources[0]` when `readerData`, its `sources` and that first
      source are all truthy; `None` is the not-found condition. */
  function SourceZero(data: Json): (r: Option<Json>)
    ensures r.Some? <==>
      && Truthy(data) && Present(Property(data, "sources"))
      && Present(First(Property(data, "sources").value))
    ensures r.Some? ==> r == First(Property(data, "sources").value) && Truthy(r.value)
  {
    if !Truthy(data) then None
    else
      var sources := Property(data, "sources");
      if !Present(sources) then None
      else
        var first := First(sources.value);
        if !Present(first) then None else first
  }

  /** A navigation id: no link, the id, or an `href` the URL constructor rejects. */
  datatype Nav = NoLink | ChapterId(id: string) | BadUrl

  /** `.slice(1)`: the string without its first character. */
  function SliceFromOne(p: string): (r: string)
    ensures |p| > 0 ==> [p[0]] + r == p
    ensures |p| == 0 ==> r == ""
  {
    if |p| == 0 then "" else p[1..]
  }

  /** `href ? new URL(href, SiteBase).pathname.slice(1) : null`, with `href`
      the button's `href` attribute. */
  function NavOf(button: Option<Node>, pathnameOf: PathnameOf): (r: Nav)
    ensures r.NoLink? <==> Attr(button, "href").None? || Attr(button, "href").value == ""
    ensures r.BadUrl? <==>
      && Attr(button, "href").Some? && Attr(button, "href").value != ""
      && pathnameOf(Attr(button, "href").value, SiteBase).None?
    ensures r.ChapterId? ==> exists path :: pathnameOf(Attr(button, "href").value, SiteBase) == Some(path)
                                       && (if path == "" then r.id == "" else [path[0]] + r.id == path)
  {
    var href := Attr(button, "href");
    if href.None? || href.value == "" then NoLink
    else match pathnameOf(href.value, SiteBase)
      case None => BadUrl
      case Some(path) => ChapterId(SliceFromOne(path))
  }

  /** The id a successful navigation lookup puts in the body. */
  function NavField(n: Nav): Option<string>
    requires !n.BadUrl?
  {
    if n.ChapterId? then Some(n.id) else None
  }

  /** The response body: `{ error, images: [] }`, or the chapter with
      `images` copied from the payload (`None` is `undefined`, which leaves
      the field out of the JSON) and `prev_chapter`/`next_chapter`. */
  datatype ReaderBody =
    | ReaderError(error: string)
    | Chapter(title: string, images: Option<Json>, prevChapter: Option<string>, nextChapter: Option<string>)

  datatype Response = Response(status: int, body: ReaderBody)

  /** The extraction part of the `/read/:chapterId` handler. */
  function ReadChapter(page: ReaderPage, parse: Parser, pathnameOf: PathnameOf): (r: Response)
    ensures r.status == NotFoundStatus <==> SourceZero(Scan(page.scripts, parse).readerData).None?
    ensures r.status == NotFoundStatus ==> r.body == ReaderError(NotFoundMessage)
    ensures r.body.ReaderError? ==> r.body.error in {NotFoundMessage, FailureMessage}
    ensures r.body.ReaderError? && r.status != NotFoundStatus ==>
              r.status == FailureStatus && r.body.error == FailureMessage
              && (NavOf(page.prevButton, pathnameOf).BadUrl? || NavOf(page.nextButton, pathnameOf).BadUrl?)
    ensures r.body.Chapter? <==>
              && SourceZero(Scan(page.scripts, parse).readerData).Some?
              && !NavOf(page.prevButton, pathnameOf).BadUrl? && !NavOf(page.nextButton, pathnameOf).BadUrl?
    ensures r.body.Chapter? ==>
              && r.body.prevChapter == NavField(NavOf(page.prevButton, pathnameOf))
              && r.body.nextChapter == NavField(NavOf(page.nextButton, pathnameOf))
    ensures r.body.Chapter? ==>
              && r.body.images == Property(SourceZero(Scan(page.scripts, parse).readerData).value, "images")
              && r.body.title == TextOr(page.heading)
              && (r.status == FailureStatus <==>
                    exists i :: 0 <= i < |page.scripts| && EffectOf(page.scripts[i], parse).ParseFailed?)
              && (r.status == DefaultStatus <==>
                    forall i :: 0 <= i < |page.scripts| ==> !EffectOf(page.scripts[i], parse).ParseFailed?)
  {
    ScanFailedMeaning(page.scripts, parse);
    var scanned := Scan(page.scripts, parse);
    var status := if scanned.failed then FailureStatus else DefaultStatus;
    match SourceZero(scanned.readerData)
    case None => Response(NotFoundStatus, ReaderError(NotFoundMessage))
    case Some(source) =>
      var title := TextOr(page.heading);
      var prev := NavOf(page.prevButton, pathnameOf);
      var next := NavOf(page.nextButton, pathnameOf);
      if prev.BadUrl? || next.BadUrl? then Response(FailureStatus, ReaderError(FailureMessage))
      else Response(status, Chapter(title, Property(source, "images"), NavField(prev), NavField(next)))
  }

  // ---------------------------------------------------------------------
  // Properties of the outcome
  // ---------------------------------------------------------------------

  /** With no script yielding a parsed payload the answer is the not-found
      body with status 404, even when some payload failed to parse. */
  lemma NotFoundWithoutPayload(page: ReaderPage, parse: Parser, pathnameOf: PathnameOf)
    requires forall i :: 0 <= i < |page.scripts| ==> !EffectOf(page.scripts[i], parse).Parsed?
    ensures ReadChapter(page, parse, pathnameOf) == Response(NotFoundStatus, ReaderError(NotFoundMessage))
  {
    ScanWithoutPayload(page.scripts, parse);
  }

  /** The last script whose payload parses decides the answer: when its
      `sources[0]` is there and both buttons resolve, the body is the
      chapter with that source's `images`, whatever earlier scripts held. */
  lemma LastPayloadWins(page: ReaderPage, parse: Parser, pathnameOf: PathnameOf, i: nat)
    requires i < |page.scripts|
    requires EffectOf(page.scripts[i], parse).Parsed?
    requires forall j :: i < j < |page.scripts| ==> !EffectOf(page.scripts[j], parse).Parsed?
    requires SourceZero(EffectOf(page.scripts[i], parse).value).Some?
    requires !NavOf(page.prevButton, pathnameOf).BadUrl? && !NavOf(page.nextButton, pathnameOf).BadUrl?
    ensures ReadChapter(page, parse, pathnameOf).body == Chapter(
      TextOr(page.heading),
      Property(SourceZero(EffectOf(page.scripts[i], parse).value).value, "images"),
      NavField(NavOf(page.prevButton, pathnameOf)),
      NavField(NavOf(page.nextButton, pathnameOf)))
  {
    ScanLastPayload(page.scripts, parse);
  }

  /** For a last parsed payload shaped `{ sources: [ { images, ... }, ... ], ... }`
      with both buttons resolving, the body's `images` is that first source's
      `images` as the payload holds it, and undefined when it has none. */
  lemma ImagesOfLastPayload(page: ReaderPage, parse: Parser, pathnameOf: PathnameOf, i: nat,
                            f: map<string, Json>, xs: seq<Json>, g: map<string, Json>)
    requires i < |page.scripts|
    requires EffectOf(page.scripts[i], parse) == Parsed(JObject(f))
    requires forall j :: i < j < |page.scripts| ==> !EffectOf(page.scripts[j], parse).Parsed?
    requires "sources" in f && f["sources"] == JArray(xs) && |xs| > 0 && xs[0] == JObject(g)
    requires !NavOf(page.prevButton, pathnameOf).BadUrl? && !NavOf(page.nextButton, pathnameOf).BadUrl?
    ensures ReadChapter(page, parse, pathnameOf).body == Chapter(
      TextOr(page.heading),
      if "images" in g then Some(g["images"]) else None,
      NavField(NavOf(page.prevButton, pathnameOf)),
      NavField(NavOf(page.nextButton, pathnameOf)))
  {
    assert SourceZero(JObject(f)) == Some(JObject(g));
    LastPayloadWins(page, parse, pathnameOf, i);
  }

  /** A payload parsed before a later one fails to parse still answers: the
      chapter body, with status 500. */
  lemma PayloadThenFailedParse(first: string, second: string, parse: Parser, pathnameOf: PathnameOf)
    requires EffectOf(first, parse).Parsed? && SourceZero(EffectOf(first, parse).value).Some?
    requires EffectOf(second, parse).ParseFailed?
    ensures ReadChapter(ReaderPage([first, second], None, None, None), parse, pathnameOf)
         == Response(FailureStatus, Chapter("", Property(SourceZero(EffectOf(first, parse).value).value, "images"), None, None))
  {
    var scripts := [first, second];
    var scanned := Scan(scripts, parse);
    ScanFailedMeaning(scripts, parse);
    ScanLastPayload(scripts, parse);
    assert EffectOf(scripts[1], parse).ParseFailed?;
    assert scanned.failed;
    assert EffectOf(scripts[0], parse).Parsed?;
    assert forall j :: 0 < j < |scripts| ==> !EffectOf(scripts[j], parse).Parsed?;
    assert scanned.readerData == EffectOf(first, parse).value;
  }

  /** A script `ts_reader.run(<c>);` with a one-character payload is tried
      and its capture is `c`. */
  lemma OneCharacterScript(c: char, parse: Parser)
    requires !IsLineTerminator(c)
    ensures EffectOf(Call + [c] + Close, parse) == (if parse([c]).None? then ParseFailed else Parsed(parse([c]).value))
  {
    assert !StartsAt([c], 0, Close);
    PayloadRoundTrip([c]);
    MatchImpliesMarker(Call + [c] + Close);
  }

  /** The `return` in the script callback does not stop the scan: a script
      whose payload fails to parse followed by one whose payload parses, with
      a `sources[0]`, gives the chapter body with status 500. */
  lemma FailedParseThenPayload(first: string, second: string, parse: Parser, pathnameOf: PathnameOf)
    requires EffectOf(first, parse).ParseFailed?
    requires EffectOf(second, parse).Parsed? && SourceZero(EffectOf(second, parse).value).Some?
    ensures ReadChapter(ReaderPage([first, second], None, None, None), parse, pathnameOf)
         == Response(FailureStatus, Chapter("", Property(SourceZero(EffectOf(second, parse).value).value, "images"), None, None))
  {
    var scripts := [first, second];
    var scanned := Scan(scripts, parse);
    ScanFailedMeaning(scripts, parse);
    ScanLastPayload(scripts, parse);
    assert EffectOf(scripts[0], parse).ParseFailed?;
    assert scanned.failed;
    assert scanned.readerData == EffectOf(second, parse).value;
  }

  /** The same with the scripts `ts_reader.run(x);` and `ts_reader.run(y);`. */
  lemma FailedParseThenPayloadAnswers500(parse: Parser, pathnameOf: PathnameOf, images: Json)
    requires parse("x").None?
    requires parse("y") == Some(JObject(map["sources" := JArray([JObject(map["images" := images])])]))
    ensures ReadChapter(ReaderPage([Call + "x" + Close, Call + "y" + Close], None, None, None), parse, pathnameOf)
         == Response(FailureStatus, Chapter("", Some(images), None, None))
  {
    OneCharacterScript('x', parse);
    OneCharacterScript('y', parse);
    var source := JObject(map["images" := images]);
    assert SourceZero(parse("y").value) == Some(source);
    assert Property(source, "images") == Some(images);
    FailedParseThenPayload(Call + "x" + Close, Call + "y" + Close, parse, pathnameOf);
  }
}
