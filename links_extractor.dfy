/** Finding the links in a message (src/services/LinksExtractor.ts). The
    tokens `find(text)` returns and the `new URL` parser are parameters. */
module LinksExtractor {
  import opened Js
  import opened Urls
  import opened LinkValidator

  predicate NoDuplicates(s: seq<string>)
  {
    forall i, j :: 0 <= i < j < |s| ==> s[i] != s[j]
  }

  /** Token `k` is the first link to `href`. */
  predicate IsFirstOccurrence(tokens: seq<Token>, href: string, k: int)
  {
    && 0 <= k < |tokens| && tokens[k].isLink && tokens[k].href == href
    && forall m :: 0 <= m < k ==> !(tokens[m].isLink && tokens[m].href == href)
  }

  /** Some token is a link to `href`. */
  ghost predicate LinksTo(tokens: seq<Token>, href: string)
  {
    exists i :: 0 <= i < |tokens| && tokens[i].isLink && tokens[i].href == href
  }

  /** The `reduce` into a `Set<string>` and `Array.from` of it: the hrefs of
      the link tokens, each once, in the order they were first added. */
  function LinkHrefs(tokens: seq<Token>): (hrefs: seq<string>)
    ensures |hrefs| <= |tokens|
  {
    if tokens == [] then []
    else
      var seen := LinkHrefs(tokens[..|tokens| - 1]);
      var token := tokens[|tokens| - 1];
      if token.isLink && token.href !in seen then seen + [token.href] else seen
  }

  /** The hrefs are those of the link tokens, each exactly once. */
  lemma {:induction false} LinkHrefsMembers(tokens: seq<Token>)
    ensures NoDuplicates(LinkHrefs(tokens))
    ensures forall href :: href in LinkHrefs(tokens) <==> LinksTo(tokens, href)
  {
    if tokens != [] {
      var init := tokens[..|tokens| - 1];
      var token := tokens[|tokens| - 1];
      LinkHrefsMembers(init);
      forall href ensures LinksTo(tokens, href) <==> LinksTo(init, href) || (token.isLink && token.href == href) {
        if LinksTo(tokens, href) {
          var i :| 0 <= i < |tokens| && tokens[i].isLink && tokens[i].href == href;
          if i < |init| {
            assert init[i] == tokens[i];
          }
        }
        if LinksTo(init, href) {
          var i :| 0 <= i < |init| && init[i].isLink && init[i].href == href;
          assert tokens[i] == init[i];
        }
      }
    }
  }

  /** An href that the earlier tokens already link to has its first
      occurrence among them. */
  lemma FirstOccurrenceInInit(tokens: seq<Token>, href: string, k: int)
    requires tokens != [] && IsFirstOccurrence(tokens, href, k)
    requires href in LinkHrefs(tokens[..|tokens| - 1])
    ensures k < |tokens| - 1 && IsFirstOccurrence(tokens[..|tokens| - 1], href, k)
  {
    var init := tokens[..|tokens| - 1];
    LinkHrefsMembers(init);
    var i :| 0 <= i < |init| && init[i].isLink && init[i].href == href;
    assert tokens[i] == init[i];
    assert k <= i;
  }

  /** Duplicates are dropped where they repeat, so the hrefs keep the order
      of their first occurrences. */
  lemma {:induction false} KeepsFirstSeenOrder(tokens: seq<Token>, i: int, j: int, ki: int, kj: int)
    requires 0 <= i < j < |LinkHrefs(tokens)|
    requires IsFirstOccurrence(tokens, LinkHrefs(tokens)[i], ki)
    requires IsFirstOccurrence(tokens, LinkHrefs(tokens)[j], kj)
    ensures ki < kj
  {
    var hrefs := LinkHrefs(tokens);
    var init := tokens[..|tokens| - 1];
    var seen := LinkHrefs(init);
    assert hrefs[..|seen|] == seen;
    FirstOccurrenceInInit(tokens, hrefs[i], ki);
    if j < |seen| {
      FirstOccurrenceInInit(tokens, hrefs[j], kj);
      KeepsFirstSeenOrder(init, i, j, ki, kj);
    } else {
      assert hrefs[j] == tokens[|tokens| - 1].href && hrefs[j] !in seen;
      LinkHrefsMembers(init);
      assert forall m :: 0 <= m < |init| ==> init[m] == tokens[m];
    }
  }

  /** The second `reduce`: each href through `new URL`, dropping those it
      rejects, order kept. */
  function ParseAll(hrefs: seq<string>, parse: string -> Option<Url>): (urls: seq<Url>)
    ensures |urls| <= |hrefs|
  {
    if hrefs == [] then []
    else
      var parsed := ParseAll(hrefs[..|hrefs| - 1], parse);
      match parse(hrefs[|hrefs| - 1])
      case None => parsed
      case Some(url) => parsed + [url]
  }

  /** The URLs kept are exactly the parses of the hrefs that parse. */
  lemma {:induction false} ParseAllMembers(hrefs: seq<string>, parse: string -> Option<Url>)
    ensures forall url :: url in ParseAll(hrefs, parse) ==> exists href :: href in hrefs && parse(href) == Some(url)
    ensures forall href :: href in hrefs && parse(href).Some? ==> parse(href).value in ParseAll(hrefs, parse)
  {
    if hrefs != [] {
      var init := hrefs[..|hrefs| - 1];
      ParseAllMembers(init, parse);
      assert forall h :: h in init ==> h in hrefs;
      assert forall h :: h in hrefs ==> h in init || h == hrefs[|hrefs| - 1];
    }
  }

  /** When every href parses, nothing is dropped and the order is kept. */
  lemma {:induction false} ParseAllTotal(hrefs: seq<string>, parse: string -> Option<Url>)
    requires forall href :: href in hrefs ==> parse(href).Some?
    ensures var urls := ParseAll(hrefs, parse);
      |urls| == |hrefs| && forall i :: 0 <= i < |urls| ==> urls[i] == parse(hrefs[i]).value
  {
    if hrefs != [] {
      var init := hrefs[..|hrefs| - 1];
      assert forall h :: h in init ==> h in hrefs;
      ParseAllTotal(init, parse);
    }
  }

  /** `getAllValidURLsFromText(text)`. */
  function AllValidUrls(text: string, find: string -> seq<Token>, parse: string -> Option<Url>): seq<Url>
  {
    ParseAll(LinkHrefs(find(text)), parse)
  }

  /** What `getURLResponse` promises about the response to `url`: the URL
      itself, downloadable exactly when supported, and otherwise the message
      the bot replies with. */
  ghost predicate Answers(url: Url, response: URLResponse)
  {
    && response.url == url
    && (response.Downloadable? <==> IsSupportedVideoLink(url))
    && (!IsKnownHost(url.hostname) ==> response == Unknown(url, UnknownDomainMessage(url.hostname)))
    && (IsKnownHost(url.hostname) && !IsSupportedVideoLink(url) ==>
          response == Unknown(url, UnsupportedLinkMessage(url)))
  }

  /** The watch pages of the two videos the extractor's tests use. */
  const WatchPrefix: string := "https" + "://" + "www.youtube.com" + "/watch" + "?v="
  const FirstVideo: string := WatchPrefix + "yQebXIkBAws"
  const SecondVideo: string := WatchPrefix + "7HPitFccK10"

  /** The parsed form of `https://www.youtube.com/watch?v=<id>`. */
  function WatchPage(id: string): (url: Url)
    ensures url.hostname == "www.youtube.com" && url.pathname == "/watch"
  {
    Url("https", "www.youtube.com", "", "/watch", "?v=" + id, "", [("v", id)])
  }

  /** A watch page with a non-empty id is a supported video link. */
  lemma WatchPageIsSupported(id: string)
    requires id != ""
    ensures IsSupportedVideoLink(WatchPage(id))
  {
    var url := WatchPage(id);
    assert Names(url.hostname, "youtube.com");
    assert IsFirstEntry(url.params, "v", 0);
    assert IsVideoOf("youtube.com", url);
  }

  /** `url.toString()` of a watch page gives back the link it was parsed from. */
  lemma WatchPageHref(id: string)
    ensures Href(WatchPage(id)) == WatchPrefix + id
  {
    assert Host(WatchPage(id)) == "www.youtube.com";
  }

  /** One more token: a link to an href not seen yet is appended. */
  lemma LinkHrefsAppend(tokens: seq<Token>, token: Token)
    ensures LinkHrefs(tokens + [token]) ==
      if token.isLink && token.href !in LinkHrefs(tokens) then LinkHrefs(tokens) + [token.href]
      else LinkHrefs(tokens)
  {
    assert (tokens + [token])[..|tokens|] == tokens;
  }

  /** One more href: it is parsed and appended, or dropped. */
  lemma ParseAllAppend(hrefs: seq<string>, href: string, parse: string -> Option<Url>)
    ensures ParseAll(hrefs + [href], parse) ==
      if parse(href).Some? then ParseAll(hrefs, parse) + [parse(href).value] else ParseAll(hrefs, parse)
  {
    assert (hrefs + [href])[..|hrefs|] == hrefs;
  }

  /** The hrefs of a message with text, a link, more text and a link to a
      different page: both links, in message order. */
  lemma TwoLinkHrefs(lead: Token, first: string, middle: Token, second: string)
    requires !lead.isLink && !middle.isLink && first != second
    ensures LinkHrefs([lead, Token(true, first), middle, Token(true, second)]) == [first, second]
  {
    var one, two := Token(true, first), Token(true, second);
    LinkHrefsAppend([], lead);
    assert [] + [lead] == [lead];
    assert LinkHrefs([lead]) == [];
    LinkHrefsAppend([lead], one);
    assert [lead] + [one] == [lead, one];
    assert LinkHrefs([lead, one]) == [first];
    LinkHrefsAppend([lead, one], middle);
    assert [lead, one] + [middle] == [lead, one, middle];
    assert LinkHrefs([lead, one, middle]) == [first];
    LinkHrefsAppend([lead, one, middle], two);
    assert [lead, one, middle] + [two] == [lead, one, middle, two];
    assert second !in [first];
    assert [first] + [second] == [first, second];
  }

  /** Two links to different pages that both parse, with text around them,
      yield both URLs, in message order. */
  lemma TwoLinkUrls(text: string, find: string -> seq<Token>, parse: string -> Option<Url>,
                    lead: Token, first: string, middle: Token, second: string, firstUrl: Url, secondUrl: Url)
    requires !lead.isLink && !middle.isLink && first != second
    requires find(text) == [lead, Token(true, first), middle, Token(true, second)]
    requires parse(first) == Some(firstUrl) && parse(second) == Some(secondUrl)
    ensures AllValidUrls(text, find, parse) == [firstUrl, secondUrl]
  {
    TwoLinkHrefs(lead, first, middle, second);
    ParseAllAppend([], first, parse);
    assert [] + [first] == [first];
    assert ParseAll([first], parse) == [firstUrl];
    ParseAllAppend([first], second, parse);
    assert [first] + [second] == [first, second];
  }

  /** The two-link message: text, the first watch link, more text and the
      second watch link yield both URLs, in the order they appear, each
      printed back as the link in the message and each accepted by the
      validator. */
  lemma TwoLinksInOrder(text: string, find: string -> seq<Token>, parse: string -> Option<Url>,
                        lead: string, middle: string)
    requires find(text) == [Token(false, lead), Token(true, FirstVideo), Token(false, middle), Token(true, SecondVideo)]
    requires parse(FirstVideo) == Some(WatchPage("yQebXIkBAws"))
    requires parse(SecondVideo) == Some(WatchPage("7HPitFccK10"))
    ensures AllValidUrls(text, find, parse) == [WatchPage("yQebXIkBAws"), WatchPage("7HPitFccK10")]
    ensures Href(WatchPage("yQebXIkBAws")) == FirstVideo && Href(WatchPage("7HPitFccK10")) == SecondVideo
    ensures IsSupportedVideoLink(WatchPage("yQebXIkBAws")) && IsSupportedVideoLink(WatchPage("7HPitFccK10"))
  {
    assert FirstVideo[|WatchPrefix|] != SecondVideo[|WatchPrefix|];
    TwoLinkUrls(text, find, parse, Token(false, lead), FirstVideo, Token(false, middle), SecondVideo,
                WatchPage("yQebXIkBAws"), WatchPage("7HPitFccK10"));
    WatchPageHref("yQebXIkBAws");
    WatchPageHref("7HPitFccK10");
    WatchPageIsSupported("yQebXIkBAws");
    WatchPageIsSupported("7HPitFccK10");
  }

  /** The hrefs of a link, some text and the same link again. */
  lemma RepeatedLinkHrefs(href: string, text: Token)
    requires !text.isLink
    ensures LinkHrefs([Token(true, href), text, Token(true, href)]) == [href]
  {
    var link := Token(true, href);
    LinkHrefsAppend([], link);
    assert [] + [link] == [link];
    assert LinkHrefs([link]) == [href];
    LinkHrefsAppend([link], text);
    assert [link] + [text] == [link, text];
    assert LinkHrefs([link, text]) == [href];
    LinkHrefsAppend([link, text], link);
    assert [link, text] + [link] == [link, text, link];
    assert href in [href];
  }

  /** The same link written twice yields one URL. */
  lemma RepeatedLinkOnce(text: string, find: string -> seq<Token>, parse: string -> Option<Url>)
    requires find(text) == [Token(true, FirstVideo), Token(false, " "), Token(true, FirstVideo)]
    requires parse(FirstVideo) == Some(WatchPage("yQebXIkBAws"))
    ensures AllValidUrls(text, find, parse) == [WatchPage("yQebXIkBAws")]
  {
    RepeatedLinkHrefs(FirstVideo, Token(false, " "));
    ParseAllAppend([], FirstVideo, parse);
    assert [] + [FirstVideo] == [FirstVideo];
  }

  class LinksExtractor {
    const linkValidator: LinkValidator

    constructor (linkValidator: LinkValidator)
      ensures this.linkValidator == linkValidator
    {
      this.linkValidator := linkValidator;
    }

    /** `getUrlsFromText(text)`: the URLs that survived, each mapped through
        `getURLResponse`, in order. The `Set` built over the parsed `URL`
        objects drops nothing, since every one is a distinct object, so equal
        URLs are kept. */
    method GetUrlsFromText(text: string, find: string -> seq<Token>, parse: string -> Option<Url>)
      returns (responses: seq<URLResponse>)
      requires linkValidator.Valid()
      ensures var urls := AllValidUrls(text, find, parse);
        && |responses| == |urls|
        && forall i :: 0 <= i < |responses| ==> Answers(urls[i], responses[i])
    {
      var urls := AllValidUrls(text, find, parse);
      responses := [];
      for i := 0 to |urls|
        invariant |responses| == i
        invariant forall j :: 0 <= j < i ==> Answers(urls[j], responses[j])
      {
        var response := linkValidator.GetURLResponse(urls[i]);
        responses := responses + [response];
      }
    }
  }
}
