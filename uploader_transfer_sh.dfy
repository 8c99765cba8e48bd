/** The transfer.sh family of backends (src/services/UploaderTransferSH.ts)
    and its seven instances, which differ only in two constants. */
module UploaderTransferSH {
  import opened Js
  import opened Urls
  import opened Uploads

  /** A concrete subclass: its size limit and its origin. */
  datatype TransferSH = TransferSH(maxUploadSizeInBytes: nat, origin: string)

  const MiB: nat := 1024 * 1024
  const GiB: nat := 1024 * MiB

  const Kuwaitnet: TransferSH := TransferSH(512 * MiB, "https://transfer.kuwaitnet.support")
  const InternMB: TransferSH := TransferSH(512 * MiB, "https://transfer.tech.intermb.ru")
  const Ambrosus: TransferSH := TransferSH(512 * MiB, "https://transfer.ambrosus.io")
  const Reol: TransferSH := TransferSH(10 * GiB, "https://files.reol.com")
  const GBX: TransferSH := TransferSH(512 * MiB, "https://share.gbx-co.re")
  const TarrHU: TransferSH := TransferSH(GiB, "https://big.tarr.hu")
  const SHub: TransferSH := TransferSH(512 * MiB, "https://t.s-hub.xyz")

  /** `url.protocol = "https://"`: the setter reads the scheme up to the
      colon. The URL Standard refuses to switch a non-special URL to a
      special scheme, and refuses to leave a `file` URL with an empty host;
      otherwise the scheme becomes `https` and a port equal to its default,
      443, is dropped. */
  function WithHttps(url: Url): (r: Url)
    ensures r.hostname == url.hostname && r.pathname == url.pathname
    ensures r.search == url.search && r.hash == url.hash && r.params == url.params
  {
    if !IsSpecial(url.scheme) || (url.scheme == "file" && url.hostname == "") then url
    else url.(scheme := "https", port := if url.port == "443" then "" else url.port)
  }

  /** The rewrite `postFile` applies to the URL it received: `https`, and
      `/get` in front of the path. */
  function Rewritten(url: Url): Url
  {
    var secured := WithHttps(url);
    secured.(pathname := "/get" + secured.pathname)
  }

  /** The link handed back keeps the host, the query and the fragment, puts
      `/get` in front of the path and, for a URL the setter may change,
      starts with `https://`. */
  lemma RewrittenHref(url: Url)
    requires IsSpecial(url.scheme) && !(url.scheme == "file" && url.hostname == "")
    ensures Href(Rewritten(url)) ==
      "https://" + Host(WithHttps(url)) + "/get" + url.pathname + url.search + url.hash
    ensures Host(WithHttps(url)) == url.hostname + (if url.port == "" || url.port == "443" then "" else ":" + url.port)
  {
    var r := Rewritten(url);
    assert r.scheme == "https" && r.pathname == "/get" + url.pathname;
    calc {
      Href(r);
      "https" + "://" + Host(r) + ("/get" + url.pathname) + url.search + url.hash;
      "https://" + Host(WithHttps(url)) + "/get" + url.pathname + url.search + url.hash;
    }
  }

  /** A URL with a scheme the setter refuses keeps its scheme; only `/get`
      is put in front of its path. */
  lemma RewrittenNonSpecial(url: Url)
    requires !IsSpecial(url.scheme)
    ensures Rewritten(url) == url.(pathname := "/get" + url.pathname)
  {
  }

  /** `postFile`, one attempt: the response text is the download URL, which
      is parsed (`parse` stands for `new URL`) and rewritten. A response that
      is not ok and one with an empty body are rejected with their
      messages; so is a text that does not parse; a failed `fetch` rejects
      as it did. */
  function PostFile(fetched: Settled<Response>, parse: string -> Option<Url>): (outcome: Settled<string>)
    ensures fetched.Rejected? ==> outcome == Rejected(fetched.reason)
    ensures fetched.Fulfilled? && !fetched.value.ok ==> outcome == Rejected(FailedToUpload)
    ensures fetched.Fulfilled? && fetched.value.ok && fetched.value.text == "" ==>
      outcome == Rejected(IncorrectResponse)
    ensures fetched.Fulfilled? && fetched.value.ok && fetched.value.text != "" ==>
      match parse(fetched.value.text)
      case None => outcome == Rejected(InvalidUrl)
      case Some(url) => outcome == Fulfilled(Href(Rewritten(url)))
  {
    match fetched
    case Rejected(reason) => Rejected(reason)
    case Fulfilled(response) =>
      if !response.ok then Rejected(FailedToUpload)
      else if response.text == "" then Rejected(IncorrectResponse)
      else
        match parse(response.text)
        case None => Rejected(InvalidUrl)
        case Some(url) => Fulfilled(Href(Rewritten(url)))
  }

  /** `upload(filePath)`. A file that cannot be read gives `null` and no
      request. Otherwise the file goes, as `podcast.mp3` in the `file` form
      field, in a PUT to `origin/fileName`, and `upload` settles as
      `postFile` does: it never returns `null` after the read. */
  method Upload(backend: TransferSH, filePath: string, readFile: Option<Bytes>,
                fetched: Settled<Response>, parse: string -> Option<Url>)
    returns (request: Option<Request>, result: Settled<Option<string>>)
    ensures readFile.None? ==> request == None && result == Fulfilled(None)
    ensures readFile.Some? ==>
      && request == Some(Request(Put, backend.origin + "/" + FileNameOf(filePath),
                                 FormFile(FileField, AttachmentName, readFile.value)))
      && result == Handed(PostFile(fetched, parse))
      && result != Fulfilled(None)
  {
    var fileName := FileNameOf(filePath);
    if readFile.None? {
      return None, Fulfilled(None);
    }
    var file := FormFile(FileField, AttachmentName, readFile.value);
    request := Some(Request(Put, backend.origin + "/" + fileName, file));
    var posted := PostFile(fetched, parse);
    result := Handed(posted);
  }
}
