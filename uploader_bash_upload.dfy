/** The bashupload.com backend (src/services/UploaderBashUpload.ts). */
module UploaderBashUpload {
  import opened Js
  import opened Urls
  import opened Uploads

  const MaxUploadSizeInBytes: nat := 50 * 1024 * 1024 * 1024

  const Origin: string := "https://bashupload.com"

  const NoLinksFound: string := "No links found"

  /** What is appended to the link so that it downloads. */
  const DownloadSuffix: string := "?download=1"

  /** Token `i` is the first link among `tokens`. */
  predicate IsFirstLink(tokens: seq<Token>, i: int)
  {
    0 <= i < |tokens| && tokens[i].isLink && forall j :: 0 <= j < i ==> !tokens[j].isLink
  }

  /** `const [link] = tokens.filter(({ isLink }) => isLink)`: the href of the
      first link, `undefined` when there is none. */
  function FirstLink(tokens: seq<Token>): (href: Option<string>)
    ensures href.None? <==> forall i :: 0 <= i < |tokens| ==> !tokens[i].isLink
    ensures href.Some? ==> exists i :: IsFirstLink(tokens, i) && tokens[i].href == href.value
  {
    if tokens == [] then None
    else if tokens[0].isLink then
      assert IsFirstLink(tokens, 0);
      Some(tokens[0].href)
    else
      var rest := FirstLink(tokens[1..]);
      if rest.Some? then
        var i :| IsFirstLink(tokens[1..], i) && tokens[1..][i].href == rest.value;
        assert IsFirstLink(tokens, i + 1);
        rest
      else
        assert forall i :: 1 <= i < |tokens| ==> tokens[i] == tokens[1..][i - 1];
        rest
  }

  /** `postFile`, one attempt: the first link `find` sees in the response
      text, with `?download=1` appended. An empty text is rejected as
      incorrect, a text without links as having none, a response that is
      not ok as failed; a failed `fetch` rejects as it did. */
  function PostFile(fetched: Settled<Response>, find: string -> seq<Token>): (outcome: Settled<string>)
    ensures fetched.Rejected? ==> outcome == Rejected(fetched.reason)
    ensures fetched.Fulfilled? && !fetched.value.ok ==> outcome == Rejected(FailedToUpload)
    ensures fetched.Fulfilled? && fetched.value.ok && fetched.value.text == "" ==>
      outcome == Rejected(IncorrectResponse)
    ensures fetched.Fulfilled? && fetched.value.ok && fetched.value.text != "" ==>
      var tokens := find(fetched.value.text);
      && (outcome == Rejected(NoLinksFound) <==> forall i :: 0 <= i < |tokens| ==> !tokens[i].isLink)
      && (outcome.Fulfilled? <==> exists i :: 0 <= i < |tokens| && tokens[i].isLink)
      && (outcome.Fulfilled? ==> exists i :: IsFirstLink(tokens, i) && outcome.value == tokens[i].href + DownloadSuffix)
  {
    match fetched
    case Rejected(reason) => Rejected(reason)
    case Fulfilled(response) =>
      if !response.ok then Rejected(FailedToUpload)
      else if response.text == "" then Rejected(IncorrectResponse)
      else
        match FirstLink(find(response.text))
        case None => Rejected(NoLinksFound)
        case Some(href) => Fulfilled(href + DownloadSuffix)
  }

  /** `upload(filePath)`. A file that cannot be read gives `null` and no
      request. Otherwise the file itself, named `podcast.mp3`, goes in a PUT
      to `https://bashupload.com/fileName`, and `upload` settles as
      `postFile` does: it never returns `null` after the read. */
  method Upload(filePath: string, readFile: Option<Bytes>, fetched: Settled<Response>,
                find: string -> seq<Token>)
    returns (request: Option<Request>, result: Settled<Option<string>>)
    ensures readFile.None? ==> request == None && result == Fulfilled(None)
    ensures readFile.Some? ==>
      && request == Some(Request(Put, Origin + "/" + FileNameOf(filePath),
                                 RawFile(AttachmentName, readFile.value)))
      && result == Handed(PostFile(fetched, find))
      && result != Fulfilled(None)
  {
    var fileName := FileNameOf(filePath);
    if readFile.None? {
      return None, Fulfilled(None);
    }
    var file := RawFile(AttachmentName, readFile.value);
    request := Some(Request(Put, Origin + "/" + fileName, file));
    var posted := PostFile(fetched, find);
    result := Handed(posted);
  }
}
