/** The api.filedoge.com backend (src/services/UploaderFileDoge.ts). */
module UploaderFileDoge {
  import opened Js
  import opened Uploads
  import Strings

  const MaxUploadSizeInBytes: nat := 200 * 1024 * 1024

  const UploadUrl: string := "https://api.filedoge.com/upload"

  /** What a download link starts with; the token follows. */
  const DownloadPrefix: string := "https://api.filedoge.com/download/"

  /** A response: its `ok` flag and what `response.json()` settled with,
      reduced to the `token` it holds (`None` when the JSON value is `null`
      or has no token). */
  datatype DogeResponse = DogeResponse(ok: bool, json: Settled<Option<string>>)

  /** The token a download link names. */
  function TokenOf(link: string): string
  {
    if |DownloadPrefix| <= |link| then link[|DownloadPrefix|..] else link
  }

  /** `postFile`, one attempt: an ok response with a truthy `token` gives the
      download link for that token; an ok response without one is rejected
      as incorrect, one that is not ok as failed. A failed `fetch` or
      `json()` rejects as it did. */
  function PostFile(fetched: Settled<DogeResponse>): (outcome: Settled<string>)
    ensures fetched.Rejected? ==> outcome == Rejected(fetched.reason)
    ensures fetched.Fulfilled? && !fetched.value.ok ==> outcome == Rejected(FailedToUpload)
    ensures fetched.Fulfilled? && fetched.value.ok && fetched.value.json.Rejected? ==>
      outcome == Rejected(fetched.value.json.reason)
    ensures fetched.Fulfilled? && fetched.value.ok && fetched.value.json.Fulfilled? ==>
      (outcome.Fulfilled? <==> Truthy(fetched.value.json.value))
    ensures outcome.Rejected? && fetched.Fulfilled? && fetched.value.ok && fetched.value.json.Fulfilled? ==>
      outcome.reason == IncorrectResponse
    ensures outcome.Fulfilled? ==>
      && Strings.StartsWith(outcome.value, DownloadPrefix)
      && TokenOf(outcome.value) == fetched.value.json.value.value
  {
    match fetched
    case Rejected(reason) => Rejected(reason)
    case Fulfilled(response) =>
      if !response.ok then Rejected(FailedToUpload)
      else
        match response.json
        case Rejected(reason) => Rejected(reason)
        case Fulfilled(token) =>
          if Truthy(token) then
            var link := DownloadPrefix + token.value;
            assert link[..|DownloadPrefix|] == DownloadPrefix && link[|DownloadPrefix|..] == token.value;
            Fulfilled(link)
          else Rejected(IncorrectResponse)
  }

  /** `upload(filePath)`. A file that cannot be read gives `null` and no
      request. Otherwise the file goes, as `podcast.mp3` in the `file` form
      field whatever the path, in a POST to the fixed upload URL, and
      `upload` settles as `postFile` does: it never returns `null` after the
      read. */
  method Upload(filePath: string, readFile: Option<Bytes>, fetched: Settled<DogeResponse>)
    returns (request: Option<Request>, result: Settled<Option<string>>)
    ensures readFile.None? ==> request == None && result == Fulfilled(None)
    ensures readFile.Some? ==>
      && request == Some(Request(Post, UploadUrl, FormFile(FileField, AttachmentName, readFile.value)))
      && result == Handed(PostFile(fetched))
      && result != Fulfilled(None)
  {
    if readFile.None? {
      return None, Fulfilled(None);
    }
    var file := FormFile(FileField, AttachmentName, readFile.value);
    request := Some(Request(Post, UploadUrl, file));
    var posted := PostFile(fetched);
    result := Handed(posted);
  }
}
