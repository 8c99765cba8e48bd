/** The curl.libriciel.fr backend (src/services/UploaderLibriciel.ts). */
module UploaderLibriciel {
  import opened Js
  import opened Uploads
  import Strings

  const MaxUploadSizeInBytes: nat := 1024 * 1024 * 1024

  const Origin: string := "https://curl.libriciel.fr"

  /** What the origin becomes in the link handed back. */
  const DownloadOrigin: string := "https://curl.libriciel.fr/get"

  /** `postFile`, one attempt: an ok response's text is the link, with the
      first occurrence of the origin turned into the download origin; an
      empty text gives `null`. A response that is not ok is rejected; a
      failed `fetch` rejects as it did. */
  function PostFile(fetched: Settled<Response>): (outcome: Settled<Option<string>>)
    ensures fetched.Rejected? ==> outcome == Rejected(fetched.reason)
    ensures fetched.Fulfilled? && !fetched.value.ok ==> outcome == Rejected(FailedToUpload)
    ensures fetched.Fulfilled? && fetched.value.ok ==>
      (outcome == Fulfilled(None) <==> fetched.value.text == "")
    ensures outcome.Fulfilled? && outcome.value.Some? ==>
      |outcome.value.value| == |fetched.value.text| ||
      |outcome.value.value| == |fetched.value.text| + |"/get"|
  {
    match fetched
    case Rejected(reason) => Rejected(reason)
    case Fulfilled(response) =>
      if !response.ok then Rejected(FailedToUpload)
      else if response.text == "" then Fulfilled(None)
      else
        ReplacedLength(response.text);
        Fulfilled(Some(Strings.ReplaceFirst(response.text, Origin, DownloadOrigin)))
  }

  /** The replacement adds `/get` when it finds the origin and nothing
      otherwise. */
  lemma {:induction false} ReplacedLength(text: string)
    ensures var r := Strings.ReplaceFirst(text, Origin, DownloadOrigin);
      |r| == |text| || |r| == |text| + |"/get"|
    decreases |text|
  {
    if |text| >= |Origin| && text[..|Origin|] != Origin {
      ReplacedLength(text[1..]);
    }
  }

  /** A body that names the origin comes back with `/get` after the origin's
      first occurrence and is otherwise unchanged. */
  lemma PostFileAddsGet(text: string, i: nat)
    requires Strings.OccursAt(text, Origin, i)
    requires forall j :: 0 <= j < i ==> !Strings.OccursAt(text, Origin, j)
    ensures PostFile(Fulfilled(Response(true, text))) ==
      Fulfilled(Some(text[..i] + Origin + "/get" + text[i + |Origin|..]))
  {
    Strings.ReplaceFirstAtFirstOccurrence(text, Origin, DownloadOrigin, i);
    assert text[..i] + DownloadOrigin == text[..i] + Origin + "/get";
  }

  /** A non-empty body that does not name the origin comes back unchanged. */
  lemma PostFileKeepsForeignLink(text: string)
    requires text != [] && !Strings.Contains(text, Origin)
    ensures PostFile(Fulfilled(Response(true, text))) == Fulfilled(Some(text))
  {
    Strings.ReplaceFirstWithoutOccurrence(text, Origin, DownloadOrigin);
  }

  /** `upload(filePath)`. A file that cannot be read gives `null` and no
      request. Otherwise the file goes, as `podcast.mp3` in the `file` form
      field, in a PUT to `origin/fileName`, and `upload` settles as
      `postFile` does, so a rejection reaches the caller. */
  method Upload(filePath: string, readFile: Option<Bytes>, fetched: Settled<Response>)
    returns (request: Option<Request>, result: Settled<Option<string>>)
    ensures readFile.None? ==> request == None && result == Fulfilled(None)
    ensures readFile.Some? ==>
      && request == Some(Request(Put, Origin + "/" + FileNameOf(filePath),
                                 FormFile(FileField, AttachmentName, readFile.value)))
      && result == PostFile(fetched)
  {
    var fileName := FileNameOf(filePath);
    if readFile.None? {
      return None, Fulfilled(None);
    }
    var file := FormFile(FileField, AttachmentName, readFile.value);
    request := Some(Request(Put, Origin + "/" + fileName, file));
    result := PostFile(fetched);
  }
}
