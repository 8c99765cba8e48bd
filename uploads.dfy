/** What the upload backends share: the request they send, the response
    `fetch` resolves with, the file name taken from the path, and the way
    `upload` hands on the promise `postFile` returns. */
module Uploads {
  import opened Js
  import Strings

  type Bytes = seq<bv8>

  datatype HttpMethod = Put | Post

  /** A `FormData` holding one `File` under `field`, or a bare `File`. */
  datatype Body =
    | FormFile(field: string, fileName: string, bytes: Bytes)
    | RawFile(fileName: string, bytes: Bytes)

  /** The `fetch` call `postFile` makes. */
  datatype Request = Request(verb: HttpMethod, target: string, body: Body)

  /** A response: its `ok` flag and the text of its body. */
  datatype Response = Response(ok: bool, text: string)

  const FailedToUpload: string := "Failed to upload"
  const IncorrectResponse: string := "Incorrect response"
  /** Stands for the `TypeError` that `new URL(text)` throws; the input
      text that the runtime's message quotes after it is not modelled. */
  const InvalidUrl: string := "Invalid URL"
  /** The form field every backend uses. */
  const FileField: string := "file"
  /** The name every uploaded `File` is given, whatever the path. */
  const AttachmentName: string := "podcast.mp3"

  /** `filePath.split("/").pop()`: the text after the last `/`. The array
      `split` returns is never empty, so `pop` never yields `undefined` and
      the `??` fallback after it is never taken. */
  function FileNameOf(filePath: string): (fileName: string)
    ensures Strings.IsTextAfterLast(filePath, '/', fileName)
  {
    Strings.LastPieceIsTextAfterLast(filePath, '/');
    Strings.LastPiece(filePath, '/')
  }

  /** A path that ends in `/` names the empty file name. */
  lemma FileNameOfDirectory(filePath: string)
    requires filePath != [] && filePath[|filePath| - 1] == '/'
    ensures FileNameOf(filePath) == ""
  {
    Strings.TextAfterLastEnd(filePath, '/', FileNameOf(filePath));
  }

  /** A path without `/` is its own file name. */
  lemma FileNameOfBareName(filePath: string)
    requires '/' !in filePath
    ensures FileNameOf(filePath) == filePath
  {
    Strings.TextAfterLastWhole(filePath, '/', FileNameOf(filePath));
  }

  /** How `upload` settles once the file was read. `return this.postFile(...)`
      inside `try` hands back the promise without awaiting it, so the `catch`
      never sees its rejection: `upload` settles exactly as `postFile` does. */
  function Handed(posted: Settled<string>): (result: Settled<Option<string>>)
    ensures result != Fulfilled(None)
    ensures posted.Rejected? <==> result.Rejected?
    ensures posted.Rejected? ==> result.reason == posted.reason
    ensures posted.Fulfilled? ==> result == Fulfilled(Some(posted.value))
  {
    match posted
    case Fulfilled(url) => Fulfilled(Some(url))
    case Rejected(reason) => Rejected(reason)
  }
}
