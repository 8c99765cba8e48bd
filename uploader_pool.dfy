/** The uploader used by the bot: a fixed list of backends tried in order
    (src/services/UploaderPool.ts). */
module UploaderPool {
  import opened Js

  /** An uploader, identified by its object. */
  type Uploader = nat

  /** How a call to `upload` settles: a link, `null`, or a rejection. */
  type UploadResult = Settled<Option<string>>

  class UploaderPool {
    /** The uploaders, fixed at construction. */
    const uploaders: seq<Uploader>

    /** The pool holds the 0x0 uploader and nothing else. */
    constructor (uploader0x0: Uploader)
      ensures uploaders == [uploader0x0]
    {
      uploaders := [uploader0x0];
    }

    /** `upload(filePath)`: awaits each uploader in list order and stops at
        the first that gives a link, which is returned. A rejection is not
        caught: it ends the loop and reaches the caller. The result is
        `null` exactly when every uploader gave `null` (trivially so for an
        empty list). `upload(u, filePath)` is how uploader `u` settles. */
    method Upload(filePath: string, upload: (Uploader, string) -> UploadResult)
      returns (called: seq<Uploader>, result: UploadResult)
      ensures |called| <= |uploaders| && called == uploaders[..|called|]
      ensures forall j :: 0 <= j < |called| - 1 ==> upload(called[j], filePath) == Fulfilled(None)
      ensures result != Fulfilled(None) ==>
        called != [] && result == upload(called[|called| - 1], filePath)
      ensures result == Fulfilled(None) <==>
        forall j :: 0 <= j < |uploaders| ==> upload(uploaders[j], filePath) == Fulfilled(None)
      ensures result == Fulfilled(None) ==> called == uploaders
    {
      called := [];
      var i := 0;
      while i < |uploaders|
        invariant 0 <= i <= |uploaders| && called == uploaders[..i]
        invariant forall j :: 0 <= j < i ==> upload(uploaders[j], filePath) == Fulfilled(None)
      {
        var fileUrl := upload(uploaders[i], filePath);
        called := called + [uploaders[i]];
        if fileUrl != Fulfilled(None) {
          assert called == uploaders[..i + 1];
          return called, fileUrl;
        }
        i := i + 1;
      }
      result := Fulfilled(None);
    }
  }
}
