/** Downloading a video's audio (src/services/Downloader.ts): the `yt-dlp`
    argument list, the temporary file it writes, and the two attempts,
    without the proxy first and through it only when that failed. The
    environment, `path.join`, `crypto.randomUUID` and the subprocess are
    inputs. */
module Downloader {
  import opened Js
  import opened Commands

  const Extension: string := ".mp3"

  /** `getFileName(uuid)`: the uuid with `.mp3` appended. */
  function GetFileName(uuid: string): (fileName: string)
    ensures |fileName| == |uuid| + |Extension|
    ensures fileName[..|uuid|] == uuid && fileName[|uuid|..] == Extension
  {
    uuid + Extension
  }

  /** The variables `getOSTempDir` reads: `TMPDIR`, `TMP` and `TEMP`. */
  datatype TempEnv = TempEnv(tmpdir: Option<string>, tmp: Option<string>, temp: Option<string>)

  const DefaultTempDir: string := "/tmp"

  /** `getOSTempDir()`: the first of `TMPDIR`, `TMP`, `TEMP` that is set to a
      non-empty string, else `/tmp`; never empty. */
  function OSTempDir(env: TempEnv): (dir: string)
    ensures dir != ""
    ensures Truthy(env.tmpdir) ==> dir == env.tmpdir.value
    ensures !Truthy(env.tmpdir) && Truthy(env.tmp) ==> dir == env.tmp.value
    ensures !Truthy(env.tmpdir) && !Truthy(env.tmp) && Truthy(env.temp) ==> dir == env.temp.value
    ensures !Truthy(env.tmpdir) && !Truthy(env.tmp) && !Truthy(env.temp) ==> dir == DefaultTempDir
  {
    if Truthy(env.tmpdir) then env.tmpdir.value
    else if Truthy(env.tmp) then env.tmp.value
    else if Truthy(env.temp) then env.temp.value
    else DefaultTempDir
  }

  /** One `downloadWith[No]Proxy` attempt: its uuid when the process
      succeeded; null when it failed or the call threw. */
  function AttemptResult(uuid: string, output: CommandOutput): (result: Option<string>)
    ensures result.Some? <==> Succeeded(output)
    ensures result.Some? ==> result.value == uuid
  {
    if Succeeded(output) then Some(uuid) else None
  }

  /** `deleteFile(path)`: whatever `Deno.remove` does, the returned promise
      resolves; a failed removal is swallowed. */
  function DeleteFile(path: string, removal: Settled<()>): (done: Settled<()>)
    ensures done.Fulfilled?
  {
    match removal
    case Fulfilled(_) => removal
    case Rejected(_) => Fulfilled(())
  }

  /** What `submitDownloadTaskAndGetResult` resolves with: the downloaded
      file, or null; and the file its `deleteFile` removes, or none when it
      resolves without doing anything. */
  datatype DownloadResult = DownloadResult(filePath: Option<string>, removes: Option<string>)

  class Downloader {
    /** `downloaderConfiguration.proxyUrl`. */
    const proxyUrl: Option<string>
    const env: TempEnv
    /** `path.join`. */
    const join: (string, string) -> string

    constructor (proxyUrl: Option<string>, env: TempEnv, join: (string, string) -> string)
      ensures this.proxyUrl == proxyUrl && this.env == env && this.join == join
    {
      this.proxyUrl := proxyUrl;
      this.env := env;
      this.join := join;
    }

    /** `getTempFilePath(fileName)`: the file under the temporary directory. */
    function GetTempFilePath(fileName: string): (path: string)
    {
      join(OSTempDir(env), fileName)
    }

    /** `getArgs(uuid, url, proxyUrl?)`: extract the audio as 96K mp3, pass
        the proxy when it is truthy, write to `<temp dir>/<uuid>.mp3`, and
        the URL last. */
    function GetArgs(uuid: string, url: string, proxyUrl: Option<string>): (args: seq<string>)
      ensures |args| == (if Truthy(proxyUrl) then 10 else 8)
      ensures args[..5] == ["-x", "--audio-format", "mp3", "--audio-quality", "96K"]
      ensures Truthy(proxyUrl) ==> args[5] == "--proxy" && args[6] == proxyUrl.value
      ensures args[|args| - 3] == "--output"
      ensures args[|args| - 2] == GetTempFilePath(GetFileName(uuid))
      ensures args[|args| - 1] == url
    {
      ["-x", "--audio-format", "mp3", "--audio-quality", "96K"]
        + ProxyArgs(proxyUrl)
        + ["--output", GetTempFilePath(GetFileName(uuid)), url]
    }

    /** `submitDownloadTaskAndGetResult(url)`. `tasks` lists the argument
        lists of the attempts submitted to the worker pool, in order; `run`
        gives what `yt-dlp` does with an argument list, and `firstUuid`,
        `secondUuid` are the uuids the attempts draw. The attempt through
        the proxy is submitted exactly when the first gave no uuid and the
        proxy is set. A uuid from the last attempt gives its file and a
        `deleteFile` that removes it; otherwise there is no file. */
    method SubmitDownloadTaskAndGetResult(url: string, run: seq<string> -> CommandOutput,
                                          firstUuid: string, secondUuid: string)
      returns (tasks: seq<seq<string>>, result: DownloadResult)
      ensures 1 <= |tasks| <= 2 && tasks[0] == GetArgs(firstUuid, url, None)
      ensures |tasks| == 2 <==> !Truthy(AttemptResult(firstUuid, run(tasks[0]))) && Truthy(proxyUrl)
      ensures |tasks| == 2 ==> tasks[1] == GetArgs(secondUuid, url, proxyUrl)
      ensures var uuid := if |tasks| == 2 then AttemptResult(secondUuid, run(tasks[1]))
                          else AttemptResult(firstUuid, run(tasks[0]));
        && (Truthy(uuid) ==> result == DownloadResult(Some(GetTempFilePath(GetFileName(uuid.value))),
                                                      Some(GetTempFilePath(GetFileName(uuid.value)))))
        && (!Truthy(uuid) ==> result == DownloadResult(None, None))
      ensures result.removes == result.filePath
      ensures result.filePath.Some? ==>
        var last := tasks[|tasks| - 1];
        Succeeded(run(last)) && result.filePath.value == last[|last| - 2]
    {
      var uuid: Option<string> := None;
      tasks := [GetArgs(firstUuid, url, None)];
      uuid := AttemptResult(firstUuid, run(tasks[0]));
      if !Truthy(uuid) && Truthy(proxyUrl) {
        var args := GetArgs(secondUuid, url, proxyUrl);
        tasks := tasks + [args];
        uuid := AttemptResult(secondUuid, run(args));
      }
      if Truthy(uuid) {
        var filePath := GetTempFilePath(GetFileName(uuid.value));
        result := DownloadResult(Some(filePath), Some(filePath));
      } else {
        result := DownloadResult(None, None);
      }
    }
  }
}
