/** The `yt-dlp` subprocess as the title resolvers and the downloader start
    it. Running it is not modelled: what `command.output()` gave back is an
    input. */
module Commands {
  import opened Js

  /** The outcome of `command.output()`: the process exited, successfully or
      not, with its decoded standard output; or the call threw. */
  datatype CommandOutput = Exited(success: bool, stdout: string) | Threw

  predicate Succeeded(output: CommandOutput)
  {
    output.Exited? && output.success
  }

  /** The spread `...(proxyUrl ? ["--proxy", proxyUrl] : [])`: a proxy is
      passed exactly when the setting is a non-empty string. */
  function ProxyArgs(proxyUrl: Option<string>): (args: seq<string>)
    ensures Truthy(proxyUrl) <==> args != []
    ensures args != [] ==> args == ["--proxy", proxyUrl.value]
  {
    if Truthy(proxyUrl) then ["--proxy", proxyUrl.value] else []
  }
}
