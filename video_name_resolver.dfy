/** The title resolver the bot uses (src/services/VideoNameResolver.ts):
    `yt-dlp --get-title`, without the proxy first and through it only when
    that gave nothing, and the title turned into a file name. Logging is
    not modelled. */
module VideoNameResolver {
  import opened Js
  import opened Commands
  import opened Titles

  /** `allowedChars`: the Latin and Russian letters in both cases, the digits
      and the five characters space `,` `.` `!` `?`. */
  const AllowedChars: set<string> :=
    CharsOf(LatinLower + LatinUpper) + CharsOf(RussianLower + RussianUpper) + CharsOf(Digits) + CharsOf(Specials)

  /** `cleanFileName` keeps exactly the letters, digits and the five
      punctuation characters of the title. */
  lemma CleanFileNameKeeps(raw: string)
    ensures forall c :: c in Clean(AllowedChars, raw) <==>
      && c in raw
      && (c in LatinLower + LatinUpper || c in RussianLower + RussianUpper || c in Digits || c in Specials)
  {
    CleanMembers(AllowedChars, raw);
  }

  class VideoNameResolver {
    /** `downloaderConfiguration.proxyUrl`. */
    const proxyUrl: Option<string>

    constructor (proxyUrl: Option<string>)
      ensures this.proxyUrl == proxyUrl
    {
      this.proxyUrl := proxyUrl;
    }

    /** `resolve(url)`. `run` gives what `yt-dlp` outputs for an argument
        list; `commands` lists the argument lists it was started with. The
        first attempt is without the proxy; the second, through the proxy,
        is made exactly when the first gave a falsy title and the proxy is
        set; the name comes from the last attempt's title. */
    method Resolve(url: string, run: seq<string> -> CommandOutput)
      returns (commands: seq<seq<string>>, name: Option<string>)
      ensures 1 <= |commands| <= 2 && commands[0] == GetArgs(url, None)
      ensures |commands| == 2 <==> !Truthy(TitleOf(run(commands[0]))) && Truthy(proxyUrl)
      ensures |commands| == 2 ==> commands[1] == GetArgs(url, proxyUrl)
      ensures name == NameFrom(AllowedChars, TitleOf(run(commands[|commands| - 1])))
    {
      var fileName;
      commands, fileName := TitleAttempts(url, proxyUrl, run);
      name := NameFrom(AllowedChars, fileName);
    }
  }
}
