/** The second title resolver (src/services/YoutubeVideoNameResolver.ts).
    It differs from the first in its whitelist: its `specialChars` is a set
    holding the single five-character string `" ,.!?"`, which no one-code-
    point string equals, so spaces and punctuation are dropped as well. */
module YoutubeVideoNameResolver {
  import opened Js
  import opened Commands
  import opened Titles

  /** `allowedChars`: the letters and digits, and the string `" ,.!?"`. */
  const AllowedChars: set<string> :=
    CharsOf(LatinLower + LatinUpper) + CharsOf(RussianLower + RussianUpper) + CharsOf(Digits) + {Specials}

  /** A code point is allowed exactly when it is a letter or a digit. */
  lemma AllowedCharIsAlphanumeric(c: char)
    ensures [c] in AllowedChars <==>
      c in LatinLower + LatinUpper || c in RussianLower + RussianUpper || c in Digits
  {
    assert |[c]| != |Specials|;
  }

  /** `cleanFileName` keeps exactly the letters and digits of the title:
      none of space `,` `.` `!` `?` survives. */
  lemma CleanFileNameKeeps(raw: string)
    ensures forall c :: c in Clean(AllowedChars, raw) <==>
      && c in raw
      && (c in LatinLower + LatinUpper || c in RussianLower + RussianUpper || c in Digits)
    ensures forall c :: c in Clean(AllowedChars, raw) ==> c !in Specials
  {
    CleanMembers(AllowedChars, raw);
    forall c {
      AllowedCharIsAlphanumeric(c);
    }
    forall c | c in Clean(AllowedChars, raw) ensures c !in Specials {
      AlphanumericIsNotSpecial(c);
    }
  }

  /** A space is neither a letter nor a digit. */
  lemma SpaceIsNotAllowed()
    ensures [' '] !in AllowedChars
  {
    AllowedCharIsAlphanumeric(' ');
    SpaceIsNotAlphanumeric();
  }

  /** Cleaning drops a refused code point between two allowed ones. */
  lemma CleanDropsMiddle(allowed: set<string>, x: char, m: char, y: char)
    requires [x] in allowed && [m] !in allowed && [y] in allowed
    ensures Clean(allowed, [x, m, y]) == [x, y]
  {
    assert [y][1..] == [] && Clean(allowed, [y]) == [y] + [];
    assert [m, y][1..] == [y] && Clean(allowed, [m, y]) == [y];
    assert [x, m, y][1..] == [m, y];
  }

  /** As written, a title loses its spaces: two letters with a space
      between them come back joined. */
  lemma SpaceIsDropped(x: char, y: char)
    requires x in LatinLower && y in LatinLower
    ensures Clean(AllowedChars, [x, ' ', y]) == [x, y]
  {
    AllowedCharIsAlphanumeric(x);
    AllowedCharIsAlphanumeric(y);
    SpaceIsNotAllowed();
    CleanDropsMiddle(AllowedChars, x, ' ', y);
  }

  class YoutubeVideoNameResolver {
    /** `downloaderConfiguration.proxyUrl`. */
    const proxyUrl: Option<string>

    constructor (proxyUrl: Option<string>)
      ensures this.proxyUrl == proxyUrl
    {
      this.proxyUrl := proxyUrl;
    }

    /** `resolve(youtubeUrl)`: the same two attempts as the first resolver,
        with this resolver's whitelist. */
    method Resolve(youtubeUrl: string, run: seq<string> -> CommandOutput)
      returns (commands: seq<seq<string>>, name: Option<string>)
      ensures 1 <= |commands| <= 2 && commands[0] == GetArgs(youtubeUrl, None)
      ensures |commands| == 2 <==> !Truthy(TitleOf(run(commands[0]))) && Truthy(proxyUrl)
      ensures |commands| == 2 ==> commands[1] == GetArgs(youtubeUrl, proxyUrl)
      ensures name == NameFrom(AllowedChars, TitleOf(run(commands[|commands| - 1])))
    {
      var fileName;
      commands, fileName := TitleAttempts(youtubeUrl, proxyUrl, run);
      name := NameFrom(AllowedChars, fileName);
    }
  }
}
