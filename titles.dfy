/** What the two title resolvers share (src/services/VideoNameResolver.ts and
    src/services/YoutubeVideoNameResolver.ts): the alphabets their
    whitelists are built from, the whitelist filter, the `yt-dlp --get-title`
    arguments and the step from a title to a file name. Each resolver keeps
    its own whitelist. */
module Titles {
  import opened Js
  import opened Commands
  import Strings

  /** The code points from `first` to `last`, in order. */
  function Range(first: char, last: char): (s: string)
    requires first <= last && last as int < 0xD800
    ensures |s| == last as int - first as int + 1
    ensures forall i :: 0 <= i < |s| ==> s[i] as int == first as int + i
    ensures forall c :: c in s <==> first <= c <= last
  {
    var s := seq(last as int - first as int + 1, i requires 0 <= i <= last as int - first as int =>
      (first as int + i) as char);
    assert forall c :: first <= c <= last ==> c in s by {
      forall c | first <= c <= last ensures c in s {
        assert s[c as int - first as int] == c;
      }
    }
    s
  }

  /** `"abcdefghijklmnopqrstuvwxyz"`. */
  const LatinLower: string := Range('a', 'z')
  /** Its `toLocaleUpperCase`, `"ABCDEFGHIJKLMNOPQRSTUVWXYZ"`. */
  const LatinUpper: string := Range('A', 'Z')
  /** `"абвгдеёжзийклмнопрстуфхцчшщъыьэюя"`: `ё` sits after `е`, outside
      the block that holds the other 32 letters. */
  const RussianLower: string := Range('а', 'е') + "ё" + Range('ж', 'я')
  /** Its `toLocaleUpperCase`, with `Ё` after `Е` in the same way. */
  const RussianUpper: string := Range('А', 'Е') + "Ё" + Range('Ж', 'Я')
  const Digits: string := "0123456789"
  const Specials: string := " ,.!?"

  /** `new Set(Array.from(s))`: the one-character strings of `s`. */
  function CharsOf(s: string): (chars: set<string>)
    ensures forall c :: [c] in chars <==> c in s
    ensures forall t :: t in chars ==> |t| == 1
  {
    set i | 0 <= i < |s| :: [s[i]]
  }

  /** `cleanFileName`: `Array.from(raw).filter(char => allowed.has(char)).join("")`.
      Each code point is looked up as a one-character string. */
  function Clean(allowed: set<string>, raw: string): (clean: string)
    ensures |clean| <= |raw|
  {
    if raw == [] then []
    else (if [raw[0]] in allowed then [raw[0]] else []) + Clean(allowed, raw[1..])
  }

  /** The cleaned string holds exactly the allowed code points of the raw one. */
  lemma {:induction false} CleanMembers(allowed: set<string>, raw: string)
    ensures forall c :: c in Clean(allowed, raw) <==> c in raw && [c] in allowed
  {
    if raw != [] {
      CleanMembers(allowed, raw[1..]);
      assert forall c :: c in raw <==> c == raw[0] || c in raw[1..];
    }
  }

  /** Filtering is done code point by code point, so it keeps the order of
      what it keeps: cleaning a concatenation cleans each part. */
  lemma {:induction false} CleanConcat(allowed: set<string>, a: string, b: string)
    ensures Clean(allowed, a + b) == Clean(allowed, a) + Clean(allowed, b)
  {
    if a == [] {
      assert a + b == b;
    } else {
      var keep := if [a[0]] in allowed then [a[0]] else [];
      var rest := a[1..] + b;
      assert (a + b)[0] == a[0] && (a + b)[1..] == rest;
      CleanConcat(allowed, a[1..], b);
      calc {
        Clean(allowed, a + b);
        keep + Clean(allowed, rest);
        keep + (Clean(allowed, a[1..]) + Clean(allowed, b));
        (keep + Clean(allowed, a[1..])) + Clean(allowed, b);
        Clean(allowed, a) + Clean(allowed, b);
      }
    }
  }

  /** A string made of allowed code points only is left as it is. */
  lemma {:induction false} CleanKeepsAllowed(allowed: set<string>, s: string)
    requires forall c :: c in s ==> [c] in allowed
    ensures Clean(allowed, s) == s
  {
    if s != [] {
      assert forall c :: c in s[1..] ==> c in s;
      CleanKeepsAllowed(allowed, s[1..]);
      assert [s[0]] + s[1..] == s;
    }
  }

  /** Cleaning twice is cleaning once. */
  lemma CleanIdempotent(allowed: set<string>, s: string)
    ensures Clean(allowed, Clean(allowed, s)) == Clean(allowed, s)
  {
    CleanMembers(allowed, s);
    CleanKeepsAllowed(allowed, Clean(allowed, s));
  }

  /** `getArgs(url, proxyUrl?)`: `--get-title`, then the proxy pair when the
      proxy is truthy, then the URL. */
  function GetArgs(url: string, proxyUrl: Option<string>): (args: seq<string>)
    ensures |args| >= 2 && args[0] == "--get-title" && args[|args| - 1] == url
    ensures |args| == 4 <==> Truthy(proxyUrl)
    ensures |args| == 4 ==> args[1] == "--proxy" && args[2] == proxyUrl.value
    ensures |args| != 4 ==> |args| == 2
  {
    ["--get-title"] + ProxyArgs(proxyUrl) + [url]
  }

  /** One `downloadWith[No]Proxy` attempt: the decoded standard output when
      the process succeeded; null when it failed or the call threw. */
  function TitleOf(output: CommandOutput): (title: Option<string>)
    ensures title.Some? <==> Succeeded(output)
    ensures title.Some? ==> title.value == output.stdout
  {
    if Succeeded(output) then Some(output.stdout) else None
  }

  /** The two attempts of `resolve`: without the proxy first, then through
      it exactly when the first gave a falsy title and the proxy is set.
      `run` gives what `yt-dlp` outputs for an argument list; `commands`
      lists the argument lists it was started with, and `fileName` is the
      last attempt's title. */
  method TitleAttempts(url: string, proxyUrl: Option<string>, run: seq<string> -> CommandOutput)
    returns (commands: seq<seq<string>>, fileName: Option<string>)
    ensures 1 <= |commands| <= 2 && commands[0] == GetArgs(url, None)
    ensures |commands| == 2 <==> !Truthy(TitleOf(run(commands[0]))) && Truthy(proxyUrl)
    ensures |commands| == 2 ==> commands[1] == GetArgs(url, proxyUrl)
    ensures fileName == TitleOf(run(commands[|commands| - 1]))
  {
    fileName := None;
    commands := [GetArgs(url, None)];
    fileName := TitleOf(run(commands[0]));
    if !Truthy(fileName) && Truthy(proxyUrl) {
      var args := GetArgs(url, proxyUrl);
      commands := commands + [args];
      fileName := TitleOf(run(args));
    }
  }

  const Extension: string := ".mp3"

  /** The end of `resolve`: a falsy title gives null; otherwise the title is
      trimmed and cleaned, and a non-empty result gets `.mp3` appended. */
  function NameFrom(allowed: set<string>, fileName: Option<string>): (name: Option<string>)
    ensures name.Some? <==> Truthy(fileName) && Clean(allowed, Strings.Trim(fileName.value)) != ""
    ensures name.Some? ==> name.value == Clean(allowed, Strings.Trim(fileName.value)) + Extension
  {
    if !Truthy(fileName) then None
    else
      var clean := Clean(allowed, Strings.Trim(fileName.value));
      if clean == "" then None else Some(clean + Extension)
  }

  /** A resolved name is a non-empty stem of allowed code points, which
      cleaning leaves as it is, followed by `.mp3`. */
  lemma NameIsCleanStem(allowed: set<string>, fileName: Option<string>)
    requires NameFrom(allowed, fileName).Some?
    ensures var name := NameFrom(allowed, fileName).value;
      && |name| > |Extension|
      && name[|name| - |Extension|..] == Extension
      && var stem := name[..|name| - |Extension|];
      && (forall c :: c in stem ==> [c] in allowed)
      && Clean(allowed, stem) == stem
  {
    var stem := Clean(allowed, Strings.Trim(fileName.value));
    CleanMembers(allowed, Strings.Trim(fileName.value));
    var name := stem + Extension;
    assert name[..|name| - |Extension|] == stem;
    assert name[|name| - |Extension|..] == Extension;
    CleanIdempotent(allowed, Strings.Trim(fileName.value));
  }

  /** No letter or digit is one of the five punctuation characters. */
  lemma AlphanumericIsNotSpecial(c: char)
    requires c in LatinLower + LatinUpper || c in RussianLower + RussianUpper || c in Digits
    ensures c !in Specials
  {
    assert c in LatinLower + LatinUpper <==> c in LatinLower || c in LatinUpper;
    assert c in RussianLower + RussianUpper <==> c in RussianLower || c in RussianUpper;
  }

  /** A space is neither a letter nor a digit. */
  lemma SpaceIsNotAlphanumeric()
    ensures !(' ' in LatinLower + LatinUpper || ' ' in RussianLower + RussianUpper || ' ' in Digits)
  {
    assert ' ' in LatinLower + LatinUpper <==> ' ' in LatinLower || ' ' in LatinUpper;
    assert ' ' in RussianLower + RussianUpper <==> ' ' in RussianLower || ' ' in RussianUpper;
  }
}
