/** The parts of a WHATWG `URL` object that the core reads or writes, and the
    tokens `linkifyjs`'s `find` returns. Parsing (`new URL(text)`) and
    tokenising are done by those libraries and enter the model as
    parameters. */
module Urls {
  import opened Js

  /** A parsed hierarchical URL: `scheme` without its colon, `port` empty
      when absent, `pathname` starting with `/`, `search` and `hash` with
      their leading `?`/`#` or empty, and `params` the query's name/value
      pairs in order (`url.searchParams`). */
  datatype Url = Url(
    scheme: string,
    hostname: string,
    port: string,
    pathname: string,
    search: string,
    hash: string,
    params: seq<(string, string)>)

  /** A token found by `linkifyjs`: a link with its `href`, or other text. */
  datatype Token = Token(isLink: bool, href: string)

  /** `url.host`: the hostname and, if there is one, the port. */
  function Host(url: Url): (host: string)
    ensures |host| >= |url.hostname| && host[..|url.hostname|] == url.hostname
  {
    url.hostname + if url.port == "" then "" else ":" + url.port
  }

  /** `url.toString()` (`href`) for a URL without credentials. */
  function Href(url: Url): string
  {
    url.scheme + "://" + Host(url) + url.pathname + url.search + url.hash
  }

  /** The schemes the URL Standard calls special. */
  predicate IsSpecial(scheme: string)
  {
    scheme == "ftp" || scheme == "file" || scheme == "http" || scheme == "https"
    || scheme == "ws" || scheme == "wss"
  }

  /** `url.searchParams.has(name)`. */
  predicate HasParam(url: Url, name: string)
  {
    exists i :: 0 <= i < |url.params| && url.params[i].0 == name
  }

  /** Entry `i` is the first one named `name`. */
  predicate IsFirstEntry(params: seq<(string, string)>, name: string, i: int)
  {
    0 <= i < |params| && params[i].0 == name && forall j :: 0 <= j < i ==> params[j].0 != name
  }

  /** The first value stored under `name` in `params`. */
  function FirstValue(params: seq<(string, string)>, name: string): (value: Option<string>)
    ensures value.Some? <==> exists i :: 0 <= i < |params| && params[i].0 == name
    ensures value.Some? ==> exists i :: IsFirstEntry(params, name, i) && params[i].1 == value.value
  {
    if params == [] then None
    else if params[0].0 == name then
      assert IsFirstEntry(params, name, 0);
      Some(params[0].1)
    else
      var rest := FirstValue(params[1..], name);
      if rest.Some? then
        var i :| IsFirstEntry(params[1..], name, i) && params[1..][i].1 == rest.value;
        assert IsFirstEntry(params, name, i + 1);
        rest
      else rest
  }

  /** `url.searchParams.get(name)`: the first value, `null` when absent. */
  function GetParam(url: Url, name: string): Option<string>
  {
    FirstValue(url.params, name)
  }
}
