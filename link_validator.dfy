/** Which links the bot can download (src/services/LinkValidator.ts): a
    table from host names to rules, every rule of the host's entry must
    hold. */
module LinkValidator {
  import opened Js
  import opened Urls
  import Strings

  /** The checks a table entry makes on a URL. */
  datatype Rule =
    | PathnameIs(path: string)
    | PathnameIsNot(path: string)
    | PathnameStartsWith(prefix: string)
    | HasParam(name: string)
    | ParamIsNot(name: string, value: string)

  predicate Holds(rule: Rule, url: Url)
  {
    match rule
    case PathnameIs(path) => url.pathname == path
    case PathnameIsNot(path) => url.pathname != path
    case PathnameStartsWith(prefix) => Strings.StartsWith(url.pathname, prefix)
    case HasParam(name) => Urls.HasParam(url, name)
    case ParamIsNot(name, value) => GetParam(url, name) != Some(value)
  }

  /** `rules.every((rule) => rule(url))`. */
  predicate Every(rules: seq<Rule>, url: Url)
  {
    forall i :: 0 <= i < |rules| ==> Holds(rules[i], url)
  }

  /** A `/watch` page with a non-empty `v` parameter. */
  const YoutubeRules: seq<Rule> := [PathnameIs("/watch"), HasParam("v"), ParamIsNot("v", "")]
  /** Anything but the root. */
  const ShortYoutubeRules: seq<Rule> := [PathnameIsNot("/")]
  /** A path starting with `/video`. */
  const VkRules: seq<Rule> := [PathnameStartsWith("/video")]

  /** The entries the table is created with, in insertion order. */
  const BaseEntries: seq<(string, seq<Rule>)> := [
    ("youtube.com", YoutubeRules),
    ("m.youtube.com", YoutubeRules),
    ("youtu.be", ShortYoutubeRules),
    ("vk.com", VkRules),
    ("m.vk.com", VkRules)
  ]

  const WwwPrefix: string := "www."

  /** The rules the source gives `domain`; none for other domains. */
  function RulesFor(domain: string): seq<Rule>
  {
    if domain == "youtube.com" || domain == "m.youtube.com" then YoutubeRules
    else if domain == "youtu.be" then ShortYoutubeRules
    else if domain == "vk.com" || domain == "m.vk.com" then VkRules
    else []
  }

  predicate IsBaseDomain(domain: string)
  {
    domain == "youtube.com" || domain == "m.youtube.com" || domain == "youtu.be"
    || domain == "vk.com" || domain == "m.vk.com"
  }

  /** Each base entry holds its domain's rules, and the base entries are the
      base domains. */
  lemma BaseEntriesShape()
    ensures forall i :: 0 <= i < |BaseEntries| ==>
      BaseEntries[i].1 == RulesFor(BaseEntries[i].0) && IsBaseDomain(BaseEntries[i].0)
    ensures forall domain :: IsBaseDomain(domain) ==>
      exists i :: 0 <= i < |BaseEntries| && BaseEntries[i].0 == domain
  {
    assert BaseEntries[0].0 == "youtube.com" && BaseEntries[1].0 == "m.youtube.com";
    assert BaseEntries[2].0 == "youtu.be" && BaseEntries[3].0 == "vk.com";
    assert BaseEntries[4].0 == "m.vk.com";
  }

  /** No base domain begins with `w`, so none is a `www.` alias. */
  lemma BaseDomainIsNoAlias(domain: string, rest: string)
    requires IsBaseDomain(domain)
    ensures domain != WwwPrefix + rest
  {
    assert (WwwPrefix + rest)[0] == 'w';
  }

  lemma PrefixInjective(prefix: string, a: string, b: string)
    requires prefix + a == prefix + b
    ensures a == b
  {
    assert a == (prefix + a)[|prefix|..];
    assert b == (prefix + b)[|prefix|..];
  }

  /** A `Map` filled with `entries`, each under `prefix` + its domain (a
      later entry overwrites an earlier one). */
  function Table(prefix: string, entries: seq<(string, seq<Rule>)>): (table: map<string, seq<Rule>>)
    ensures forall key :: key in table <==> exists i :: 0 <= i < |entries| && key == prefix + entries[i].0
  {
    if entries == [] then map[]
    else
      var init := entries[..|entries| - 1];
      var last := entries[|entries| - 1];
      assert forall i :: 0 <= i < |init| ==> init[i] == entries[i];
      Table(prefix, init)[prefix + last.0 := last.1]
  }

  /** When every entry holds what `rulesOf` gives its domain, so does the
      table. */
  lemma {:induction false} TableValue(prefix: string, entries: seq<(string, seq<Rule>)>,
                                      rulesOf: string -> seq<Rule>, domain: string)
    requires forall i :: 0 <= i < |entries| ==> entries[i].1 == rulesOf(entries[i].0)
    requires prefix + domain in Table(prefix, entries)
    ensures Table(prefix, entries)[prefix + domain] == rulesOf(domain)
  {
    var init := entries[..|entries| - 1];
    var last := entries[|entries| - 1];
    if prefix + domain == prefix + last.0 {
      PrefixInjective(prefix, domain, last.0);
    } else {
      assert forall i :: 0 <= i < |init| ==> init[i] == entries[i];
      TableValue(prefix, init, rulesOf, domain);
    }
  }

  /** Filling one more entry updates the table under that entry's key. */
  lemma TableStep(prefix: string, entries: seq<(string, seq<Rule>)>, i: nat)
    requires i < |entries|
    ensures Table(prefix, entries[..i + 1]) == Table(prefix, entries[..i])[prefix + entries[i].0 := entries[i].1]
  {
    assert entries[..i + 1][..i] == entries[..i];
  }

  lemma UnionUpdate(a: map<string, seq<Rule>>, b: map<string, seq<Rule>>, key: string, value: seq<Rule>)
    ensures (a + b)[key := value] == a + b[key := value]
  {
  }

  /** The table once the constructor has added the aliases of the first
      `count` base entries. */
  function PartlyAliased(count: nat): map<string, seq<Rule>>
    requires count <= |BaseEntries|
  {
    Table("", BaseEntries) + Table(WwwPrefix, BaseEntries[..count])
  }

  /** Adding the alias of entry `i` moves on to the next partial table. */
  lemma AliasStep(i: nat)
    requires i < |BaseEntries|
    ensures PartlyAliased(i)[WwwPrefix + BaseEntries[i].0 := BaseEntries[i].1] == PartlyAliased(i + 1)
  {
    TableStep(WwwPrefix, BaseEntries, i);
    UnionUpdate(Table("", BaseEntries), Table(WwwPrefix, BaseEntries[..i]),
                WwwPrefix + BaseEntries[i].0, BaseEntries[i].1);
  }

  /** The table after the constructor: the base entries and a `www.` alias
      of each. */
  function AliasedTable(): map<string, seq<Rule>>
  {
    Table("", BaseEntries) + Table(WwwPrefix, BaseEntries)
  }

  /** `hostname` is `domain` or its `www.` alias. */
  predicate Names(hostname: string, domain: string)
  {
    hostname == domain || hostname == WwwPrefix + domain
  }

  /** A host the table is meant to know: a base domain or its alias. */
  ghost predicate IsKnownHost(hostname: string)
  {
    exists domain :: IsBaseDomain(domain) && Names(hostname, domain)
  }

  /** A YouTube watch page with a non-empty video id. */
  predicate IsYoutubeVideo(url: Url)
  {
    url.pathname == "/watch" && GetParam(url, "v").Some? && GetParam(url, "v").value != ""
  }

  /** The links of `domain` the bot accepts, stated without the table. */
  predicate IsVideoOf(domain: string, url: Url)
  {
    || ((domain == "youtube.com" || domain == "m.youtube.com") && IsYoutubeVideo(url))
    || (domain == "youtu.be" && url.pathname != "/")
    || ((domain == "vk.com" || domain == "m.vk.com") && Strings.StartsWith(url.pathname, "/video"))
  }

  ghost predicate IsSupportedVideoLink(url: Url)
  {
    exists domain :: Names(url.hostname, domain) && IsVideoOf(domain, url)
  }

  /** A host names at most one base domain. */
  lemma NamedDomainIsUnique(hostname: string, a: string, b: string)
    requires IsBaseDomain(a) && IsBaseDomain(b) && Names(hostname, a) && Names(hostname, b)
    ensures a == b
  {
    if hostname == a {
      BaseDomainIsNoAlias(a, b);
    } else {
      BaseDomainIsNoAlias(b, a);
      PrefixInjective(WwwPrefix, a, b);
    }
  }

  /** The base part of the table holds the base domains. */
  lemma BaseTableLookup(hostname: string)
    ensures hostname in Table("", BaseEntries) <==> IsBaseDomain(hostname)
  {
    BaseEntriesShape();
    assert "" + hostname == hostname;
    if IsBaseDomain(hostname) {
      var i :| 0 <= i < |BaseEntries| && BaseEntries[i].0 == hostname;
      assert hostname == "" + BaseEntries[i].0;
    }
    if hostname in Table("", BaseEntries) {
      var i :| 0 <= i < |BaseEntries| && hostname == "" + BaseEntries[i].0;
    }
  }

  /** The alias part of the table holds `www.` + each base domain. */
  lemma AliasTableLookup(domain: string)
    ensures WwwPrefix + domain in Table(WwwPrefix, BaseEntries) <==> IsBaseDomain(domain)
  {
    BaseEntriesShape();
    if IsBaseDomain(domain) {
      var i :| 0 <= i < |BaseEntries| && BaseEntries[i].0 == domain;
    }
    if WwwPrefix + domain in Table(WwwPrefix, BaseEntries) {
      var i :| 0 <= i < |BaseEntries| && WwwPrefix + domain == WwwPrefix + BaseEntries[i].0;
      PrefixInjective(WwwPrefix, domain, BaseEntries[i].0);
    }
  }

  /** Every key of the alias part is `www.` + something. */
  lemma AliasTableKey(hostname: string)
    requires hostname in Table(WwwPrefix, BaseEntries)
    ensures exists domain :: hostname == WwwPrefix + domain
  {
    BaseEntriesShape();
    var i :| 0 <= i < |BaseEntries| && hostname == WwwPrefix + BaseEntries[i].0;
  }

  /** The aliased table holds exactly the known hosts. */
  lemma AliasedTableKeys(hostname: string)
    ensures hostname in AliasedTable() <==> IsKnownHost(hostname)
  {
    BaseTableLookup(hostname);
    if IsKnownHost(hostname) {
      var domain :| IsBaseDomain(domain) && Names(hostname, domain);
      AliasTableLookup(domain);
    }
    if hostname in Table(WwwPrefix, BaseEntries) {
      AliasTableKey(hostname);
      var domain :| hostname == WwwPrefix + domain;
      AliasTableLookup(domain);
      assert Names(hostname, domain);
    }
  }

  /** Each host of the aliased table has the rules of the base domain it
      names. */
  lemma AliasedTableValue(hostname: string)
    requires hostname in AliasedTable()
    ensures exists domain ::
      IsBaseDomain(domain) && Names(hostname, domain) && AliasedTable()[hostname] == RulesFor(domain)
  {
    BaseEntriesShape();
    if hostname in Table(WwwPrefix, BaseEntries) {
      AliasTableKey(hostname);
      var domain :| hostname == WwwPrefix + domain;
      AliasTableLookup(domain);
      TableValue(WwwPrefix, BaseEntries, RulesFor, domain);
      assert Names(hostname, domain);
    } else {
      assert "" + hostname == hostname;
      BaseTableLookup(hostname);
      TableValue("", BaseEntries, RulesFor, hostname);
      assert Names(hostname, hostname);
    }
  }

  /** The aliased table holds exactly the known hosts, each with the rules
      of the base domain it names. */
  lemma AliasedTableLookup(hostname: string)
    ensures hostname in AliasedTable() <==> IsKnownHost(hostname)
    ensures hostname in AliasedTable() ==> exists domain ::
      IsBaseDomain(domain) && Names(hostname, domain) && AliasedTable()[hostname] == RulesFor(domain)
  {
    AliasedTableKeys(hostname);
    if hostname in AliasedTable() {
      AliasedTableValue(hostname);
    }
  }

  /** A domain with videos the bot accepts is a base domain. */
  lemma VideoDomainIsBase(domain: string, url: Url)
    ensures IsVideoOf(domain, url) ==> IsBaseDomain(domain)
  {
  }

  /** A base domain's rules hold exactly for the links of that domain the
      bot accepts. */
  lemma RulesMeanVideo(domain: string, url: Url)
    requires IsBaseDomain(domain)
    ensures Every(RulesFor(domain), url) <==> IsVideoOf(domain, url)
  {
    if domain == "youtube.com" || domain == "m.youtube.com" {
      assert RulesFor(domain) == YoutubeRules;
      assert Every(YoutubeRules, url) <==>
        Holds(YoutubeRules[0], url) && Holds(YoutubeRules[1], url) && Holds(YoutubeRules[2], url);
    } else if domain == "youtu.be" {
      assert Every(ShortYoutubeRules, url) <==> Holds(ShortYoutubeRules[0], url);
    } else {
      assert Every(VkRules, url) <==> Holds(VkRules[0], url);
    }
  }

  /** `rules.get(hostname) ?? rules.get("www." + hostname) ?? null`. */
  function Lookup(rules: map<string, seq<Rule>>, hostname: string): (found: Option<seq<Rule>>)
    ensures found.Some? <==> hostname in rules || WwwPrefix + hostname in rules
  {
    if hostname in rules then Some(rules[hostname])
    else if WwwPrefix + hostname in rules then Some(rules[WwwPrefix + hostname])
    else None
  }

  /** The `www.` fallback of the lookup never finds anything the first
      lookup missed: the table has no `www.www.` keys. */
  lemma WwwFallbackIsDead(hostname: string)
    ensures WwwPrefix + hostname in AliasedTable() ==> hostname in AliasedTable()
  {
    AliasedTableLookup(WwwPrefix + hostname);
    AliasedTableLookup(hostname);
    if IsKnownHost(WwwPrefix + hostname) {
      var domain :| IsBaseDomain(domain) && Names(WwwPrefix + hostname, domain);
      BaseDomainIsNoAlias(domain, hostname);
      PrefixInjective(WwwPrefix, hostname, domain);
      assert Names(hostname, domain);
    }
  }

  /** Every base domain and its alias carry the same rules, and nothing else
      is in the table. */
  lemma AliasedTableShape(domain: string)
    requires IsBaseDomain(domain)
    ensures domain in AliasedTable() && WwwPrefix + domain in AliasedTable()
    ensures AliasedTable()[domain] == AliasedTable()[WwwPrefix + domain] == RulesFor(domain)
  {
    AliasedTableLookup(domain);
    AliasedTableLookup(WwwPrefix + domain);
    assert Names(domain, domain) && Names(WwwPrefix + domain, domain);
    var d :| IsBaseDomain(d) && Names(domain, d) && AliasedTable()[domain] == RulesFor(d);
    NamedDomainIsUnique(domain, d, domain);
    var d' :| IsBaseDomain(d') && Names(WwwPrefix + domain, d') && AliasedTable()[WwwPrefix + domain] == RulesFor(d');
    NamedDomainIsUnique(WwwPrefix + domain, d', domain);
  }

  /** Looking a URL's host up in the aliased table and applying the rules
      found is the same as the reference. */
  lemma LookupIsReference(url: Url)
    ensures Lookup(AliasedTable(), url.hostname).Some? <==> IsKnownHost(url.hostname)
    ensures Lookup(AliasedTable(), url.hostname).Some? ==>
      (Every(Lookup(AliasedTable(), url.hostname).value, url) <==> IsSupportedVideoLink(url))
    ensures Lookup(AliasedTable(), url.hostname).None? ==> !IsSupportedVideoLink(url)
  {
    var hostname := url.hostname;
    AliasedTableLookup(hostname);
    WwwFallbackIsDead(hostname);
    if hostname in AliasedTable() {
      var domain :| IsBaseDomain(domain) && Names(hostname, domain) && AliasedTable()[hostname] == RulesFor(domain);
      RulesMeanVideo(domain, url);
      forall other | Names(hostname, other) && IsVideoOf(other, url) ensures other == domain {
        VideoDomainIsBase(other, url);
        NamedDomainIsUnique(hostname, domain, other);
      }
    } else {
      forall other ensures !(Names(hostname, other) && IsVideoOf(other, url)) {
        VideoDomainIsBase(other, url);
      }
    }
  }

  /** The answer for one URL. An unknown one carries a message for the
      user; a downloadable one carries none (`message: null`). */
  datatype URLResponse = Unknown(url: Url, message: string) | Downloadable(url: Url)

  function UnknownDomainMessage(hostname: string): string
  {
    "Домен " + hostname + " не похож ни на один из доменов Youtube или Vkontakte."
  }

  function UnsupportedLinkMessage(url: Url): string
  {
    "Ссыллка " + Href(url)
    + " пока что не поддерживается. Попробуйте скопировать прямую ссылку на Youtube или Vkontakte видео"
  }

  /** The response once the lookup has found `found` for the URL's host. */
  function Respond(found: Option<seq<Rule>>, url: Url): URLResponse
  {
    match found
    case None => Unknown(url, UnknownDomainMessage(url.hostname))
    case Some(rules) =>
      if Every(rules, url) then Downloadable(url)
      else Unknown(url, UnsupportedLinkMessage(url))
  }

  lemma RespondIsReference(url: Url)
    ensures var response := Respond(Lookup(AliasedTable(), url.hostname), url);
      && response.url == url
      && (response.Downloadable? <==> IsSupportedVideoLink(url))
      && (!IsKnownHost(url.hostname) ==> response == Unknown(url, UnknownDomainMessage(url.hostname)))
      && (IsKnownHost(url.hostname) && !IsSupportedVideoLink(url) ==>
            response == Unknown(url, UnsupportedLinkMessage(url)))
  {
    LookupIsReference(url);
  }

  class LinkValidator {
    /** `rules`: host name to the checks a link on that host must pass. */
    var rules: map<string, seq<Rule>>

    ghost predicate Valid()
      reads this
    {
      rules == AliasedTable()
    }

    /** Fills the table with the base entries, then, over a snapshot of
        them, adds a `www.` alias with the same rules for each, so no alias
        is aliased again. */
    constructor ()
      ensures Valid()
    {
      rules := Table("", BaseEntries);
      new;
      var entries := BaseEntries;
      assert rules == PartlyAliased(0);
      for i := 0 to |entries|
        invariant rules == PartlyAliased(i)
      {
        AliasStep(i);
        rules := rules[WwwPrefix + entries[i].0 := entries[i].1];
      }
      assert BaseEntries[..|BaseEntries|] == BaseEntries;
    }

    /** `getURLResponse(url)`: a host the table does not know gives UNKNOWN
        with the domain message; a known host gives DOWNLOADABLE when every
        rule of its entry holds and UNKNOWN with the "not supported" message
        otherwise. The response always carries the URL it was given. */
    method GetURLResponse(url: Url) returns (response: URLResponse)
      requires Valid()
      ensures response.url == url
      ensures response.Downloadable? <==> IsSupportedVideoLink(url)
      ensures !IsKnownHost(url.hostname) ==> response == Unknown(url, UnknownDomainMessage(url.hostname))
      ensures IsKnownHost(url.hostname) && !IsSupportedVideoLink(url) ==>
        response == Unknown(url, UnsupportedLinkMessage(url))
    {
      RespondIsReference(url);
      response := Respond(Lookup(rules, url.hostname), url);
    }
  }
}
