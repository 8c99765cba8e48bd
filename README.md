# podcastify core in Dafny

podcastify is a Telegram bot. It turns YouTube and VK video links into mp3
podcasts. This project models the bot's core services and proves properties
about them:

- **Worker pool.** Every job runs on a worker pool. The pool is a fixed set
  of `AsyncQueue` lanes, each of which runs its tasks one after another in
  submission order. A task goes to the first lane with the fewest active
  tasks. When there is no lane at all, the pool publishes a message on the
  `PanicBus`, which is a thin wrapper around a synchronous `PubSub` channel.
  The number of lanes comes from the `WORKERS` environment variable, read by
  `WorkerConfiguration`.
- **Links.** `LinksExtractor` collects the distinct links of a message in
  first-seen order, keeps those that parse as URLs, and asks `LinkValidator`
  about each one. `LinkValidator` answers with either a downloadable response
  or an "unknown" response carrying a (Russian) message. It decides from a
  table of supported hosts: each host, with and without a `www.` prefix,
  maps to the rules a video URL on it must satisfy.
- **Titles.** `VideoNameResolver` and `YoutubeVideoNameResolver` ask `yt-dlp`
  for the video title. If that fails and a proxy is configured, they ask
  again through the proxy. They then reduce the title to a whitelist of
  characters and append `.mp3`.
- **Download.** `Downloader` runs `yt-dlp` the same way, without and then
  with the proxy, to extract the audio into a temporary file named after a
  UUID.
- **Upload.** `UploaderPool` tries its uploaders in order until one of them
  gives a link. Each backend sends the file with `fetch` and turns the
  response into a download link:
  - the transfer.sh family, `TransferSH` and its seven instances;
  - libriciel;
  - filedoge;
  - bashupload.

Promises are modelled as sequential state machines or as the values they
settle with (`Settled<T>`: fulfilled with a value or rejected with a
reason). Everything the core calls but does not define enters as a
parameter:

- `Number.parseInt`;
- `new URL(text)`, a `string -> Option<Url>`;
- the `linkifyjs` tokeniser, a `string -> seq<Token>`;
- `fetch`, as its settled response;
- `Deno.readFile`, as an `Option<Bytes>`;
- `Deno.Command(...).output()`, as a `seq<string> -> CommandOutput` over the
  argument list;
- `path.join`;
- `crypto.randomUUID()`, as the UUIDs it returns;
- the environment variables.

Each module follows one source file. Module `Js` holds the JavaScript values
the core relies on. `Strings` holds the string operations (`split`/`pop`,
`replace`, `trim`). `Urls` holds the URL fields that are read. `Uploads`
holds what the backends share. `Commands` holds what `yt-dlp` returns.
`Titles` holds what the two title resolvers share.

## Model

| member | source | states |
|---|---|---|
| Js.MathMax | src/services/WorkerConfiguration.ts:18 | `Math.max` is NaN exactly when either argument is NaN; otherwise it is one of its arguments and at least both of them. |
| AsyncQueue.AsyncQueue.Running | src/shared/AsyncQueue.ts:4-6 | Some task is running exactly when the active-task counter is positive. The running task is the oldest unsettled submission: it has no result yet, and every earlier submission has one. |
| AsyncQueue.AsyncQueue.constructor | src/shared/AsyncQueue.ts:4-6 | A new lane has no active tasks, an empty chain and no results. |
| AsyncQueue.AsyncQueue.IncrementActiveTasks | src/shared/AsyncQueue.ts:8-11 | The counter goes up by one. |
| AsyncQueue.AsyncQueue.DecrementActiveTasks | src/shared/AsyncQueue.ts:13-16 | The counter goes down by one and never below zero (`Math.max(0, n - 1)`). |
| AsyncQueue.AsyncQueue.SubmitAndGetResult | src/shared/AsyncQueue.ts:22-41 | The task is counted as active and chained behind everything already submitted. It gets the next ticket, and no result exists for it yet. The lane's invariant is kept. |
| AsyncQueue.AsyncQueue.Settle | src/shared/AsyncQueue.ts:22-41 | When the running task settles, fulfilled or rejected alike, its caller receives exactly that outcome. Every earlier submission already had its result, the counter drops by one and the next task runs. A rejection does not block the chain. |
| AsyncQueue.ActiveTasksCountsUnsettled | src/shared/AsyncQueue.ts:18-20 | The `activeTasks` getter equals the number of submissions minus the results handed out. |
| AsyncQueue.TicketsBelow | src/shared/AsyncQueue.ts:22-41 | The tickets issued before the k-th submission are exactly 0..k-1, and there are k of them. |
| PubSub.Without | src/shared/PubSub.ts:36-38 | `Set.delete`: the result holds exactly the other callbacks and is no longer than before. |
| PubSub.WithoutNoDuplicates | src/shared/PubSub.ts:20 | Deleting keeps the subscriber set free of duplicates. |
| PubSub.WithoutAbsent | src/shared/PubSub.ts:36-38 | Deleting a callback that is not subscribed changes nothing. |
| PubSub.WithoutIdempotent | src/shared/PubSub.ts:36-38 | Unsubscribing twice has the effect of unsubscribing once. |
| PubSub.WithoutKeepsOthersInOrder | src/shared/PubSub.ts:36-38 | Deleting one callback leaves the others in their insertion order. |
| PubSub.WithoutAppended | src/shared/PubSub.ts:33-38 | Deleting a callback removes it even from the end of the list. |
| PubSub.SubscribeThenUnsubscribe | src/shared/PubSub.ts:33-38 | Subscribing a new callback and then unsubscribing it restores the subscriber list. |
| PubSub.PubSubImpl.constructor | src/shared/PubSub.ts:20 | A new channel has no subscribers. |
| PubSub.PubSubImpl.Publish | src/shared/PubSub.ts:22-31 | Each current subscriber is called exactly once with the value, in subscription order. A subscriber that throws does not stop the others. |
| PubSub.PubSubImpl.Subscribe | src/shared/PubSub.ts:33-40 | The callback is added at the end unless it is already there. The returned subscription is bound to this channel and this callback. |
| PubSub.PubSubImpl.Delete | src/shared/PubSub.ts:36-38 | The subscriber list loses exactly the callback. |
| PubSub.Unsubscribe | src/shared/PubSub.ts:36-38 | `unsubscribe()` removes exactly its own callback from its own channel, leaves the rest in order and keeps the set duplicate-free. |
| PanicBus.PanicBus.constructor | src/services/PanicBus.ts:12 | Every bus owns a fresh, empty channel. |
| PanicBus.PanicBus.Subscribe | src/services/PanicBus.ts:14-17 | Subscribing forwards to the bus's channel and hands back that channel's subscription. |
| PanicBus.PanicBus.Publish | src/services/PanicBus.ts:19-22 | Every subscriber of the bus receives the message itself, once, in order. |
| WorkerConfiguration.Workers | src/services/WorkerConfiguration.ts:9-20 | The constructor as written. An unset or empty `WORKERS` gives 4. A parsed n gives max(1, n). An unparsable value gives NaN. Any numeric result is at least 1. |
| WorkerConfiguration.MalformedWorkersIsNaN | src/services/WorkerConfiguration.ts:14-18 | A non-empty `WORKERS` that `parseInt` cannot read yields NaN, not the default 4. |
| WorkerConfiguration.IntendedWorkers | src/services/WorkerConfiguration.ts:5-20 | The corrected reading is always a number of at least 1. It is 4 when the value is unset or unparsable, and otherwise agrees with the code as written. |
| WorkerPool.LaneCount | src/services/WorkerPool.ts:16-18 | `for (i = 0; i < workers; ++i)` runs n times for a positive n, and zero times for zero, a negative number or NaN. |
| WorkerPool.FirstMinimumExamples | src/services/WorkerPool.ts:28-33 | A strict `<` comparison means that ties go to the lowest lane. |
| WorkerPool.ActiveCounts | src/services/WorkerPool.ts:28-33 | The lanes' active-task counters, lane by lane. |
| WorkerPool.MalformedWorkersLeavesNoLanes | src/services/WorkerPool.ts:11-20 | A malformed `WORKERS` value leaves the pool with no lanes at all. |
| WorkerPool.WorkerPool.constructor | src/services/WorkerPool.ts:11-20 | The pool creates exactly as many fresh, idle, distinct lanes as the loop runs. |
| WorkerPool.WorkerPool.GetLessBusyWorker | src/services/WorkerPool.ts:28-46 | It returns the first lane with the fewest active tasks. It fails exactly when there are no lanes, and then every panic-bus subscriber receives the "No workers available to submit a task" message from `WorkerPool`. |
| WorkerPool.WorkerPool.SubmitTaskAndGetResult | src/services/WorkerPool.ts:22-26 | The task joins the chain of the least busy lane (the first minimum of the counters): that lane's counter and submission count go up by one, its results are untouched, and no other lane changes. With no lanes nothing is submitted and every panic-bus subscriber receives the `WorkerPool` "No workers available to submit a task" message, once, in order. |
| Urls.Host | src/services/UploaderTransferSH.ts:22-25 | `url.host` starts with the hostname. |
| Urls.FirstValue | src/services/LinkValidator.ts:6-39 | `searchParams.get` finds a value exactly when the name occurs, and returns the value of the name's first entry. |
| Uploads.FileNameOf | src/services/UploaderTransferSH.ts:33 | `split("/").pop()` is the text after the last `/` (the whole path when there is none). |
| Uploads.FileNameOfDirectory | src/services/UploaderTransferSH.ts:33 | A path ending in `/` gives the empty file name, because the `??` fallback never fires. |
| Uploads.FileNameOfBareName | src/services/UploaderTransferSH.ts:33 | A path without `/` is its own file name. |
| Uploads.Handed | src/services/UploaderTransferSH.ts:44-48 | `return this.postFile(...)` inside `try` without `await` settles as `postFile` does. Its rejection reaches the caller, and it never gives `null`. |
| UploaderTransferSH.WithHttps | src/services/UploaderTransferSH.ts:23 | The `protocol` setter changes neither the host, the path, the query nor the fragment. |
| UploaderTransferSH.RewrittenHref | src/services/UploaderTransferSH.ts:22-25 | For a special URL, the link is `https://` + host + `/get` + the original path, query and fragment. The port is dropped when it is 443. |
| UploaderTransferSH.RewrittenNonSpecial | src/services/UploaderTransferSH.ts:22-25 | A non-special URL keeps its scheme; only `/get` is put in front of its path. |
| UploaderTransferSH.PostFile | src/services/UploaderTransferSH.ts:11-29 | A `fetch` failure is passed on. A non-ok response is rejected with "Failed to upload", an empty body with "Incorrect response" and an unparsable body with "Invalid URL". Otherwise the rewritten link is returned. |
| UploaderTransferSH.Upload | src/services/UploaderTransferSH.ts:31-49 | An unreadable file gives `null` and no request. Otherwise a PUT goes to `origin/<file name>` with the bytes as `podcast.mp3` in the `file` field, and the result settles as `postFile` does, never `null`. |
| UploaderLibriciel.PostFile | src/services/UploaderLibriciel.ts:10-27 | A non-ok response is rejected and a `fetch` failure is passed on. An ok response gives `null` exactly when its body is empty. A link is the body grown by nothing or by `/get`. |
| UploaderLibriciel.ReplacedLength | src/services/UploaderLibriciel.ts:19-22 | `replace` of the origin by the origin plus `/get` lengthens the text by 0 or 4. |
| UploaderLibriciel.PostFileAddsGet | src/services/UploaderLibriciel.ts:17-23 | A body naming the origin comes back with `/get` inserted after the first occurrence of the origin, and nothing else changes. |
| UploaderLibriciel.PostFileKeepsForeignLink | src/services/UploaderLibriciel.ts:17-23 | A non-empty body that does not name the origin comes back unchanged. |
| UploaderLibriciel.Upload | src/services/UploaderLibriciel.ts:29-47 | An unreadable file gives `null` and no request. Otherwise a PUT goes to `https://curl.libriciel.fr/<file name>` with the form file, and the result settles as `postFile` does. |
| UploaderFileDoge.PostFile | src/services/UploaderFileDoge.ts:10-26 | A `fetch` or `json()` failure is passed on, and a non-ok response is rejected with "Failed to upload". An ok response gives a link exactly when its token is truthy, and is otherwise rejected with "Incorrect response". The link is the download prefix followed by that token. |
| UploaderFileDoge.Upload | src/services/UploaderFileDoge.ts:28-45 | An unreadable file gives `null` and no request. Otherwise a POST goes to the upload URL, and the result settles as `postFile` does, never `null`. |
| UploaderBashUpload.FirstLink | src/services/UploaderBashUpload.ts:24 | Destructuring the filtered tokens gives nothing exactly when there is no link token, and otherwise the first link's href. |
| UploaderBashUpload.PostFile | src/services/UploaderBashUpload.ts:12-32 | Rejections are "Failed to upload", "Incorrect response" for an empty body, and "No links found" exactly when the tokens hold no link. The upload succeeds exactly when the tokens hold a link, and the result is the first link's href followed by `?download=1`. |
| UploaderBashUpload.Upload | src/services/UploaderBashUpload.ts:34-49 | An unreadable file gives `null` and no request. Otherwise a PUT goes to `https://bashupload.com/<file name>` with the bare file, and the result settles as `postFile` does, never `null`. |
| UploaderPool.UploaderPool.constructor | src/services/UploaderPool.ts:8-10 | The pool holds exactly the 0x0 uploader. |
| UploaderPool.UploaderPool.Upload | src/services/UploaderPool.ts:12-20 | Uploaders are called in list order, each after the previous one gave `null`. The first non-`null` outcome, a link or a rejection, is returned. The result is `null` exactly when every uploader gives `null`, and then all of them were called. |
| LinkValidator.BaseEntriesShape | src/services/LinkValidator.ts:6-39 | Each base entry of the table holds the rules of its domain, and every supported domain has an entry. |
| LinkValidator.BaseDomainIsNoAlias | src/services/LinkValidator.ts:41-45 | No base domain has the form `www.` + something, so the aliases never overwrite a base entry. |
| LinkValidator.PrefixInjective | src/services/LinkValidator.ts:41-45 | Distinct domains give distinct `www.` aliases. |
| LinkValidator.Table | src/services/LinkValidator.ts:41-45 | The table built from entries under a prefix has exactly the prefixed domains as keys. |
| LinkValidator.TableValue | src/services/LinkValidator.ts:41-45 | Each prefixed key maps to its domain's rules. |
| LinkValidator.TableStep | src/services/LinkValidator.ts:41-45 | Building the table one entry further is one map update. |
| LinkValidator.AliasStep | src/services/LinkValidator.ts:41-45 | One iteration of the constructor's loop adds the next `www.` alias. |
| LinkValidator.NamedDomainIsUnique | src/services/LinkValidator.ts:6-39 | A hostname names at most one supported domain. |
| LinkValidator.BaseTableLookup | src/services/LinkValidator.ts:6-39 | A hostname is a key of the base table exactly when it is a supported domain. |
| LinkValidator.AliasTableLookup | src/services/LinkValidator.ts:41-45 | `www.` + domain is an alias key exactly when the domain is supported. |
| LinkValidator.AliasTableKey | src/services/LinkValidator.ts:41-45 | Every alias key starts with `www.`. |
| LinkValidator.AliasedTableKeys | src/services/LinkValidator.ts:6-45 | After construction, a hostname is a key exactly when it names a supported domain, with or without `www.`. |
| LinkValidator.AliasedTableValue | src/services/LinkValidator.ts:6-45 | After construction, each key maps to the rules of the domain it names. |
| LinkValidator.AliasedTableLookup | src/services/LinkValidator.ts:6-45 | The keys and the values of the constructed table together. |
| LinkValidator.VideoDomainIsBase | src/services/LinkValidator.ts:6-39 | A video link belongs to a supported domain. |
| LinkValidator.RulesMeanVideo | src/services/LinkValidator.ts:6-39 | A domain's rules all hold exactly when the URL is a video link of that domain: a `youtube.com`/`m.youtube.com` `/watch` page with a non-empty `v`, a `youtu.be` path other than `/`, or a `vk.com`/`m.vk.com` path starting with `/video`. |
| LinkValidator.Lookup | src/services/LinkValidator.ts:49-52 | The lookup finds rules exactly when the hostname, or `www.` + the hostname, is a key. |
| LinkValidator.WwwFallbackIsDead | src/services/LinkValidator.ts:49-52 | Every `www.` + hostname key implies that the hostname itself is a key, so the fallback never finds anything new. |
| LinkValidator.AliasedTableShape | src/services/LinkValidator.ts:41-45 | Each supported domain and its `www.` alias map to the same rules. |
| LinkValidator.LookupIsReference | src/services/LinkValidator.ts:47-75 | The lookup succeeds exactly for known hosts. The found rules hold exactly for supported video links, and an unknown host is never supported. |
| LinkValidator.RespondIsReference | src/services/LinkValidator.ts:47-75 | The response carries the URL. It is downloadable exactly for supported video links. Otherwise it carries the unknown-domain message for an unknown host and the unsupported-link message for a known one. |
| LinkValidator.LinkValidator.constructor | src/services/LinkValidator.ts:41-45 | The constructor's loop leaves each domain and its `www.` alias in the table. |
| LinkValidator.LinkValidator.GetURLResponse | src/services/LinkValidator.ts:47-75 | `getURLResponse` returns the URL it was given. It is downloadable exactly for a supported video link. Otherwise it carries the unknown-domain message when the host is unknown, and the unsupported-link message when the host is known. |
| LinksExtractor.LinkHrefs | src/services/LinksExtractor.ts:11-13 | The link set never holds more entries than there are tokens. |
| LinksExtractor.LinkHrefsMembers | src/services/LinksExtractor.ts:11-13 | The set of hrefs has no duplicates and holds exactly the hrefs of link tokens. |
| LinksExtractor.FirstOccurrenceInInit | src/services/LinksExtractor.ts:11-13 | An href already collected was first seen before the last token. |
| LinksExtractor.KeepsFirstSeenOrder | src/services/LinksExtractor.ts:11-13 | The `Set` keeps insertion order: of two collected hrefs, the earlier one was seen first in the text. |
| LinksExtractor.ParseAll | src/services/LinksExtractor.ts:14-22 | Parsing never produces more URLs than there were hrefs. |
| LinksExtractor.ParseAllMembers | src/services/LinksExtractor.ts:14-22 | The URLs kept are exactly the parses of the hrefs that parse: every URL kept is the parse of some href, and every href that parses has its URL kept. Unparsable hrefs are skipped. |
| LinksExtractor.ParseAllTotal | src/services/LinksExtractor.ts:14-22 | When every href parses, the URLs are their parses, one for one and in order. |
| LinksExtractor.LinkHrefsAppend | src/services/LinksExtractor.ts:11-13 | One more token adds its href at the end exactly when it is a link that has not been seen yet. |
| LinksExtractor.ParseAllAppend | src/services/LinksExtractor.ts:14-22 | One more href adds its URL at the end exactly when it parses. |
| LinksExtractor.WatchPage | src/services/LinksExtractor.test.ts:12-20 | A watch page is a `www.youtube.com/watch` URL. |
| LinksExtractor.WatchPageIsSupported | src/services/LinksExtractor.test.ts:12-20 | A watch page with a non-empty video id is a supported video link. |
| LinksExtractor.WatchPageHref | src/services/LinksExtractor.test.ts:12-20 | A watch page prints as `https://www.youtube.com/watch?v=` + id. |
| LinksExtractor.TwoLinkHrefs | src/services/LinksExtractor.test.ts:22-35 | Text, a link, more text and a link to a different page: the two hrefs are collected in order, and the text is skipped. |
| LinksExtractor.TwoLinkUrls | src/services/LinksExtractor.test.ts:22-35 | Text, a link, more text and a different link, both of which parse: the result is their two URLs, in order. |
| LinksExtractor.TwoLinksInOrder | src/services/LinksExtractor.test.ts:22-35 | The two-link message of the test, with its text around the links, yields both YouTube URLs in the order written. Both are supported. |
| LinksExtractor.RepeatedLinkHrefs | src/services/LinksExtractor.ts:11-13 | A link repeated around some text is collected once. |
| LinksExtractor.RepeatedLinkOnce | src/services/LinksExtractor.ts:11-13 | A message repeating one link yields its URL once. |
| LinksExtractor.LinksExtractor.constructor | src/services/LinksExtractor.ts:8 | The extractor keeps the validator it was given. |
| LinksExtractor.LinksExtractor.GetUrlsFromText | src/services/LinksExtractor.ts:25-33 | There is one response per valid URL, in order. Each carries its URL and is downloadable exactly when the URL is a supported video link; otherwise it carries the unknown-domain message for an unknown host and the unsupported-link message for a known one, the messages the bot replies with. |
| Commands.ProxyArgs | src/services/VideoNameResolver.ts:95-97 | A proxy pair is passed exactly when the proxy setting is a non-empty string, and then it is `--proxy` followed by that setting. |
| Titles.Range | src/services/VideoNameResolver.ts:9-20 | The alphabet from `first` to `last` holds exactly the code points in between, in order. |
| Titles.CharsOf | src/services/VideoNameResolver.ts:9-32 | `new Set(Array.from(s))` holds exactly the one-code-point strings of the characters of `s`. |
| Titles.Clean | src/services/VideoNameResolver.ts:99-103 | Cleaning never lengthens a name. |
| Titles.CleanMembers | src/services/VideoNameResolver.ts:99-103 | The cleaned name holds exactly the whitelisted characters of the raw one. |
| Titles.CleanConcat | src/services/VideoNameResolver.ts:99-103 | The filter works character by character and keeps order: cleaning a concatenation cleans each part. |
| Titles.CleanKeepsAllowed | src/services/VideoNameResolver.ts:99-103 | A name made only of whitelisted characters is left unchanged. |
| Titles.CleanIdempotent | src/services/VideoNameResolver.ts:99-103 | Cleaning twice is cleaning once. |
| Titles.GetArgs | src/services/VideoNameResolver.ts:95-97 | The arguments are `--get-title`, then the proxy pair exactly when the proxy is truthy, then the URL. |
| Titles.TitleOf | src/services/VideoNameResolver.ts:39-93 | A title exists exactly when `yt-dlp` exited successfully, and it is its standard output. |
| Titles.TitleAttempts | src/services/VideoNameResolver.ts:111-131 | `yt-dlp` is asked without a proxy first. It is asked a second time, through the proxy, exactly when the first title is falsy and a proxy is set. The title is the last attempt's output. |
| Titles.NameFrom | src/services/VideoNameResolver.ts:139-140 | A name exists exactly when the title is truthy and its trimmed, cleaned form is non-empty, and it is that form followed by `.mp3`. |
| Titles.NameIsCleanStem | src/services/VideoNameResolver.ts:99-140 | A resolved name is a non-empty stem of whitelisted characters, which cleaning leaves unchanged, followed by `.mp3`. |
| Titles.AlphanumericIsNotSpecial | src/services/VideoNameResolver.ts:9-32 | No letter or digit is one of the five punctuation characters. |
| Titles.SpaceIsNotAlphanumeric | src/services/VideoNameResolver.ts:9-32 | A space is neither a letter nor a digit. |
| VideoNameResolver.CleanFileNameKeeps | src/services/VideoNameResolver.ts:9-32 | This resolver keeps exactly the Latin and Russian letters, the digits, the space and `,.!?`. |
| VideoNameResolver.VideoNameResolver.constructor | src/services/VideoNameResolver.ts:34-37 | The resolver keeps the proxy setting. |
| VideoNameResolver.VideoNameResolver.Resolve | src/services/VideoNameResolver.ts:110-141 | `resolve` tries without and then with the proxy, as `TitleAttempts` states. The name is the cleaned title of the last attempt followed by `.mp3`, or `null`. |
| YoutubeVideoNameResolver.AllowedCharIsAlphanumeric | src/services/YoutubeVideoNameResolver.ts:7-30 | As written, a single code point is allowed exactly when it is a letter or a digit, because `new Set([" ,.!?"])` holds one five-character string. |
| YoutubeVideoNameResolver.CleanFileNameKeeps | src/services/YoutubeVideoNameResolver.ts:67-71 | As written, the cleaned title keeps exactly its letters and digits. No space or punctuation survives. |
| YoutubeVideoNameResolver.SpaceIsNotAllowed | src/services/YoutubeVideoNameResolver.ts:24 | As written, a space is not whitelisted. |
| YoutubeVideoNameResolver.CleanDropsMiddle | src/services/YoutubeVideoNameResolver.ts:67-71 | A refused character between two allowed ones is dropped. |
| YoutubeVideoNameResolver.SpaceIsDropped | src/services/YoutubeVideoNameResolver.ts:24 | As written, "a b" is cleaned to "ab". |
| YoutubeVideoNameResolver.YoutubeVideoNameResolver.constructor | src/services/YoutubeVideoNameResolver.ts:32-34 | The resolver keeps the proxy setting. |
| YoutubeVideoNameResolver.YoutubeVideoNameResolver.Resolve | src/services/YoutubeVideoNameResolver.ts:78-94 | The same fallback as the first resolver, over this resolver's whitelist. |
| Downloader.GetFileName | src/services/Downloader.ts:24-26 | The file name is the UUID followed by `.mp3`. |
| Downloader.OSTempDir | src/services/Downloader.ts:28-35 | The temporary directory is the first truthy value among `TMPDIR`, `TMP` and `TEMP`, else `/tmp`. It is never empty. |
| Downloader.AttemptResult | src/services/Downloader.ts:56-83 | An attempt yields its UUID exactly when `yt-dlp` succeeded. |
| Downloader.DeleteFile | src/services/Downloader.ts:85-91 | Deleting always fulfils, because a failed removal is swallowed. |
| Downloader.Downloader.constructor | src/services/Downloader.ts:19-22 | The downloader keeps its proxy setting, environment and path join. |
| Downloader.Downloader.GetArgs | src/services/Downloader.ts:41-54 | The arguments are the five audio options `-x --audio-format mp3 --audio-quality 96K`, then the proxy pair exactly when the proxy is truthy, then `--output`, the temporary path of `<uuid>.mp3` and the URL. |
| Downloader.Downloader.SubmitDownloadTaskAndGetResult | src/services/Downloader.ts:93-121 | The download is tried without a proxy first, and once more through the proxy exactly when the first attempt failed and a proxy is set. The file path is that of the last attempt's UUID when the attempt succeeded, and `deleteFile` removes that same path. A returned path is the output argument of a successful run. |

## Left out

- `@Retry(3)` on every `postFile` is a decorator from a library outside this model. Each `PostFile` models one attempt, and the retries are left out.
- `@BoundMethod` and the `microdi` dependency injection (`@Provide`) only bind `this` and wire constructors. The constructors take their collaborators as arguments instead.
- `new URL(text)` and the URL Standard's parser are parameters. `Urls.Href` prints a URL without credentials. The consistency between `search` and `params` is left to the parser.
- `Number.parseInt` is a parameter returning a finite integer or nothing (NaN). The results `Infinity` (a decimal string of about 310 digits or more) and `-0` are not modelled. With `WORKERS` parsing to `Infinity`, the `i < workers` loop of the `WorkerPool` constructor (src/services/WorkerPool.ts:16-18) never ends; `WorkerPool.WorkerPool.constructor` only covers finite counts and NaN.
- `linkifyjs`'s `find` is a parameter returning the token list.
- UploaderTransferSH.PostFile: a body that does not parse is rejected with the fixed reason "Invalid URL". The `TypeError` Deno throws also quotes the input text; that part of the message is not modelled.
- The `Response` of the transfer.sh, libriciel and bashupload backends carries its body as a plain string, so a rejection of `response.text()` is not represented. The filedoge backend does model a rejection of `response.json()`.
- Downloader.Downloader.SubmitDownloadTaskAndGetResult: every attempt is taken to run. The rejection of `workerPool.submitTaskAndGetResult` when the pool has no lanes (src/services/WorkerPool.ts:38-44) is not on this path; the panic subscriber in bootstrap.ts ends the process in that case.
- `fetch`, `response.text()`/`json()`, `Deno.readFile`, `Deno.Command(...).output()`, `Deno.remove`, `Deno.env`, `path.join` and `crypto.randomUUID()` are I/O or foreign calls. They enter as their results.
- Promise interleaving is left out. The lanes of the worker pool are sequential state machines. The downloader's use of the pool is represented by the argument lists of the tasks it submits, not by the lane they run on.
- PubSub.PubSubImpl.Publish: callbacks that subscribe or unsubscribe while `publish` iterates the `Set` are not modelled.
- VideoNameResolver's `this.logger.info` and `this.logger.error` calls (src/services/VideoNameResolver.ts:41-134) are left out; they change no result.
- Urls.Url: only hierarchical URLs with a host are modelled. A URL with an opaque path or no host, such as a transfer.sh body `mailto:x`, is left unchanged by the URL setters, whereas `RewrittenNonSpecial` would put `/get` in front of its path.
- `Uploader0x0` belongs to the rest of the repository. The pool treats uploaders as opaque functions.
- `maxUploadSizeInBytes` is kept as a constant per backend. No code in the core reads it, so nothing is stated about it.
- The TransferSH `??` fallback to a random UUID name is dead code (`split` never returns an empty array), so it is not modelled. The same holds for the bashupload fallback.
- `Downloader.Downloader.GetTempFilePath` joins the temporary directory and the file name with the `join` parameter. Nothing is stated about `path.join` itself.
- The title alphabets are written as code-point ranges. This relies on the Latin and Russian letters being contiguous apart from `ё`/`Ё`. `toLocaleUpperCase` is taken to be the plain Unicode upper-casing of those letters.
- Strings are sequences of code points. UTF-16 lone surrogates and `Array.from`'s splitting of astral characters are not modelled. `String.prototype.trim`'s whitespace set is modelled for the Basic Multilingual Plane.
- `Array.from(new Set(validURLs))` in `getUrlsFromText` deduplicates URL objects by reference. Every parsed URL is a new object, so it drops nothing, and the model applies no second deduplication.
- WorkerPool.WorkerPool.GetLessBusyWorker: it states the chosen lane as the first minimum. Uniqueness follows from the definition of `IsFirstMinimum`, and no separate lemma is stated.

## Findings

| source | as written | input that shows it | evidently intended | confidence | as-written member | corrected member |
|---|---|---|---|---|---|---|
| src/services/WorkerConfiguration.ts:14-18 | The NaN branch assigns the default, but the unconditional `Math.max(1, Math.floor(workers))` that follows overwrites it with NaN. The pool then builds no lanes, and every task panics. | `WORKERS=abc` | A malformed value falls back to 4 workers. | not executed | WorkerConfiguration.MalformedWorkersIsNaN | WorkerConfiguration.IntendedWorkers |
| src/services/YoutubeVideoNameResolver.ts:24 | `new Set([" ,.!?"])` holds one five-character string, so no single character matches it. Spaces and punctuation are stripped from every title. | the title `a b` | `new Set(Array.from(" ,.!?"))`, as in src/services/VideoNameResolver.ts, so that `a b` stays `a b`. | not executed | YoutubeVideoNameResolver.SpaceIsDropped | VideoNameResolver.CleanFileNameKeeps |
