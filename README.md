# Playlist builder: a Dafny model

This project models the playlist builder of MediaFlow Proxy, in
`mediaflow_proxy/routes/playlist_builder.py`. It covers three parts.

**The M3U rewriter** (`rewrite_m3u_links_streaming`) makes one pass over a
playlist's lines.
- It copies `#EXTVLCOPT:` and `#EXTHTTP:` directives and collects the HTTP
  headers they declare.
- It rewrites every playable link into a MediaFlow proxy URL, except a
  `pluto.tv` link, which keeps its own URL. The rule is chosen by the first
  marker the link contains: `pluto.tv`, `vavoo.to`, `vixsrc.to`, `.m3u8`,
  `.mpd`, `.php`, or none.
- The pending headers are appended as `&h_NAME=VALUE` parameters and then
  dropped, to every playable link, `pluto.tv` links included.
  `&api_password=` always comes last.
- Every other line is copied unchanged.

**The combined-playlist generator** (`async_generate_combined_playlist`)
works in two steps.
- It takes the URL out of each `name&url` definition.
- It merges the downloaded playlists in order. A failed download becomes an
  `# ERROR processing playlist …` comment. A downloaded playlist is rewritten
  and copied. Once a header has been handled, a later playlist's first line
  is dropped when it is an `#EXTM3U` header. A playlist with at least one line
  marks the header as handled.

**The request handler** (`proxy_handler`) checks the query string `d` and
answers each failing check with a 400 error. It then cuts `d` into
definitions at `;` and validates every playlist URL with `urlparse`'s scheme
and host-name test. A URL that fails the test gets a 400. A URL that makes
`urlparse` raise ends in the handler's catch-all 500. Last, it picks the base
URL of the rewritten links.

The modules follow the program's layers:
- `Wrappers`: `Option` and `Result`.
- `Text`: the `str` methods the code uses (`strip`, `split`, `rsplit`,
  `startswith`, `in`, `join`).
- `Percent`: `urllib.parse.quote` and percent-decoding, over UTF-8.
- `Dicts`: Python's insertion-ordered `dict`.
- `Urls`: the parts of `urllib.parse` the code relies on.
- `Directives`: the header tracker.
- `Routes`: the proxy URL of one link.
- `Rewriter`: the pass over a playlist.
- `Combine`: the generator.
- `Handler`: the endpoint.

The loops of the source are methods with loop invariants, each proved
against a specification function:
- `Rewriter.RewriteStream` against `Rewrite`;
- `Combine.MergeDownloads` against `Merge`;
- `Handler.ValidateUrls` against `AllValid` and `FirstInvalid`.

Lemmas state what the source promises about those functions.

Some inputs are parameters of the model:
- the download of each playlist (`fetch`, or the `results` list);
- `json.loads`;
- the request's own `scheme://netloc`.

## Model

| member | source | states |
|---|---|---|
| Rewriter.RewriteStream | mediaflow_proxy/routes/playlist_builder.py:16-130 | the pass writes exactly one output line per input line, and the output is `Rewrite(lines)`: each line is one step under the headers pending before it, starting from none |
| Rewriter.RewriteLine | mediaflow_proxy/routes/playlist_builder.py:22-130 | the loop body's written line and new pending headers are exactly one `Step` of the line under the current headers |
| Rewriter.Step | mediaflow_proxy/routes/playlist_builder.py:23-130 | a step changes a line only when its stripped text is a playable link, and keeps the pending headers free of duplicate names |
| Rewriter.StepVlc | mediaflow_proxy/routes/playlist_builder.py:26-50 | an `#EXTVLCOPT:` line is copied as it is, and the pending headers become the VLC update of the old ones |
| Rewriter.StepHttp | mediaflow_proxy/routes/playlist_builder.py:51-67 | an `#EXTHTTP:` line is copied as it is, and the pending headers become what its JSON gives, whatever they were before |
| Rewriter.StepPlayable | mediaflow_proxy/routes/playlist_builder.py:68-128 | a playable link becomes the proxy entry for its stripped text under the pending headers, and no headers stay pending |
| Rewriter.StepInert | mediaflow_proxy/routes/playlist_builder.py:129-130 | a line that is neither a directive nor a link is copied, and the pending headers do not change |
| Rewriter.DirectiveNotPlayable | mediaflow_proxy/routes/playlist_builder.py:26-69 | a directive starts with `#` and so is never taken as a link |
| Rewriter.RewriteAt | mediaflow_proxy/routes/playlist_builder.py:21-130 | line `i` of the output is one step of line `i` under the headers pending after the lines before it |
| Rewriter.PassThrough | mediaflow_proxy/routes/playlist_builder.py:65-67 | every line that is not a playable link, directives included, is written unchanged |
| Rewriter.PlayableRewritten | mediaflow_proxy/routes/playlist_builder.py:68-128 | a playable link is written as its proxy entry under the headers pending before it, and clears them |
| Rewriter.PendingSince | mediaflow_proxy/routes/playlist_builder.py:120-124 | the headers pending after a prefix depend only on the lines after the last playable link in it: headers are used once |
| Rewriter.SecondLinkBare | mediaflow_proxy/routes/playlist_builder.py:120-124 | of two playable links in a row, the second is written with no header parameters |
| Rewriter.InertKeepsPending | mediaflow_proxy/routes/playlist_builder.py:129-130 | a run of plain lines is copied whole and keeps the pending headers as they were |
| Rewriter.JsonThenVlcThenLink | mediaflow_proxy/routes/playlist_builder.py:26-124 | an `#EXTHTTP:` line, then an `#EXTVLCOPT:` line, then a link: both directives are copied, and the link carries the JSON headers with the VLC header put on top |
| Rewriter.FoldAppend | mediaflow_proxy/routes/playlist_builder.py:21-22 | running over `a + b` is running over `a`, then over `b` from the headers `a` left pending |
| Rewriter.FoldInert | mediaflow_proxy/routes/playlist_builder.py:21-22 | a step that copies every line and keeps the headers leaves the whole pass unchanged |
| Directives.VlcLine | mediaflow_proxy/routes/playlist_builder.py:29-33 | the option of `#EXTVLCOPT:key=value` is cut at its first `=`, and both sides are stripped |
| Directives.VlcWithoutEquals | mediaflow_proxy/routes/playlist_builder.py:30 | an option without `=` leaves the pending headers unchanged |
| Directives.VlcHttpHeader | mediaflow_proxy/routes/playlist_builder.py:35-42 | `http-header` with the value `name: rest` sets the stripped name before the first `:` to the stripped rest, which may hold more colons |
| Directives.VlcHttpOption | mediaflow_proxy/routes/playlist_builder.py:45-48 | any other `http-NAME` key sets header `NAME` to the value |
| Directives.VlcHttpHeaderWithoutColon | mediaflow_proxy/routes/playlist_builder.py:35-48 | `http-header` with a value without `:` falls through to the `http-` rule and sets a header named `header` |
| Directives.VlcIgnored | mediaflow_proxy/routes/playlist_builder.py:45 | an option whose key does not start with `http-` changes nothing |
| Directives.VlcAssign | mediaflow_proxy/routes/playlist_builder.py:35-48 | an assignment keeps the header names unique |
| Directives.HttpReplaces | mediaflow_proxy/routes/playlist_builder.py:54-58 | a payload that decodes to a flat object of strings replaces the pending headers with that object |
| Directives.HttpResets | mediaflow_proxy/routes/playlist_builder.py:59-64 | a decoding error, or a value that is not a flat object of strings, resets the pending headers to empty |
| Directives.FlatObject | mediaflow_proxy/routes/playlist_builder.py:57 | only a JSON object can pass the check, and the headers it gives have unique names |
| Directives.FlatObjectOfStrings | mediaflow_proxy/routes/playlist_builder.py:56-58 | an object whose members that are last with their names hold strings passes, whatever earlier duplicates hold, and each name gets the value of its last member, as `dict` resolves duplicates |
| Directives.FlatObjectRefuses | mediaflow_proxy/routes/playlist_builder.py:56-64 | an object is refused, so the headers are reset, when the member that is last with its name holds something other than a string |
| Directives.FlatObjectExactly | mediaflow_proxy/routes/playlist_builder.py:56-58 | both directions: an object passes exactly when every member that is last with its name holds a string |
| Directives.PrefixesExclusive | mediaflow_proxy/routes/playlist_builder.py:26-51 | no line starts with both directive prefixes, so the order of the two tests does not matter |
| Directives.VlcUpdate | mediaflow_proxy/routes/playlist_builder.py:26-50 | the definition: the headers after an `#EXTVLCOPT:` line, from the option after its first `:`; its cases are the `Vlc` lemmas above |
| Directives.HttpUpdate | mediaflow_proxy/routes/playlist_builder.py:51-64 | the definition: the headers after an `#EXTHTTP:` line, the flat object its JSON decodes to or none; `HttpReplaces` and `HttpResets` state its cases |
| Dicts.Put | mediaflow_proxy/routes/playlist_builder.py:42 | `d[k] = v`: `k` now maps to `v` and every other key keeps its value; an existing key stays where it was, a new one goes last; names stay unique |
| Dicts.FromPairsLastWins | mediaflow_proxy/routes/playlist_builder.py:56-58 | building a dict from pairs keeps the value of the last pair with each name |
| Dicts.FromPairsKeys | mediaflow_proxy/routes/playlist_builder.py:56-58 | a name is in the built dict exactly when some pair has it |
| Routes.Classify | mediaflow_proxy/routes/playlist_builder.py:72-119 | the rule chosen is the one whose marker occurs in the link and comes first in the order of the tests; `Other` when no marker occurs |
| Routes.RouteUrl | mediaflow_proxy/routes/playlist_builder.py:70-119 | the definition: the proxy URL of a link by the rule `Classify` picks; the `Route` and `Pluto` lemmas state what each rule gives |
| Routes.Entry | mediaflow_proxy/routes/playlist_builder.py:120-128 | the definition: the route URL, the header parameters, the password parameter and a newline; `EntryEnding` states its shape |
| Routes.MpdClean | mediaflow_proxy/routes/playlist_builder.py:83-103 | the definition: the link rebuilt by `urlunparse` without its `key_id` and `key` fields; `MpdCleanFields` states what it keeps |
| Routes.DrmParams | mediaflow_proxy/routes/playlist_builder.py:89-112 | the definition: `&key_id=` and `&key=` with the first value of each field, for the fields present; `DrmParamFirst` and `DrmParamAbsent` state its cases |
| Routes.HeaderParams | mediaflow_proxy/routes/playlist_builder.py:121-123 | the definition: one `&h_NAME=VALUE` piece per pending header, in order; `HeaderParamsJoin` and `HeaderParamsDecode` state it |
| Routes.HlsRoute | mediaflow_proxy/routes/playlist_builder.py:74-82 | the vavoo, `.m3u8`, `.php` and fallback rules give `base/proxy/hls/manifest.m3u8?d=` followed by a parameter that decodes to the link's UTF-8 and holds no `&` or `#` |
| Routes.VixsrcRoute | mediaflow_proxy/routes/playlist_builder.py:77-79 | the Vixsrc rule puts the encoded link between the extractor prefix and the fixed `&max_res=true&no_proxy=true` suffix, and that parameter decodes back to the link |
| Routes.MpdRoute | mediaflow_proxy/routes/playlist_builder.py:83-112 | the MPD rule gives the MPD endpoint, the cleaned URL encoded as one parameter that decodes back to the cleaned URL and holds no `&`, then the DRM parameters |
| Routes.MpdCleanFields | mediaflow_proxy/routes/playlist_builder.py:87-103 | the clean URL's head is the link's head as `urlunparse(urlparse(…))` rebuilds it, its fragment is the link's, and its query holds exactly the link's fields other than `key_id` and `key` |
| Routes.PlutoUntouched | mediaflow_proxy/routes/playlist_builder.py:72-73 | a link holding `pluto.tv` keeps its own URL, whatever other marker it holds |
| Routes.PlutoEntry | mediaflow_proxy/routes/playlist_builder.py:72-128 | a `pluto.tv` link still gets the header parameters and the `&api_password=` parameter appended |
| Routes.DrmParamFirst | mediaflow_proxy/routes/playlist_builder.py:89-112 | of several `key_id` (or `key`) fields, only the first one's value is appended |
| Routes.DrmParamAbsent | mediaflow_proxy/routes/playlist_builder.py:90-112 | without such a field, no DRM parameter is appended for it |
| Routes.HeaderParamsJoin | mediaflow_proxy/routes/playlist_builder.py:121-123 | the header parameters are the `h_` pieces, in insertion order, each after a `&` |
| Routes.HeaderParamsDecode | mediaflow_proxy/routes/playlist_builder.py:121-123 | cutting the header parameters at `&` gives one `h_NAME=VALUE` piece per header, in order, and its halves decode to the header's name and value |
| Routes.EntryEnding | mediaflow_proxy/routes/playlist_builder.py:120-128 | the output line is the route URL, then the header parameters, then `&api_password=` with the raw password exactly when a non-empty one is set, then a newline |
| Percent.QuoteRoundTrip | mediaflow_proxy/routes/playlist_builder.py:75 | percent-decoding what `quote` produced gives back the UTF-8 bytes of the text |
| Percent.QuoteNoDelimiters | mediaflow_proxy/routes/playlist_builder.py:75 | with `safe=''` the encoded text holds none of `&`, `=`, `?`, `#`, `/`, `:` |
| Percent.QuoteKeepsSafe | mediaflow_proxy/routes/playlist_builder.py:122 | a text made only of kept characters is left as it is |
| Percent.Quote | mediaflow_proxy/routes/playlist_builder.py:75 | the definition: `quote(s, safe)`, each character kept when it is unreserved or in `safe`, else its UTF-8 bytes as `%XY`; the three lemmas above state its round trip and bounds |
| Urls.SplitUrl | mediaflow_proxy/routes/playlist_builder.py:87 | cutting a URL into head, query and fragment loses nothing: the parts assemble back into the URL |
| Urls.CheckUrl | mediaflow_proxy/routes/playlist_builder.py:234-235 | the definition: the verdict of `urlparse` and the scheme-and-host test, accepted, rejected or raising; `AbsoluteUrlAccepted`, `NoColonNoScheme` and `BracketRaises` state its cases |
| Urls.Reparsed | mediaflow_proxy/routes/playlist_builder.py:96-103 | the definition: `urlunparse(urlparse(head))` for a URL head; the `Reparsed` lemmas state what it keeps and changes |
| Urls.SplitAssemble | mediaflow_proxy/routes/playlist_builder.py:87-103 | parts that could come from a cut are found again by cutting their assembly |
| Urls.DropFields | mediaflow_proxy/routes/playlist_builder.py:88-95 | re-encoding the query without the dropped names and reading it back gives exactly the original fields whose names are not dropped |
| Urls.EncodeReparse | mediaflow_proxy/routes/playlist_builder.py:95 | reading back an encoded query gives the same fields, in order |
| Urls.EncodeChars | mediaflow_proxy/routes/playlist_builder.py:93-95 | the re-encoded query uses only the characters of the original query, `&` and `=` |
| Urls.Prepared | mediaflow_proxy/routes/playlist_builder.py:87 | the text `urlsplit` reads holds only characters of the URL, and no tab, CR or LF |
| Urls.AbsoluteUrlAccepted | mediaflow_proxy/routes/playlist_builder.py:234-235 | `scheme://host/path`, with a well-formed scheme and a non-empty printable ASCII host free of brackets, `@` and `:`, passes the scheme-and-host check |
| Urls.NoColonNoScheme | mediaflow_proxy/routes/playlist_builder.py:234-235 | a URL without `:` has no scheme and is never accepted; without brackets it is rejected rather than making `urlparse` raise |
| Urls.BracketRaises | mediaflow_proxy/routes/playlist_builder.py:234 | an absolute URL whose network location holds one square bracket without the other makes `urlparse` raise |
| Urls.ReparsedChars | mediaflow_proxy/routes/playlist_builder.py:96-103 | reassembling a head adds no character but `:`, `/` and lower-case letters |
| Urls.ReparsedPlain | mediaflow_proxy/routes/playlist_builder.py:96-103 | a head without `?` and `#` has none after reassembly, so the rebuilt head stays the head of the clean URL |
| Urls.ReparsedScheme | mediaflow_proxy/routes/playlist_builder.py:87-103 | the rebuilt head has the head's scheme, lower-cased |
| Urls.ReparsedAbsolute | mediaflow_proxy/routes/playlist_builder.py:87-103 | `scheme://host/path` is rebuilt as the lower-cased scheme, `://`, the host and the path, with an empty parameter part dropped when the scheme takes parameters |
| Urls.ReparsedKeeps | mediaflow_proxy/routes/playlist_builder.py:87-103 | a head with a lower-case scheme, a host and no empty parameter part is rebuilt unchanged |
| Urls.EmptyParamsEnd | mediaflow_proxy/routes/playlist_builder.py:87-103 | an empty parameter part is a trailing `;`, and rejoining the parameters removes exactly that `;` |
| Urls.HttpTakesParams | mediaflow_proxy/routes/playlist_builder.py:87 | `http` is one of the schemes whose path `urlparse` cuts at `;` |
| Text.Split | mediaflow_proxy/routes/playlist_builder.py:222 | `split` gives at least one piece, no piece holds the separator, and joining the pieces gives the text back |
| Text.SplitJoin | mediaflow_proxy/routes/playlist_builder.py:222 | splitting a join of separator-free pieces gives the pieces back |
| Text.SplitOnce | mediaflow_proxy/routes/playlist_builder.py:29 | `split(c, 1)` cuts at the first `c`: it fails exactly when `c` is absent, the parts rebuild the text, and the first part holds no `c` |
| Text.RSplitOnce | mediaflow_proxy/routes/playlist_builder.py:245 | `rsplit(c, 1)` cuts at the last `c` |
| Text.Strip | mediaflow_proxy/routes/playlist_builder.py:24 | the stripped line is no longer than the line and has no blank character at either end |
| Text.StripIsInfix | mediaflow_proxy/routes/playlist_builder.py:24 | the stripped line is the slice of the line that starts right after its leading blanks |
| Text.StripTrailing | mediaflow_proxy/routes/playlist_builder.py:24 | everything after that slice is blank, so `strip` removes blank characters at the ends only |
| Text.StripFixed | mediaflow_proxy/routes/playlist_builder.py:222 | a text with no blank character at either end is its own `strip()`, so stripping twice changes nothing |
| Combine.PlaylistUrls | mediaflow_proxy/routes/playlist_builder.py:161-169 | the loop collects the URL part of every definition, in order |
| Combine.DefinitionUrl | mediaflow_proxy/routes/playlist_builder.py:165-168 | the URL of a definition is what follows its first `&`, or the whole definition when it holds no `&` |
| Combine.PlaylistUrlOf | mediaflow_proxy/routes/playlist_builder.py:165-168 | the URL of `name&url`, with no `&` in the name, is `url` however many `&` it holds |
| Combine.CombinePlaylists | mediaflow_proxy/routes/playlist_builder.py:159-200 | the generator's output is the merge of the rewritten downloads, each rewritten on its own from no pending headers |
| Combine.MergeDownloads | mediaflow_proxy/routes/playlist_builder.py:173-200 | the loop over the downloads writes exactly the merge of the rewritten playlists |
| Combine.Merge | mediaflow_proxy/routes/playlist_builder.py:173-200 | the definition: the lines written for the downloads in order, and whether a header has been handled; `MergeDownloads` is proved equal to it |
| Combine.Segment | mediaflow_proxy/routes/playlist_builder.py:185-200 | the definition: a rewritten playlist, without its first line when a header was already handled and that line is a header; `WriteSegment` is proved equal to it |
| Combine.AppendPlaylist | mediaflow_proxy/routes/playlist_builder.py:174-200 | one download appends its error comment, or its rewritten playlist as one merge step takes it |
| Combine.WriteSegment | mediaflow_proxy/routes/playlist_builder.py:177-200 | the inner loop appends the whole playlist, without its first line when a header was already handled and that line is a header; afterwards the header counts as handled when it was before or the playlist has a line |
| Combine.MarkerStripped | mediaflow_proxy/routes/playlist_builder.py:187 | the header test is `line.strip().startswith('#EXTM3U')` |
| Combine.MergeHandled | mediaflow_proxy/routes/playlist_builder.py:190-200 | the header counts as handled exactly when some download gave a playlist with at least one line |
| Combine.AllFailed | mediaflow_proxy/routes/playlist_builder.py:175-177 | when every download failed, the output is one error comment per playlist, in order, and holds no header |
| Combine.OneHeader | mediaflow_proxy/routes/playlist_builder.py:185-200 | when every playlist the merge receives is well formed (one header, first), the merge holds exactly one header if some download succeeded and none otherwise |
| Combine.EntryNotMarker | mediaflow_proxy/routes/playlist_builder.py:120-128 | a proxy entry is never a header line, for a base URL that starts with neither a blank nor `#` |
| Combine.RewriteWellFormed | mediaflow_proxy/routes/playlist_builder.py:183 | rewriting a well-formed playlist gives a well-formed one: the header stays first and no entry becomes a header |
| Combine.CombinedOneHeader | mediaflow_proxy/routes/playlist_builder.py:159-200 | when every downloaded playlist is well formed, the combined playlist holds exactly one `#EXTM3U` header if some download succeeded and none otherwise |
| Combine.FirstWrittenWhole | mediaflow_proxy/routes/playlist_builder.py:190-200 | the first playlist with any line is written whole, header included: failures and empty playlists before it do not use up the header |
| Combine.MiddleFails | mediaflow_proxy/routes/playlist_builder.py:174-198 | three playlists, the middle one failing: the first whole, an error comment, the third without its header |
| Combine.EmptyFirst | mediaflow_proxy/routes/playlist_builder.py:199-200 | an empty first playlist does not count as the header: the next playlist is written with its own |
| Combine.RewriteKeepsHeader | mediaflow_proxy/routes/playlist_builder.py:183 | rewriting a playlist that starts with a header keeps that header as its first line |
| Combine.MarkerNotPlayable | mediaflow_proxy/routes/playlist_builder.py:68-69 | a header line is never taken as a link |
| Combine.ErrorLineNotMarker | mediaflow_proxy/routes/playlist_builder.py:176 | an error comment is never a header line |
| Handler.ProxyHandler | mediaflow_proxy/routes/playlist_builder.py:203-264 | the four query checks, in order, each with its 400 error; then the first invalid URL's answer, a 400 or the 500 of a raising `urlparse`; every error is a 400 or that 500; it succeeds exactly when every check passes, and then answers the combined playlist of the definitions with the request's own base URL |
| Handler.ValidateUrls | mediaflow_proxy/routes/playlist_builder.py:226-237 | it succeeds exactly when every playlist URL passes the check, and then gives the URLs in order; otherwise it answers for the first URL that does not pass: a 400 naming it when it fails the test, the catch-all 500 when the check raises |
| Handler.UrlError | mediaflow_proxy/routes/playlist_builder.py:234-264 | the definition: the 400 naming a URL that fails the test (lines 236-237), or the catch-all 500 when `urlparse` raises (lines 262-264) |
| Handler.Kept | mediaflow_proxy/routes/playlist_builder.py:222 | no more definitions than pieces, and none exactly when every piece is blank |
| Handler.DefinitionsClean | mediaflow_proxy/routes/playlist_builder.py:222 | every definition is stripped, not blank, and free of `;` |
| Handler.DefinitionsJoin | mediaflow_proxy/routes/playlist_builder.py:222 | joining clean definitions with `;` and cutting the result gives them back |
| Handler.Downloads | mediaflow_proxy/routes/playlist_builder.py:172 | the download of definition `i` is the fetch of its playlist URL |
| Handler.BaseUrl | mediaflow_proxy/routes/playlist_builder.py:239-248 | the definition: the request's own base, unless the first definition's name passes the override's tests; `BaseOverrideDead` proves those tests never pass together |
| Handler.BaseOverrideDead | mediaflow_proxy/routes/playlist_builder.py:240-248 | the base-URL override never applies: the rewritten links always point at the request's own scheme and host |

## Left out

- Downloading playlists (`async_download_m3u_playlist`, `httpx`, `asyncio.gather`) is left out. What each download gave is an input.
- Running the rewriter in a thread is left out; the model rewrites each playlist in order.
- Streaming is left out. The generators are modelled as the list of lines they yield.
- The `StreamingResponse` is left out: its media type and headers are I/O.
- Logging is left out.
- The `lines_processed_for_current_playlist` counter is left out: it is written but never read.
- The `/builder` redirect is left out.
- The 500 "Internal server error" is modelled only for a playlist URL that makes `urlparse` raise. Other unexpected exceptions are left out.
- The combined playlist, as written, breaks off at the first download that succeeded. Line 183 calls `list()` on `rewrite_m3u_links_streaming`, which is an async generator (line 16), and that raises `TypeError`. The response has already started by then, so only the error comments of the failed downloads before it are written. The model takes the rewriter as a synchronous generator and writes every rewritten playlist.
- FastAPI's own 422 for a missing `d` is left out. An empty `d` is modelled.
- `get_original_scheme` and `request.url.netloc` are left out. Together they are the `requestBase` parameter.
- `json.loads` is the `loads` parameter. What it returns is kept only as the model needs it: a string, an object given by its members in source order, or something else. `None` stands for a decoding error.
- Combine.MergeDownloads: it is stated for any rewriting function that agrees with the rewriter on every playlist. `CombinePlaylists` passes the rewriter itself.
- Handler.ValidateUrls: it is stated for any URL check. `ProxyHandler` passes the scheme-and-host test.
- Urls.CheckUrl: it does not model two ways `urlsplit` raises `ValueError`. The first is a non-ASCII network location whose NFKC form holds one of `/?#@:`. The second is a bracketed host that is not a valid IPv6 or IPvFuture address. The source answers both with a 500. The model accepts or rejects such a URL on its scheme and host name. A one-sided bracket is modelled, and raises.
- Routes.MpdClean: an MPD link whose network location has one-sided brackets, or a non-ASCII location as above, makes `urlparse` at line 87 raise, which aborts the whole generator. The model still writes an entry for it. `urlunsplit`'s `//` is modelled after Python 3.13; older versions write the `//` of an empty network location differently. The host name's case is kept, since `urlunparse` writes the network location as it was.
- Handler.Downloads: `fetch` is a function of the URL, so two definitions with the same playlist URL get the same download. The source downloads each definition on its own, and one can fail while the other succeeds.
- Urls.QueryFields: it does not model `parse_qs`'s percent- and `+`-decoding of names and values. Urls.Encode does not model `urlencode`'s re-encoding. Both work on the raw text, so a field that holds escapes is carried over as written.
- Routes.DrmParam: it appends the raw first value of `key_id` or `key` as `parse_qs` gives it, without the decoding above.
- Case folding and Unicode normalisation are left out; the code never uses them. `Text.IsSpace` is the set of code points `str.strip` and `str.isspace` treat as whitespace, written out.

Behaviours a reader may not expect; the model follows the code:
- Only the first `key_id` and the first `key` reach the MPD URL (`Routes.DrmParamFirst`).
- No fallback `#EXTM3U` is written when every download fails (`Combine.AllFailed`).
- The base-URL override can never fire (`Handler.BaseOverrideDead`).
- A downloaded playlist with no line does not count as the header (`Combine.EmptyFirst`).
- The error comments of downloads that fail before the first success come before the `#EXTM3U` header, so the header is not always the first line (`Combine.FirstWrittenWhole`).
- `api_password` is appended as it is, not percent-encoded (`Routes.EntryEnding`).
- `pluto.tv` links are not proxied, but still get the `&h_…` header parameters and `&api_password=…` appended (`Routes.PlutoEntry`).
- `urlunparse(urlparse(…))` does not give back an MPD link's head as written. The scheme is lower-cased (`Urls.ReparsedScheme`). Leading controls and spaces, and every tab, CR and LF, are gone from the text `urlsplit` reads (`Urls.Prepared`). An empty `;` parameter part is dropped (`Urls.ReparsedAbsolute`, `Urls.EmptyParamsEnd`).
- `#EXTVLCOPT:http-header=value` with no `:` in the value sets a header named `header` (`Directives.VlcHttpHeaderWithoutColon`).
