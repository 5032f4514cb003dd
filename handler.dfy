/**
 `proxy_handler`, the `/playlist` endpoint: the checks on the query string
 `d`, its cut into playlist definitions, the validation of each playlist
 URL, the choice of the base URL the rewritten links point at, and the
 combined playlist it streams back. The request's own scheme and host are a
 parameter, and so is the download of each playlist.
 */
module Handler {
  import opened Wrappers
  import opened Text
  import opened Urls
  import opened Directives
  import opened Rewriter
  import opened Combine

  /** The `HTTPException` the handler raises: status code and detail. */
  datatype HttpError = HttpError(status: int, detail: string)

  /** The longest query string accepted. */
  const MaxQueryLength: nat := 10000

  /** `[p.strip() for p in pieces if p.strip()]`: the stripped pieces that are not blank. */
  function Kept(pieces: seq<string>): (r: seq<string>)
    ensures |r| <= |pieces|
    ensures r == [] <==> forall i :: 0 <= i < |pieces| ==> Strip(pieces[i]) == ""
    decreases |pieces|
  {
    if |pieces| == 0 then []
    else
      var rest := Kept(pieces[1..]);
      assert forall i :: 1 <= i < |pieces| ==> pieces[1..][i - 1] == pieces[i];
      var s := Strip(pieces[0]);
      if s != "" then [s] + rest else rest
  }

  /** Every definition kept is stripped and not blank. */
  lemma {:induction false} KeptClean(pieces: seq<string>)
    ensures forall x :: x in Kept(pieces) ==> x != "" && Strip(x) == x
    decreases |pieces|
  {
    if |pieces| > 0 {
      KeptClean(pieces[1..]);
      var s := Strip(pieces[0]);
      if s != "" {
        StripFixed(s);
      }
    }
  }

  /** Every definition kept is a piece of the cut, so it holds no `;`. */
  lemma {:induction false} KeptChars(pieces: seq<string>, c: char)
    requires forall x :: x in pieces ==> c !in x
    ensures forall x :: x in Kept(pieces) ==> c !in x
    decreases |pieces|
  {
    if |pieces| > 0 {
      var tail := pieces[1..];
      assert forall x :: x in tail ==> x in pieces;
      KeptChars(tail, c);
      var rest := Kept(tail);
      var s := Strip(pieces[0]);
      StripKeepsOut(pieces[0], c);
      if s != "" {
        assert Kept(pieces) == [s] + rest;
      } else {
        assert Kept(pieces) == rest;
      }
    }
  }

  /** Each definition is stripped, not blank, and holds no `;`. */
  lemma DefinitionsClean(d: string)
    ensures forall i :: 0 <= i < |Definitions(d)| ==>
      Definitions(d)[i] != "" && Strip(Definitions(d)[i]) == Definitions(d)[i] && ';' !in Definitions(d)[i]
  {
    var pieces := Split(d, ';');
    var defs := Kept(pieces);
    KeptClean(pieces);
    forall x | x in pieces ensures ';' !in x {
      var i :| 0 <= i < |pieces| && pieces[i] == x;
    }
    KeptChars(pieces, ';');
    forall i | 0 <= i < |defs| ensures defs[i] != "" && Strip(defs[i]) == defs[i] && ';' !in defs[i] {
      assert defs[i] in defs;
    }
  }

  /** The playlist definitions of `d`: its `;`-separated pieces, stripped, blank ones dropped. */
  function Definitions(d: string): seq<string> {
    Kept(Split(d, ';'))
  }

  /** Pieces that are already stripped and not blank are all kept, unchanged. */
  lemma {:induction false} KeptAll(xs: seq<string>)
    requires forall i :: 0 <= i < |xs| ==> Strip(xs[i]) == xs[i] != ""
    ensures Kept(xs) == xs
    decreases |xs|
  {
    if |xs| > 0 {
      KeptAll(xs[1..]);
      assert xs == [xs[0]] + xs[1..];
    }
  }

  /**
   Joining definitions with `;` and cutting the result again gives them
   back, when each is stripped, not blank and free of `;`.
   */
  lemma DefinitionsJoin(xs: seq<string>)
    requires |xs| >= 1
    requires forall i :: 0 <= i < |xs| ==> xs[i] != "" && Strip(xs[i]) == xs[i] && ';' !in xs[i]
    ensures Definitions(Join(xs, ';')) == xs
  {
    SplitJoin(xs, ';');
    KeptAll(xs);
  }

  /** The playlist downloaded for each definition, in order. */
  function Downloads(defs: seq<string>, fetch: string -> Result<seq<string>, string>): (r: seq<Result<seq<string>, string>>)
    ensures |r| == |defs|
    ensures forall i :: 0 <= i < |defs| ==> r[i] == fetch(PlaylistUrl(defs[i]))
  {
    seq(|defs|, i requires 0 <= i < |defs| => fetch(PlaylistUrl(defs[i])))
  }

  /** Every definition's playlist URL passes `check`. */
  predicate AllValid(defs: seq<string>, check: string -> Verdict) {
    forall i :: 0 <= i < |defs| ==> check(PlaylistUrl(defs[i])) == Accepted
  }

  /**
   The answer for a URL that does not pass: the 400 naming it when it fails
   the test, or the 500 of the handler's catch-all when `urlparse` raises.
   */
  function UrlError(url: string, v: Verdict): HttpError {
    if v == Raises then HttpError(500, "Internal server error")
    else HttpError(400, "Invalid URL in definition: " + url)
  }

  /** `e` is the answer for the first definition whose playlist URL does not pass `check`. */
  predicate FirstInvalid(defs: seq<string>, check: string -> Verdict, e: HttpError) {
    exists i :: 0 <= i < |defs| && check(PlaylistUrl(defs[i])) != Accepted
      && (forall k :: 0 <= k < i ==> check(PlaylistUrl(defs[k])) == Accepted)
      && e == UrlError(PlaylistUrl(defs[i]), check(PlaylistUrl(defs[i])))
  }

  /**
   The validation loop: the playlist URLs, or the answer for the first one
   that does not pass. The handler checks with `CheckUrl`.
   */
  method ValidateUrls(defs: seq<string>, check: string -> Verdict) returns (r: Result<seq<string>, HttpError>)
    ensures r.Ok? <==> AllValid(defs, check)
    ensures r.Ok? ==> r.value == UrlsOf(defs)
    ensures r.Err? ==> FirstInvalid(defs, check, r.error)
  {
    var urls: seq<string> := [];
    var i := 0;
    while i < |defs|
      invariant 0 <= i <= |defs|
      invariant forall k :: 0 <= k < i ==> check(PlaylistUrl(defs[k])) == Accepted
      invariant |urls| == i && forall k :: 0 <= k < i ==> urls[k] == PlaylistUrl(defs[k])
    {
      var playlistUrl := DefinitionUrl(defs[i]);
      var verdict := check(playlistUrl);
      if verdict == Raises {
        r := Err(HttpError(500, "Internal server error"));
        assert !AllValid(defs, check) && 0 <= i < |defs| && check(PlaylistUrl(defs[i])) == Raises;
        return;
      }
      if verdict == Rejected {
        r := Err(HttpError(400, "Invalid URL in definition: " + playlistUrl));
        assert !AllValid(defs, check) && 0 <= i < |defs| && check(PlaylistUrl(defs[i])) == Rejected;
        return;
      }
      urls := urls + [playlistUrl];
      i := i + 1;
    }
    assert urls == UrlsOf(defs);
    r := Ok(urls);
  }

  /**
   The base URL of the rewritten links: the request's own, unless the first
   definition's name holds a `:`, does not start `http`, and what precedes
   its last `:` does start `http`.
   */
  function BaseUrl(defs: seq<string>, requestBase: string): string {
    if |defs| > 0 && '&' in defs[0] then
      var name := SplitOnce(defs[0], '&').value.0;
      if ':' in name && !StartsWith(name, "http") then
        var part := RSplitOnce(name, ':').value.0;
        if StartsWith(part, "http") then part else requestBase
      else requestBase
    else requestBase
  }

  /**
   The override never applies: what precedes the last `:` of the name is a
   prefix of it, so it starts `http` only if the name does, which the same
   test excludes. The links always point at the request's own host.
   */
  lemma BaseOverrideDead(defs: seq<string>, requestBase: string)
    ensures BaseUrl(defs, requestBase) == requestBase
  {
    if |defs| > 0 && '&' in defs[0] {
      var name := SplitOnce(defs[0], '&').value.0;
      if ':' in name {
        var cut := RSplitOnce(name, ':').value;
        if StartsWith(cut.0, "http") {
          StartsWithAppend(cut.0, [':'] + cut.1, "http");
          assert cut.0 + ([':'] + cut.1) == name;
        }
      }
    }
  }

  /** The handler: a 400 error for a bad query, a 500 when `urlparse` raises, else the combined playlist it streams. */
  method ProxyHandler(d: string, requestBase: string, apiPassword: Option<string>,
                      fetch: string -> Result<seq<string>, string>, loads: JsonLoads)
    returns (r: Result<seq<string>, HttpError>)
    ensures d == "" ==> r == Err(HttpError(400, "Query string missing"))
    ensures d != "" && Strip(d) == "" ==> r == Err(HttpError(400, "Query string cannot be empty"))
    ensures Strip(d) != "" && |d| > MaxQueryLength ==> r == Err(HttpError(400, "Query string too long"))
    ensures Strip(d) != "" && |d| <= MaxQueryLength && Definitions(d) == [] ==>
      r == Err(HttpError(400, "No valid playlist definitions found"))
    ensures Strip(d) != "" && |d| <= MaxQueryLength && Definitions(d) != [] && !AllValid(Definitions(d), CheckUrl) ==>
      r.Err? && FirstInvalid(Definitions(d), CheckUrl, r.error)
    ensures r.Ok? <==> Strip(d) != "" && |d| <= MaxQueryLength && Definitions(d) != [] && AllValid(Definitions(d), CheckUrl)
    ensures r.Ok? ==> r.value == Combined(Definitions(d), Downloads(Definitions(d), fetch), Config(requestBase, apiPassword, loads))
    ensures r.Err? ==> r.error.status == 400 || r.error == HttpError(500, "Internal server error")
  {
    if d == "" {
      return Err(HttpError(400, "Query string missing"));
    }
    if Strip(d) == "" {
      return Err(HttpError(400, "Query string cannot be empty"));
    }
    if |d| > MaxQueryLength {
      return Err(HttpError(400, "Query string too long"));
    }
    var definitions := Definitions(d);
    if definitions == [] {
      return Err(HttpError(400, "No valid playlist definitions found"));
    }
    var checked := ValidateUrls(definitions, CheckUrl);
    if checked.Err? {
      return Err(checked.error);
    }
    var baseUrl := BaseUrl(definitions, requestBase);
    BaseOverrideDead(definitions, requestBase);
    var lines := CombinePlaylists(definitions, Downloads(definitions, fetch), Config(baseUrl, apiPassword, loads));
    r := Ok(lines);
  }
}
