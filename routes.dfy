/**
 What `rewrite_m3u_links_streaming` makes of one playable line: the rule the
 line falls under (the first marker it contains, in a fixed order), the proxy
 URL of that rule, the `h_` parameters that carry the pending headers, and
 the `api_password` parameter that always comes last.
 */
module Routes {
  import opened Wrappers
  import opened Text
  import opened Percent
  import opened Dicts
  import opened Urls
  import opened Directives

  /** The rules, in the order they are tried. */
  datatype Rule = Pluto | Vavoo | Vixsrc | Hls | Mpd | Php | Other

  /** The marker each rule looks for, indexed by the rule's rank; `Other` has none. */
  const Markers: seq<string> := ["pluto.tv", "vavoo.to", "vixsrc.to", ".m3u8", ".mpd", ".php"]

  function Rank(r: Rule): nat {
    match r
    case Pluto => 0
    case Vavoo => 1
    case Vixsrc => 2
    case Hls => 3
    case Mpd => 4
    case Php => 5
    case Other => 6
  }

  /**
   The if-chain over substring tests. Its meaning: the rule is the one whose
   marker occurs in the line and comes first in `Markers`; `Other` when no
   marker occurs.
   */
  function Classify(line: string): (r: Rule)
    ensures r != Other ==> Contains(line, Markers[Rank(r)])
    ensures forall i :: 0 <= i < |Markers| && Contains(line, Markers[i]) ==> Rank(r) <= i
  {
    if Contains(line, "pluto.tv") then Pluto
    else if Contains(line, "vavoo.to") then Vavoo
    else if Contains(line, "vixsrc.to") then Vixsrc
    else if Contains(line, ".m3u8") then Hls
    else if Contains(line, ".mpd") then Mpd
    else if Contains(line, ".php") then Php
    else Other
  }

  const HlsEndpoint: string := "/proxy/hls/manifest.m3u8?d="
  const MpdEndpoint: string := "/proxy/mpd/manifest.m3u8?d="
  const VixEndpoint: string := "/extractor/video?host=VixCloud&redirect_stream=true&d="
  const VixTail: string := "&max_res=true&no_proxy=true"
  const DrmNames: set<string> := {"key_id", "key"}

  /** The HLS proxy URL for a link: the whole link, percent-encoded with nothing kept safe. */
  function HlsUrl(line: string, base: string): string {
    base + HlsEndpoint + Quote(line, "")
  }

  /** The fields of the link's query, as `parse_qs` reads them from what `urlparse` kept of the link. */
  function MpdFields(line: string): seq<(string, string)> {
    QueryFields(QueryOf(Prepared(line)))
  }

  /**
   The link as `urlunparse` rebuilds it without its `key_id` and `key` query
   fields: from the text `urlparse` reads, with the head reassembled, the
   remaining fields re-encoded, and the fragment.
   */
  function MpdClean(line: string): string {
    var url := Prepared(line);
    var g := Without(Group(MpdFields(line)), DrmNames);
    Unparse(Reparsed(SplitUrl(url).head), if g != [] then Encode(g) else "", FragmentOf(url))
  }

  /** `&name=first` for the first value `parse_qs` gives `name`, when there is one and it is not empty. */
  function DrmParam(ps: seq<(string, string)>, name: string): string {
    match Get(Group(ps), name)
    case None => ""
    case Some(vs) => if vs[0] != "" then "&" + name + "=" + vs[0] else ""
  }

  function DrmParams(line: string): string {
    DrmParam(MpdFields(line), "key_id") + DrmParam(MpdFields(line), "key")
  }

  /** The URL a playable line becomes, before headers and password. */
  function RouteUrl(line: string, base: string): string {
    match Classify(line)
    case Pluto => line
    case Vavoo => HlsUrl(line, base)
    case Vixsrc => base + VixEndpoint + Quote(line, "") + VixTail
    case Hls => HlsUrl(line, base)
    case Mpd => base + MpdEndpoint + Quote(MpdClean(line), "") + DrmParams(line)
    case Php => HlsUrl(line, base)
    case Other => HlsUrl(line, base)
  }

  /** `h_NAME=VALUE` for one header; `quote`'s default keeps `/` unencoded. */
  function HeaderPiece(e: (string, string)): string {
    "h_" + Quote(e.0, "/") + "=" + Quote(e.1, "/")
  }

  /** The header parameters, one per pending header, in insertion order. */
  function HeaderParams(h: Headers): string {
    if |h| == 0 then "" else "&" + HeaderPiece(h[0]) + HeaderParams(h[1..])
  }

  /** The `&api_password=` parameter, with the password as it is, when one is set and not empty. */
  function PasswordParam(apiPassword: Option<string>): string {
    match apiPassword
    case Some(pw) => if pw != "" then "&api_password=" + pw else ""
    case None => ""
  }

  /** The output line for a playable line under pending headers `h`. */
  function Entry(line: string, h: Headers, base: string, apiPassword: Option<string>): string {
    RouteUrl(line, base) + HeaderParams(h) + PasswordParam(apiPassword) + "\n"
  }

  // ---------------------------------------------------------------------
  // What the proxy URLs carry

  /** Where the parts of `pre + q + tail` sit. */
  lemma Slices(pre: string, q: string, tail: string)
    ensures var r := pre + q + tail;
      StartsWith(r, pre) && r[|pre|..|r| - |tail|] == q && r[|r| - |tail|..] == tail
  {
  }

  /** A link quoted between a prefix and a suffix: it sits between them, decodes back, and holds no `&` or `#`. */
  lemma QuotedBetween(pre: string, x: string, tail: string)
    ensures var r := pre + Quote(x, "") + tail;
      StartsWith(r, pre) && |pre| + |tail| <= |r| && r[|r| - |tail|..] == tail
    ensures var r := pre + Quote(x, "") + tail;
      var d := r[|pre|..|r| - |tail|];
      PercentDecode(d) == Utf8(x) && '&' !in d && '#' !in d
  {
    Slices(pre, Quote(x, ""), tail);
    QuoteRoundTrip(x, "");
    QuoteNoDelimiters(x);
  }

  /** A `pluto.tv` link is left as it is, whatever other marker it also holds. */
  lemma PlutoUntouched(line: string, base: string)
    requires Contains(line, "pluto.tv")
    ensures RouteUrl(line, base) == line
  {
  }

  /** The header and password parameters are still appended to a `pluto.tv` link. */
  lemma PlutoEntry(line: string, h: Headers, base: string, apiPassword: Option<string>)
    requires Contains(line, "pluto.tv")
    ensures Entry(line, h, base, apiPassword) == line + HeaderParams(h) + PasswordParam(apiPassword) + "\n"
  {
    PlutoUntouched(line, base);
  }

  /** The `d` parameter of the HLS rules decodes back to the link and holds no `&` or `#`. */
  lemma HlsRoute(line: string, base: string)
    requires Classify(line) in {Vavoo, Hls, Php, Other}
    ensures StartsWith(RouteUrl(line, base), base + HlsEndpoint)
    ensures var d := RouteUrl(line, base)[|base + HlsEndpoint|..];
      PercentDecode(d) == Utf8(line) && '&' !in d && '#' !in d
  {
    HlsRouteParts(line, base);
    QuotedBetween(base + HlsEndpoint, line, "");
  }

  lemma HlsRouteParts(line: string, base: string)
    requires Classify(line) in {Vavoo, Hls, Php, Other}
    ensures RouteUrl(line, base) == base + HlsEndpoint + Quote(line, "") + ""
  {
  }

  /** The Vixsrc extractor URL carries the encoded link between its fixed prefix and suffix. */
  lemma VixsrcRoute(line: string, base: string)
    requires Classify(line) == Vixsrc
    ensures var r := RouteUrl(line, base);
      StartsWith(r, base + VixEndpoint) && |base + VixEndpoint| + |VixTail| <= |r|
      && r[|r| - |VixTail|..] == VixTail
    ensures var r := RouteUrl(line, base);
      var d := r[|base + VixEndpoint|..|r| - |VixTail|];
      PercentDecode(d) == Utf8(line) && '&' !in d && '#' !in d
  {
    VixsrcRouteParts(line, base);
    QuotedBetween(base + VixEndpoint, line, VixTail);
  }

  lemma VixsrcRouteParts(line: string, base: string)
    requires Classify(line) == Vixsrc
    ensures RouteUrl(line, base) == base + VixEndpoint + Quote(line, "") + VixTail
  {
  }

  /**
   The MPD proxy URL carries the cleaned link in `d`, then the DRM
   parameters.
   */
  lemma MpdRoute(line: string, base: string)
    requires Classify(line) == Mpd
    ensures var r := RouteUrl(line, base);
      StartsWith(r, base + MpdEndpoint) && |base + MpdEndpoint| + |DrmParams(line)| <= |r|
      && r[|r| - |DrmParams(line)|..] == DrmParams(line)
    ensures var r := RouteUrl(line, base);
      var d := r[|base + MpdEndpoint|..|r| - |DrmParams(line)|];
      PercentDecode(d) == Utf8(MpdClean(line)) && '&' !in d
  {
    MpdRouteParts(line, base);
    QuotedBetween(base + MpdEndpoint, MpdClean(line), DrmParams(line));
  }

  lemma MpdRouteParts(line: string, base: string)
    requires Classify(line) == Mpd
    ensures RouteUrl(line, base) == base + MpdEndpoint + Quote(MpdClean(line), "") + DrmParams(line)
  {
  }

  /**
   The cleaned MPD link has the reassembled head and the fragment of the
   link as `urlparse` read it, and its query reads back as exactly the
   original fields other than `key_id` and `key`.
   */
  lemma MpdCleanFields(line: string, p: (string, string))
    ensures SplitUrl(MpdClean(line)).head == Reparsed(SplitUrl(Prepared(line)).head)
    ensures FragmentOf(MpdClean(line)) == FragmentOf(Prepared(line))
    ensures p in QueryFields(QueryOf(MpdClean(line))) <==> p in MpdFields(line) && p.0 !in DrmNames
  {
    var url := Prepared(line);
    var head := SplitUrl(url).head;
    var query := QueryOf(url);
    var g := Without(Group(QueryFields(query)), DrmNames);
    var cq := if g != [] then Encode(g) else "";
    assert cq == Encode(g) by {
      if g == [] { assert Pairs(g) == [] && RenderAll([]) == []; }
    }
    assert '#' !in query;
    assert '#' !in cq by {
      if '#' in cq { EncodeChars(query, DrmNames, '#'); }
    }
    ReparsedPlain(head);
    UnparseParts(Reparsed(head), cq, FragmentOf(url));
    DropFields(query, DrmNames, p);
  }

  /** `parse_qs` lists the values of a name in the order the fields appear. */
  lemma {:induction false} ValuesOfFirst(ps: seq<(string, string)>, name: string, i: nat)
    requires i < |ps| && ps[i].0 == name
    requires forall j :: 0 <= j < i ==> ps[j].0 != name
    ensures ValuesOf(ps, name) != [] && ValuesOf(ps, name)[0] == ps[i].1
    decreases |ps|
  {
    var init := ps[..|ps| - 1];
    var last := ps[|ps| - 1];
    assert ValuesOf(ps, name) == ValuesOf(init, name) + (if last.0 == name then [last.1] else []);
    if i < |ps| - 1 {
      ValuesOfFirst(init, name, i);
    } else {
      assert forall j :: 0 <= j < |init| ==> init[j].0 != name by {
        forall j | 0 <= j < |init| ensures init[j].0 != name { assert init[j] == ps[j]; }
      }
    }
  }

  /** Of several `key_id` (or `key`) fields, only the FIRST reaches the DRM parameters. */
  lemma DrmParamFirst(line: string, name: string, i: nat)
    requires i < |MpdFields(line)| && MpdFields(line)[i].0 == name
    requires forall j :: 0 <= j < i ==> MpdFields(line)[j].0 != name
    ensures DrmParam(MpdFields(line), name) == "&" + name + "=" + MpdFields(line)[i].1
  {
    var ps := MpdFields(line);
    ValuesOfFirst(ps, name, i);
    assert GoodField(ps[i]);
    assert Get(Group(ps), name) == Some(ValuesOf(ps, name));
  }

  /** Without such a field there is no DRM parameter for it. */
  lemma DrmParamAbsent(line: string, name: string)
    requires forall j :: 0 <= j < |MpdFields(line)| ==> MpdFields(line)[j].0 != name
    ensures DrmParam(MpdFields(line), name) == ""
  {
  }

  // ---------------------------------------------------------------------
  // Header parameters

  /** The `h_NAME=VALUE` pieces, one per header. */
  function HeaderPieces(h: Headers): (ps: seq<string>)
    ensures |ps| == |h|
    ensures forall i :: 0 <= i < |h| ==> ps[i] == HeaderPiece(h[i])
  {
    if |h| == 0 then [] else [HeaderPiece(h[0])] + HeaderPieces(h[1..])
  }

  /** The header parameters are the pieces, each after a `&`. */
  lemma {:induction false} HeaderParamsPrefixed(h: Headers)
    ensures HeaderParams(h) == Prefixed(HeaderPieces(h), '&')
    decreases |h|
  {
    if |h| > 0 {
      HeaderParamsPrefixed(h[1..]);
      assert HeaderPieces(h)[1..] == HeaderPieces(h[1..]);
    }
  }

  lemma HeaderParamsJoin(h: Headers)
    ensures HeaderParams(h) == Join([""] + HeaderPieces(h), '&')
  {
    HeaderParamsPrefixed(h);
    PrefixedJoin(HeaderPieces(h), '&');
  }

  /** A quoted header name or value holds no `&` and no `=`. */
  lemma QuotedPlain(s: string)
    ensures '&' !in Quote(s, "/") && '=' !in Quote(s, "/")
  {
    QuoteAlphabet(s, "/");
  }

  /**
   Reading the header parameters back: cut at `&` they give an empty piece
   and then one `name=value` piece per header, in order, whose two halves
   percent-decode to the header's name and value.
   */
  lemma HeaderParamsDecode(h: Headers, i: nat)
    requires i < |h|
    ensures |Split(HeaderParams(h), '&')| == |h| + 1 && Split(HeaderParams(h), '&')[0] == ""
    ensures SplitOnce(Split(HeaderParams(h), '&')[i + 1], '=') == Some(("h_" + Quote(h[i].0, "/"), Quote(h[i].1, "/")))
    ensures PercentDecode(Quote(h[i].0, "/")) == Utf8(h[i].0) && PercentDecode(Quote(h[i].1, "/")) == Utf8(h[i].1)
  {
    var ps := [""] + HeaderPieces(h);
    HeaderParamsJoin(h);
    forall k | 0 <= k < |ps| ensures '&' !in ps[k] {
      if k > 0 {
        QuotedPlain(h[k - 1].0);
        QuotedPlain(h[k - 1].1);
        assert ps[k] == HeaderPiece(h[k - 1]);
      }
    }
    SplitJoin(ps, '&');
    QuotedPlain(h[i].0);
    assert ps[i + 1] == ("h_" + Quote(h[i].0, "/")) + ['='] + Quote(h[i].1, "/");
    SplitOnceOf("h_" + Quote(h[i].0, "/"), Quote(h[i].1, "/"), '=');
    QuoteRoundTrip(h[i].0, "/");
    QuoteRoundTrip(h[i].1, "/");
  }

  /** The password parameter is present exactly when a non-empty password is configured, and comes last. */
  lemma EntryEnding(line: string, h: Headers, base: string, apiPassword: Option<string>)
    ensures var e := Entry(line, h, base, apiPassword);
      var tail := PasswordParam(apiPassword) + "\n";
      |tail| <= |e| && e[|e| - |tail|..] == tail
      && e[..|e| - |tail|] == RouteUrl(line, base) + HeaderParams(h)
    ensures PasswordParam(apiPassword) != "" <==> apiPassword.Some? && apiPassword.value != ""
    ensures PasswordParam(apiPassword) != "" ==> PasswordParam(apiPassword) == "&api_password=" + apiPassword.value
  {
    var tail := PasswordParam(apiPassword) + "\n";
    var e := Entry(line, h, base, apiPassword);
    assert e == (RouteUrl(line, base) + HeaderParams(h)) + tail;
  }
}
