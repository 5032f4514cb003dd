/**
 `async_generate_combined_playlist`: the playlist URL of each definition, and
 the merge of the downloaded playlists into one. A failed download becomes a
 comment line; a downloaded playlist is rewritten and copied, except that
 once a header has been written, a later playlist's first line is dropped
 when it is an `#EXTM3U` header. The downloads themselves are an input.
 */
module Combine {
  import opened Wrappers
  import opened Text
  import opened Rewriter
  import opened Routes
  import opened Directives

  /** The URL part of a definition `name&url`: what follows the first `&`, or the whole definition. */
  function PlaylistUrl(def: string): string {
    match SplitOnce(def, '&')
    case Some(cut) => cut.1
    case None => def
  }

  /** The URL of `name&url` is `url` when the name holds no `&`, whatever `url` holds. */
  lemma PlaylistUrlOf(name: string, url: string)
    requires '&' !in name
    ensures PlaylistUrl(name + "&" + url) == url
  {
    assert name + "&" + url == name + ['&'] + url;
    SplitOnceOf(name, url, '&');
  }

  function UrlsOf(defs: seq<string>): seq<string> {
    seq(|defs|, i requires 0 <= i < |defs| => PlaylistUrl(defs[i]))
  }

  /** The statements that take the URL out of one definition. */
  method DefinitionUrl(definition: string) returns (playlistUrl: string)
    ensures playlistUrl == PlaylistUrl(definition)
  {
    if '&' in definition {
      var parts := SplitOnce(definition, '&').value;
      playlistUrl := parts.1;
    } else {
      playlistUrl := definition;
    }
  }

  /** The loop that collects the playlist URLs. */
  method PlaylistUrls(defs: seq<string>) returns (urls: seq<string>)
    ensures urls == UrlsOf(defs)
  {
    urls := [];
    var i := 0;
    while i < |defs|
      invariant 0 <= i <= |defs|
      invariant |urls| == i && forall k :: 0 <= k < i ==> urls[k] == PlaylistUrl(defs[k])
    {
      var playlistUrl := DefinitionUrl(defs[i]);
      urls := urls + [playlistUrl];
      i := i + 1;
    }
  }

  /**
   A header line: past its leading whitespace it starts `#EXTM3U`. This is
   `line.strip().startswith('#EXTM3U')`, as `MarkerStripped` proves.
   */
  predicate IsMarker(line: string)
    decreases |line|
  {
    if |line| > 0 && IsSpace(line[0]) then IsMarker(line[1..]) else StartsWith(line, "#EXTM3U")
  }

  /** `IsMarker` is the test on the stripped line. */
  lemma MarkerStripped(line: string)
    ensures IsMarker(line) <==> StartsWith(Strip(line), "#EXTM3U")
  {
    MarkerLeft(line);
    MarkerRight(LStrip(line));
  }

  /** Trailing whitespace cannot reach into `#EXTM3U`, whose last character is not blank. */
  lemma MarkerRight(l: string)
    ensures StartsWith(l, "#EXTM3U") <==> StartsWith(RStrip(l), "#EXTM3U")
  {
    var r := RStrip(l);
    if StartsWith(l, "#EXTM3U") {
      assert l[6] == 'U';
      assert |r| > 6;
      assert r[..7] == l[..7];
    }
    if StartsWith(r, "#EXTM3U") {
      assert l[..7] == r[..7];
    }
  }

  lemma {:induction false} MarkerLeft(line: string)
    ensures IsMarker(line) <==> StartsWith(LStrip(line), "#EXTM3U")
    decreases |line|
  {
    if |line| > 0 && IsSpace(line[0]) {
      MarkerLeft(line[1..]);
    }
  }

  function ErrorLine(url: string, message: string): string {
    "# ERROR processing playlist " + url + ": " + message + "\n"
  }

  /** What is written of a rewritten playlist: all of it, but its first line when a header was already handled and that line is a header. */
  function Segment(rew: seq<string>, handled: bool): seq<string> {
    if handled && |rew| > 0 && IsMarker(rew[0]) then rew[1..] else rew
  }

  /**
   The merge over the rewritten playlists (an error message in place of a
   failed download): the lines written, and whether the first header has
   been handled, which happens at the first playlist that has any line.
   */
  function Merge(urls: seq<string>, segs: seq<Result<seq<string>, string>>): (seq<string>, bool)
    requires |urls| == |segs|
    decreases |segs|
  {
    if |segs| == 0 then ([], false)
    else
      var n := |segs|;
      Next(Merge(urls[..n - 1], segs[..n - 1]), urls[n - 1], segs[n - 1])
  }

  /** One playlist more: its error comment, or its segment and the updated header flag. */
  function Next(prev: (seq<string>, bool), url: string, seg: Result<seq<string>, string>): (seq<string>, bool) {
    match seg
    case Err(message) => (prev.0 + [ErrorLine(url, message)], prev.1)
    case Ok(rew) => (prev.0 + Segment(rew, prev.1), prev.1 || rew != [])
  }

  /** How one downloaded playlist is rewritten; the merge is stated for any such function. */
  type Rewriting = seq<string> -> seq<string>

  /** The rewriter of the generator: each playlist on its own, from no pending headers. */
  function RewriteOf(cfg: Config): Rewriting {
    lines => Rewrite(lines, cfg)
  }

  /** `rw` rewrites every playlist as the rewriter under `cfg` does. */
  ghost predicate AgreesWith(rw: Rewriting, cfg: Config) {
    forall lines {:trigger Rewrite(lines, cfg)} :: rw(lines) == Rewrite(lines, cfg)
  }

  /** A download with its playlist rewritten by `rw`. */
  function RewrittenOne(result: Result<seq<string>, string>, rw: Rewriting): Result<seq<string>, string> {
    match result
    case Ok(lines) => Ok(rw(lines))
    case Err(message) => Err(message)
  }

  function Rewritten(results: seq<Result<seq<string>, string>>, rw: Rewriting): (segs: seq<Result<seq<string>, string>>)
    ensures |segs| == |results|
    ensures forall i :: 0 <= i < |results| ==> segs[i] == RewrittenOne(results[i], rw)
  {
    seq(|results|, i requires 0 <= i < |results| => RewrittenOne(results[i], rw))
  }

  /** The combined playlist for the definitions and what their downloads gave. */
  function Combined(defs: seq<string>, results: seq<Result<seq<string>, string>>, cfg: Config): seq<string>
    requires |results| == |defs|
  {
    Merge(UrlsOf(defs), Rewritten(results, RewriteOf(cfg))).0
  }

  /** The generator: `results[i]` is what downloading the `i`-th playlist gave. */
  method CombinePlaylists(defs: seq<string>, results: seq<Result<seq<string>, string>>, cfg: Config)
    returns (out: seq<string>)
    requires |results| == |defs|
    ensures out == Combined(defs, results, cfg)
  {
    var urls := PlaylistUrls(defs);
    out := MergeDownloads(urls, results, cfg, RewriteOf(cfg));
  }

  /** The loop over the downloads, for a rewriting `rw` that agrees with the rewriter. */
  method MergeDownloads(urls: seq<string>, results: seq<Result<seq<string>, string>>, cfg: Config, ghost rw: Rewriting)
    returns (out: seq<string>)
    requires |results| == |urls| && AgreesWith(rw, cfg)
    ensures out == Merge(urls, Rewritten(results, rw)).0
  {
    ghost var segs: seq<Result<seq<string>, string>> := [];
    out := [];
    var handled := false;
    var idx := 0;
    while idx < |results|
      invariant 0 <= idx <= |results|
      invariant |segs| == idx && forall k :: 0 <= k < idx ==> segs[k] == RewrittenOne(results[k], rw)
      invariant (out, handled) == Merge(urls[..idx], segs)
    {
      MergeSnoc(urls[..idx], segs, urls[idx], RewrittenOne(results[idx], rw));
      out, handled := AppendPlaylist(out, handled, urls[idx], results[idx], cfg, rw);
      assert urls[..idx + 1] == urls[..idx] + [urls[idx]];
      segs := segs + [RewrittenOne(results[idx], rw)];
      idx := idx + 1;
    }
    assert urls[..idx] == urls;
    assert segs == Rewritten(results, rw);
  }

  /** The body of the merge loop: one download, rewritten and appended to `out`. */
  method AppendPlaylist(out0: seq<string>, h0: bool, url: string, result: Result<seq<string>, string>, cfg: Config, ghost rw: Rewriting)
    returns (out: seq<string>, handled: bool)
    requires AgreesWith(rw, cfg)
    ensures (out, handled) == Next((out0, h0), url, RewrittenOne(result, rw))
  {
    match result {
      case Err(message) =>
        out, handled := out0 + [ErrorLine(url, message)], h0;
      case Ok(lines) =>
        var rew := RewriteStream(lines, cfg);
        out, handled := WriteSegment(rew, out0, h0);
    }
  }

  /** The inner loop: one rewritten playlist appended to `out`, with the header flags. */
  method WriteSegment(rew: seq<string>, out0: seq<string>, h0: bool) returns (out: seq<string>, handled: bool)
    ensures out == out0 + Segment(rew, h0)
    ensures handled == (h0 || rew != [])
  {
    ghost var drop := h0 && |rew| > 0 && IsMarker(rew[0]);
    out := out0;
    handled := h0;
    var had := false;
    var first := true;
    var j := 0;
    while j < |rew|
      invariant 0 <= j <= |rew|
      invariant first <==> j == 0
      invariant had <==> j > 0
      invariant j == 0 ==> handled == h0
      invariant h0 ==> handled
      invariant out == out0 + if drop && j > 0 then rew[1..j] else rew[..j]
    {
      var line := rew[j];
      had := true;
      var isMarker := IsMarker(line);
      if !handled {
        out := out + [line];
        if isMarker {
          handled := true;
        }
      } else if first && isMarker {
      } else {
        out := out + [line];
      }
      assert rew[..j + 1] == rew[..j] + [line];
      assert j > 0 ==> rew[1..j + 1] == rew[1..j] + [line];
      first := false;
      j := j + 1;
    }
    assert rew[..j] == rew;
    if had && !handled {
      handled := true;
    }
  }

  /** One more playlist, as the merge takes it. */
  lemma MergeSnoc(urls: seq<string>, segs: seq<Result<seq<string>, string>>, url: string, seg: Result<seq<string>, string>)
    requires |urls| == |segs|
    ensures Merge(urls + [url], segs + [seg]) == Next(Merge(urls, segs), url, seg)
  {
    assert (urls + [url])[..|urls|] == urls;
    assert (segs + [seg])[..|segs|] == segs;
  }

  /** The header flag is set exactly when some download gave a playlist with at least one line. */
  lemma {:induction false} MergeHandled(urls: seq<string>, segs: seq<Result<seq<string>, string>>)
    requires |urls| == |segs|
    ensures Merge(urls, segs).1 <==> exists i :: 0 <= i < |segs| && segs[i].Ok? && segs[i].value != []
    decreases |segs|
  {
    if |segs| > 0 {
      var n := |segs|;
      MergeHandled(urls[..n - 1], segs[..n - 1]);
      assert forall i :: 0 <= i < n - 1 ==> segs[..n - 1][i] == segs[i];
    }
  }

  /** An error comment is not a header line. */
  lemma ErrorLineNotMarker(url: string, message: string)
    ensures !IsMarker(ErrorLine(url, message))
  {
    var e := ErrorLine(url, message);
    assert e[0] == '#' && e[1] == ' ';
    assert |e| >= 7 ==> e[..7][1] == ' ';
  }

  /** When every download failed, the output is exactly one error comment per playlist, and it has no header. */
  lemma {:induction false} AllFailed(urls: seq<string>, segs: seq<Result<seq<string>, string>>)
    requires |urls| == |segs|
    requires forall i :: 0 <= i < |segs| ==> segs[i].Err?
    ensures |Merge(urls, segs).0| == |segs|
    ensures forall i :: 0 <= i < |segs| ==> Merge(urls, segs).0[i] == ErrorLine(urls[i], segs[i].error)
    ensures forall i :: 0 <= i < |segs| ==> !IsMarker(Merge(urls, segs).0[i])
    ensures !Merge(urls, segs).1
    decreases |segs|
  {
    if |segs| > 0 {
      var n := |segs|;
      AllFailed(urls[..n - 1], segs[..n - 1]);
      var r := Merge(urls, segs).0;
      assert r == Merge(urls[..n - 1], segs[..n - 1]).0 + [ErrorLine(urls[n - 1], segs[n - 1].error)];
      forall i | 0 <= i < n
        ensures r[i] == ErrorLine(urls[i], segs[i].error) && !IsMarker(r[i])
      {
        if i < n - 1 {
          assert segs[..n - 1][i] == segs[i] && urls[..n - 1][i] == urls[i];
        }
        ErrorLineNotMarker(urls[i], segs[i].error);
      }
    }
  }

  /** The number of header lines. */
  function MarkerCount(lines: seq<string>): nat
  {
    if |lines| == 0 then 0
    else MarkerCount(lines[..|lines| - 1]) + if IsMarker(lines[|lines| - 1]) then 1 else 0
  }

  lemma {:induction false} MarkerCountAppend(a: seq<string>, b: seq<string>)
    ensures MarkerCount(a + b) == MarkerCount(a) + MarkerCount(b)
    decreases |b|
  {
    if |b| == 0 {
      assert a + b == a;
    } else {
      var n := |b|;
      assert (a + b)[..|a + b| - 1] == a + b[..n - 1];
      MarkerCountAppend(a, b[..n - 1]);
    }
  }

  lemma {:induction false} MarkerCountNone(lines: seq<string>)
    requires forall k :: 0 <= k < |lines| ==> !IsMarker(lines[k])
    ensures MarkerCount(lines) == 0
    decreases |lines|
  {
    if |lines| > 0 {
      MarkerCountNone(lines[..|lines| - 1]);
    }
  }

  /** A playlist as the merge expects it: a header first, and no other header. */
  predicate WellFormed(rew: seq<string>) {
    |rew| > 0 && IsMarker(rew[0]) && forall k :: 1 <= k < |rew| ==> !IsMarker(rew[k])
  }

  lemma WellFormedCount(rew: seq<string>, handled: bool)
    requires WellFormed(rew)
    ensures MarkerCount(Segment(rew, handled)) == if handled then 0 else 1
  {
    MarkerCountNone(rew[1..]);
    MarkerCountAppend([rew[0]], rew[1..]);
    assert rew == [rew[0]] + rew[1..];
    assert [rew[0]][..0] == [];
  }

  /**
   When every playlist that downloaded is well formed, the output holds
   exactly one header if some download succeeded, and none otherwise.
   */
  lemma {:induction false} OneHeader(urls: seq<string>, segs: seq<Result<seq<string>, string>>)
    requires |urls| == |segs|
    requires forall i :: 0 <= i < |segs| && segs[i].Ok? ==> WellFormed(segs[i].value)
    ensures MarkerCount(Merge(urls, segs).0) == if Merge(urls, segs).1 then 1 else 0
    ensures Merge(urls, segs).1 <==> exists i :: 0 <= i < |segs| && segs[i].Ok?
    decreases |segs|
  {
    MergeHandled(urls, segs);
    if |segs| > 0 {
      var n := |segs|;
      OneHeader(urls[..n - 1], segs[..n - 1]);
      NextOneHeader(Merge(urls[..n - 1], segs[..n - 1]), urls[n - 1], segs[n - 1]);
    }
  }

  /** One playlist more keeps the header count in step with the flag. */
  lemma NextOneHeader(prev: (seq<string>, bool), url: string, seg: Result<seq<string>, string>)
    requires MarkerCount(prev.0) == if prev.1 then 1 else 0
    requires seg.Ok? ==> WellFormed(seg.value)
    ensures MarkerCount(Next(prev, url, seg).0) == if Next(prev, url, seg).1 then 1 else 0
  {
    match seg
    case Err(message) =>
      ErrorLineNotMarker(url, message);
      MarkerCountAppend(prev.0, [ErrorLine(url, message)]);
      assert [ErrorLine(url, message)][..0] == [];
    case Ok(rew) =>
      WellFormedCount(rew, prev.1);
      MarkerCountAppend(prev.0, Segment(rew, prev.1));
  }

  /**
   The first playlist with any line is written whole, header included:
   failed downloads and empty playlists before it do not consume the header.
   */
  lemma FirstWrittenWhole(urls: seq<string>, segs: seq<Result<seq<string>, string>>, i: nat)
    requires |urls| == |segs| && i < |segs| && segs[i].Ok?
    requires forall k :: 0 <= k < i ==> segs[k].Err? || segs[k].value == []
    ensures Merge(urls[..i + 1], segs[..i + 1]).0 == Merge(urls[..i], segs[..i]).0 + segs[i].value
  {
    assert forall k :: 0 <= k < i ==> segs[..i][k] == segs[k];
    MergeHandled(urls[..i], segs[..i]);
    assert urls[..i + 1][..i] == urls[..i] && segs[..i + 1][..i] == segs[..i];
  }

  /** Three playlists of which the middle one fails: the first whole, an error comment, the third without its header. */
  lemma MiddleFails(u1: string, u2: string, u3: string, a: seq<string>, message: string, b: seq<string>)
    requires WellFormed(a) && WellFormed(b)
    ensures Merge([u1, u2, u3], [Ok(a), Err(message), Ok(b)]).0 == a + [ErrorLine(u2, message)] + b[1..]
  {
    var none: seq<Result<seq<string>, string>> := [];
    MergeSnoc([], none, u1, Ok(a));
    assert [] + [u1] == [u1] && none + [Ok(a)] == [Ok(a)];
    MergeSnoc([u1], [Ok(a)], u2, Err(message));
    assert [u1] + [u2] == [u1, u2] && [Ok(a)] + [Err(message)] == [Ok(a), Err(message)];
    MergeSnoc([u1, u2], [Ok(a), Err(message)], u3, Ok(b));
    assert [u1, u2] + [u3] == [u1, u2, u3];
    assert [Ok(a), Err(message)] + [Ok(b)] == [Ok(a), Err(message), Ok(b)];
  }

  /** An empty playlist first does not count as the header: the next one is written with its own. */
  lemma EmptyFirst(u1: string, u2: string, b: seq<string>)
    ensures Merge([u1, u2], [Ok([]), Ok(b)]) == (b, b != [])
  {
    var none: seq<Result<seq<string>, string>> := [];
    var first: seq<Result<seq<string>, string>> := [Ok([])];
    MergeSnoc([], none, u1, Ok([]));
    assert [] + [u1] == [u1] && none + [Ok([])] == first;
    MergeSnoc([u1], first, u2, Ok(b));
    assert [u1] + [u2] == [u1, u2] && first + [Ok(b)] == [Ok([]), Ok(b)];
    assert Merge([u1], first).0 == [] + Segment([], false) == [];
    assert [] + Segment(b, false) == b;
  }

  /** Where the header of a downloaded playlist starts: after leading whitespace only. */
  lemma {:induction false} MarkerAt(line: string) returns (p: nat)
    requires IsMarker(line)
    ensures p + 7 <= |line| && line[p..p + 7] == "#EXTM3U"
    ensures forall k :: 0 <= k < p ==> IsSpace(line[k])
    decreases |line|
  {
    if |line| > 0 && IsSpace(line[0]) {
      var q := MarkerAt(line[1..]);
      p := q + 1;
      assert line[p..p + 7] == line[1..][q..q + 7];
    } else {
      p := 0;
    }
  }

  /** A header line still starts `#EXTM3U` once the rewriter has read it. */
  lemma MarkerLogical(line: string)
    requires IsMarker(line)
    ensures StartsWith(Logical(line), "#EXTM3U")
  {
    var p := MarkerAt(line);
    var r := RStripChar(line, '\n');
    MarkerSurvivesNewline(line, p);
    LStripAt(r, p);
    assert LStrip(r)[..7] == r[p..p + 7];
    MarkerRight(LStrip(r));
  }

  lemma MarkerSurvivesNewline(line: string, p: nat)
    requires p + 7 <= |line| && line[p..p + 7] == "#EXTM3U"
    requires forall k :: 0 <= k < p ==> IsSpace(line[k])
    ensures var r := RStripChar(line, '\n');
      p + 7 <= |r| && r[p..p + 7] == "#EXTM3U" && (forall k :: 0 <= k < p ==> IsSpace(r[k])) && !IsSpace(r[p])
  {
    var r := RStripChar(line, '\n');
    assert line[p + 6] == 'U';
    assert |r| > p + 6;
    assert r[p..p + 7] == line[p..p + 7];
    assert r[p] == '#';
  }

  /** The header line is no link, so the rewriter leaves it alone. */
  lemma MarkerNotPlayable(line: string)
    requires IsMarker(line)
    ensures !Playable(Logical(line))
  {
    MarkerLogical(line);
    var l := Logical(line);
    assert l[..1] == l[..7][..1];
    HashNotPlayable(l);
  }

  lemma HashNotPlayable(l: string)
    requires StartsWith(l, "#")
    ensures !Playable(l)
  {
  }

  /** The rewriter writes a playlist's header line as it is. */
  lemma RewriteKeepsHeader(lines: seq<string>, cfg: Config)
    requires |lines| > 0 && IsMarker(lines[0])
    ensures Rewrite(lines, cfg)[0] == lines[0]
  {
    MarkerNotPlayable(lines[0]);
    PassThrough(lines, cfg, 0);
  }

  /** A proxy URL starts as the link does for `pluto.tv`, and as the base URL otherwise. */
  lemma RouteUrlStart(line: string, base: string)
    requires line != "" && base != ""
    ensures RouteUrl(line, base) != ""
    ensures RouteUrl(line, base)[0] == if Classify(line) == Pluto then line[0] else base[0]
  {
  }

  /**
   A proxy entry is never a header line, when the base URL starts with
   neither a blank nor `#`, as `scheme://netloc` does.
   */
  lemma EntryNotMarker(line: string, h: Headers, base: string, apiPassword: Option<string>)
    requires Playable(Logical(line))
    requires base != "" && !IsSpace(base[0]) && base[0] != '#'
    ensures !IsMarker(Entry(Logical(line), h, base, apiPassword))
  {
    var l := Logical(line);
    assert l != "" && !IsSpace(l[0]) && l[0] != '#';
    RouteUrlStart(l, base);
    var r := RouteUrl(l, base);
    var e := Entry(l, h, base, apiPassword);
    assert e == r + HeaderParams(h) + PasswordParam(apiPassword) + "\n";
    assert e[0] == r[0];
    StartNotMarker(e);
  }

  /** A line that starts with neither a blank nor `#` is no header line. */
  lemma StartNotMarker(line: string)
    requires line != "" && !IsSpace(line[0]) && line[0] != '#'
    ensures !IsMarker(line)
  {
  }

  /** Rewriting a well-formed playlist gives a well-formed playlist: its header stays first, and no link becomes a header. */
  lemma RewriteWellFormed(lines: seq<string>, cfg: Config)
    requires WellFormed(lines)
    requires cfg.baseUrl != "" && !IsSpace(cfg.baseUrl[0]) && cfg.baseUrl[0] != '#'
    ensures WellFormed(Rewrite(lines, cfg))
  {
    var rew := Rewrite(lines, cfg);
    assert |rew| == |lines|;
    RewriteKeepsHeader(lines, cfg);
    forall k | 1 <= k < |rew| ensures !IsMarker(rew[k]) {
      if Playable(Logical(lines[k])) {
        PlayableRewritten(lines, cfg, k);
        EntryNotMarker(lines[k], Pending(lines[..k], cfg), cfg.baseUrl, cfg.apiPassword);
      } else {
        PassThrough(lines, cfg, k);
      }
    }
  }

  /**
   When every downloaded playlist is well formed, the combined playlist holds
   exactly one header if some download succeeded, and none otherwise.
   */
  lemma CombinedOneHeader(defs: seq<string>, results: seq<Result<seq<string>, string>>, cfg: Config)
    requires |results| == |defs|
    requires forall i :: 0 <= i < |results| && results[i].Ok? ==> WellFormed(results[i].value)
    requires cfg.baseUrl != "" && !IsSpace(cfg.baseUrl[0]) && cfg.baseUrl[0] != '#'
    ensures MarkerCount(Combined(defs, results, cfg)) == if exists i :: 0 <= i < |results| && results[i].Ok? then 1 else 0
  {
    var segs := Rewritten(results, RewriteOf(cfg));
    forall i | 0 <= i < |segs| && segs[i].Ok? ensures WellFormed(segs[i].value) {
      RewriteWellFormed(results[i].value, cfg);
    }
    OneHeader(UrlsOf(defs), segs);
    assert (exists i :: 0 <= i < |segs| && segs[i].Ok?) <==> exists i :: 0 <= i < |results| && results[i].Ok?;
  }
}
