/**
 `rewrite_m3u_links_streaming`: one pass over the lines of a playlist that
 copies directive and ordinary lines, rewrites playable links into proxy
 URLs, and carries the headers collected from `#EXTVLCOPT:` and `#EXTHTTP:`
 directives to the next playable link only.
 */
module Rewriter {
  import opened Wrappers
  import opened Text
  import opened Dicts
  import opened Directives
  import opened Routes

  /** What the rewriter is given besides the lines: the proxy's base URL, the password, and `json.loads`. */
  datatype Config = Config(baseUrl: string, apiPassword: Option<string>, loads: JsonLoads)

  /** The line as the rewriter reads it: without its newline, then stripped. */
  function Logical(line: string): string {
    Strip(RStripChar(line, '\n'))
  }

  /** A link to rewrite: not empty, not a comment, and containing `http://` or `https://`. */
  predicate Playable(logical: string) {
    logical != "" && !StartsWith(logical, "#")
    && (Contains(logical, "http://") || Contains(logical, "https://"))
  }

  /** One line: what is written out, and the pending headers afterwards. */
  function Step(line: string, h: Headers, cfg: Config): (r: (string, Headers))
    ensures r.0 != line ==> Playable(Logical(line))
    ensures UniqueKeys(h) ==> UniqueKeys(r.1)
  {
    var logical := Logical(line);
    if StartsWith(logical, VlcPrefix) then (line, VlcUpdate(logical, h))
    else if StartsWith(logical, HttpPrefix) then (line, HttpUpdate(logical, cfg.loads))
    else if Playable(logical) then (Entry(logical, h, cfg.baseUrl, cfg.apiPassword), [])
    else (line, h)
  }

  /** Both directive prefixes start with `#`, so a directive is never a link. */
  lemma DirectiveNotPlayable(logical: string)
    requires IsDirective(logical)
    ensures StartsWith(logical, "#") && !Playable(logical)
  {
    var p := if StartsWith(logical, VlcPrefix) then VlcPrefix else HttpPrefix;
    assert StartsWith(logical, p);
    assert logical[..1] == logical[..|p|][..1] == p[..1] == "#";
  }

  predicate IsDirective(logical: string) {
    StartsWith(logical, VlcPrefix) || StartsWith(logical, HttpPrefix)
  }

  /** What one step does to a playable link. */
  lemma StepPlayable(line: string, h: Headers, cfg: Config)
    requires Playable(Logical(line))
    ensures Step(line, h, cfg) == (Entry(Logical(line), h, cfg.baseUrl, cfg.apiPassword), [])
  {
    if IsDirective(Logical(line)) {
      DirectiveNotPlayable(Logical(line));
    }
  }

  /** An `#EXTVLCOPT:` line is copied and updates the pending headers. */
  lemma StepVlc(line: string, h: Headers, cfg: Config)
    requires StartsWith(Logical(line), VlcPrefix)
    ensures Step(line, h, cfg) == (line, VlcUpdate(Logical(line), h))
  {
  }

  /** An `#EXTHTTP:` line is copied and replaces the pending headers. */
  lemma StepHttp(line: string, h: Headers, cfg: Config)
    requires StartsWith(Logical(line), HttpPrefix)
    ensures Step(line, h, cfg) == (line, HttpUpdate(Logical(line), cfg.loads))
  {
    PrefixesExclusive(Logical(line));
  }

  /** A line that is neither a directive nor a link is copied and changes nothing. */
  lemma StepInert(line: string, h: Headers, cfg: Config)
    requires !IsDirective(Logical(line)) && !Playable(Logical(line))
    ensures Step(line, h, cfg) == (line, h)
  {
  }

  /** A step as a value, so that the pass can be reasoned about for any step. */
  type StepFn = (string, Headers) -> (string, Headers)

  function StepOf(cfg: Config): StepFn {
    (line, h) => Step(line, h, cfg)
  }

  /** The lines written for `lines`, and the pending headers at the end, by step `f` from pending headers `h`. */
  function Fold(lines: seq<string>, h: Headers, f: StepFn): (r: (seq<string>, Headers))
    ensures |r.0| == |lines|
    decreases |lines|
  {
    if |lines| == 0 then ([], h)
    else
      var prev := Fold(lines[..|lines| - 1], h, f);
      var step := f(lines[|lines| - 1], prev.1);
      (prev.0 + [step.0], step.1)
  }

  /** The pass of the rewriter from pending headers `h`. */
  function Run(lines: seq<string>, h: Headers, cfg: Config): (seq<string>, Headers) {
    Fold(lines, h, StepOf(cfg))
  }

  /** The rewritten playlist: each playlist starts with no pending headers. */
  function Rewrite(lines: seq<string>, cfg: Config): seq<string> {
    Run(lines, [], cfg).0
  }

  /** The headers pending after `lines`. */
  function Pending(lines: seq<string>, cfg: Config): Headers {
    Run(lines, [], cfg).1
  }

  /** The loop of the generator, yielding into `out`. */
  method RewriteStream(lines: seq<string>, cfg: Config) returns (out: seq<string>)
    ensures out == Rewrite(lines, cfg)
    ensures |out| == |lines|
  {
    var current: Headers := [];
    out := [];
    var i := 0;
    while i < |lines|
      invariant 0 <= i <= |lines|
      invariant out == Rewrite(lines[..i], cfg) && current == Pending(lines[..i], cfg)
    {
      var written;
      written, current := RewriteLine(lines[i], current, cfg);
      out := out + [written];
      FoldSnoc(lines, i, [], StepOf(cfg));
      i := i + 1;
    }
    assert lines[..i] == lines;
  }

  /** The body of the loop: one line, with `current` the pending headers. */
  method RewriteLine(line: string, current: Headers, cfg: Config) returns (written: string, next: Headers)
    ensures (written, next) == Step(line, current, cfg)
  {
    var content := RStripChar(line, '\n');
    var logical := Strip(content);
    var isHeaderTag := false;
    next := current;
    if StartsWith(logical, VlcPrefix) {
      isHeaderTag := true;
      next := VlcUpdate(logical, next);
      StepVlc(line, current, cfg);
    } else if StartsWith(logical, HttpPrefix) {
      isHeaderTag := true;
      next := HttpUpdate(logical, cfg.loads);
      StepHttp(line, current, cfg);
    }
    if isHeaderTag {
      written := line;
    } else if Playable(logical) {
      var url := RouteUrl(logical, cfg.baseUrl);
      if next != [] {
        url := url + HeaderParams(next);
        next := [];
      }
      assert url == RouteUrl(logical, cfg.baseUrl) + HeaderParams(current);
      url := url + PasswordParam(cfg.apiPassword);
      written := url + "\n";
      assert written == Entry(logical, current, cfg.baseUrl, cfg.apiPassword);
      StepPlayable(line, current, cfg);
    } else {
      StepInert(line, current, cfg);
      written := line;
    }
  }

  // ---------------------------------------------------------------------
  // Properties of the pass, for any step, then for the rewriter's

  lemma FoldSnoc(lines: seq<string>, i: nat, h: Headers, f: StepFn)
    requires i < |lines|
    ensures Fold(lines[..i + 1], h, f).0 == Fold(lines[..i], h, f).0 + [f(lines[i], Fold(lines[..i], h, f).1).0]
    ensures Fold(lines[..i + 1], h, f).1 == f(lines[i], Fold(lines[..i], h, f).1).1
  {
    assert lines[..i + 1][..i] == lines[..i];
  }

  /** Running over `a + b` is running over `a`, then over `b` from the headers `a` left pending. */
  lemma {:induction false} FoldAppend(a: seq<string>, b: seq<string>, h: Headers, f: StepFn)
    ensures Fold(a + b, h, f).0 == Fold(a, h, f).0 + Fold(b, Fold(a, h, f).1, f).0
    ensures Fold(a + b, h, f).1 == Fold(b, Fold(a, h, f).1, f).1
    decreases |b|
  {
    if |b| == 0 {
      assert a + b == a;
    } else {
      var b' := b[..|b| - 1];
      assert (a + b)[..|a + b| - 1] == a + b';
      assert (a + b)[|a + b| - 1] == b[|b| - 1];
      FoldAppend(a, b', h, f);
    }
  }

  lemma FoldSince(lines: seq<string>, h: Headers, f: StepFn, i: nat, j: nat)
    requires i < j <= |lines|
    ensures Fold(lines[..j], h, f).1 == Fold(lines[i + 1..j], Fold(lines[..i + 1], h, f).1, f).1
  {
    assert lines[..j] == lines[..i + 1] + lines[i + 1..j];
    FoldAppend(lines[..i + 1], lines[i + 1..j], h, f);
  }

  /** Three lines, step by step. */
  lemma FoldThree(a: string, b: string, c: string, h: Headers, f: StepFn)
    ensures Fold([a, b, c], h, f).0 == [f(a, h).0, f(b, f(a, h).1).0, f(c, f(b, f(a, h).1).1).0]
  {
    var lines := [a, b, c];
    FoldSnoc(lines, 0, h, f);
    FoldSnoc(lines, 1, h, f);
    FoldSnoc(lines, 2, h, f);
    assert lines[..0] == [] && lines[..3] == lines;
  }

  /** Line `i` is written by one step under the headers the lines before it left pending. */
  lemma FoldAt(lines: seq<string>, h: Headers, f: StepFn, i: nat)
    requires i < |lines|
    ensures Fold(lines, h, f).0[i] == f(lines[i], Fold(lines[..i], h, f).1).0
  {
    assert lines == lines[..i + 1] + lines[i + 1..];
    FoldAppend(lines[..i + 1], lines[i + 1..], h, f);
    FoldSnoc(lines, i, h, f);
  }

  /** Line `i` of the rewritten playlist is one step under the headers pending before it. */
  lemma RewriteAt(lines: seq<string>, cfg: Config, i: nat)
    requires i < |lines|
    ensures Rewrite(lines, cfg)[i] == Step(lines[i], Pending(lines[..i], cfg), cfg).0
    ensures Pending(lines[..i + 1], cfg) == Step(lines[i], Pending(lines[..i], cfg), cfg).1
  {
    FoldAt(lines, [], StepOf(cfg), i);
    FoldSnoc(lines, i, [], StepOf(cfg));
  }

  /** Every line that is not a playable link, directives included, is written out unchanged. */
  lemma PassThrough(lines: seq<string>, cfg: Config, i: nat)
    requires i < |lines| && !Playable(Logical(lines[i]))
    ensures Rewrite(lines, cfg)[i] == lines[i]
  {
    RewriteAt(lines, cfg, i);
  }

  /**
   A playable link becomes the proxy entry for its stripped text under the
   pending headers, and leaves no headers pending.
   */
  lemma PlayableRewritten(lines: seq<string>, cfg: Config, i: nat)
    requires i < |lines| && Playable(Logical(lines[i]))
    ensures Rewrite(lines, cfg)[i] == Entry(Logical(lines[i]), Pending(lines[..i], cfg), cfg.baseUrl, cfg.apiPassword)
    ensures Pending(lines[..i + 1], cfg) == []
  {
    RewriteAt(lines, cfg, i);
    StepPlayable(lines[i], Pending(lines[..i], cfg), cfg);
  }

  /**
   The pending headers are one-shot: what is pending after the `j` first
   lines depends only on the lines after the last playable link before `j`.
   */
  lemma PendingSince(lines: seq<string>, cfg: Config, i: nat, j: nat)
    requires i < j <= |lines| && Playable(Logical(lines[i]))
    ensures Pending(lines[..j], cfg) == Pending(lines[i + 1..j], cfg)
  {
    PlayableRewritten(lines, cfg, i);
    FoldSince(lines, [], StepOf(cfg), i, j);
  }

  /** Of two playable links in a row, the second is written with no headers. */
  lemma SecondLinkBare(lines: seq<string>, cfg: Config, i: nat)
    requires i + 1 < |lines| && Playable(Logical(lines[i])) && Playable(Logical(lines[i + 1]))
    ensures Rewrite(lines, cfg)[i + 1] == Entry(Logical(lines[i + 1]), [], cfg.baseUrl, cfg.apiPassword)
  {
    PlayableRewritten(lines, cfg, i);
    PlayableRewritten(lines, cfg, i + 1);
  }

  /** Lines that are neither directives nor links are copied and leave the pending headers as they are. */
  lemma InertKeepsPending(lines: seq<string>, h: Headers, cfg: Config)
    requires forall k :: 0 <= k < |lines| ==> !IsDirective(Logical(lines[k])) && !Playable(Logical(lines[k]))
    ensures Run(lines, h, cfg) == (lines, h)
    decreases |lines|
  {
    forall k | 0 <= k < |lines|
      ensures StepOf(cfg)(lines[k], h) == (lines[k], h)
    {
      StepInert(lines[k], h, cfg);
    }
    FoldInert(lines, h, StepOf(cfg));
  }

  /** A step that copies each line and keeps the headers leaves the whole fold inert. */
  lemma {:induction false} FoldInert(lines: seq<string>, h: Headers, f: StepFn)
    requires forall k :: 0 <= k < |lines| ==> f(lines[k], h) == (lines[k], h)
    ensures Fold(lines, h, f) == (lines, h)
    decreases |lines|
  {
    if |lines| > 0 {
      var init := lines[..|lines| - 1];
      assert forall k :: 0 <= k < |init| ==> init[k] == lines[k];
      FoldInert(init, h, f);
      assert init + [lines[|lines| - 1]] == lines;
    }
  }

  /**
   A JSON header directive, then a VLC option, then a link: the link carries
   the decoded headers with the option's header put on top of them, and the
   two directive lines are copied as they are.
   */
  lemma JsonThenVlcThenLink(json: string, vlc: string, link: string, cfg: Config)
    requires StartsWith(Logical(json), HttpPrefix)
    requires StartsWith(Logical(vlc), VlcPrefix)
    requires Playable(Logical(link))
    ensures Rewrite([json, vlc, link], cfg) == [json, vlc,
      Entry(Logical(link), VlcUpdate(Logical(vlc), HttpUpdate(Logical(json), cfg.loads)), cfg.baseUrl, cfg.apiPassword)]
  {
    var h1 := HttpUpdate(Logical(json), cfg.loads);
    var h2 := VlcUpdate(Logical(vlc), h1);
    StepHttp(json, [], cfg);
    StepVlc(vlc, h1, cfg);
    StepPlayable(link, h2, cfg);
    FoldThree(json, vlc, link, [], StepOf(cfg));
  }
}
