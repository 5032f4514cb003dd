/**
 The parts of `urllib.parse` the playlist builder uses, simplified to what it
 depends on: cutting off a URL's query and fragment (`urlparse` and
 `urlunparse`), reading a query into fields (`parse_qs`), writing fields back
 (`urlencode(..., doseq=True)`), and finding a URL's scheme and host name
 (`urlparse(...).scheme` and `.hostname`). Percent- and plus-decoding of
 query fields, and their re-encoding, are not modelled.
 */
module Urls {
  import opened Wrappers
  import opened Text
  import opened Dicts

  // ---------------------------------------------------------------------
  // Query and fragment

  /**
   A URL cut where `urlsplit` cuts it: `head` is scheme, network location,
   path and parameters; `query` is what follows the first `?` of the part
   before the first `#`; `fragment` is what follows that `#`.
   */
  datatype UrlParts = UrlParts(head: string, query: Option<string>, fragment: Option<string>)

  /** Put the parts back together as they were cut. */
  function Assemble(p: UrlParts): string {
    p.head
    + (match p.query case Some(q) => "?" + q case None => "")
    + (match p.fragment case Some(f) => "#" + f case None => "")
  }

  /** Cut a URL into head, query and fragment. */
  function SplitUrl(url: string): (p: UrlParts)
    ensures Assemble(p) == url
    ensures '?' !in p.head && '#' !in p.head
    ensures p.query.Some? ==> '#' !in p.query.value
  {
    match SplitOnce(url, '#')
    case None => SplitQuery(url, None)
    case Some(cut) => SplitQuery(cut.0, Some(cut.1))
  }

  /** The cut at the first `?` of the part before the fragment. */
  function SplitQuery(beforeHash: string, fragment: Option<string>): (p: UrlParts)
    requires '#' !in beforeHash
    ensures Assemble(p) == Assemble(UrlParts(beforeHash, None, fragment))
    ensures '?' !in p.head && '#' !in p.head
    ensures p.query.Some? ==> '#' !in p.query.value
    ensures p.fragment == fragment
  {
    match SplitOnce(beforeHash, '?')
    case None => UrlParts(beforeHash, None, fragment)
    case Some(cut) =>
      CutKeepsOut(cut.0, cut.1, '?', '#');
      UrlParts(cut.0, Some(cut.1), fragment)
  }

  /** The two sides of a cut hold no character the whole does not hold. */
  lemma CutKeepsOut(a: string, b: string, c: char, x: char)
    requires x !in a + [c] + b
    ensures x !in a && x !in b
  {
    assert forall i :: 0 <= i < |b| ==> b[i] == (a + [c] + b)[|a| + 1 + i];
    assert forall i :: 0 <= i < |a| ==> a[i] == (a + [c] + b)[i];
  }

  /** The other direction of the round trip: parts that could have come from a cut are found again. */
  lemma SplitAssemble(p: UrlParts)
    requires '?' !in p.head && '#' !in p.head
    requires p.query.Some? ==> '#' !in p.query.value
    ensures SplitUrl(Assemble(p)) == p
  {
    var beforeHash := p.head + (match p.query case Some(q) => "?" + q case None => "");
    assert '#' !in beforeHash;
    match p.fragment {
      case Some(f) =>
        assert Assemble(p) == beforeHash + ['#'] + f;
        SplitOnceOf(beforeHash, f, '#');
      case None =>
        assert Assemble(p) == beforeHash;
    }
    match p.query {
      case Some(q) =>
        assert beforeHash == p.head + ['?'] + q;
        SplitOnceOf(p.head, q, '?');
      case None =>
    }
  }

  /** `urlunparse`: an empty query or fragment is dropped together with its `?` or `#`. */
  function Unparse(head: string, query: string, fragment: string): (url: string)
    ensures query != "" && fragment != "" ==> url == Assemble(UrlParts(head, Some(query), Some(fragment)))
  {
    head + (if query != "" then "?" + query else "") + (if fragment != "" then "#" + fragment else "")
  }

  /** The query of a URL as `urlparse(url).query` gives it (empty when absent). */
  function QueryOf(url: string): string {
    match SplitUrl(url).query case Some(q) => q case None => ""
  }

  /** The fragment of a URL as `urlparse(url).fragment` gives it (empty when absent). */
  function FragmentOf(url: string): string {
    match SplitUrl(url).fragment case Some(f) => f case None => ""
  }

  // ---------------------------------------------------------------------
  // Query fields

  /** One `&`-separated piece of a query as `parse_qs` reads it: `name=value`, dropped without `=` or with an empty value. */
  function Field(piece: string): (r: Option<(string, string)>)
    ensures r.Some? ==> piece == r.value.0 + "=" + r.value.1
    ensures r.Some? ==> '=' !in r.value.0 && r.value.1 != ""
    ensures r.None? <==> '=' !in piece || SplitOnce(piece, '=').value.1 == ""
  {
    match SplitOnce(piece, '=')
    case None => None
    case Some(cut) => if cut.1 == "" then None else Some(cut)
  }

  /** The fields of the pieces, in order, those `Field` drops left out. */
  function Fields(pieces: seq<string>): (ps: seq<(string, string)>)
    ensures |ps| <= |pieces|
  {
    if |pieces| == 0 then []
    else (match Field(pieces[0]) case Some(p) => [p] case None => []) + Fields(pieces[1..])
  }

  /** A field is listed exactly when some piece reads as it. */
  lemma {:induction false} FieldsMembers(pieces: seq<string>, p: (string, string))
    ensures p in Fields(pieces) <==> exists i :: 0 <= i < |pieces| && Field(pieces[i]) == Some(p)
    decreases |pieces|
  {
    if |pieces| > 0 {
      var tail := pieces[1..];
      FieldsMembers(tail, p);
      if exists i :: 0 <= i < |tail| && Field(tail[i]) == Some(p) {
        var i :| 0 <= i < |tail| && Field(tail[i]) == Some(p);
        assert Field(pieces[i + 1]) == Some(p);
      }
      if exists i :: 0 <= i < |pieces| && Field(pieces[i]) == Some(p) {
        var i :| 0 <= i < |pieces| && Field(pieces[i]) == Some(p);
        if i > 0 {
          assert Field(tail[i - 1]) == Some(p);
        }
      }
    }
  }

  /** A field `parse_qs` can produce: the name holds no `&` or `=`, the value no `&` and is not empty. */
  predicate GoodField(p: (string, string)) {
    '&' !in p.0 && '=' !in p.0 && '&' !in p.1 && p.1 != ""
  }

  /** The fields of a query, in order, as `parse_qsl` lists them. */
  function QueryFields(query: string): (ps: seq<(string, string)>)
    ensures forall i :: 0 <= i < |ps| ==> GoodField(ps[i])
  {
    var pieces := Split(query, '&');
    var ps := Fields(pieces);
    forall k | 0 <= k < |ps| ensures GoodField(ps[k]) {
      var p := ps[k];
      FieldsMembers(pieces, p);
      var i :| 0 <= i < |pieces| && Field(pieces[i]) == Some(p);
      assert pieces[i] == p.0 + ['='] + p.1;
      CutKeepsOut(p.0, p.1, '=', '&');
    }
    ps
  }

  /** The values the fields give to `name`, in order. */
  function ValuesOf(ps: seq<(string, string)>, name: string): (vs: seq<string>)
    ensures forall v :: v in vs <==> (name, v) in ps
    ensures vs == [] <==> forall j :: 0 <= j < |ps| ==> ps[j].0 != name
  {
    if |ps| == 0 then []
    else
      var init := ps[..|ps| - 1];
      var last := ps[|ps| - 1];
      assert ps == init + [last];
      ValuesOf(init, name) + (if last.0 == name then [last.1] else [])
  }

  /** What `parse_qs` gives for `name`: its values in order, or nothing when there are none. */
  function Lookup(ps: seq<(string, string)>, name: string): Option<seq<string>> {
    var vs := ValuesOf(ps, name);
    if vs == [] then None else Some(vs)
  }

  /** `parse_qs`: one entry per name, in order of first appearance, listing its values in order. */
  function Group(ps: seq<(string, string)>): (g: Dict<seq<string>>)
    ensures UniqueKeys(g)
    ensures forall k :: Get(g, k) == Lookup(ps, k)
  {
    if |ps| == 0 then []
    else
      var init := ps[..|ps| - 1];
      var last := ps[|ps| - 1];
      var g0 := Group(init);
      var vs := match Get(g0, last.0) case None => [] case Some(vs) => vs;
      var g := Put(g0, last.0, vs + [last.1]);
      GroupStep(ps, g0, g, vs);
      g
  }

  lemma GroupStep(ps: seq<(string, string)>, g0: Dict<seq<string>>, g: Dict<seq<string>>, vs: seq<string>)
    requires |ps| > 0
    requires forall k :: Get(g0, k) == Lookup(ps[..|ps| - 1], k)
    requires vs == match Get(g0, ps[|ps| - 1].0) case None => [] case Some(vs) => vs
    requires g == Put(g0, ps[|ps| - 1].0, vs + [ps[|ps| - 1].1])
    ensures forall k :: Get(g, k) == Lookup(ps, k)
  {
    var init := ps[..|ps| - 1];
    var last := ps[|ps| - 1];
    forall k ensures Get(g, k) == Lookup(ps, k) {
      assert ValuesOf(ps, k) == ValuesOf(init, k) + (if last.0 == k then [last.1] else []);
      if k != last.0 {
        assert ValuesOf(ps, k) == ValuesOf(init, k);
        assert Get(g, k) == Get(g0, k);
      } else {
        assert vs == ValuesOf(init, k);
        assert Get(g, k) == Some(vs + [last.1]);
        assert ValuesOf(ps, k) == vs + [last.1];
      }
    }
  }

  /** The dict comprehension that drops the names in `drop`, keeping the order of the rest. */
  function Without(g: Dict<seq<string>>, drop: set<string>): (h: Dict<seq<string>>)
    ensures forall k :: Get(h, k) == if k in drop then None else Get(g, k)
    ensures |h| <= |g|
  {
    if |g| == 0 then []
    else
      var rest := Without(g[1..], drop);
      assert g == [g[0]] + g[1..];
      assert forall k :: Get(g, k) == if g[0].0 == k then Some(g[0].1) else Get(g[1..], k) by {
        forall k { GetCons(g[0], g[1..], k); }
      }
      if g[0].0 in drop then rest
      else
        assert forall k :: Get([g[0]] + rest, k) == if g[0].0 == k then Some(g[0].1) else Get(rest, k) by {
          forall k { GetCons(g[0], rest, k); }
        }
        [g[0]] + rest
  }

  /** The `(name, value)` pairs a grouped query stands for, entry by entry. */
  function Pairs(g: Dict<seq<string>>): seq<(string, string)>
  {
    if |g| == 0 then [] else Expand(g[0].0, g[0].1) + Pairs(g[1..])
  }

  function Expand(name: string, vs: seq<string>): (ps: seq<(string, string)>)
    ensures forall p :: p in ps <==> p.0 == name && p.1 in vs
  {
    if |vs| == 0 then [] else [(name, vs[0])] + Expand(name, vs[1..])
  }

  /** `name=value` for one pair. */
  function Render(p: (string, string)): string {
    p.0 + "=" + p.1
  }

  function RenderAll(ps: seq<(string, string)>): (rs: seq<string>)
    ensures |rs| == |ps|
    ensures forall i :: 0 <= i < |ps| ==> rs[i] == Render(ps[i])
  {
    if |ps| == 0 then [] else [Render(ps[0])] + RenderAll(ps[1..])
  }

  /** `urlencode(g, doseq=True)`, without the re-encoding of names and values. */
  function Encode(g: Dict<seq<string>>): string {
    Join(RenderAll(Pairs(g)), '&')
  }

  /** A pair belongs to a grouped query exactly when its value is listed under its name. */
  lemma {:induction false} PairsMembership(g: Dict<seq<string>>, p: (string, string))
    requires UniqueKeys(g)
    ensures p in Pairs(g) <==> Get(g, p.0).Some? && p.1 in Get(g, p.0).value
    decreases |g|
  {
    if |g| > 0 {
      assert UniqueKeys(g[1..]) by {
        forall i, j | 0 <= i < j < |g[1..]| ensures g[1..][i].0 != g[1..][j].0 {
          assert g[1..][i] == g[i + 1] && g[1..][j] == g[j + 1];
        }
      }
      PairsMembership(g[1..], p);
      if g[0].0 == p.0 {
        assert Get(g, p.0) == Some(g[0].1);
        assert Get(g[1..], p.0).None? by {
          forall j | 0 <= j < |g[1..]| ensures g[1..][j].0 != p.0 {
            assert g[1..][j] == g[j + 1];
          }
        }
      } else {
        assert IndexOf(g, p.0) == if IndexOf(g[1..], p.0) < 0 then -1 else IndexOf(g[1..], p.0) + 1;
        assert Get(g, p.0) == Get(g[1..], p.0);
      }
    }
  }

  /** Fields of the kind `parse_qs` produces survive writing out and reading back unchanged. */
  lemma EncodeReparse(ps: seq<(string, string)>)
    requires forall i :: 0 <= i < |ps| ==> GoodField(ps[i])
    ensures Fields(Split(Join(RenderAll(ps), '&'), '&')) == ps
  {
    var rs := RenderAll(ps);
    if |ps| == 0 {
      assert Split("", '&') == [""];
    } else {
      assert forall i :: 0 <= i < |rs| ==> '&' !in rs[i] by {
        forall i | 0 <= i < |rs| ensures '&' !in rs[i] {
          assert rs[i] == ps[i].0 + ['='] + ps[i].1;
          assert GoodField(ps[i]);
        }
      }
      SplitJoin(rs, '&');
      RenderedFields(ps);
    }
  }

  lemma {:induction false} RenderedFields(ps: seq<(string, string)>)
    requires forall i :: 0 <= i < |ps| ==> GoodField(ps[i])
    ensures Fields(RenderAll(ps)) == ps
    decreases |ps|
  {
    if |ps| > 0 {
      assert GoodField(ps[0]);
      RenderedFieldsHead(ps);
      RenderedFields(ps[1..]);
      assert ps == [ps[0]] + ps[1..];
    }
  }

  /** The first rendered field reads back as the first field. */
  lemma RenderedFieldsHead(ps: seq<(string, string)>)
    requires |ps| > 0 && GoodField(ps[0])
    ensures Fields(RenderAll(ps)) == [ps[0]] + Fields(RenderAll(ps[1..]))
  {
    var rs := RenderAll(ps);
    assert rs == [Render(ps[0])] + RenderAll(ps[1..]);
    assert rs[0] == ps[0].0 + ['='] + ps[0].1;
    SplitOnceOf(ps[0].0, ps[0].1, '=');
  }

  /** Grouping keeps every pair a pair of a `parse_qs`-style query, so the cleaned query reads back cleanly. */
  lemma PairsGood(g: Dict<seq<string>>, ps: seq<(string, string)>, drop: set<string>)
    requires forall i :: 0 <= i < |ps| ==> GoodField(ps[i])
    requires g == Without(Group(ps), drop)
    ensures forall i :: 0 <= i < |Pairs(g)| ==> GoodField(Pairs(g)[i])
  {
    forall i | 0 <= i < |Pairs(g)| ensures GoodField(Pairs(g)[i]) {
      var p := Pairs(g)[i];
      WithoutUnique(Group(ps), drop);
      PairsMembership(g, p);
      assert p.1 in ValuesOf(ps, p.0);
      var j :| 0 <= j < |ps| && ps[j] == p;
    }
  }

  /** Dropping names keeps only entries that were there. */
  lemma {:induction false} WithoutSubset(g: Dict<seq<string>>, drop: set<string>)
    ensures forall x :: x in Without(g, drop) ==> x in g
    decreases |g|
  {
    if |g| > 0 {
      WithoutSubset(g[1..], drop);
    }
  }

  lemma {:induction false} WithoutUnique(g: Dict<seq<string>>, drop: set<string>)
    requires UniqueKeys(g)
    ensures UniqueKeys(Without(g, drop))
    decreases |g|
  {
    if |g| > 0 {
      assert UniqueKeys(g[1..]) by {
        forall i, j | 0 <= i < j < |g[1..]| ensures g[1..][i].0 != g[1..][j].0 {
          assert g[1..][i] == g[i + 1] && g[1..][j] == g[j + 1];
        }
      }
      WithoutUnique(g[1..], drop);
      if g[0].0 !in drop {
        var rest := Without(g[1..], drop);
        WithoutSubset(g[1..], drop);
        assert forall x :: x in g[1..] ==> x.0 != g[0].0 by {
          forall x | x in g[1..] ensures x.0 != g[0].0 {
            var k :| 0 <= k < |g[1..]| && g[1..][k] == x;
            assert x == g[k + 1];
          }
        }
        var h := [g[0]] + rest;
        forall i, j | 0 <= i < j < |h| ensures h[i].0 != h[j].0 {
          assert h[j] == rest[j - 1];
          if i > 0 { assert h[i] == rest[i - 1]; }
          else { assert rest[j - 1] in g[1..]; }
        }
      }
    }
  }

  /**
   What dropping names from a query does: reading the re-encoded query back
   gives exactly the original fields whose names were not dropped, nothing more.
   */
  lemma DropFields(query: string, drop: set<string>, p: (string, string))
    ensures p in QueryFields(Encode(Without(Group(QueryFields(query)), drop)))
        <==> p in QueryFields(query) && p.0 !in drop
  {
    var ps := QueryFields(query);
    var g := Without(Group(ps), drop);
    PairsGood(g, ps, drop);
    EncodeReparse(Pairs(g));
    assert QueryFields(Encode(g)) == Pairs(g);
    WithoutUnique(Group(ps), drop);
    PairsMembership(g, p);
  }

  /** `urlunparse` followed by `urlparse` gives the head, query and fragment back. */
  lemma UnparseParts(head: string, query: string, fragment: string)
    requires '?' !in head && '#' !in head && '#' !in query
    ensures SplitUrl(Unparse(head, query, fragment)).head == head
    ensures QueryOf(Unparse(head, query, fragment)) == query
    ensures FragmentOf(Unparse(head, query, fragment)) == fragment
  {
    var p := UrlParts(head, if query == "" then None else Some(query), if fragment == "" then None else Some(fragment));
    assert Unparse(head, query, fragment) == Assemble(p);
    SplitAssemble(p);
  }

  /** Each character of a field of a query is a character of the query. */
  lemma QueryFieldsChars(query: string, p: (string, string), x: char)
    requires p in QueryFields(query) && (x in p.0 || x in p.1)
    ensures x in query
  {
    var pieces := Split(query, '&');
    FieldsMembers(pieces, p);
    var i :| 0 <= i < |pieces| && Field(pieces[i]) == Some(p);
    assert pieces[i] == p.0 + "=" + p.1;
    JoinContains(pieces, '&', i, x);
  }

  /** The cleaned pairs all come from the original fields. */
  lemma PairsFrom(ps: seq<(string, string)>, drop: set<string>, p: (string, string))
    requires p in Pairs(Without(Group(ps), drop))
    ensures p in ps
  {
    var g := Without(Group(ps), drop);
    WithoutUnique(Group(ps), drop);
    PairsMembership(g, p);
    assert p.1 in ValuesOf(ps, p.0);
  }

  /** The re-encoded query is written with the original query's characters, `&` and `=`. */
  lemma EncodeChars(query: string, drop: set<string>, x: char)
    requires x in Encode(Without(Group(QueryFields(query)), drop))
    ensures x == '&' || x == '=' || x in query
  {
    var ps := QueryFields(query);
    var pairs := Pairs(Without(Group(ps), drop));
    var rs := RenderAll(pairs);
    JoinChars(rs, '&', x);
    if x != '&' {
      var i :| 0 <= i < |rs| && x in rs[i];
      assert rs[i] == pairs[i].0 + "=" + pairs[i].1;
      PairsFrom(ps, drop, pairs[i]);
      if x != '=' {
        QueryFieldsChars(query, pairs[i], x);
      }
    }
  }

  // ---------------------------------------------------------------------
  // Scheme and host name

  /** The characters `urlsplit` removes before it reads a URL: tab, carriage return, line feed. */
  function RemoveUnsafe(s: string): (r: string)
    ensures forall c :: c in r <==> c in s && c != '\t' && c != '\r' && c != '\n'
  {
    if |s| == 0 then ""
    else (if s[0] in "\t\r\n" then "" else [s[0]]) + RemoveUnsafe(s[1..])
  }

  /** `url.lstrip()` of the C0 control characters and space. */
  function LStripControl(s: string): (r: string)
    ensures |r| <= |s| && r == s[|s| - |r|..]
    ensures r == [] || r[0] > ' '
  {
    if |s| > 0 && s[0] <= ' ' then LStripControl(s[1..]) else s
  }

  predicate SchemeChar(c: char) {
    ('a' <= c <= 'z') || ('A' <= c <= 'Z') || ('0' <= c <= '9') || c == '+' || c == '-' || c == '.'
  }

  predicate AllSchemeChars(s: string) {
    forall i :: 0 <= i < |s| ==> SchemeChar(s[i])
  }

  /** `urlsplit`'s scheme test: the text before the first `:` is a scheme when it is non-empty, starts with an ASCII letter and uses scheme characters only. Gives the scheme and the rest. */
  function SchemeSplit(url: string): (r: (string, string))
    ensures r.0 != "" ==> url == r.0 + ":" + r.1 && AllSchemeChars(r.0)
    ensures r.0 == "" ==> r.1 == url
  {
    match SplitOnce(url, ':')
    case None => ("", url)
    case Some(cut) =>
      if cut.0 != "" && (('a' <= cut.0[0] <= 'z') || ('A' <= cut.0[0] <= 'Z')) && AllSchemeChars(cut.0)
      then cut else ("", url)
  }

  /** The first position in `s` holding one of `/`, `?` or `#`, or `|s|`. */
  function NetlocEnd(s: string): (i: nat)
    ensures i <= |s|
    ensures forall k :: 0 <= k < i ==> s[k] != '/' && s[k] != '?' && s[k] != '#'
  {
    if |s| == 0 || s[0] in "/?#" then 0 else 1 + NetlocEnd(s[1..])
  }

  /** The network location: after a leading `//`, up to the next `/`, `?` or `#`. */
  function Netloc(rest: string): string {
    if StartsWith(rest, "//") then rest[2..][..NetlocEnd(rest[2..])] else ""
  }

  /** `hostname` before lower-casing: user information dropped, then a bracketed literal or the text before the port. */
  function Hostname(netloc: string): string {
    var hostinfo := match RSplitOnce(netloc, '@') case Some(cut) => cut.1 case None => netloc;
    match SplitOnce(hostinfo, '[')
    case Some(cut) =>
      (match SplitOnce(cut.1, ']') case Some(inner) => inner.0 case None => cut.1)
    case None =>
      (match SplitOnce(hostinfo, ':') case Some(hp) => hp.0 case None => hostinfo)
  }

  /** The text `urlsplit` reads: leading C0 controls and spaces stripped, then every tab, CR and LF removed. */
  function Prepared(url: string): (r: string)
    ensures forall c :: c in r ==> c in url && c != '\t' && c != '\r' && c != '\n'
  {
    var s := LStripControl(url);
    assert forall c :: c in s ==> c in url;
    RemoveUnsafe(s)
  }

  /**
   What the request handler's test makes of a playlist URL: it passes, it
   fails (answered with a 400), or `urlparse` raises `ValueError` (answered
   with a 500).
   */
  datatype Verdict = Accepted | Rejected | Raises

  /** `urlsplit` raises `ValueError("Invalid IPv6 URL")` for a network location with one square bracket but not the other. */
  predicate Unbalanced(netloc: string) {
    ('[' in netloc) != (']' in netloc)
  }

  /** `parsed = urlparse(url)` followed by the test `not parsed.scheme or not parsed.hostname`. */
  function CheckUrl(url: string): Verdict {
    var (scheme, rest) := SchemeSplit(Prepared(url));
    var netloc := Netloc(rest);
    if Unbalanced(netloc) then Raises
    else if scheme != "" && Hostname(netloc) != "" then Accepted
    else Rejected
  }

  /** Without a `:` there is no scheme, so no such URL is accepted; without brackets it is rejected rather than raising. */
  lemma NoColonNoScheme(url: string)
    requires ':' !in url
    ensures CheckUrl(url) != Accepted
    ensures '[' !in url && ']' !in url ==> CheckUrl(url) == Rejected
  {
    var clean := Prepared(url);
    assert ':' !in clean;
    assert SchemeSplit(clean) == ("", clean);
    var netloc := Netloc(clean);
    assert forall c :: c in netloc ==> c in clean by {
      if StartsWith(clean, "//") {
        var n := NetlocEnd(clean[2..]);
        forall c | c in netloc ensures c in clean {
          var k :| 0 <= k < |netloc| && netloc[k] == c;
          assert c == clean[2 + k];
        }
      }
    }
  }

  /** The parts `urlsplit` finds in `scheme://host/path...` when nothing in it is stripped or removed. */
  lemma AbsoluteParts(scheme: string, host: string, path: string)
    requires scheme != "" && (('a' <= scheme[0] <= 'z') || ('A' <= scheme[0] <= 'Z')) && AllSchemeChars(scheme)
    requires forall i :: 0 <= i < |host| ==> host[i] > ' ' && host[i] !in "/?#"
    requires path == "" || path[0] == '/'
    requires forall i :: 0 <= i < |path| ==> path[i] !in "\t\r\n"
    ensures SchemeSplit(Prepared(scheme + "://" + host + path)) == (scheme, "//" + host + path)
    ensures Netloc("//" + host + path) == host
  {
    var rest := "//" + host + path;
    var url := scheme + ":" + rest;
    assert url == scheme + "://" + host + path;
    assert LStripControl(url) == url by { assert url[0] == scheme[0]; }
    assert RemoveUnsafe(url) == url by {
      assert forall i :: 0 <= i < |url| ==> url[i] !in "\t\r\n" by {
        forall i | 0 <= i < |url| ensures url[i] !in "\t\r\n" {
          if i < |scheme| { assert url[i] == scheme[i]; }
          else if i < |scheme| + 3 { }
          else if i < |scheme| + 3 + |host| { assert url[i] == host[i - |scheme| - 3]; }
          else { assert url[i] == path[i - |scheme| - 3 - |host|]; }
        }
      }
      RemoveUnsafeKeeps(url);
    }
    SchemeSplitOf(scheme, rest);
    NetlocOf(host, path);
  }

  /** An absolute URL `scheme://host/path...` with a plain ASCII host is accepted. */
  lemma AbsoluteUrlAccepted(scheme: string, host: string, path: string)
    requires scheme != "" && (('a' <= scheme[0] <= 'z') || ('A' <= scheme[0] <= 'Z')) && AllSchemeChars(scheme)
    requires host != "" && forall i :: 0 <= i < |host| ==> ' ' < host[i] && host[i] as int < 0x7f && host[i] !in "/?#@[]:"
    requires path == "" || path[0] == '/'
    requires forall i :: 0 <= i < |path| ==> path[i] !in "\t\r\n"
    ensures CheckUrl(scheme + "://" + host + path) == Accepted
  {
    AbsoluteParts(scheme, host, path);
    HostnameOf(host);
    assert '[' !in host && ']' !in host;
  }

  /** An absolute URL whose network location holds `[` without `]`, or `]` without `[`, makes `urlparse` raise. */
  lemma BracketRaises(scheme: string, host: string, path: string)
    requires scheme != "" && (('a' <= scheme[0] <= 'z') || ('A' <= scheme[0] <= 'Z')) && AllSchemeChars(scheme)
    requires forall i :: 0 <= i < |host| ==> host[i] > ' ' && host[i] !in "/?#"
    requires Unbalanced(host)
    requires path == "" || path[0] == '/'
    requires forall i :: 0 <= i < |path| ==> path[i] !in "\t\r\n"
    ensures CheckUrl(scheme + "://" + host + path) == Raises
  {
    AbsoluteParts(scheme, host, path);
  }

  lemma SchemeSplitOf(scheme: string, rest: string)
    requires scheme != "" && (('a' <= scheme[0] <= 'z') || ('A' <= scheme[0] <= 'Z')) && AllSchemeChars(scheme)
    ensures SchemeSplit(scheme + ":" + rest) == (scheme, rest)
  {
    assert ':' !in scheme by {
      forall i | 0 <= i < |scheme| ensures scheme[i] != ':' { assert SchemeChar(scheme[i]); }
    }
    SplitOnceOf(scheme, rest, ':');
  }

  lemma NetlocOf(host: string, path: string)
    requires forall i :: 0 <= i < |host| ==> host[i] !in "/?#"
    requires path == "" || path[0] == '/'
    ensures Netloc("//" + host + path) == host
  {
    var rest := "//" + host + path;
    assert StartsWith(rest, "//");
    assert rest[2..] == host + path;
    NetlocEndAt(host, path);
  }

  lemma HostnameOf(host: string)
    requires forall i :: 0 <= i < |host| ==> host[i] !in "@[:"
    ensures Hostname(host) == host
  {
    assert '@' !in host && '[' !in host && ':' !in host;
  }

  lemma {:induction false} NetlocEndAt(host: string, path: string)
    requires forall i :: 0 <= i < |host| ==> host[i] !in "/?#"
    requires path == "" || path[0] == '/'
    ensures NetlocEnd(host + path) == |host|
    decreases |host|
  {
    if |host| == 0 {
      assert host + path == path;
    } else {
      assert (host + path)[1..] == host[1..] + path;
      NetlocEndAt(host[1..], path);
    }
  }

  lemma {:induction false} RemoveUnsafeKeeps(s: string)
    requires forall i :: 0 <= i < |s| ==> s[i] !in "\t\r\n"
    ensures RemoveUnsafe(s) == s
    decreases |s|
  {
    if |s| > 0 {
      RemoveUnsafeKeeps(s[1..]);
      assert s == [s[0]] + s[1..];
    }
  }

  // ---------------------------------------------------------------------
  // Reassembling a URL head

  /** ASCII capitals lower-cased, which is all `str.lower` does to a scheme. */
  function LowerAscii(s: string): (r: string)
    ensures |r| == |s|
  {
    seq(|s|, i requires 0 <= i < |s| => if 'A' <= s[i] <= 'Z' then (s[i] as int + 32) as char else s[i])
  }

  /** `uses_params`: the schemes whose last path segment `urlparse` cuts at `;`. */
  const ParamSchemes: seq<string> := ["", "ftp", "hdl", "prospero", "http", "imap", "https", "shttp",
    "rtsp", "rtsps", "rtspu", "sip", "sips", "mms", "sftp", "tel"]

  /** `uses_netloc`: the schemes `urlunsplit` writes with `//` when the network location is empty. */
  const NetlocSchemes: seq<string> := ["", "ftp", "http", "gopher", "nntp", "telnet", "imap", "wais", "file",
    "mms", "https", "shttp", "snews", "prospero", "rtsp", "rtsps", "rtspu", "rsync", "svn", "svn+ssh",
    "sftp", "nfs", "git", "git+ssh", "ws", "wss", "itms-services"]

  /** `s in names` for one of those lists, looked up name by name. */
  function Listed(s: string, names: seq<string>): bool {
    if |names| == 0 then false
    else if names[0] == s then true
    else Listed(s, names[1..])
  }

  /** The last segment of a path: what follows its last `/`, or the whole path. */
  function LastSegment(path: string): (seg: string)
    ensures |seg| <= |path| && seg == path[|path| - |seg|..]
  {
    match RSplitOnce(path, '/')
    case Some(cut) => assert path == cut.0 + ['/'] + cut.1; cut.1
    case None => path
  }

  /** `_splitparams` finds an empty parameter part: the first `;` of the last segment is its last character. */
  predicate EmptyParams(path: string) {
    var seg := LastSegment(path);
    |seg| > 0 && seg[|seg| - 1] == ';' && ';' !in seg[..|seg| - 1]
  }

  /** `urlparse`'s cut at that `;`, then `urlunparse`'s rejoin, which writes the `;` only before non-empty parameters. */
  function RejoinParams(path: string): (r: string)
    ensures |r| <= |path| && r == path[..|r|]
  {
    if EmptyParams(path) then path[..|path| - 1] else path
  }

  /** Where the network location ends in the text after the scheme: past the `//` and the location, or 0 without `//`. */
  function AuthorityEnd(rest: string): (n: nat)
    ensures n <= |rest| && (n == 0 || 2 <= n)
  {
    if StartsWith(rest, "//") then 2 + NetlocEnd(rest[2..]) else 0
  }

  /** A URL head as `urlsplit` cuts it: the scheme, the network location (`None` without `//`), and the path. */
  datatype Head = Head(scheme: string, netloc: Option<string>, path: string)

  function CutHead(head: string): (h: Head)
    ensures SchemeSplit(head).0 == h.scheme
    ensures forall c :: (c in h.path || (h.netloc.Some? && c in h.netloc.value)) ==> c in head
  {
    var (scheme, rest) := SchemeSplit(head);
    var n := AuthorityEnd(rest);
    assert forall c :: c in rest ==> c in head;
    assert forall c :: c in rest[n..] ==> c in rest;
    assert n != 0 ==> forall c :: c in rest[2..n] ==> c in rest;
    Head(scheme, if n == 0 then None else Some(rest[2..n]), rest[n..])
  }

  /**
   `urlunsplit`'s `//`: before a non-empty network location; with an empty
   one, only before a path that starts with `//`, or, for the schemes of
   `uses_netloc`, before a path that is empty or starts with `/`.
   */
  function Authority(netlocScheme: bool, netloc: Option<string>, path: string): (r: string)
    ensures r == "" || r == "//" || (netloc.Some? && r == "//" + netloc.value)
  {
    if netloc.Some? && netloc.value != "" then "//" + netloc.value
    else if StartsWith(path, "//") then "//"
    else if netlocScheme && (path == "" || path[0] == '/') then "//"
    else ""
  }

  /**
   `urlunparse` of the cut, with the scheme already lower-cased to `lower`:
   the scheme, the authority, and the path with the parameters rejoined when
   the scheme takes parameters.
   */
  function Rebuild(h: Head, lower: string, paramScheme: bool, netlocScheme: bool): string {
    (if h.scheme != "" then lower + ":" else "") + RebuiltTail(h, paramScheme, netlocScheme)
  }

  /** What follows the scheme in the rebuilt head. */
  function RebuiltTail(h: Head, paramScheme: bool, netlocScheme: bool): string {
    var path := if paramScheme then RejoinParams(h.path) else h.path;
    Authority(netlocScheme, h.netloc, path) + path
  }

  /**
   `urlunparse(urlparse(url))` on the head of a URL (the part before its query
   and fragment, where both find the same scheme). The scheme comes back
   lower-cased, a `;` that opens an empty parameter part is lost, and an empty
   network location keeps its `//` only as `Authority` says.
   */
  function Reparsed(head: string): string {
    var h := CutHead(head);
    var lower := LowerAscii(h.scheme);
    Rebuild(h, lower, Listed(lower, ParamSchemes), h.scheme != "" && Listed(lower, NetlocSchemes))
  }

  /** Lower-casing adds no character but lower-case letters. */
  lemma LowerChars(s: string)
    ensures forall c :: c in LowerAscii(s) ==> c in s || 'a' <= c <= 'z'
  {
    var l := LowerAscii(s);
    forall c | c in l ensures c in s || 'a' <= c <= 'z' {
      var i :| 0 <= i < |l| && l[i] == c;
      assert s[i] in s;
    }
  }

  /** Reassembling adds no character but `:`, `/` and lower-case letters. */
  lemma ReparsedChars(head: string)
    ensures forall c :: c in Reparsed(head) ==> c in head || c == ':' || c == '/' || 'a' <= c <= 'z'
  {
    var h := CutHead(head);
    var lower := LowerAscii(h.scheme);
    LowerChars(h.scheme);
    SchemeChars(head);
    var pf := Listed(lower, ParamSchemes);
    var nf := h.scheme != "" && Listed(lower, NetlocSchemes);
    TailChars(h, pf, nf);
    assert Reparsed(head) == Rebuild(h, lower, pf, nf);
  }

  /** The scheme is a prefix of the head. */
  lemma SchemeChars(head: string)
    ensures forall c :: c in SchemeSplit(head).0 ==> c in head
  {
    var (scheme, rest) := SchemeSplit(head);
    if scheme != "" { assert head == scheme + ":" + rest; }
  }

  /** The tail adds no character but `/` to those of the cut's path and network location. */
  lemma TailChars(h: Head, paramScheme: bool, netlocScheme: bool)
    ensures forall c :: c in RebuiltTail(h, paramScheme, netlocScheme) ==>
      c == '/' || c in h.path || (h.netloc.Some? && c in h.netloc.value)
  {
    var path := if paramScheme then RejoinParams(h.path) else h.path;
    assert forall c :: c in path ==> c in h.path;
    var a := Authority(netlocScheme, h.netloc, path);
    assert forall c :: c in a ==> c == '/' || (h.netloc.Some? && c in h.netloc.value);
  }

  /** A head without `?` and `#` keeps none after reassembly, so it stays the head of the rebuilt URL. */
  lemma ReparsedPlain(head: string)
    requires '?' !in head && '#' !in head
    ensures '?' !in Reparsed(head) && '#' !in Reparsed(head)
  {
    ReparsedChars(head);
  }

  /** Lower-casing keeps a scheme a scheme. */
  lemma LowerScheme(scheme: string)
    requires scheme != "" && (('a' <= scheme[0] <= 'z') || ('A' <= scheme[0] <= 'Z')) && AllSchemeChars(scheme)
    ensures var l := LowerAscii(scheme);
      l != "" && 'a' <= l[0] <= 'z' && AllSchemeChars(l)
  {
    var l := LowerAscii(scheme);
    forall i | 0 <= i < |l| ensures SchemeChar(l[i]) {
      assert SchemeChar(scheme[i]);
    }
  }

  /** The rebuilt head has the lower-cased scheme of the head. */
  lemma ReparsedScheme(head: string)
    requires SchemeSplit(head).0 != ""
    ensures SchemeSplit(Reparsed(head)).0 == LowerAscii(SchemeSplit(head).0)
  {
    var h := CutHead(head);
    var lower := LowerAscii(h.scheme);
    LowerScheme(h.scheme);
    var pf := Listed(lower, ParamSchemes);
    var nf := Listed(lower, NetlocSchemes);
    assert Reparsed(head) == lower + ":" + RebuiltTail(h, pf, nf);
    SchemeSplitOf(lower, RebuiltTail(h, pf, nf));
  }

  /** The cut of `scheme://host/path`. */
  lemma CutAbsolute(scheme: string, host: string, path: string)
    requires scheme != "" && (('a' <= scheme[0] <= 'z') || ('A' <= scheme[0] <= 'Z')) && AllSchemeChars(scheme)
    requires forall i :: 0 <= i < |host| ==> host[i] !in "/?#"
    requires path == "" || path[0] == '/'
    ensures CutHead(scheme + "://" + host + path) == Head(scheme, Some(host), path)
  {
    var rest := "//" + host + path;
    assert scheme + ":" + rest == scheme + "://" + host + path;
    SchemeSplitOf(scheme, rest);
    AuthorityOf(host, path);
  }

  /** The network location of `//host/path` is `host`, and the path follows it. */
  lemma AuthorityOf(host: string, path: string)
    requires forall i :: 0 <= i < |host| ==> host[i] !in "/?#"
    requires path == "" || path[0] == '/'
    ensures var rest := "//" + host + path;
      AuthorityEnd(rest) == 2 + |host| && rest[2..2 + |host|] == host && rest[2 + |host|..] == path
  {
    var rest := "//" + host + path;
    assert rest[2..] == host + path;
    NetlocEndAt(host, path);
    assert rest[2..2 + |host|] == host;
  }

  /** The rebuild of a cut with a scheme and a non-empty network location. */
  lemma RebuildAbsolute(h: Head, lower: string, paramScheme: bool, netlocScheme: bool)
    requires h.scheme != "" && h.netloc.Some? && h.netloc.value != ""
    ensures Rebuild(h, lower, paramScheme, netlocScheme)
      == lower + "://" + h.netloc.value + (if paramScheme then RejoinParams(h.path) else h.path)
  {
    var path := if paramScheme then RejoinParams(h.path) else h.path;
    assert RebuiltTail(h, paramScheme, netlocScheme) == ("//" + h.netloc.value) + path;
    SchemeAuthority(lower, h.netloc.value, path);
  }

  lemma SchemeAuthority(lower: string, netloc: string, path: string)
    ensures (lower + ":") + ("//" + netloc) + path == lower + "://" + netloc + path
  {
  }

  /** `scheme://host/path` is rebuilt from its lower-cased scheme, its host and its path with the parameters rejoined. */
  lemma ReparsedAbsolute(scheme: string, host: string, path: string)
    requires scheme != "" && (('a' <= scheme[0] <= 'z') || ('A' <= scheme[0] <= 'Z')) && AllSchemeChars(scheme)
    requires host != "" && forall i :: 0 <= i < |host| ==> host[i] !in "/?#"
    requires path == "" || path[0] == '/'
    ensures var lower := LowerAscii(scheme);
      Reparsed(scheme + "://" + host + path)
      == lower + "://" + host + (if Listed(lower, ParamSchemes) then RejoinParams(path) else path)
  {
    CutAbsolute(scheme, host, path);
    var lower := LowerAscii(scheme);
    RebuildAbsolute(Head(scheme, Some(host), path), lower, Listed(lower, ParamSchemes), Listed(lower, NetlocSchemes));
  }

  /**
   A head `scheme://host/path` whose scheme is already lower case and whose
   path has no empty parameter part comes back as it was.
   */
  lemma ReparsedKeeps(scheme: string, host: string, path: string)
    requires scheme != "" && 'a' <= scheme[0] <= 'z' && AllSchemeChars(scheme)
    requires forall i :: 0 <= i < |scheme| ==> !('A' <= scheme[i] <= 'Z')
    requires host != "" && forall i :: 0 <= i < |host| ==> host[i] !in "/?#"
    requires path == "" || path[0] == '/'
    requires !EmptyParams(path)
    ensures Reparsed(scheme + "://" + host + path) == scheme + "://" + host + path
  {
    ReparsedAbsolute(scheme, host, path);
    LowerKeeps(scheme);
  }

  /** A scheme without capitals is its own lower case. */
  lemma LowerKeeps(s: string)
    requires forall i :: 0 <= i < |s| ==> !('A' <= s[i] <= 'Z')
    ensures LowerAscii(s) == s
  {
  }

  /**
   An empty parameter part ends the path, and rejoining drops its `;`: with
   `ReparsedAbsolute`, `http://h/a.mpd;` comes back as `http://h/a.mpd`.
   */
  lemma EmptyParamsEnd(path: string)
    requires EmptyParams(path)
    ensures |path| > 0 && path[|path| - 1] == ';' && RejoinParams(path) == path[..|path| - 1]
  {
    var seg := LastSegment(path);
    assert path[|path| - 1] == seg[|seg| - 1];
  }

  /** `http` takes parameters. */
  lemma HttpTakesParams()
    ensures Listed("http", ParamSchemes)
  {
    var names := ParamSchemes;
    assert names[1..][1..][1..][1..][0] == "http";
  }
}
