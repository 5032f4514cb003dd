/**
 The directive header tracker of `rewrite_m3u_links_streaming`: how the
 pending headers change on an `#EXTVLCOPT:` or `#EXTHTTP:` line. The decoder
 behind `json.loads` is a parameter; this module decides what its result does.
 */
module Directives {
  import opened Wrappers
  import opened Text
  import opened Dicts

  /** The pending headers: header name to value, in insertion order. */
  type Headers = Dict<string>

  /**
   What `json.loads` returns, as far as the tracker looks at it: a string,
   an object given by its members in source order (duplicates allowed), or
   any other JSON value.
   */
  datatype Json = JString(s: string) | JObject(members: seq<(string, Json)>) | JOther

  /** `json.loads`: `None` stands for a decoding error. */
  type JsonLoads = string -> Option<Json>

  const VlcPrefix: string := "#EXTVLCOPT:"
  const HttpPrefix: string := "#EXTHTTP:"

  predicate AllStrings(d: Dict<Json>) {
    forall i :: 0 <= i < |d| ==> d[i].1.JString?
  }

  function StringValues(d: Dict<Json>): (h: Headers)
    requires AllStrings(d)
    ensures |h| == |d|
    ensures forall i :: 0 <= i < |d| ==> h[i] == (d[i].0, d[i].1.s)
  {
    if |d| == 0 then [] else [(d[0].0, d[0].1.s)] + StringValues(d[1..])
  }

  /**
   The check `isinstance(parsed, dict) and all(isinstance(v, str) ...)`:
   an object whose values, once duplicate names are resolved as `dict`
   resolves them, are all strings; its headers in first-appearance order.
   */
  function FlatObject(j: Json): (r: Option<Headers>)
    ensures r.Some? ==> j.JObject? && UniqueKeys(r.value)
    ensures !j.JObject? ==> r.None?
  {
    match j
    case JObject(ms) =>
      var d := FromPairs(ms);
      if AllStrings(d) then
        var h := StringValues(d);
        assert forall i, k :: 0 <= i < k < |h| ==> h[i].0 == d[i].0 && h[k].0 == d[k].0;
        Some(h)
      else None
    case _ => None
  }

  /** Member `k` is the last of the object's members with its name: the one whose value `dict` keeps. */
  predicate LastOfName(ms: seq<(string, Json)>, k: nat)
    requires k < |ms|
  {
    forall m :: k < m < |ms| ==> ms[m].0 != ms[k].0
  }

  /** The position of the last member named `name`, or -1 when there is none. */
  function LastNamed(ms: seq<(string, Json)>, name: string): (k: int)
    ensures -1 <= k < |ms|
    ensures k >= 0 ==> ms[k].0 == name && LastOfName(ms, k)
    ensures k < 0 ==> forall m :: 0 <= m < |ms| ==> ms[m].0 != name
  {
    if |ms| == 0 then -1
    else if ms[|ms| - 1].0 == name then |ms| - 1
    else LastNamed(ms[..|ms| - 1], name)
  }

  /** Each entry of `dict(members)` holds the value of the last member with its name. */
  lemma EntryOfLast(ms: seq<(string, Json)>, j: nat)
    requires j < |FromPairs(ms)|
    ensures var k := LastNamed(ms, FromPairs(ms)[j].0);
      0 <= k && FromPairs(ms)[j].1 == ms[k].1
  {
    var d := FromPairs(ms);
    var name := d[j].0;
    FromPairsKeys(ms, name);
    var k := LastNamed(ms, name);
    FromPairsLastWins(ms, k);
    assert IndexOf(d, name) == j;
  }

  /**
   An object whose members that are last with their names all hold strings
   is flat: each name maps to the value of its last member. Earlier members
   with the same name may hold anything, since `dict` overwrites them.
   */
  lemma FlatObjectOfStrings(ms: seq<(string, Json)>, i: nat)
    requires forall k :: 0 <= k < |ms| && LastOfName(ms, k) ==> ms[k].1.JString?
    requires i < |ms| && LastOfName(ms, i)
    ensures FlatObject(JObject(ms)).Some?
    ensures Get(FlatObject(JObject(ms)).value, ms[i].0) == Some(ms[i].1.s)
  {
    var d := FromPairs(ms);
    assert AllStrings(d) by {
      forall j | 0 <= j < |d| ensures d[j].1.JString? {
        EntryOfLast(ms, j);
      }
    }
    FromPairsLastWins(ms, i);
    var h := StringValues(d);
    IndexOfSameKeysHeaders(d, h, ms[i].0);
  }

  /** An object is refused when the member that is last with its name holds something other than a string. */
  lemma FlatObjectRefuses(ms: seq<(string, Json)>, i: nat)
    requires i < |ms| && LastOfName(ms, i) && !ms[i].1.JString?
    ensures FlatObject(JObject(ms)).None?
  {
    var d := FromPairs(ms);
    FromPairsLastWins(ms, i);
    var j := IndexOf(d, ms[i].0);
    assert !d[j].1.JString?;
  }

  /** The check passes an object exactly when every member that is last with its name holds a string. */
  lemma FlatObjectExactly(ms: seq<(string, Json)>)
    ensures FlatObject(JObject(ms)).Some? <==> forall k :: 0 <= k < |ms| && LastOfName(ms, k) ==> ms[k].1.JString?
  {
    if forall k :: 0 <= k < |ms| && LastOfName(ms, k) ==> ms[k].1.JString? {
      var d := FromPairs(ms);
      forall j | 0 <= j < |d| ensures d[j].1.JString? {
        EntryOfLast(ms, j);
      }
    } else {
      var k :| 0 <= k < |ms| && LastOfName(ms, k) && !ms[k].1.JString?;
      FlatObjectRefuses(ms, k);
    }
  }

  lemma IndexOfSameKeysHeaders(d: Dict<Json>, h: Headers, k: string)
    requires |d| == |h| && forall i :: 0 <= i < |d| ==> h[i].0 == d[i].0
    ensures IndexOf(d, k) == IndexOf(h, k)
  {
    var i, j := IndexOf(d, k), IndexOf(h, k);
    if i >= 0 && j >= 0 {
      assert !(i < j) && !(j < i);
    }
  }

  /**
   The pending headers after the `#EXTHTTP:` line `logical`: the decoded
   flat object REPLACES them; a decoding error or any other value resets
   them to empty. The old pending headers play no part.
   */
  function HttpUpdate(logical: string, loads: JsonLoads): (h: Headers)
    ensures UniqueKeys(h)
  {
    match SplitOnce(logical, ':')
    case None => []
    case Some(cut) =>
      match loads(Strip(cut.1))
      case None => []
      case Some(j) =>
        match FlatObject(j)
        case None => []
        case Some(m) => m
  }

  /**
   The pending headers after the `#EXTVLCOPT:` line `logical`: its option
   is what follows the first `:`.
   */
  function VlcUpdate(logical: string, h: Headers): (r: Headers)
    ensures UniqueKeys(h) ==> UniqueKeys(r)
  {
    match SplitOnce(logical, ':')
    case None => h
    case Some(cut) => VlcOption(cut.1, h)
  }

  /** The option `key=value`, cut at the first `=`, both sides stripped; without `=` nothing changes. */
  function VlcOption(option: string, h: Headers): (r: Headers)
    ensures UniqueKeys(h) ==> UniqueKeys(r)
  {
    match SplitOnce(option, '=')
    case None => h
    case Some(kv) => VlcAssign(Strip(kv.0), Strip(kv.1), h)
  }

  /**
   `http-header` with a `:` in the value upserts the stripped name before
   the first `:` with the stripped rest; any other key starting `http-`
   upserts the key without that prefix with the value; any other key
   changes nothing.
   */
  function VlcAssign(key: string, value: string, h: Headers): (r: Headers)
    ensures UniqueKeys(h) ==> UniqueKeys(r)
  {
    if key == "http-header" && ':' in value then
      var header := SplitOnce(value, ':').value;
      Put(h, Strip(header.0), Strip(header.1))
    else if StartsWith(key, "http-") then
      Put(h, key[5..], value)
    else h
  }

  /**
   The line `#EXTVLCOPT:key=value`, with no `=` in `key`, assigns the
   stripped key and the stripped value.
   */
  lemma VlcLine(key: string, value: string, h: Headers)
    requires '=' !in key
    ensures VlcUpdate(VlcPrefix + key + "=" + value, h) == VlcAssign(Strip(key), Strip(value), h)
  {
    var option := key + "=" + value;
    assert VlcPrefix + key + "=" + value == VlcPrefix + option;
    VlcPayload(option, h);
    assert option == key + ['='] + value;
    SplitOnceOf(key, value, '=');
  }

  /** The option of an `#EXTVLCOPT:` line is everything after the prefix. */
  lemma VlcPayload(option: string, h: Headers)
    ensures VlcUpdate(VlcPrefix + option, h) == VlcOption(option, h)
  {
    assert VlcPrefix + option == "#EXTVLCOPT" + [':'] + option;
    SplitOnceOf("#EXTVLCOPT", option, ':');
  }

  /** A line `#EXTVLCOPT:` without `=` in its option leaves the pending headers alone. */
  lemma VlcWithoutEquals(option: string, h: Headers)
    requires '=' !in option
    ensures VlcUpdate(VlcPrefix + option, h) == h
  {
    VlcPayload(option, h);
  }

  /**
   `http-header` with the value `name: rest` upserts the stripped `name`
   (the text before the FIRST `:`) with the stripped rest, which may hold
   further colons.
   */
  lemma VlcHttpHeader(name: string, rest: string, h: Headers)
    requires ':' !in name
    ensures VlcAssign("http-header", name + [':'] + rest, h) == Put(h, Strip(name), Strip(rest))
  {
    SplitOnceOf(name, rest, ':');
  }

  /** Any other `http-NAME` option upserts `NAME` with the value as it stands. */
  lemma VlcHttpOption(name: string, value: string, h: Headers)
    requires name != "header" || ':' !in value
    ensures VlcAssign("http-" + name, value, h) == Put(h, name, value)
  {
    var key := "http-" + name;
    assert key[..5] == "http-" && key[5..] == name;
    assert ("http-header")[5..] == "header";
  }

  /** `http-header` with a value without `:` falls through to the `http-` rule and sets `header`. */
  lemma VlcHttpHeaderWithoutColon(value: string, h: Headers)
    requires ':' !in value
    ensures VlcAssign("http-header", value, h) == Put(h, "header", value)
  {
    VlcHttpOption("header", value, h);
    assert "http-" + "header" == "http-header";
  }

  /** An option whose key does not start with `http-` changes nothing. */
  lemma VlcIgnored(key: string, value: string, h: Headers)
    requires !StartsWith(key, "http-")
    ensures VlcAssign(key, value, h) == h
  {
    assert StartsWith("http-header", "http-");
  }

  lemma HttpPayload(payload: string)
    ensures SplitOnce(HttpPrefix + payload, ':') == Some(("#EXTHTTP", payload))
  {
    assert HttpPrefix + payload == "#EXTHTTP" + [':'] + payload;
    SplitOnceOf("#EXTHTTP", payload, ':');
  }

  /** The two prefixes differ at their fifth character, so a line starts with at most one of them. */
  lemma PrefixesExclusive(s: string)
    requires StartsWith(s, HttpPrefix)
    ensures !StartsWith(s, VlcPrefix)
  {
    assert s[..9] == HttpPrefix;
    assert s[4] == HttpPrefix[4] == 'H';
    assert VlcPrefix[4] == 'V';
    assert |s| >= |VlcPrefix| ==> s[..|VlcPrefix|][4] == s[4];
  }

  /** A valid flat object replaces the pending headers, whatever they were. */
  lemma HttpReplaces(payload: string, loads: JsonLoads, m: Headers)
    requires loads(Strip(payload)).Some? && FlatObject(loads(Strip(payload)).value) == Some(m)
    ensures HttpUpdate(HttpPrefix + payload, loads) == m
  {
    HttpPayload(payload);
  }

  /** A decoding error, or a value that is not a flat string object, resets the pending headers. */
  lemma HttpResets(payload: string, loads: JsonLoads)
    requires loads(Strip(payload)).None? || FlatObject(loads(Strip(payload)).value).None?
    ensures HttpUpdate(HttpPrefix + payload, loads) == []
  {
    HttpPayload(payload);
  }
}
