/**
 The URL cleaner of `clean_links_bot.py`: host classification by exact
 membership of the lower-cased network location in two fixed sets, and the
 per-service query rewriting behind `clean_url`.
 */
module Cleaner {
  import opened Wrappers
  import opened Sequences
  import opened Urls

  const YouTubeHosts: set<string> := {"youtube.com", "www.youtube.com", "m.youtube.com", "youtu.be"}

  const TwitterHosts: set<string> :=
    {"twitter.com", "www.twitter.com", "mobile.twitter.com", "x.com", "www.x.com"}

  /** Query keys that affect playback on regular YouTube links. */
  const YouTubeAllowedParams: set<string> := {"v", "t", "time_continue", "list", "index"}

  /** The short-link host, compared WITHOUT lower-casing. */
  const ShortLinkHost: string := "youtu.be"

  /** The only key a short link keeps. */
  const ShortLinkParams: set<string> := {"t"}

  datatype Service = YouTube | Twitter | Unknown

  /** `str.lower` restricted to ASCII letters. */
  function LowerChar(c: char): char
  {
    if 'A' <= c <= 'Z' then (c as int + 32) as char else c
  }

  function Lower(s: string): string
  {
    seq(|s|, i requires 0 <= i < |s| => LowerChar(s[i]))
  }

  predicate NoColon(s: string)
  {
    forall i :: 0 <= i < |s| ==> s[i] != ':'
  }

  /** Lower-casing never introduces or removes a ':' (a port separator). */
  lemma LowerKeepsColons(s: string)
    ensures NoColon(s) <==> NoColon(Lower(s))
  {
    forall i | 0 <= i < |s|
      ensures Lower(s)[i] == ':' <==> s[i] == ':'
    {
    }
  }

  lemma KnownHostsHaveNoPort()
    ensures forall h :: h in YouTubeHosts ==> NoColon(h)
    ensures forall h :: h in TwitterHosts ==> NoColon(h)
  {
  }

  /**
   Which service a network location belongs to. The test is exact: no
   subdomain or port is matched beyond the enumerated hosts.
   */
  function Classify(netloc: string): (r: Service)
    ensures r == YouTube <==> Lower(netloc) in YouTubeHosts
    ensures r == Twitter <==> Lower(netloc) in TwitterHosts
    ensures !NoColon(netloc) ==> r == Unknown
  {
    LowerKeepsColons(netloc);
    KnownHostsHaveNoPort();
    var host := Lower(netloc);
    if host in YouTubeHosts then YouTube
    else if host in TwitterHosts then Twitter
    else Unknown
  }

  lemma LowerIdempotent(s: string)
    ensures Lower(Lower(s)) == Lower(s)
  {
  }

  /** Classification ignores letter case. */
  lemma ClassifyIgnoresCase(netloc: string)
    ensures Classify(Lower(netloc)) == Classify(netloc)
  {
    LowerIdempotent(netloc);
  }

  /**
   The order-preserving subsequence of `q` whose keys are in `keys`:
   every kept pair has an allowed key, every pair with an allowed key is
   kept as often as it occurs, and nothing is reordered.
   */
  function KeepKeys(q: Query, keys: set<string>): (r: Query)
    ensures forall i :: 0 <= i < |r| ==> r[i].0 in keys
    ensures (forall i :: 0 <= i < |q| ==> q[i].0 !in keys) ==> r == []
  {
    if q == [] then []
    else
      if q[0].0 in keys then [q[0]] + KeepKeys(q[1..], keys)
      else KeepKeys(q[1..], keys)
  }

  /** Every pair with an allowed key is kept as often as it occurs in `q`; no other pair is kept. */
  lemma {:induction false} KeepKeysCounts(q: Query, keys: set<string>)
    ensures forall p :: multiset(KeepKeys(q, keys))[p] == if p.0 in keys then multiset(q)[p] else 0
  {
    if q != [] {
      KeepKeysCounts(q[1..], keys);
      assert q == [q[0]] + q[1..];
    }
  }

  /** The filter keeps the relative order of the pairs it keeps. */
  lemma {:induction false} KeepKeysIsSubsequence(q: Query, keys: set<string>)
    ensures IsSubsequence(KeepKeys(q, keys), q)
  {
    if q != [] {
      KeepKeysIsSubsequence(q[1..], keys);
      if q[0].0 in keys {
        var r := [q[0]] + KeepKeys(q[1..], keys);
        assert r[0] == q[0] && r[1..] == KeepKeys(q[1..], keys);
      }
    }
  }

  lemma {:induction false} KeepKeysIdempotent(q: Query, keys: set<string>)
    ensures KeepKeys(KeepKeys(q, keys), keys) == KeepKeys(q, keys)
  {
    if q != [] {
      KeepKeysIdempotent(q[1..], keys);
      if q[0].0 in keys {
        var r := [q[0]] + KeepKeys(q[1..], keys);
        assert r[0] == q[0] && r[1..] == KeepKeys(q[1..], keys);
      }
    }
  }

  /**
   `clean_youtube` on an already parsed URL: a short link (network location
   exactly "youtu.be", case-sensitive) keeps only "t"; every other YouTube
   host keeps the five playback keys. Nothing but the query changes.
   */
  function CleanYouTube(u: ParseResult): (r: ParseResult)
    ensures SameExceptQuery(r, u)
    ensures u.netloc == ShortLinkHost ==> r.query == KeepKeys(u.query, ShortLinkParams)
    ensures u.netloc != ShortLinkHost ==> r.query == KeepKeys(u.query, YouTubeAllowedParams)
  {
    if u.netloc == ShortLinkHost then u.(query := KeepKeys(u.query, ShortLinkParams))
    else u.(query := KeepKeys(u.query, YouTubeAllowedParams))
  }

  /** `clean_twitter` on an already parsed URL: the query is dropped, nothing else changes. */
  function CleanTwitter(u: ParseResult): (r: ParseResult)
    ensures SameExceptQuery(r, u)
    ensures r.query == []
  {
    u.(query := [])
  }

  /**
   `clean_url`: a string that does not parse, or whose host is not a known
   one, comes back unchanged; otherwise the service's rewrite is applied to
   the parsed form and the result is turned back into a string.
   */
  function CleanUrl(lib: UrlLibrary, url: string): (r: string)
    ensures lib.parse(url).None? ==> r == url
    ensures lib.parse(url).Some? && Classify(lib.parse(url).value.netloc) == Unknown ==> r == url
    ensures lib.parse(url).Some? && Classify(lib.parse(url).value.netloc) == YouTube ==>
              r == lib.unparse(CleanYouTube(lib.parse(url).value))
    ensures lib.parse(url).Some? && Classify(lib.parse(url).value.netloc) == Twitter ==>
              r == lib.unparse(CleanTwitter(lib.parse(url).value))
  {
    match lib.parse(url)
    case None => url
    case Some(parsed) =>
      match Classify(parsed.netloc)
      case YouTube => lib.unparse(CleanYouTube(parsed))
      case Twitter => lib.unparse(CleanTwitter(parsed))
      case Unknown => url
  }

  /** Cleaning a cleaned URL changes nothing, provided the library re-reads its own output faithfully. */
  lemma CleanUrlIdempotent(lib: UrlLibrary, url: string)
    requires ParsesOwnOutput(lib)
    ensures CleanUrl(lib, CleanUrl(lib, url)) == CleanUrl(lib, url)
  {
    match lib.parse(url)
    case None =>
    case Some(parsed) =>
      match Classify(parsed.netloc)
      case Unknown =>
      case YouTube =>
        var v := CleanYouTube(parsed);
        assert lib.parse(lib.unparse(v)) == Some(v);
        KeepKeysIdempotent(parsed.query, ShortLinkParams);
        KeepKeysIdempotent(parsed.query, YouTubeAllowedParams);
        assert CleanYouTube(v) == v;
      case Twitter =>
        var v := CleanTwitter(parsed);
        assert lib.parse(lib.unparse(v)) == Some(v);
        assert CleanTwitter(v) == v;
  }

  /**
   Read back through the library, a cleaned YouTube or Twitter URL has the
   scheme, host, path, parameters and fragment of the original and a query
   that is an order-preserving selection of the original pairs, restricted
   to "t" for a short link, to the playback keys for other YouTube hosts,
   and empty for Twitter/X.
   */
  lemma CleanedUrlReadsBack(lib: UrlLibrary, url: string)
    requires ParsesOwnOutput(lib)
    requires lib.parse(url).Some? && Classify(lib.parse(url).value.netloc) != Unknown
    ensures var p := lib.parse(url).value;
            var c := lib.parse(CleanUrl(lib, url));
            && c.Some?
            && SameExceptQuery(c.value, p)
            && IsSubsequence(c.value.query, p.query)
            && (Classify(p.netloc) == Twitter ==> c.value.query == [])
            && (p.netloc == ShortLinkHost ==> forall i :: 0 <= i < |c.value.query| ==> c.value.query[i].0 == "t")
            && (forall i :: 0 <= i < |c.value.query| ==> c.value.query[i].0 in YouTubeAllowedParams)
  {
    var p := lib.parse(url).value;
    match Classify(p.netloc)
    case YouTube =>
      var v := CleanYouTube(p);
      assert lib.parse(lib.unparse(v)) == Some(v);
      KeepKeysIsSubsequence(p.query, ShortLinkParams);
      KeepKeysIsSubsequence(p.query, YouTubeAllowedParams);
    case Twitter =>
      var v := CleanTwitter(p);
      assert lib.parse(lib.unparse(v)) == Some(v);
  }

  /** A query whose keys are all allowed passes through unchanged. */
  lemma {:induction false} KeepKeysAllAllowed(q: Query, keys: set<string>)
    requires forall i :: 0 <= i < |q| ==> q[i].0 in keys
    ensures KeepKeys(q, keys) == q
  {
    if q != [] {
      assert KeepKeys(q[1..], keys) == q[1..] by {
        assert forall i :: 0 <= i < |q[1..]| ==> q[1..][i] == q[i + 1];
        KeepKeysAllAllowed(q[1..], keys);
      }
      assert KeepKeys(q, keys) == [q[0]] + KeepKeys(q[1..], keys) by {
        assert q[0].0 in keys;
      }
      assert [q[0]] + q[1..] == q;
    }
  }

  /** A short link drops the share token "si". */
  lemma ShortLinkDropsShareToken()
    ensures KeepKeys([("si", "yO4tqv9f73N1pCUp")], ShortLinkParams) == []
  {
    assert "si" != "t" by { assert "si"[1] == 'i'; }
  }

  /** A short link keeps its timestamp and drops a tracking key. */
  lemma ShortLinkKeepsTimestamp()
    ensures KeepKeys([("t", "42"), ("utm_source", "foo")], ShortLinkParams) == [("t", "42")]
  {
    var q := [("t", "42"), ("utm_source", "foo")];
    assert "utm_source" != "t" by { assert "utm_source"[0] == 'u'; }
    assert q[1..] == [("utm_source", "foo")];
    assert KeepKeys(q[1..], ShortLinkParams) == [];
  }

  /** A short link keeps every "t" it carries, not just one. */
  lemma ShortLinkKeepsRepeatedTimestamps()
    ensures KeepKeys([("t", "1"), ("si", "x"), ("t", "2")], ShortLinkParams) == [("t", "1"), ("t", "2")]
  {
    var q := [("t", "1"), ("si", "x"), ("t", "2")];
    assert "si" != "t" by { assert "si"[1] == 'i'; }
    assert q[1..] == [("si", "x"), ("t", "2")] && q[2..] == [("t", "2")];
    assert KeepKeys(q[2..], ShortLinkParams) == [("t", "2")] by {
      assert q[2..][1..] == [];
    }
    assert KeepKeys(q[1..], ShortLinkParams) == KeepKeys(q[2..], ShortLinkParams) by {
      assert q[1..][1..] == q[2..];
    }
  }

  /** A watch link keeps only the video id among tracking keys. */
  lemma WatchLinkDropsTracking()
    ensures KeepKeys([("v", "dQw4w9WgXcQ"), ("si", "ABC123"), ("utm_source", "foo"), ("fbclid", "XYZ")],
                     YouTubeAllowedParams)
            == [("v", "dQw4w9WgXcQ")]
  {
    var q := [("v", "dQw4w9WgXcQ"), ("si", "ABC123"), ("utm_source", "foo"), ("fbclid", "XYZ")];
    assert "si" !in YouTubeAllowedParams by { assert |"si"| == 2 && "si"[0] == 's'; }
    assert "utm_source" !in YouTubeAllowedParams by { assert |"utm_source"| == 10 && "utm_source"[0] == 'u'; }
    assert "fbclid" !in YouTubeAllowedParams by { assert |"fbclid"| == 6 && "fbclid"[0] == 'f'; }
    assert forall i :: 0 <= i < |q[1..]| ==> q[1..][i].0 !in YouTubeAllowedParams;
  }

  /** A watch link keeps its timestamp and playlist position. */
  lemma WatchLinkKeepsPlayback()
    ensures var q := [("v", "dQw4w9WgXcQ"), ("t", "120"), ("list", "PL123"), ("index", "5")];
            KeepKeys(q, YouTubeAllowedParams) == q
  {
    var q := [("v", "dQw4w9WgXcQ"), ("t", "120"), ("list", "PL123"), ("index", "5")];
    assert q[0].0 in YouTubeAllowedParams && q[1].0 in YouTubeAllowedParams;
    assert q[2].0 in YouTubeAllowedParams && q[3].0 in YouTubeAllowedParams;
    KeepKeysAllAllowed(q, YouTubeAllowedParams);
  }

  /**
   The short-link test is case-sensitive while classification is not, so a
   short link whose host is written in any other case ("YOUTU.BE",
   "Youtu.be", ...) is cleaned with the regular allow-list.
   */
  lemma UpperCaseShortLinkUsesAllowList(u: ParseResult)
    requires Lower(u.netloc) == ShortLinkHost && u.netloc != ShortLinkHost
    ensures Classify(u.netloc) == YouTube
    ensures CleanYouTube(u).query == KeepKeys(u.query, YouTubeAllowedParams)
  {
    assert ShortLinkHost in YouTubeHosts;
  }

  /** A host with an explicit port is not recognised, even for a known host name. */
  lemma PortIsNotWildcarded()
    ensures Classify("youtube.com:443") == Unknown
    ensures Classify("x.com:443") == Unknown
  {
    assert "youtube.com:443"[11] == ':';
    assert "x.com:443"[5] == ':';
  }
}
