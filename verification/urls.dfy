/**
 The structured form of a URL as the bot sees it after `urlparse` and
 `parse_qsl`, and the URL library itself, which the model takes as a
 parameter because its string-level splitting and percent-coding are not
 part of this model.
 */
module Urls {
  import opened Wrappers

  /** Decoded query pairs, in the order they occur in the URL. */
  type Query = seq<(string, string)>

  /** The six components of `urllib.parse.ParseResult`, with the query already split into pairs. */
  datatype ParseResult = ParseResult(
    scheme: string,
    netloc: string,
    path: string,
    params: string,
    query: Query,
    fragment: string)

  /**
   The URL library: `parse` is `urlparse` followed by `parse_qsl` (None when
   `urlparse` raises), `unparse` is `urlencode` followed by `urlunparse`.
   */
  datatype UrlLibrary = UrlLibrary(
    parse: string -> Option<ParseResult>,
    unparse: ParseResult -> string)

  /** Parsing a string the library itself produced gives back the record it came from. */
  ghost predicate ParsesOwnOutput(lib: UrlLibrary)
  {
    forall u :: lib.parse(lib.unparse(u)) == Some(u)
  }

  /** `a` and `b` agree on every component except, possibly, the query. */
  predicate SameExceptQuery(a: ParseResult, b: ParseResult)
  {
    && a.scheme == b.scheme
    && a.netloc == b.netloc
    && a.path == b.path
    && a.params == b.params
    && a.fragment == b.fragment
  }
}
