/**
 * URL validation (WebCrawler.IsValidUrl) and the `Where(url => IsValidUrl(url))`
 * filter the crawler applies to seeds and to extracted attribute values.
 */
module Url {
  import opened Wrappers

  /** The part of a parsed absolute URI that the crawler inspects. */
  datatype ParsedUri = ParsedUri(scheme: string)

  /**
   * `Uri.TryCreate(s, UriKind.Absolute, out uri)`: `Some(uri)` when `s` parses as an
   * absolute URI, `None` otherwise. The parser itself is a library outside the model,
   * so every operation that validates takes it as a parameter.
   */
  type UriParser = string -> Option<ParsedUri>

  const UriSchemeHttp: string := "http"
  const UriSchemeHttps: string := "https"

  /**
   * An absolute URI whose scheme is exactly http or https. Acceptance depends on the
   * string only through what the parser makes of it: a string that does not parse
   * as an absolute URI is never accepted.
   */
  predicate IsValidUrl(tryCreate: UriParser, url: string): (r: bool)
    ensures r ==> tryCreate(url).Some?
  {
    match tryCreate(url)
    case None => false
    case Some(uri) => uri.scheme == UriSchemeHttp || uri.scheme == UriSchemeHttps
  }

  /** `s.Where(IsValidUrl)`: the valid elements of `s`, in order. */
  function WhereValid(tryCreate: UriParser, s: seq<string>): (r: seq<string>)
    ensures |r| <= |s|
    ensures forall u :: u in r ==> u in s && IsValidUrl(tryCreate, u)
  {
    if s == [] then []
    else (if IsValidUrl(tryCreate, s[0]) then [s[0]] else []) + WhereValid(tryCreate, s[1..])
  }

  /** Filtering distributes over concatenation: the relative order of kept elements is the input order. */
  lemma {:induction false} WhereValidConcat(tryCreate: UriParser, a: seq<string>, b: seq<string>)
    ensures WhereValid(tryCreate, a + b) == WhereValid(tryCreate, a) + WhereValid(tryCreate, b)
  {
    if a == [] {
      assert a + b == b;
    } else {
      assert (a + b)[1..] == a[1..] + b;
      WhereValidConcat(tryCreate, a[1..], b);
    }
  }

  /**
   * Each valid string is kept as many times as it occurs (duplicates are not
   * collapsed); each invalid string is dropped entirely.
   */
  lemma {:induction false} WhereValidCount(tryCreate: UriParser, s: seq<string>, u: string)
    ensures multiset(WhereValid(tryCreate, s))[u] ==
            if IsValidUrl(tryCreate, u) then multiset(s)[u] else 0
  {
    if s != [] {
      WhereValidCount(tryCreate, s[1..], u);
      assert s == [s[0]] + s[1..];
    }
  }

  /** The filter changes nothing exactly when every element is already valid. */
  lemma {:induction false} WhereValidIdentity(tryCreate: UriParser, s: seq<string>)
    ensures WhereValid(tryCreate, s) == s <==> forall i :: 0 <= i < |s| ==> IsValidUrl(tryCreate, s[i])
  {
    if s != [] {
      WhereValidIdentity(tryCreate, s[1..]);
      if !IsValidUrl(tryCreate, s[0]) {
        assert |WhereValid(tryCreate, s)| < |s|;
      } else if WhereValid(tryCreate, s) == s {
        assert WhereValid(tryCreate, s[1..]) == s[1..];
      }
    }
  }
}
