/**
 * The two URL helpers of the new-tab page (newtab.js, "helpers" section): the scheme test
 * `/^https?:\/\//i`, `normalizeUrl`, which prefixes "https://" when that test fails, and
 * `isProbablyUrl`, the search box's URL-or-query heuristic.
 */
module Urls {

  /**
   * How a regular expression with the `i` flag and without the `u` flag compares the input
   * character `c` with the lower-case ASCII pattern character `p`: equal, or `c` is the
   * upper-case form of the letter `p`.
   */
  predicate SameIgnoringCase(c: char, p: char) {
    c == p || ('a' <= p <= 'z' && c as int == p as int - 32)
  }

  /** `t` begins with `prefix`, ASCII letters compared without regard to case. */
  predicate StartsWithIgnoringCase(t: string, prefix: string) {
    |prefix| <= |t| && forall k :: 0 <= k < |prefix| ==> SameIgnoringCase(t[k], prefix[k])
  }

  /**
   * `/^https?:\/\//i.test(t)`: the pattern read piece by piece — "http" in any case, then
   * either "://" directly or an `s` in either case followed by "://".
   */
  predicate HasHttpScheme(t: string): (b: bool)
    ensures b <==> (StartsWithIgnoringCase(t, "http") && |t| >= 7
      && (t[4..7] == "://" || (SameIgnoringCase(t[4], 's') && |t| >= 8 && t[5..8] == "://")))
  {
    // A pattern character outside a..z matches only itself.
    assert StartsWithIgnoringCase(t, "http://") <==> (StartsWithIgnoringCase(t, "http") && |t| >= 7
      && t[4] == ':' && t[5] == '/' && t[6] == '/');
    assert StartsWithIgnoringCase(t, "https://") <==> (StartsWithIgnoringCase(t, "http") && |t| >= 8
      && SameIgnoringCase(t[4], 's') && t[5] == ':' && t[6] == '/' && t[7] == '/');
    assert |t| >= 7 ==> t[4..7] == [t[4], t[5], t[6]];
    assert |t| >= 8 ==> t[5..8] == [t[5], t[6], t[7]];
    StartsWithIgnoringCase(t, "http://") || StartsWithIgnoringCase(t, "https://")
  }

  /**
   * `isProbablyUrl(t)`: the scheme test passes or some character of `t` is a dot. Whatever
   * it turns down lacks a scheme, so `normalizeUrl` would put "https://" in front of it.
   */
  predicate IsProbablyUrl(t: string): (b: bool)
    ensures b <==> HasHttpScheme(t) || exists k :: 0 <= k < |t| && t[k] == '.'
    ensures !b ==> NormalizeUrl(t) == "https://" + t
  {
    HasHttpScheme(t) || '.' in t
  }

  /** Any string that begins with "https://" passes the scheme test. */
  lemma HttpsPrefixHasScheme(t: string)
    ensures HasHttpScheme("https://" + t)
  {
    var u := "https://" + t;
    forall k | 0 <= k < 8 ensures SameIgnoringCase(u[k], "https://"[k]) {
      assert u[k] == "https://"[k];
    }
  }

  /**
   * `normalizeUrl(t)`: `t` itself when it already carries an http or https scheme in any
   * letter case, and otherwise `t` behind "https://". Either way the result carries a scheme.
   */
  function NormalizeUrl(t: string): (r: string)
    ensures HasHttpScheme(r)
    ensures r == t <==> HasHttpScheme(t)
    ensures r == t || r == "https://" + t
  {
    if HasHttpScheme(t) then t
    else
      HttpsPrefixHasScheme(t);
      "https://" + t
  }

  /** Normalizing an already normalized URL changes nothing. */
  lemma NormalizeUrlIdempotent(t: string)
    ensures NormalizeUrl(NormalizeUrl(t)) == NormalizeUrl(t)
  {
  }

  /** Every normalized URL is probably a URL to the search box's heuristic. */
  lemma NormalizedIsProbablyUrl(t: string)
    ensures IsProbablyUrl(NormalizeUrl(t))
  {
  }

  /** The heuristic accepts a dotted word such as "a.b" and rejects a plain word. */
  lemma IsProbablyUrlExamples()
    ensures IsProbablyUrl("a.b")
    ensures IsProbablyUrl("HTTP://localhost")
    ensures !IsProbablyUrl("weather")
  {
    assert "a.b"[1] == '.';
    assert !SameIgnoringCase("weather"[0], "http://"[0]);
    assert !SameIgnoringCase("weather"[0], "https://"[0]);
    assert forall k :: 0 <= k < 7 ==> SameIgnoringCase("HTTP://localhost"[k], "http://"[k]);
  }

  /** A bare host gets the https scheme; a URL with a scheme in any case is kept as it is. */
  lemma NormalizeUrlExamples()
    ensures NormalizeUrl("example.com") == "https://example.com"
    ensures NormalizeUrl("mail.google.com") == "https://mail.google.com"
    ensures NormalizeUrl("http://x.com") == "http://x.com"
    ensures NormalizeUrl("HttpS://Mail.example") == "HttpS://Mail.example"
  {
    var host := "example.com";
    assert "https://" + host == "https://example.com";
    assert !SameIgnoringCase(host[0], 'h');
    host := "mail.google.com";
    assert "https://" + host == "https://mail.google.com";
    assert !SameIgnoringCase(host[0], 'h');
    assert forall k :: 0 <= k < 7 ==> SameIgnoringCase("http://x.com"[k], "http://"[k]);
    assert forall k :: 0 <= k < 8 ==> SameIgnoringCase("HttpS://Mail.example"[k], "https://"[k]);
  }
}
