/** URL handling shared by the scraper and the parser: base normalisation,
    reference resolution (`urljoin`, section 5.2 of RFC 3986) and path
    extraction (`urlparse(...).path`, section 3.3 of RFC 3986).

    Only the plain cases are spelled out. A `UrlLib` value carries the
    library's behaviour on every other input, so the model commits to
    nothing there. */
module Urls {
  import opened Text

  /** The resolution and path-extraction results the model does not compute
      itself: relative paths, dot segments, queries, fragments, parameters,
      network-path references, exotic schemes and malformed input. */
  datatype UrlLib = UrlLib(resolveOther: (string, string) -> string, pathOther: string -> string)

  /** Printable ASCII without the characters that start a query, fragment or
      parameter, or delimit an IP literal. */
  predicate PlainChar(c: char) {
    '!' <= c <= '~' && c != '?' && c != '#' && c != ';' && c != '[' && c != ']'
  }

  predicate Plain(s: string) {
    forall i :: 0 <= i < |s| ==> PlainChar(s[i])
  }

  predicate IsHttpUrl(u: string) {
    StartsWith(u, "http://") || StartsWith(u, "https://")
  }

  /** Length of the "http://" or "https://" prefix. */
  function SchemeLength(u: string): (n: nat)
    requires IsHttpUrl(u)
    ensures 7 <= n <= |u| && u[n - 3..n] == "://"
    ensures u[..n] == (if n == 8 then "https://" else "http://")
  {
    if StartsWith(u, "https://") then 8 else 7
  }

  /** Length of the authority at the start of `rest`: everything up to the
      first '/' (plain URLs hold no '?' or '#'). */
  function AuthorityLength(rest: string): (n: nat)
    ensures n <= |rest|
    ensures forall i :: 0 <= i < n ==> rest[i] != '/'
    ensures n < |rest| ==> rest[n] == '/'
  {
    if |rest| == 0 || rest[0] == '/' then 0 else 1 + AuthorityLength(rest[1..])
  }

  /** Scheme and authority of an http(s) URL: "https://shop.example". */
  function Origin(base: string): (o: string)
    requires IsHttpUrl(base)
    ensures o <= base && IsHttpUrl(o)
  {
    var n := SchemeLength(base);
    base[..n + AuthorityLength(base[n..])]
  }

  /** A path whose segments contain a "." or ".." segment. */
  predicate HasDotSegment(p: string) {
    Contains(p + "/", "/./") || Contains(p + "/", "/../")
  }

  /** An absolute-path reference that resolution leaves unchanged: plain,
      starting with one '/', no empty segment and no dot segment. */
  predicate IsPlainAbsolutePath(r: string) {
    |r| > 0 && r[0] == '/' && Plain(r) && !Contains(r, "//") && !HasDotSegment(r)
  }

  /** `urljoin(base, ref)`. */
  function Join(lib: UrlLib, base: string, ref: string): (u: string)
    ensures IsHttpUrl(base) && Plain(base) && IsPlainAbsolutePath(ref) ==>
              u == Origin(base) + ref
  {
    if IsHttpUrl(base) && Plain(base) && IsPlainAbsolutePath(ref) then Origin(base) + ref
    else lib.resolveOther(base, ref)
  }

  /** `href` unchanged when it already names an http(s) URL, else joined onto
      the base (the parser's `_absolutize`). */
  function Absolutize(lib: UrlLib, base: string, href: string): (u: string)
    ensures IsHttpUrl(href) ==> u == href
    ensures !IsHttpUrl(href) ==> u == Join(lib, base, href)
  {
    if IsHttpUrl(href) then href else Join(lib, base, href)
  }

  /** `urlparse(href).path`. */
  function UrlPath(lib: UrlLib, href: string): (p: string)
    ensures Plain(href) && !Contains(href, ":") && !StartsWith(href, "//") ==> p == href
  {
    if Plain(href) && IsHttpUrl(href) then
      var n := SchemeLength(href);
      assert href[n - 3..n - 2] == ":";
      ContainsAt(href, ":", n - 3);
      var rest := href[n..];
      rest[AuthorityLength(rest)..]
    else if Plain(href) && !Contains(href, ":") && !StartsWith(href, "//") then href
    else lib.pathOther(href)
  }

  /** Resolving a plain absolute path and reading the path back returns the
      reference itself: `urlparse(urljoin(base, ref)).path == ref`. */
  lemma {:induction false} JoinPathRoundTrip(lib: UrlLib, base: string, ref: string)
    requires IsHttpUrl(base) && Plain(base) && IsPlainAbsolutePath(ref)
    ensures UrlPath(lib, Join(lib, base, ref)) == ref
  {
    var n := SchemeLength(base);
    var a := AuthorityLength(base[n..]);
    var o := Origin(base);
    var u := o + ref;
    assert o == base[..n + a];
    assert IsHttpUrl(u) by {
      assert o <= u;
    }
    assert Plain(u) by {
      forall i | 0 <= i < |u|
        ensures PlainChar(u[i])
      {
        if i < |o| {
          assert u[i] == base[i];
        } else {
          assert u[i] == ref[i - |o|];
        }
      }
    }
    assert SchemeLength(u) == n by {
      assert u[..n] == base[..n];
      if n == 7 {
        assert u[4] == base[4] == ':';
      }
    }
    var rest := u[n..];
    assert rest == base[n..n + a] + ref;
    AuthorityOfOrigin(base[n..n + a], ref);
  }

  lemma AuthorityOfOrigin(auth: string, path: string)
    requires forall i :: 0 <= i < |auth| ==> auth[i] != '/'
    requires |path| > 0 && path[0] == '/'
    ensures AuthorityLength(auth + path) == |auth|
    ensures (auth + path)[|auth|..] == path
  {
    if |auth| > 0 {
      assert (auth + path)[1..] == auth[1..] + path;
      AuthorityOfOrigin(auth[1..], path);
    }
  }

  /** The parser's `_normalize_base` and the scraper's constructor: add
      "https://" unless the text starts with "http", then drop every trailing
      '/'. */
  function NormalizeBase(u: string): (r: string)
    ensures var p := if StartsWith(u, "http") then u else "https://" + u;
      && r <= p
      && (forall i :: |r| <= i < |p| ==> p[i] == '/')
    ensures |r| > 0 ==> r[|r| - 1] != '/'
    ensures StartsWith(r, "http")
  {
    var p := if StartsWith(u, "http") then u else "https://" + u;
    assert p[..4] == "http";
    var r := RStripSlash(p);
    assert p[3] == 'p';
    assert |r| >= 4;
    assert r[..4] == p[..4];
    r
  }

  /** Normalising an already normalised base changes nothing. */
  lemma NormalizeBaseIdempotent(u: string)
    ensures NormalizeBase(NormalizeBase(u)) == NormalizeBase(u)
  {
    var r := NormalizeBase(u);
    RStripSlashClean(r);
  }
}
