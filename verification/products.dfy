/** The normaliser's product pass (`_parse_products`): one catalog entry per
    storefront record, then hero detection from the homepage's product
    links, with the first four products as the fallback. */
module Products {
  import opened Wrappers
  import opened Text
  import opened Urls
  import opened Html
  import opened DbModels
  import opened Schemas

  /** `title or handle or "Untitled"`. */
  function ProductTitle(title: Option<string>, handle: Option<string>): (t: string)
    ensures t != ""
    ensures Truthy(title) ==> t == title.value
    ensures !Truthy(title) && Truthy(handle) ==> t == handle.value
    ensures !Truthy(title) && !Truthy(handle) ==> t == "Untitled"
  {
    if Truthy(title) then title.value
    else if Truthy(handle) then handle.value
    else "Untitled"
  }

  /** `_product_url`: the product page, only when there is a handle. */
  function ProductUrl(lib: UrlLib, base: string, handle: Option<string>): (u: Option<string>)
    ensures u.None? <==> !Truthy(handle)
    ensures Truthy(handle) && IsHttpUrl(base) && Plain(base) && IsPlainAbsolutePath("/products/" + handle.value) ==>
              u == Some(Origin(base) + ("/products/" + handle.value))
  {
    if Truthy(handle) then Some(Join(lib, base, "/products/" + handle.value)) else None
  }

  /** Price and currency of the first variant; an empty currency counts as
      none. */
  function FirstVariant(variants: seq<Variant>): (r: (Option<Price>, Option<string>))
    ensures variants == [] ==> r == (None, None)
    ensures variants != [] ==> r.0 == variants[0].price
    ensures r.1.Some? <==> variants != [] && Truthy(variants[0].currency)
    ensures r.1.Some? ==> r.1 == variants[0].currency
  {
    if variants == [] then (None, None)
    else (variants[0].price, if Truthy(variants[0].currency) then variants[0].currency else None)
  }

  /** The catalog entry for one storefront record, not yet marked as hero. */
  function ToProduct(lib: UrlLib, base: string, raw: RawProduct): (p: Product)
    ensures p.id.None? && !p.isHero
    ensures p.title == ProductTitle(raw.title, raw.handle) && p.title != ""
    ensures p.handle == raw.handle
    ensures p.url.None? <==> !Truthy(raw.handle)
    ensures p.vendor == raw.vendor && p.productType == raw.productType
    ensures p.imageUrl == (if raw.images == [] then None else raw.images[0])
    ensures p.description.Some? <==> Truthy(raw.bodyHtml)
    ensures (p.price, p.currency) == FirstVariant(raw.variants)
    ensures p.url == ProductUrl(lib, base, raw.handle)
    ensures p.description == StripHtml(raw.bodyHtml)
  {
    var (price, currency) := FirstVariant(raw.variants);
    Product(
      id := None,
      title := ProductTitle(raw.title, raw.handle),
      url := ProductUrl(lib, base, raw.handle),
      handle := raw.handle,
      price := price,
      currency := currency,
      isHero := false,
      imageUrl := if raw.images == [] then None else raw.images[0],
      vendor := raw.vendor,
      productType := raw.productType,
      description := StripHtml(raw.bodyHtml))
  }

  /** `_canonicalize_product_path`: the link's path without trailing '/',
      lower-cased. */
  function CanonicalPath(lib: UrlLib, href: string): (p: string)
    ensures |p| > 0 ==> p[|p| - 1] != '/'
    ensures Lower(p) == p
  {
    var r := RStripSlash(UrlPath(lib, href));
    LowerAt(r);
    LowerIdempotent(r);
    Lower(r)
  }

  /** The canonical paths of the homepage links that mention "/products/"
      (tested on the link as written, case and all). */
  function HomepageProductPaths(lib: UrlLib, links: seq<string>): (paths: set<string>)
    ensures forall p :: p in paths <==>
      exists i :: 0 <= i < |links| && Contains(links[i], "/products/") && CanonicalPath(lib, links[i]) == p
  {
    set l | l in links && Contains(l, "/products/") :: CanonicalPath(lib, l)
  }

  /** The product page path the detection compares against: built from the
      handle, lower-cased, and not stripped of a trailing '/'. */
  function PdpPath(handle: string): string {
    Lower("/products/" + handle)
  }

  predicate IsDetectedHero(paths: set<string>, raw: RawProduct) {
    Truthy(raw.handle) && PdpPath(raw.handle.value) in paths
  }

  /** `[p for p in ps if p.is_hero]`. */
  function Flagged(ps: seq<Product>): (r: seq<Product>)
    ensures |r| <= |ps|
    ensures forall i :: 0 <= i < |r| ==> r[i].isHero && r[i] in ps
    decreases |ps|
  {
    if ps == [] then []
    else (if ps[0].isHero then [ps[0]] else []) + Flagged(ps[1..])
  }

  /** `a` is `b` with some elements left out, order kept. */
  predicate SubsequenceOf<T(==)>(a: seq<T>, b: seq<T>)
    decreases |b|
  {
    if b == [] then a == []
    else (a != [] && a[0] == b[0] && SubsequenceOf(a[1..], b[1..])) || SubsequenceOf(a, b[1..])
  }

  lemma {:induction false} FlaggedSubsequence(ps: seq<Product>)
    ensures SubsequenceOf(Flagged(ps), ps)
    decreases |ps|
  {
    if ps != [] {
      FlaggedSubsequence(ps[1..]);
      var a := Flagged(ps);
      if ps[0].isHero {
        assert a == [ps[0]] + Flagged(ps[1..]);
        assert a != [] && a[0] == ps[0] && a[1..] == Flagged(ps[1..]);
      } else {
        assert a == Flagged(ps[1..]);
      }
    }
  }

  lemma {:induction false} FlaggedEmpty(ps: seq<Product>)
    ensures Flagged(ps) == [] <==> forall i :: 0 <= i < |ps| ==> !ps[i].isHero
    decreases |ps|
  {
    if ps != [] {
      FlaggedEmpty(ps[1..]);
      assert forall i :: 1 <= i < |ps| ==> ps[i] == ps[1..][i - 1];
    }
  }

  /** When exactly the first `k` entries are flagged, the flagged entries are
      the first `k` (or all, when there are fewer). */
  lemma {:induction false} FlaggedPrefix(ps: seq<Product>, k: nat)
    requires forall i :: 0 <= i < |ps| ==> (ps[i].isHero <==> i < k)
    ensures Flagged(ps) == ps[..if |ps| < k then |ps| else k]
    decreases |ps|
  {
    if ps != [] {
      if k == 0 {
        FlaggedEmpty(ps);
      } else {
        FlaggedPrefix(ps[1..], k - 1);
      }
    }
  }

  predicate NoneDetected(paths: set<string>, raws: seq<RawProduct>) {
    forall i :: 0 <= i < |raws| ==> !IsDetectedHero(paths, raws[i])
  }

  /** The catalog with the detected heroes flagged. */
  function MarkDetected(lib: UrlLib, base: string, raws: seq<RawProduct>, paths: set<string>)
    : (marked: seq<Product>)
    ensures |marked| == |raws|
    ensures forall i :: 0 <= i < |raws| ==> marked[i].(isHero := false) == ToProduct(lib, base, raws[i])
    ensures forall i :: 0 <= i < |raws| ==> (marked[i].isHero <==> IsDetectedHero(paths, raws[i]))
  {
    seq(|raws|, i requires 0 <= i < |raws| =>
      ToProduct(lib, base, raws[i]).(isHero := IsDetectedHero(paths, raws[i])))
  }

  function FallbackCount(n: nat): (k: nat)
    ensures k <= n && k <= 4 && (k == 4 || k == n)
  {
    if n < 4 then n else 4
  }

  /** `_parse_products`: the catalog and the hero list. */
  function ParseProducts(lib: UrlLib, base: string, raws: seq<RawProduct>, links: seq<string>)
    : (r: (seq<Product>, seq<Product>))
    ensures |r.0| == |raws|
    ensures forall i :: 0 <= i < |raws| ==> r.0[i].(isHero := false) == ToProduct(lib, base, raws[i])
    ensures forall i :: 0 <= i < |raws| ==>
      (r.0[i].isHero <==> IsDetectedHero(HomepageProductPaths(lib, links), raws[i]) ||
                          (NoneDetected(HomepageProductPaths(lib, links), raws) && i < 4))
    ensures r.1 == Flagged(r.0)
    ensures SubsequenceOf(r.1, r.0)
    ensures r.1 == [] <==> raws == []
    ensures NoneDetected(HomepageProductPaths(lib, links), raws) ==> r.1 == r.0[..FallbackCount(|raws|)]
  {
    var paths := HomepageProductPaths(lib, links);
    var marked := MarkDetected(lib, base, raws, paths);
    var detected := Flagged(marked);
    FlaggedEmpty(marked);
    FlaggedSubsequence(marked);
    if detected != [] then
      (marked, detected)
    else
      var n := FallbackCount(|marked|);
      var catalog := seq(|marked|, i requires 0 <= i < |marked| => marked[i].(isHero := i < n));
      FlaggedPrefix(catalog, 4);
      FlaggedSubsequence(catalog);
      FlaggedEmpty(catalog);
      (catalog, catalog[..n])
  }

  /** A product whose handle ends in '/' is never detected: its page path
      keeps the '/', while every canonical homepage path has lost it. */
  lemma TrailingSlashHandleNeverDetected(lib: UrlLib, links: seq<string>, raw: RawProduct)
    requires raw.handle.Some? && |raw.handle.value| > 0 && raw.handle.value[|raw.handle.value| - 1] == '/'
    ensures !IsDetectedHero(HomepageProductPaths(lib, links), raw)
  {
    var h := raw.handle.value;
    var p := PdpPath(h);
    LowerAt("/products/" + h);
    assert p[|p| - 1] == LowerChar(("/products/" + h)[|p| - 1]) == '/';
  }

  /** The detection's intent: a product whose own page url is among the
      homepage links is detected, for a plain base and a lower-case handle
      that does not end in '/' (the cases the comparison is written for). */
  lemma OwnPageLinkDetected(lib: UrlLib, base: string, links: seq<string>, raw: RawProduct)
    requires Truthy(raw.handle)
    requires var h := raw.handle.value; Lower(h) == h && h[|h| - 1] != '/'
    requires IsHttpUrl(base) && Plain(base) && IsPlainAbsolutePath("/products/" + raw.handle.value)
    requires ProductUrl(lib, base, raw.handle).value in links
    ensures IsDetectedHero(HomepageProductPaths(lib, links), raw)
  {
    var h := raw.handle.value;
    var path := "/products/" + h;
    var u := Origin(base) + path;
    assert ProductUrl(lib, base, raw.handle).value == u;
    MentionsProducts(Origin(base), h);
    JoinPathRoundTrip(lib, base, path);
    RStripSlashClean(path);
    LowerPdpPath(h);
    assert CanonicalPath(lib, u) == Lower(path);
  }

  lemma MentionsProducts(o: string, h: string)
    ensures Contains(o + ("/products/" + h), "/products/")
  {
    var u := o + ("/products/" + h);
    assert u[|o|..|o| + 10] == "/products/";
    ContainsAt(u, "/products/", |o|);
  }

  lemma LowerPdpPath(h: string)
    requires Lower(h) == h
    ensures PdpPath(h) == "/products/" + h
  {
    LowerConcat("/products/", h);
    LowerNoUpper("/products/");
  }

  /** ... and so it is flagged in the catalog and listed among the heroes. */
  lemma OwnPageLinkHero(lib: UrlLib, base: string, raws: seq<RawProduct>, links: seq<string>, i: nat)
    requires i < |raws| && Truthy(raws[i].handle)
    requires var h := raws[i].handle.value; Lower(h) == h && h[|h| - 1] != '/'
    requires IsHttpUrl(base) && Plain(base) && IsPlainAbsolutePath("/products/" + raws[i].handle.value)
    requires ProductUrl(lib, base, raws[i].handle).value in links
    ensures var r := ParseProducts(lib, base, raws, links); r.0[i].isHero && r.0[i] in r.1
  {
    OwnPageLinkDetected(lib, base, links, raws[i]);
    var r := ParseProducts(lib, base, raws, links);
    FlaggedHas(r.0, i);
  }

  /** Every flagged entry is in the flagged list. */
  lemma {:induction false} FlaggedHas(ps: seq<Product>, i: nat)
    requires i < |ps| && ps[i].isHero
    ensures ps[i] in Flagged(ps)
    decreases |ps|
  {
    if i > 0 {
      FlaggedHas(ps[1..], i - 1);
      assert ps[1..][i - 1] == ps[i];
    }
  }
}
