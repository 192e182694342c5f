/** The scraper's pure fragments (`ShopifyScraper`): the products envelope,
    social-domain classification, link resolution and de-duplication, and
    the fixed shape of the scrape bundle. Fetching and HTML parsing are not
    modelled: each page arrives already reduced to what the scraper reads
    from it, and `None` stands for a failed fetch, a status other than 200
    or an empty body. The constructor's base normalisation is
    `Urls.NormalizeBase`. */
module Scraper {
  import opened Wrappers
  import opened Text
  import opened Urls
  import opened Schemas
  import opened Socials
  import opened ContactPatterns
  import Parser

  /** What the scraper reads from each page it fetches. */
  datatype Pages = Pages(
    productsJson: Option<map<string, seq<RawProduct>>>, // "/products.json", decoded
    privacyText: Option<string>,                        // "/policies/privacy-policy", as text
    refundText: Option<string>,                         // "/policies/refund-policy", as text
    faqsPage: Option<seq<(string, string)>>,            // "/pages/faqs": (heading, next paragraph) texts
    faqPage: Option<seq<(string, string)>>,             // "/pages/faq"
    homepage: Option<seq<string>>,                      // "/": the href of every anchor, in document order
    contactPage: Option<string>,                        // "/pages/contact", as text
    contactAlt: Option<string>,                         // "/contact"
    aboutPage: Option<string>,                          // "/pages/about", as text
    aboutAlt: Option<string>)                           // "/about"

  /** `fetch(a) or fetch(b)`: the second page is read only when the first
      gave nothing. */
  function FirstPage<T>(a: Option<T>, b: Option<T>): (r: Option<T>)
    ensures a.Some? ==> r == a
    ensures a.None? ==> r == b
  {
    if a.Some? then a else b
  }

  // ---------- products ----------

  /** `get_products`: the "products" list of the decoded document, or
      nothing when the fetch failed or the key is missing. */
  function GetProducts(data: Option<map<string, seq<RawProduct>>>): (r: seq<RawProduct>)
    ensures data.None? ==> r == []
    ensures data.Some? && "products" !in data.value ==> r == []
    ensures data.Some? && "products" in data.value ==> r == data.value["products"]
  {
    if data.None? || "products" !in data.value then [] else data.value["products"]
  }

  // ---------- FAQs ----------

  function GetFaqs(pages: Pages): (r: seq<RawFaq>)
    ensures FirstPage(pages.faqsPage, pages.faqPage).None? ==> r == []
    ensures FirstPage(pages.faqsPage, pages.faqPage).Some? ==>
      var pairs := FirstPage(pages.faqsPage, pages.faqPage).value;
      |r| == |pairs| && forall i :: 0 <= i < |r| ==> r[i] == RawFaq(Some(pairs[i].0), Some(pairs[i].1))
  {
    match FirstPage(pages.faqsPage, pages.faqPage)
    case None => []
    case Some(pairs) => seq(|pairs|, i requires 0 <= i < |pairs| => RawFaq(Some(pairs[i].0), Some(pairs[i].1)))
  }

  // ---------- social handles ----------

  /** The dictionary keys, in the order the domains are tested. */
  const SocialNames: seq<string> := ["instagram", "facebook", "twitter", "linkedin", "youtube", "tiktok"]

  function Domain(name: string): string {
    name + ".com"
  }

  /** The position of the first name whose domain occurs in `href`. */
  function FirstDomain(href: string, names: seq<string>): (r: Option<nat>)
    ensures r.Some? ==> r.value < |names| && Contains(href, Domain(names[r.value]))
    ensures r.Some? ==> forall k :: 0 <= k < r.value ==> !Contains(href, Domain(names[k]))
    ensures r.None? <==> forall k :: 0 <= k < |names| ==> !Contains(href, Domain(names[k]))
    decreases |names|
  {
    if names == [] then None
    else if Contains(href, Domain(names[0])) then Some(0)
    else
      match FirstDomain(href, names[1..])
      case Some(k) => Some(k + 1)
      case None => None
  }

  /** The dictionary key one href is filed under, if any. */
  function SocialKeyOf(href: string): (r: Option<string>)
    ensures r.Some? ==> r.value in SocialNames
  {
    match FirstDomain(href, SocialNames)
    case Some(k) => Some(SocialNames[k])
    case None => None
  }

  predicate EntryKeysDistinct(d: seq<(string, string)>) {
    forall i, j :: 0 <= i < j < |d| ==> d[i].0 != d[j].0
  }

  predicate HasEntry(d: seq<(string, string)>, k: string) {
    exists i :: 0 <= i < |d| && d[i].0 == k
  }

  /** `d[k] = v` on an insertion-ordered dictionary: a present key keeps its
      place and takes the new value; a new key goes to the end. */
  function Assign(d: seq<(string, string)>, k: string, v: string): (r: seq<(string, string)>)
    requires EntryKeysDistinct(d)
    ensures AssignFacts(d, k, v, r)
    decreases |d|
  {
    if d == [] then
      assert [(k, v)][0].0 == k;
      [(k, v)]
    else if d[0].0 == k then
      AssignHead(d, v);
      [(k, v)] + d[1..]
    else
      var rest := Assign(d[1..], k, v);
      AssignCons(d, k, v, rest);
      [d[0]] + rest
  }

  /** What `d[k] = v` leaves: keys still distinct, the key set grown by
      `k`, the value `v` under `k`, every other entry where it was. */
  ghost predicate AssignFacts(d: seq<(string, string)>, k: string, v: string, r: seq<(string, string)>) {
    && EntryKeysDistinct(r)
    && (forall k' :: HasEntry(r, k') <==> HasEntry(d, k') || k' == k)
    && (forall i :: 0 <= i < |r| && r[i].0 == k ==> r[i].1 == v)
    && (forall i :: 0 <= i < |r| && r[i].0 != k ==> i < |d| && r[i] == d[i])
  }

  lemma AssignHead(d: seq<(string, string)>, v: string)
    requires EntryKeysDistinct(d) && d != []
    ensures AssignFacts(d, d[0].0, v, [(d[0].0, v)] + d[1..])
  {
    var r := [(d[0].0, v)] + d[1..];
    assert forall i :: 1 <= i < |d| ==> r[i] == d[i];
  }

  lemma AssignCons(d: seq<(string, string)>, k: string, v: string, rest: seq<(string, string)>)
    requires EntryKeysDistinct(d) && d != [] && d[0].0 != k
    requires AssignFacts(d[1..], k, v, rest)
    ensures AssignFacts(d, k, v, [d[0]] + rest)
  {
    var r := [d[0]] + rest;
    assert forall i :: 1 <= i < |d| ==> d[i] == d[1..][i - 1];
    assert forall i :: 1 <= i < |r| ==> r[i] == rest[i - 1];
    forall k' | HasEntry(rest, k')
      ensures HasEntry(r, k')
    {
      var i :| 0 <= i < |rest| && rest[i].0 == k';
      assert r[i + 1] == rest[i];
    }
    forall k'
      ensures HasEntry(d, k') <==> d[0].0 == k' || HasEntry(d[1..], k')
    {
      if HasEntry(d, k') && d[0].0 != k' {
        var i :| 0 <= i < |d| && d[i].0 == k';
        assert d[1..][i - 1].0 == k';
      }
    }
    forall k'
      ensures HasEntry(r, k') <==> d[0].0 == k' || HasEntry(rest, k')
    {
      assert r[0] == d[0];
      if HasEntry(r, k') && d[0].0 != k' {
        var i :| 0 <= i < |r| && r[i].0 == k';
        assert r[0] == d[0] && i > 0;
        assert rest[i - 1].0 == k';
      }
    }
  }

  /** `hrefs[j]` is the last href `cls` files under `name`. */
  predicate LastFiled(hrefs: seq<string>, cls: string -> Option<string>, name: string, j: int) {
    0 <= j < |hrefs| && cls(hrefs[j]) == Some(name) &&
    forall j' :: j < j' < |hrefs| ==> cls(hrefs[j']) != Some(name)
  }

  /** Some href is filed under `name`. */
  predicate Filed(hrefs: seq<string>, cls: string -> Option<string>, name: string) {
    exists j :: 0 <= j < |hrefs| && cls(hrefs[j]) == Some(name)
  }

  lemma FiledSnoc(hrefs: seq<string>, cls: string -> Option<string>)
    requires hrefs != []
    ensures forall n :: Filed(hrefs, cls, n) <==>
      Filed(hrefs[..|hrefs| - 1], cls, n) || cls(hrefs[|hrefs| - 1]) == Some(n)
  {
    var init := hrefs[..|hrefs| - 1];
    assert forall j :: 0 <= j < |init| ==> init[j] == hrefs[j];
  }

  lemma LastFiledSnoc(hrefs: seq<string>, cls: string -> Option<string>, n: string, j: int)
    requires hrefs != [] && LastFiled(hrefs[..|hrefs| - 1], cls, n, j)
    requires cls(hrefs[|hrefs| - 1]) != Some(n)
    ensures LastFiled(hrefs, cls, n, j)
  {
    var init := hrefs[..|hrefs| - 1];
    assert forall j' :: 0 <= j' < |init| ==> init[j'] == hrefs[j'];
  }

  /** What the dictionary holds after the hrefs seen so far. */
  ghost predicate FilingFacts(hrefs: seq<string>, cls: string -> Option<string>, r: seq<(string, string)>) {
    && EntryKeysDistinct(r)
    && (forall n :: HasEntry(r, n) <==> Filed(hrefs, cls, n))
    && (forall i :: 0 <= i < |r| ==> exists j :: LastFiled(hrefs, cls, r[i].0, j) && r[i].1 == hrefs[j])
  }

  /** One more href: ignored when it is filed under no key, otherwise
      assigned under its key. */
  function FileStep(d: seq<(string, string)>, cls: string -> Option<string>, h: string): seq<(string, string)>
    requires EntryKeysDistinct(d)
  {
    match cls(h)
    case None => d
    case Some(k) => Assign(d, k, h)
  }

  lemma FileStepFacts(hrefs: seq<string>, cls: string -> Option<string>, d: seq<(string, string)>)
    requires hrefs != [] && FilingFacts(hrefs[..|hrefs| - 1], cls, d)
    ensures FilingFacts(hrefs, cls, FileStep(d, cls, hrefs[|hrefs| - 1]))
  {
    match cls(hrefs[|hrefs| - 1])
    case None => FileSkip(hrefs, cls, d);
    case Some(k) => FileAssign(hrefs, cls, d, k);
  }

  /** An href filed under no key leaves the dictionary as it was. */
  lemma FileSkip(hrefs: seq<string>, cls: string -> Option<string>, d: seq<(string, string)>)
    requires hrefs != [] && FilingFacts(hrefs[..|hrefs| - 1], cls, d)
    requires cls(hrefs[|hrefs| - 1]).None?
    ensures FilingFacts(hrefs, cls, d)
  {
    FiledSnoc(hrefs, cls);
    forall i | 0 <= i < |d|
      ensures exists j :: LastFiled(hrefs, cls, d[i].0, j) && d[i].1 == hrefs[j]
    {
      var j :| LastFiled(hrefs[..|hrefs| - 1], cls, d[i].0, j) && d[i].1 == hrefs[j];
      LastFiledSnoc(hrefs, cls, d[i].0, j);
    }
  }

  /** An href filed under `k` becomes the value under `k`. */
  lemma FileAssign(hrefs: seq<string>, cls: string -> Option<string>, d: seq<(string, string)>, k: string)
    requires hrefs != [] && FilingFacts(hrefs[..|hrefs| - 1], cls, d)
    requires cls(hrefs[|hrefs| - 1]) == Some(k)
    ensures FilingFacts(hrefs, cls, Assign(d, k, hrefs[|hrefs| - 1]))
  {
    var h := hrefs[|hrefs| - 1];
    FiledSnoc(hrefs, cls);
    var r := Assign(d, k, h);
    forall i | 0 <= i < |r|
      ensures exists j :: LastFiled(hrefs, cls, r[i].0, j) && r[i].1 == hrefs[j]
    {
      if r[i].0 == k {
        assert LastFiled(hrefs, cls, k, |hrefs| - 1);
      } else {
        assert i < |d| && r[i] == d[i];
        var j :| LastFiled(hrefs[..|hrefs| - 1], cls, d[i].0, j) && d[i].1 == hrefs[j];
        LastFiledSnoc(hrefs, cls, r[i].0, j);
      }
    }
  }

  /** `d[cls(href)] = href` for every href in order. */
  function FileAll(hrefs: seq<string>, cls: string -> Option<string>): (r: seq<(string, string)>)
    ensures EntryKeysDistinct(r)
    ensures forall n :: HasEntry(r, n) <==> Filed(hrefs, cls, n)
    ensures forall i :: 0 <= i < |r| ==> exists j :: LastFiled(hrefs, cls, r[i].0, j) && r[i].1 == hrefs[j]
    decreases |hrefs|
  {
    if hrefs == [] then []
    else
      var d := FileAll(hrefs[..|hrefs| - 1], cls);
      FileStepFacts(hrefs, cls, d);
      FileStep(d, cls, hrefs[|hrefs| - 1])
  }

  /** `get_social_handles` on the homepage's hrefs: every href is filed
      under the first social domain it contains, a later href replacing an
      earlier one of the same key; only the six social keys occur. */
  function GetSocialHandles(hrefs: seq<string>): (r: seq<(string, string)>)
    ensures EntryKeysDistinct(r)
    ensures forall i :: 0 <= i < |r| ==> r[i].0 in SocialNames
    ensures forall n :: HasEntry(r, n) <==> Filed(hrefs, SocialKeyOf, n)
    ensures forall i :: 0 <= i < |r| ==> exists j :: LastFiled(hrefs, SocialKeyOf, r[i].0, j) && r[i].1 == hrefs[j]
  {
    var r := FileAll(hrefs, SocialKeyOf);
    forall i | 0 <= i < |r|
      ensures r[i].0 in SocialNames
    {
      var j :| LastFiled(hrefs, SocialKeyOf, r[i].0, j) && r[i].1 == hrefs[j];
    }
    r
  }

  /** Every social key is already trimmed and lower-case. */
  lemma SocialNamesNormal(n: string)
    requires n in SocialNames
    ensures NormKey(n) == n && n in KnownKeys && n != "x"
  {
    assert forall i :: 0 <= i < |n| ==> 'a' <= n[i] <= 'z';
    StripClean(n);
    LowerAt(n);
  }

  /** Handed to the normaliser, the scraped dictionary yields each platform
      at most once: its keys are distinct, all known, and never both
      spellings of Twitter. */
  lemma SocialsParseDistinct(hrefs: seq<string>)
    ensures PlatformsDistinct(ParseSocials(GetSocialHandles(hrefs)))
  {
    var d := GetSocialHandles(hrefs);
    SocialKeysNoClash(d);
    ParseSocialsDistinctIff(d);
  }

  /** Distinct social keys never clash once normalised. */
  lemma SocialKeysNoClash(d: seq<(string, string)>)
    requires EntryKeysDistinct(d) && forall i :: 0 <= i < |d| ==> d[i].0 in SocialNames
    ensures forall i, j :: 0 <= i < j < |d| ==> !Clash(NormKey(d[i].0), NormKey(d[j].0))
  {
    forall i, j | 0 <= i < j < |d|
      ensures !Clash(NormKey(d[i].0), NormKey(d[j].0))
    {
      NamesNoClash(d[i].0, d[j].0);
    }
  }

  lemma NamesNoClash(a: string, b: string)
    requires a in SocialNames && b in SocialNames && a != b
    ensures !Clash(NormKey(a), NormKey(b))
  {
    SocialNamesNormal(a);
    SocialNamesNormal(b);
  }

  // ---------- links ----------

  /** An href starting with '/' joined onto the base; any other href kept
      verbatim. */
  function Resolve(lib: UrlLib, base: string, href: string): (u: string)
    ensures !StartsWith(href, "/") ==> u == href
    ensures StartsWith(href, "/") && IsHttpUrl(base) && Plain(base) && IsPlainAbsolutePath(href) ==>
              u == Origin(base) + href
  {
    if StartsWith(href, "/") then Join(lib, base, href) else href
  }

  predicate NoDuplicates(xs: seq<string>) {
    forall i, j :: 0 <= i < j < |xs| ==> xs[i] != xs[j]
  }

  /** Every value once, at its first occurrence. */
  function Distinct(xs: seq<string>): (r: seq<string>)
    ensures NoDuplicates(r)
    ensures forall x :: x in r <==> x in xs
    decreases |xs|
  {
    if xs == [] then []
    else
      var init := xs[..|xs| - 1];
      var last := xs[|xs| - 1];
      assert forall x :: x in xs <==> x in init || x == last by {
        assert xs == init + [last];
      }
      var d := Distinct(init);
      if last in d then d else d + [last]
  }

  /** Applying de-duplication twice is the same as once. */
  lemma {:induction false} DistinctIdempotent(xs: seq<string>)
    requires NoDuplicates(xs)
    ensures Distinct(xs) == xs
    decreases |xs|
  {
    if xs != [] {
      var init := xs[..|xs| - 1];
      assert NoDuplicates(init);
      DistinctIdempotent(init);
      assert xs[|xs| - 1] !in init;
      assert init + [xs[|xs| - 1]] == xs;
    }
  }

  function ResolveAll(lib: UrlLib, base: string, hrefs: seq<string>): (r: seq<string>)
    ensures |r| == |hrefs|
    ensures forall i :: 0 <= i < |hrefs| ==> r[i] == Resolve(lib, base, hrefs[i])
  {
    seq(|hrefs|, i requires 0 <= i < |hrefs| => Resolve(lib, base, hrefs[i]))
  }

  /** `get_links`: the resolved hrefs without repeats. The source returns
      `list(set(links))`, whose order Python leaves open; the model keeps
      first occurrences in document order. */
  function GetLinks(lib: UrlLib, base: string, hrefs: seq<string>): (r: seq<string>)
    ensures NoDuplicates(r)
    ensures forall u :: u in r <==> exists i :: 0 <= i < |hrefs| && Resolve(lib, base, hrefs[i]) == u
  {
    var all := ResolveAll(lib, base, hrefs);
    assert forall u :: u in all <==> exists i :: 0 <= i < |hrefs| && Resolve(lib, base, hrefs[i]) == u by {
      forall u | u in all
        ensures exists i :: 0 <= i < |hrefs| && Resolve(lib, base, hrefs[i]) == u
      {
        var i :| 0 <= i < |all| && all[i] == u;
      }
    }
    Distinct(all)
  }

  // ---------- the bundle ----------

  function ListOrEmpty<T>(x: Option<seq<T>>): seq<T> {
    if x.Some? then x.value else []
  }

  /** `scrape_all` for the site at `url`, normalised as the constructor
      does. Every one of the eight keys is present: the list- and
      dictionary-valued ones always hold a value (possibly empty), the
      policy texts and the about text may be null. */
  function ScrapeAll(lib: UrlLib, url: string, pages: Pages): (b: RawBundle)
    ensures b.products == Some(GetProducts(pages.productsJson))
    ensures b.privacyPolicy == pages.privacyText && b.refundPolicy == pages.refundText
    ensures b.faqs.Some? && b.socialHandles.Some? && b.contactDetails.Some? && b.links.Some?
    ensures b.about == FirstPage(pages.aboutPage, pages.aboutAlt)
    ensures pages.homepage.None? ==> b.socialHandles == Some([]) && b.links == Some([])
  {
    var base := NormalizeBase(url);
    var hrefs := ListOrEmpty(pages.homepage);
    RawBundle(
      products := Some(GetProducts(pages.productsJson)),
      privacyPolicy := pages.privacyText,
      refundPolicy := pages.refundText,
      faqs := Some(GetFaqs(pages)),
      socialHandles := Some(GetSocialHandles(hrefs)),
      contactDetails := Some(GetContactDetails(FirstPage(pages.contactPage, pages.contactAlt))),
      about := FirstPage(pages.aboutPage, pages.aboutAlt),
      links := Some(GetLinks(lib, base, hrefs)))
  }

  /** Scraping and then normalising the same url: the profile's catalog has
      one product per listed record, its website url is the scraper's base,
      and its social handles name each platform at most once. */
  lemma ScrapeThenParse(lib: UrlLib, url: string, brandName: Option<string>, pages: Pages)
    ensures var c := Parser.BuildBrandContext(lib, url, brandName, ScrapeAll(lib, url, pages));
      && |c.productCatalog| == |GetProducts(pages.productsJson)|
      && c.websiteUrl == NormalizeBase(url)
      && PlatformsDistinct(c.socialHandles)
  {
    SocialsParseDistinct(ListOrEmpty(pages.homepage));
  }
}
