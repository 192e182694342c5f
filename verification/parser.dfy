/** The normaliser's entry point (`build_brand_context`): canonicalise the
    base, run every pass over the scrape bundle, and assemble the profile. */
module Parser {
  import opened Wrappers
  import opened Text
  import opened Urls
  import opened Schemas
  import opened Products
  import opened Policies
  import opened Faqs
  import opened Socials
  import opened Contacts
  import opened Links

  /** `bundle.get(key, []) or []`: a missing or null list is empty. */
  function ListOr<T>(x: Option<seq<T>>): (r: seq<T>)
    ensures x.Some? ==> r == x.value
    ensures x.None? ==> r == []
  {
    if x.Some? then x.value else []
  }

  /** `bundle.get("contact_details", {}) or {}`. */
  function ContactsOr(x: Option<ContactMap>): (r: ContactMap)
    ensures x.Some? ==> r == x.value
    ensures x.None? ==> r.email.None? && r.phone.None?
  {
    if x.Some? then x.value else ContactMap(None, None)
  }

  /** `build_brand_context`. */
  function BuildBrandContext(lib: UrlLib, baseUrl: string, brandName: Option<string>, bundle: RawBundle)
    : BrandContext
  {
    var base := NormalizeBase(baseUrl);
    var links := ListOr(bundle.links);
    var (catalog, heroes) := ParseProducts(lib, base, ListOr(bundle.products), links);
    BrandContext(
      brandName := brandName,
      websiteUrl := base,
      about := bundle.about,
      productCatalog := catalog,
      heroProducts := heroes,
      policies := ParsePolicies(lib, base, bundle.privacyPolicy, bundle.refundPolicy),
      faqs := ParseFaqs(ListOr(bundle.faqs), GuessFaqPageUrl(lib, base, links)),
      socialHandles := ParseSocials(ListOr(bundle.socialHandles)),
      contactDetails := ParseContacts(ContactsOr(bundle.contactDetails)),
      importantLinks := ParseLinks(lib, base, links))
  }

  /** What the assembled profile keeps of each pass. */
  lemma BuildBrandContextSpec(lib: UrlLib, baseUrl: string, brandName: Option<string>, bundle: RawBundle)
    ensures var c := BuildBrandContext(lib, baseUrl, brandName, bundle);
      && c.websiteUrl == NormalizeBase(baseUrl)
      && c.brandName == brandName && c.about == bundle.about
      && |c.productCatalog| == |ListOr(bundle.products)|
      && (forall i :: 0 <= i < |c.productCatalog| ==>
            c.productCatalog[i].(isHero := false) == ToProduct(lib, c.websiteUrl, ListOr(bundle.products)[i]))
      && c.heroProducts == Flagged(c.productCatalog) && SubsequenceOf(c.heroProducts, c.productCatalog)
      && (c.heroProducts == [] <==> ListOr(bundle.products) == [])
      && PolicyFacts(c.policies, bundle.privacyPolicy, bundle.refundPolicy)
      && |c.faqs| <= |ListOr(bundle.faqs)|
      && (forall i :: 0 <= i < |c.faqs| ==>
            EntryOk(c.faqs[i], GuessFaqPageUrl(lib, c.websiteUrl, ListOr(bundle.links))))
      && |c.socialHandles| == |ListOr(bundle.socialHandles)|
      && |c.contactDetails| <= 2
      && LinkTypesDistinct(c.importantLinks)
      && HasLinkType(c.importantLinks, DbModels.Homepage) && !HasLinkType(c.importantLinks, DbModels.OtherLink)
  {
  }

  /** Every pass sees only the normalised base, and normalising is
      idempotent: building the profile again from its own website url gives
      the same profile. */
  lemma BuildBrandContextBaseStable(lib: UrlLib, baseUrl: string, brandName: Option<string>, bundle: RawBundle)
    ensures var c := BuildBrandContext(lib, baseUrl, brandName, bundle);
      BuildBrandContext(lib, c.websiteUrl, brandName, bundle) == c
  {
    NormalizeBaseIdempotent(baseUrl);
  }

  /** The profile of an empty bundle: no products, no FAQs, no socials, no
      contacts, the three placeholder policies and the homepage link alone. */
  lemma EmptyBundle(lib: UrlLib, baseUrl: string)
    ensures var c := BuildBrandContext(lib, baseUrl, None, RawBundle(None, None, None, None, None, None, None, None));
      && c.productCatalog == [] && c.heroProducts == [] && c.faqs == []
      && c.socialHandles == [] && c.contactDetails == [] && |c.policies| == 3
      && c.importantLinks == [HomepageLink(lib, NormalizeBase(baseUrl))]
  {
    var base := NormalizeBase(baseUrl);
    EmptyPasses(lib, base);
    assert BuildBrandContext(lib, baseUrl, None, RawBundle(None, None, None, None, None, None, None, None))
      == BrandContext(None, base, None, [], [], ParsePolicies(lib, base, None, None), [], [], [], [HomepageLink(lib, base)]);
  }

  /** Each pass on empty input. */
  lemma EmptyPasses(lib: UrlLib, base: string)
    ensures ParseProducts(lib, base, [], []) == ([], [])
    ensures forall u :: ParseFaqs([], u) == []
    ensures ParseSocials([]) == []
    ensures ParseContacts(ContactMap(None, None)) == []
    ensures |ParsePolicies(lib, base, None, None)| == 3
    ensures ParseLinks(lib, base, []) == [HomepageLink(lib, base)]
  {
    ParseLinksEmpty(lib, base);
    NoContacts();
  }

  /** No links: the homepage entry alone, from the base. */
  lemma ParseLinksEmpty(lib: UrlLib, base: string)
    ensures ParseLinks(lib, base, []) == [HomepageLink(lib, base)]
  {
    var empty: seq<ImportantLink> := [];
    assert Scan(lib, base, []) == empty;
    assert !HasLinkType(empty, DbModels.Homepage);
  }

  /** No contact map: no contact rows. */
  lemma NoContacts()
    ensures ParseContacts(ContactMap(None, None)) == []
  {
    assert Strip(TextOf(None)) == "";
  }
}
