/** The profile the normaliser produces and the repository consumes, and
    the raw bundle the extractors hand to the normaliser. URLs are carried
    as strings; their validation as HTTP URLs is not modelled. */
module Schemas {
  import opened Wrappers
  import opened DbModels

  datatype Product = Product(
    id: Option<int>,
    title: string,
    url: Option<string>,
    handle: Option<string>,
    price: Option<Price>,
    currency: Option<string>,
    isHero: bool,
    imageUrl: Option<string>,
    vendor: Option<string>,
    productType: Option<string>,
    description: Option<string>)

  datatype Policy = Policy(policyType: PolicyType, url: Option<string>, content: Option<string>)

  datatype Faq = Faq(question: string, answer: Option<string>, url: Option<string>)

  datatype SocialHandle = SocialHandle(platform: SocialPlatform, handleOrUrl: string)

  datatype ContactDetail = ContactDetail(contactType: ContactType, value: string)

  datatype ImportantLink = ImportantLink(linkType: LinkType, url: string, labelText: Option<string>)

  datatype BrandContext = BrandContext(
    brandName: Option<string>,
    websiteUrl: string,
    about: Option<string>,
    productCatalog: seq<Product>,
    heroProducts: seq<Product>,
    policies: seq<Policy>,
    faqs: seq<Faq>,
    socialHandles: seq<SocialHandle>,
    contactDetails: seq<ContactDetail>,
    importantLinks: seq<ImportantLink>)

  // ---------- the raw bundle ----------

  /** One variant of a storefront product: its price already converted to
      a number (or absent when the text did not convert) and its currency. */
  datatype Variant = Variant(price: Option<Price>, currency: Option<string>)

  /** One record of the storefront's product listing. `images` holds the
      `src` of each image, in order. */
  datatype RawProduct = RawProduct(
    id: Option<int>,
    handle: Option<string>,
    title: Option<string>,
    vendor: Option<string>,
    productType: Option<string>,
    bodyHtml: Option<string>,
    variants: seq<Variant>,
    images: seq<Option<string>>)

  datatype RawFaq = RawFaq(question: Option<string>, answer: Option<string>)

  /** The contact dictionary: each of its two keys may be absent or null. */
  datatype ContactMap = ContactMap(email: Option<string>, phone: Option<string>)

  /** The scrape bundle. Each field is `None` when its key is missing or its
      value is null; the social dictionary is its list of (key, value) items
      in insertion order. */
  datatype RawBundle = RawBundle(
    products: Option<seq<RawProduct>>,
    privacyPolicy: Option<string>,
    refundPolicy: Option<string>,
    faqs: Option<seq<RawFaq>>,
    socialHandles: Option<seq<(string, string)>>,
    contactDetails: Option<ContactMap>,
    about: Option<string>,
    links: Option<seq<string>>)
}
