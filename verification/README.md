# Shopify insights fetcher: brand profile normaliser and store reconciler

This project models the core of a service that builds a brand profile from a
Shopify storefront and keeps it in a relational store. It has five parts:

- **Extractor fragments** (module `Scraper`, `ContactPatterns`). These cover
  the scraper's base normalisation, the `/products.json` envelope check,
  social-domain classification, link resolution and de-duplication, and the
  e-mail and phone match shapes. HTTP and HTML parsing are replaced by the
  pages already fetched and the hrefs and texts already extracted
  (`Scraper.Pages`).
- **Normaliser** (`Parser` with `Products`, `Policies`, `Faqs`, `Socials`,
  `Contacts`, `Links`, `Html`, `Urls`, `Text`). It turns a raw bundle into a
  `BrandContext`:
  - the base url is canonicalised and each raw product becomes a `Product`;
  - hero products are detected, with a fallback to the first four;
  - policies are merged by type, FAQs filtered and trimmed, social keys
    mapped onto platforms, and contacts trimmed;
  - homepage links are classified into at most one link per type, and a
    homepage link is always present.
- **Data model** (`DbModels`). It holds the four enumerations, one row type
  per table, the store `Store` (brands by website url, competitor pairs,
  the id sequence), and the unique and cascade constraints as `Valid`.
- **Reconciler** (`Persistence`, with `ProductUpsert` and the generic keyed
  upsert `Keyed`). Each `_upsert_*` pass is a pure old-rows + profile →
  new-rows function. `UpsertBrandContext` runs all passes and the final
  flush. `Ingest` is the unit of work: it commits the merged store or keeps
  the old one.
- **Competitor map** (`Competitor`). A set of `(brand id, competitor id)`
  pairs with add and remove operations that report a bool.

URL joining (`urljoin`) and path extraction (`urlparse`) are concrete only
for the cases the code relies on: an http(s) base and an absolute path
without dot segments, as in section 5.2 of RFC 3986, and a plain relative
reference whose path is itself, as in section 3.3 of RFC 3986. Every other
case goes through a `Urls.UrlLib` value passed in as a parameter.

The reconciler's title lookup is a parameter, `ProductUpsert.TitleIndex`:

- `AllTitledRows` is the code as written: every stored row with a title is
  entered in the title map.
- `HandlelessRows` is the corrected variant (see Findings).

All reconciler lemmas hold for both variants unless they name one.

## Model

| member | source | states |
|---|---|---|
| Urls.NormalizeBase | app/services/parser.py:310-313 | The result is the input, prefixed with "https://" exactly when it does not start with "http", minus a run of trailing '/' only; it never ends in '/' and starts with "http" |
| Urls.NormalizeBaseIdempotent | app/services/scraper.py:8-11 | Normalising an already normalised base changes nothing, so the scraper's and the parser's canonical bases agree |
| Urls.Join | app/services/parser.py:315-316 | Joining an absolute path onto an http(s) base gives the base's origin followed by the path |
| Urls.Absolutize | app/services/parser.py:318-321 | An href that is already an http(s) url is kept verbatim; any other is joined onto the base |
| Urls.JoinPathRoundTrip | app/services/parser.py:328-337 | The path extracted from a joined product url is the path that was joined |
| Text.OrElse | app/services/persistence.py:59-60 | `a or b`: the first value when it is a non-empty text, the second otherwise |
| Text.StripSpec | app/services/parser.py:230 | The stripped text is an infix of the input with only whitespace before and after it; it neither starts nor ends with whitespace, and is empty exactly when the input is all whitespace |
| Text.StripIdempotent | app/services/parser.py:230 | Stripping twice is stripping once |
| Text.StripLower | app/services/persistence.py:69-70 | Stripping and lower-casing commute, so the product key does not depend on their order |
| Text.ContainsIff | app/services/parser.py:289 | The substring test holds exactly when the needle occurs at some position |
| Html.CleanText | app/services/parser.py:339-346 | The stripped description holds no tag, has single spaces only, and no space at either end |
| Html.StripHtml | app/services/parser.py:339-341 | A description is produced exactly when the body html is a non-empty text |
| Html.CleanTextIdempotent | app/services/parser.py:343-346 | Stripping tags and collapsing whitespace again changes nothing |
| Html.CleanTextKeepsText | app/services/parser.py:343-345 | Text that already has no tag, single spaces and no space at either end comes out unchanged: only markup and surplus whitespace are removed |
| Html.CleanTextBetweenTags | app/services/parser.py:343-345 | The text between an opening and a closing tag survives: each tag becomes a space, and the spaces are stripped away |
| Products.ProductTitle | app/services/parser.py:111 | The title is the given title when non-empty, else the handle when non-empty, else "Untitled"; never empty |
| Products.ProductUrl | app/services/parser.py:323-326 | There is a product url exactly when the handle is non-empty, and it is the base's origin followed by "/products/" and the handle |
| Products.FirstVariant | app/services/parser.py:158-171 | Price and currency come from the first variant only; an empty currency counts as absent; no variants means neither |
| Products.ToProduct | app/services/parser.py:108-141 | Each raw record maps field by field to a product without an id, not yet a hero: the title rule, the product url of its handle, the handle, the first variant's price and currency, the first image, vendor and type as given, and the stripped body html as description |
| Products.HomepageProductPaths | app/services/parser.py:99-103 | The candidate paths are exactly the canonical paths of the homepage links that contain "/products/" |
| Products.CanonicalPath | app/services/parser.py:328-337 | A canonical path never ends in '/' and is lower-case |
| Products.OwnPageLinkDetected | app/services/parser.py:99-147 | A product whose own page url is among the homepage links is detected, for a plain base and a lower-case handle not ending in '/' |
| Products.OwnPageLinkHero | app/services/parser.py:99-147 | Such a product is flagged as a hero in the catalog and appears in the hero list |
| Products.ParseProducts | app/services/parser.py:108-156 | One product per record, in order; a product is a hero iff its lower-cased product path is among the homepage paths, or none was detected and it is among the first four; heroes are the flagged products in catalog order, non-empty iff the catalog is |
| Products.FlaggedSubsequence | app/services/parser.py:143-156 | The heroes are an order-preserving subsequence of the catalog |
| Products.FlaggedEmpty | app/services/parser.py:150-151 | The hero list is empty exactly when no product is flagged |
| Products.TrailingSlashHandleNeverDetected | app/services/parser.py:145 | A handle ending in '/' is never detected as a hero, since paths are right-stripped but the handle's path is not |
| Policies.DedupByType | app/services/parser.py:212-223 | The merged list names each type once, and names exactly the types of the input |
| Policies.DedupPrefers | app/services/parser.py:211-223 | Every kept entry comes from the input and is, for its type, the first entry with content, or the first entry of that type when none has content; the types appear in the order they first occur |
| Policies.DedupDistinct | app/services/parser.py:212-223 | A list already distinct by type is kept as it is, in order |
| Policies.ParsePolicies | app/services/parser.py:175-223 | Three to five policies, one per type: privacy iff its text is non-empty and refund likewise, each with that text; shipping, terms and return always present without content; each policy's url is its own type's path (privacy-policy, refund-policy, shipping-policy, terms-of-service, return-policy) joined onto the base; the types come in the order privacy, refund, shipping, terms, return; the result is the candidate list itself |
| Faqs.FaqOf | app/services/parser.py:229-240 | An item is dropped iff its question is blank; otherwise the question is trimmed, the answer is trimmed or absent when blank, and the url is the shared page url |
| Faqs.ParseFaqsEmpty | app/services/parser.py:229-232 | No FAQ survives exactly when every question is blank |
| Faqs.ParseFaqsAppend | app/services/parser.py:229-241 | Filtering works item by item: the FAQs of two concatenated lists are the concatenated FAQs |
| Faqs.ParseFaqsFixedPoint | app/services/parser.py:227-241 | Parsing the parsed FAQs again gives them back unchanged |
| Faqs.GuessFaqPageUrl | app/services/parser.py:348-354 | No page url iff no link, lower-cased, contains one of the FAQ markers; otherwise the first such link, absolutised |
| Faqs.FaqShapedIff | app/services/parser.py:349 | The three markers together are equivalent to containing "/faq" |
| Socials.PlatformOfKey | app/services/parser.py:246-259 | A key maps to OTHER iff it is not in the table, to TWITTER iff it is "twitter" or "x", and otherwise to the platform with that value |
| Socials.PlatformValueRoundTrip | app/services/parser.py:246-255 | Every platform's own value maps back to that platform |
| Socials.PlatformOfKeyCollision | app/services/parser.py:246-259 | Two keys map to one platform iff they are equal, are both spellings of Twitter, or are both unknown |
| Socials.ParseSocials | app/services/parser.py:256-261 | One handle per key in key order, carrying its url, with the platform of the stripped, lower-cased key |
| Socials.ParseSocialsDistinctIff | app/services/parser.py:245-261 | The handles name each platform once exactly when no two normalised keys clash; nothing de-duplicates |
| Contacts.ParseContacts | app/services/parser.py:265-273 | At most two details, email before phone; each present iff its value is not blank, with the value trimmed |
| Contacts.ContactsRoundTrip | app/services/parser.py:265-273 | Parsing the map rebuilt from parsed contacts gives the same contacts |
| Links.ClassifySpec | app/services/parser.py:288-300 | A link is order tracking iff it contains "order" and "track"; it is a contact link iff it is not order tracking and contains "/contact" or "/pages/contact"; a blog link iff neither earlier rule applies and it contains "/blog"; an FAQ link iff none of those applies and it is FAQ-shaped; an about link iff none of those applies and it contains "/pages/about" or "/about"; it is the homepage iff no substring rule applies and, lower-cased, it equals the base as written up to trailing '/'; it has no kind iff no rule applies at all; OTHER is never produced |
| Links.FirstOfKind | app/services/parser.py:281-285 | The position found is the first href of that kind, and there is none iff no href has that kind |
| Links.ParseLinks | app/services/parser.py:277-306 | Each type appears at most once, homepage always, OTHER never; a non-homepage type appears iff some href has that kind, built from the first such href |
| Links.ParseLinksBound | app/services/parser.py:277-306 | There are at most six important links |
| Links.MixedCaseBaseFallsBack | app/services/parser.py:299-304 | With a base holding upper-case letters, the base itself is not recognised as the homepage; the fallback entry is added instead |
| Parser.BuildBrandContextSpec | app/services/parser.py:32-83 | The profile carries the normalised base, the given name and about text, one product per record built against the normalised base, heroes as an order-preserving subsequence non-empty iff there are records, three to five policies, FAQs sharing the guessed page url, one social handle per key, at most two contacts, and links unique by type with a homepage |
| Parser.BuildBrandContextBaseStable | app/services/parser.py:45 | Building again from the profile's own website url gives the same profile |
| Parser.EmptyBundle | app/services/parser.py:47-83 | An empty bundle gives no products, FAQs, socials or contacts, the three placeholder policies, and the homepage link alone |
| DbModels.PolicyTypeSize | app/models/db_models.py:28-33 | The policy types are exactly five, with distinct values |
| DbModels.ContactTypeSize | app/models/db_models.py:36-38 | The contact types are exactly two, with distinct values |
| DbModels.SocialPlatformSize | app/models/db_models.py:41-49 | The platforms are exactly eight, OTHER included, with distinct values |
| DbModels.LinkTypeSize | app/models/db_models.py:52-59 | The link types are exactly seven, OTHER included, with distinct values |
| DbModels.DeleteBrand | app/models/db_models.py:85-102 | Deleting a brand removes its child rows and every competitor pair naming it on either side, keeps all other brands, and keeps the store valid |
| Keyed.LastIndexOf | app/services/persistence.py:127 | The dictionary built from rows maps a key to its last row: the position found holds the key and no later row does |
| Keyed.UpsertCount | app/services/persistence.py:129-133 | An upsert grows the table by exactly one row per incoming item whose key no earlier row has; an item matching an earlier row adds nothing |
| Keyed.UpsertKeys | app/services/persistence.py:129-133 | After an upsert a key is present iff it was present before or some incoming item has it; earlier rows keep their place |
| Keyed.UpsertUniqueIff | app/services/persistence.py:161-167 | A table unique before stays unique iff no key absent before arrives twice, since the lookup sees only earlier rows |
| Keyed.UpsertAsMap | app/services/persistence.py:127-137 | When uniqueness holds, the table read as a map equals the earlier map with each incoming item merged into its key's entry in order |
| Keyed.MapUpsertAt | app/services/persistence.py:129-137 | The value held under one key after the upsert is the earlier value with only that key's items merged in |
| Keyed.FoldField | app/services/persistence.py:134-137 | A field written only by some items ends with the value of the last item that writes it, and is unchanged when none does |
| ProductUpsert.ProductKeyOfSpec | app/services/persistence.py:65-73 | A product is keyed by its stripped, lower-cased handle exactly when the handle holds more than whitespace, else by its stripped, lower-cased title; the key is normalised, so writing it back gives the same key |
| ProductUpsert.IndexSpec | app/services/persistence.py:83-90 | A key is in the lookup iff some stored row is entered under it, and then it maps to the last such row |
| ProductUpsert.Apply | app/services/persistence.py:103-114 | An updated row takes every field from the product, except that the shopify id is kept when the product has none |
| ProductUpsert.ApplyOverwrites | app/services/persistence.py:103-114 | Two rows updated with the same product agree on every column but the shopify id, and on that too when the product has a non-zero id |
| ProductUpsert.ApplyIdempotent | app/services/persistence.py:103-114 | Updating a row twice with the same product is updating it once |
| ProductUpsert.Run | app/services/persistence.py:93-116 | A run never shrinks the table, and fails only on a duplicate product handle |
| ProductUpsert.UpsertProductsReconciled | app/services/persistence.py:75-117 | On success each stored row stays in place, untouched or carrying the last product that matched it, followed by one new row per unmatched product, in order; nothing is deleted |
| ProductUpsert.UpsertUnique | app/models/db_models.py:138 | A successful run leaves product handles unique |
| ProductUpsert.FailureSticks | app/services/persistence.py:116 | Once a per-product flush fails, the whole run fails |
| ProductUpsert.NewHandleTwiceFails | app/services/persistence.py:93-116 | Two products with one handle that no stored row matches both insert, so the run aborts |
| ProductUpsert.RerunAddsNothing | app/services/persistence.py:75-117 | When no row is entered under two keys of the catalog, a second run of the same catalog matches every product and adds no row |
| ProductUpsert.HandleKeyedRerunAddsNothing | app/services/persistence.py:83-101 | With the lookup as written, a catalog whose products all have handles adds no row on a second run |
| ProductUpsert.HandlelessRerunAddsNothing | app/services/persistence.py:83-101 | With only handle-less rows entered by title, a second run of any titled catalog adds no row |
| ProductUpsert.RerunAddsRow | app/services/persistence.py:83-101 | With the lookup as written, a concrete two-product catalog leaves one row after the first run and two after a second run of the same catalog |
| ProductUpsert.HandlelessRerunExample | app/services/persistence.py:83-101 | With handle-less title indexing, the same catalog leaves two rows after the first run, all of them matched by a second run |
| Persistence.BrandMetadata | app/services/persistence.py:44-61 | An unseen url gets a new empty brand with the next id, name and about; a known one keeps its rows and id, and name and about change only to non-empty new values |
| Persistence.UpsertPolicies | app/services/persistence.py:121-137 | Policies are keyed by type: the table grows by the new types only, keeps every earlier row, and holds a type iff it held it or the profile brings it |
| Persistence.PolicyValues | app/services/persistence.py:134-137 | A policy's url is the last given url for its type, else the old one; its content is the last non-empty content, else the old one |
| Persistence.ReplaceFaqs | app/services/persistence.py:141-151 | The FAQ rows are the incoming FAQs one for one, in order, with an empty url stored as none |
| Persistence.FaqsRoundTrip | app/services/persistence.py:141-151 | Reading the stored FAQ rows back gives exactly the incoming FAQs |
| Persistence.UpsertSocials | app/services/persistence.py:155-168 | Handles are keyed by platform: growth by new platforms only, earlier rows kept, a platform present iff it was or arrives |
| Persistence.SocialValues | app/services/persistence.py:163-168 | A platform's handle is the last incoming one for it, and untouched when none arrives |
| Persistence.UpsertContacts | app/services/persistence.py:172-185 | Contacts are keyed by type: growth by new types only, earlier rows kept, a type present iff it was or arrives |
| Persistence.ContactValues | app/services/persistence.py:180-185 | When no new type arrives twice the table stays one row per type, holding the last incoming value or the old one |
| Persistence.ContactsDuplicate | app/models/db_models.py:201-203 | Two incoming emails for a brand with none give two email rows, which nothing rejects |
| Persistence.UpsertLinks | app/services/persistence.py:189-203 | Links are keyed by type: growth by new types only, earlier rows kept, a type present iff it was or arrives |
| Persistence.LinkValues | app/services/persistence.py:197-203 | A link's url is the last incoming one; its label is the last non-empty label, else the old one; an untouched type keeps its row |
| Persistence.FlushError | app/models/db_models.py:155-220 | The final flush succeeds iff policies, socials and links each hold one row per key |
| Persistence.UpsertBrandContext | app/services/persistence.py:28-40 | On success only the profile's brand changes or appears, every other brand and every competitor pair stay as they were, and a valid store stays valid |
| Persistence.CommitValid | app/services/persistence.py:28-40 | A merged brand that passes the final flush keeps every store constraint |
| Persistence.Ingest | app/services/persistence.py:218-222 | The unit of work leaves either the merged store or, on any integrity error, the unchanged prior store; other brands and competitor pairs are untouched and validity is kept |
| Persistence.CommittedBrandRow | app/services/persistence.py:44-61 | The committed brand keeps its id when known, takes the next id when new, and takes name and about only when the new ones are non-empty |
| Persistence.CommittedProducts | app/services/persistence.py:75-117 | The committed products are the stored rows, updated only where a product matched, then one row per unmatched product |
| Persistence.CommittedPolicies | app/services/persistence.py:121-137 | The committed policies are unique by type, and url and content follow the last-given rules |
| Persistence.CommittedFaqs | app/services/persistence.py:141-151 | The committed FAQs are exactly the profile's FAQs, whatever the brand held before |
| Persistence.CommittedSocials | app/services/persistence.py:155-168 | The committed socials are unique by platform, each holding the last incoming handle or its old value |
| Persistence.CommittedLinks | app/services/persistence.py:189-203 | The committed links are unique by type with the url and label rules above |
| Persistence.NewPlatformTwiceRollsBack | app/services/persistence.py:155-168 | A profile naming a new platform twice breaks the platform constraint, and the unit of work leaves the store unchanged |
| Competitor.AddCompetitor | app/services/competitor.py:39-57 | Reports true iff the pair was absent; afterwards the pair is present, nothing else changes, and an existing pair leaves the store as it was |
| Competitor.RemoveCompetitor | app/services/competitor.py:59-76 | Reports true iff the pair was present; afterwards it is absent, nothing else changes, and an absent pair leaves the store as it was |
| Competitor.AddTwice | app/services/competitor.py:43-52 | A second identical add reports false and changes nothing |
| Competitor.AddRemoveInverse | app/services/competitor.py:39-76 | Adding then removing a new pair restores the store, and removing then re-adding an existing pair restores it too |
| Competitor.CompetitorsAfterAdd | app/services/competitor.py:18-37 | The competitors of a brand are exactly the brands paired with it: adding a pair adds that brand and no other, removing it takes exactly that brand away |
| Competitor.PairsKeepValid | app/models/db_models.py:234 | Adding or removing pairs keeps the store valid |
| ContactPatterns.Search | app/services/scraper.py:91-97 | A match has the pattern's shape and occurs in the text; there is none iff no piece of the text has the shape |
| ContactPatterns.LeftmostFrom | app/services/scraper.py:91-97 | The match starts at the leftmost position where a piece has the shape, and is the longest piece there |
| ContactPatterns.GetContactDetails | app/services/scraper.py:84-98 | Nothing without a contact page; otherwise at most one email and one phone, each shaped like its pattern, found in the page, and absent only when no piece of the page matches |
| ContactPatterns.PhoneMatchFacts | app/services/scraper.py:95 | A phone match has at least nine characters after any '+', and starts and ends with a digit |
| ContactPatterns.PhoneMatchChars | app/services/scraper.py:95 | A phone match holds only digits, dashes and whitespace, apart from one leading '+' |
| ContactPatterns.ShortTextNoPhone | app/services/scraper.py:95 | Text shorter than nine characters yields no phone |
| ContactPatterns.WholePhoneFound | app/services/scraper.py:95-97 | A text that is a phone number as a whole is found whole |
| ContactPatterns.EmailOneAt | app/services/scraper.py:91 | An email match has exactly one '@', which splits local part from domain |
| Scraper.GetProducts | app/services/scraper.py:35-39 | No payload, or one without a "products" key, gives an empty list; otherwise that list unchanged |
| Scraper.GetFaqs | app/services/scraper.py:49-60 | The first FAQ page found yields one raw FAQ per heading and paragraph pair, in order; no page gives none |
| Scraper.FirstDomain | app/services/scraper.py:68-81 | An href is filed under the first platform, in the code's order, whose domain it contains, and under none iff it contains none |
| Scraper.Assign | app/services/scraper.py:71-81 | Assigning into the dictionary keeps keys distinct, keeps the other entries and their order, and leaves the key holding the new value |
| Scraper.FileAll | app/services/scraper.py:67-82 | A platform has an entry iff some href was filed under it, and its value is the last such href |
| Scraper.GetSocialHandles | app/services/scraper.py:62-82 | Only the six platform keys are produced, each once, each holding the last href filed under it |
| Scraper.SocialsParseDistinct | app/services/parser.py:245-261 | The scraper's social dictionary parses into handles naming each platform once |
| Scraper.Resolve | app/services/scraper.py:114-116 | An href starting with '/' is joined onto the base, any other is kept verbatim |
| Scraper.Distinct | app/services/scraper.py:118 | De-duplication keeps exactly the urls that occur, each once |
| Scraper.DistinctIdempotent | app/services/scraper.py:118 | A list without duplicates is kept as it is |
| Scraper.GetLinks | app/services/scraper.py:107-118 | The links hold no duplicate, and a url is among them iff it is some resolved href |
| Scraper.ScrapeAll | app/services/scraper.py:121-132 | The bundle always has its eight keys: list and dictionary entries are always present, policy texts and about pass through, and no homepage means no socials and no links |
| Scraper.ScrapeThenParse | app/routes/brand.py:23-42 | Scraping then parsing gives one product per listed record, the scraper's normalised base as website url, and each social platform once |

## Left out

- HTTP fetching, timeouts and status codes are not modelled: each fetch is an optional page already retrieved (`Scraper.Pages`). The homepage is fetched twice by the code (socials and links); the model uses one snapshot for both.
- BeautifulSoup parsing and text extraction are not modelled: a page is given as its hrefs, its text, or its (heading, next paragraph) pairs.
- Float price parsing is not modelled: a price is an opaque `real` that is only copied.
- Pydantic validation (`HttpUrl`) is not modelled: the profile's urls are strings, and a url given as "present" is one that is a non-empty text.
- `urljoin` and `urlparse` outside an http(s) base with an absolute, dot-free path stay abstract behind `Urls.UrlLib`.
- `str.lower`, `\d` and `\s` are ASCII-only in the model. Python's Unicode case mapping and digit classes are not modelled; the whitespace set is Python's.
- Urls.UrlPath: states only that a plain relative reference is its own path; other urls go through the library.
- Session mechanics (flush, refresh, `synchronize_session`), timestamps, the `CrawlLog` table, string length limits and foreign-key enforcement are not modelled. The order of rows returned by a query is taken to be insertion order.
- The id sequence is restored on rollback, whereas a database sequence may skip ids; only distinctness of ids matters to the constraints.
- The final flush reports one integrity error; which one a database would name first is not modelled, only that some error aborts the ingestion.
- Products.OwnPageLinkDetected: proved for a plain http(s) base and a lower-case handle that does not end in '/'. A handle ending in '/' is never detected (`Products.TrailingSlashHandleNeverDetected`). Links with upper-case letters or query strings are covered only by the general characterisation of `Products.HomepageProductPaths`.
- Scraper.GetLinks: `list(set(links))` has no defined order; the model keeps first occurrences in href order, and states only membership and absence of duplicates.
- ContactPatterns.Search: the regular expression search is modelled as leftmost-longest over the pattern's shape. For these two patterns, whose repeated classes are greedy and followed only by a class they contain or a fixed tail, this is what the backtracking search returns; the general regex engine is not modelled.
- Routes, application wiring, configuration and the database engine are not modelled, nor is concurrency between simultaneous ingestions.
- JSON payloads that are not objects, or product records that are not dictionaries, are not modelled: the payload is an optional map from keys to raw product lists.

## Findings

| source | as written | input that shows it | evidently intended | confidence | as-written member | corrected member |
|---|---|---|---|---|---|---|
| app/services/persistence.py:83-101 | Every stored row with a title is entered in the title map, including rows that have a handle, so a handle-less product can update a row that another product of the same catalog matched by handle | Stored row (title "t", handle "h"); catalog [(title "a", handle "h"), (title "t", no handle)]. The first run updates the row twice and leaves it without a handle; running the same catalog again inserts a second row | Re-running an identical catalog adds no rows, which holds when only handle-less rows are entered in the title map | not executed | ProductUpsert.RerunAddsRow | ProductUpsert.HandlelessRerunAddsNothing |

The reconciler is parameterised by `ProductUpsert.TitleIndex`, so both the
code as written (`AllTitledRows`) and the corrected lookup
(`HandlelessRows`) are available. Every `Persistence` result holds for
either. `ProductUpsert.HandlelessRerunExample` runs the finding's catalog
through the corrected lookup. `ProductUpsert.HandleKeyedRerunAddsNothing`
shows that the code as written is stable when every product has a handle.
