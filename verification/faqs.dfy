/** The normaliser's FAQ pass (`_parse_faqs`) and the choice of the FAQ page
    url every entry shares (`_guess_faq_page_url`). */
module Faqs {
  import opened Wrappers
  import opened Text
  import opened Urls
  import opened Schemas

  /** What every parsed entry satisfies: a trimmed question, a trimmed
      answer or none, and the shared page url. */
  predicate EntryOk(f: Faq, url: Option<string>) {
    Trimmed(f.question) && f.url == url && (f.answer.Some? ==> Trimmed(f.answer.value))
  }

  predicate Blank(item: RawFaq) {
    AllSpace(TextOf(item.question))
  }

  /** The entry one raw item yields: none when the trimmed question is
      empty; otherwise the trimmed question and the trimmed answer, an empty
      answer becoming none. */
  function FaqOf(item: RawFaq, url: Option<string>): (r: Option<Faq>)
    ensures r.None? <==> Blank(item)
    ensures r.Some? ==> EntryOk(r.value, url)
    ensures r.Some? ==> r.value.question == Strip(TextOf(item.question))
    ensures r.Some? ==> (r.value.answer.None? <==> AllSpace(TextOf(item.answer)))
    ensures r.Some? && r.value.answer.Some? ==> r.value.answer.value == Strip(TextOf(item.answer))
  {
    var q := Strip(TextOf(item.question));
    if q == "" then None
    else
      var a := Strip(TextOf(item.answer));
      Some(Faq(q, if a == "" then None else Some(a), url))
  }

  /** `_parse_faqs`. */
  function ParseFaqs(raws: seq<RawFaq>, url: Option<string>): (r: seq<Faq>)
    ensures |r| <= |raws|
    ensures forall i :: 0 <= i < |r| ==> EntryOk(r[i], url)
    decreases |raws|
  {
    if raws == [] then []
    else
      var rest := ParseFaqs(raws[1..], url);
      match FaqOf(raws[0], url)
      case Some(f) => [f] + rest
      case None => rest
  }

  /** No entry comes out exactly when every question is blank. */
  lemma {:induction false} ParseFaqsEmpty(raws: seq<RawFaq>, url: Option<string>)
    ensures ParseFaqs(raws, url) == [] <==> forall i :: 0 <= i < |raws| ==> Blank(raws[i])
    decreases |raws|
  {
    if raws != [] {
      ParseFaqsEmpty(raws[1..], url);
      assert forall i :: 1 <= i < |raws| ==> raws[i] == raws[1..][i - 1];
    }
  }

  /** Parsing distributes over concatenation: entries keep input order. */
  lemma {:induction false} ParseFaqsAppend(a: seq<RawFaq>, b: seq<RawFaq>, url: Option<string>)
    ensures ParseFaqs(a + b, url) == ParseFaqs(a, url) + ParseFaqs(b, url)
    decreases |a|
  {
    if a != [] {
      assert (a + b)[1..] == a[1..] + b;
      assert (a + b)[0] == a[0];
      ParseFaqsAppend(a[1..], b, url);
      match FaqOf(a[0], url)
      case Some(f) =>
        assert ParseFaqs(a + b, url) == [f] + ParseFaqs(a[1..] + b, url);
        assert ParseFaqs(a, url) == [f] + ParseFaqs(a[1..], url);
      case None =>
        assert ParseFaqs(a + b, url) == ParseFaqs(a[1..] + b, url);
        assert ParseFaqs(a, url) == ParseFaqs(a[1..], url);
    } else {
      assert a + b == b;
    }
  }

  function ToRaw(f: Faq): RawFaq {
    RawFaq(Some(f.question), f.answer)
  }

  function ToRaws(fs: seq<Faq>): (r: seq<RawFaq>)
    ensures |r| == |fs|
    decreases |fs|
  {
    if fs == [] then [] else [ToRaw(fs[0])] + ToRaws(fs[1..])
  }

  lemma ReparseEntry(f: Faq, url: Option<string>)
    requires EntryOk(f, url)
    ensures FaqOf(ToRaw(f), url) == Some(f)
  {
    StripClean(f.question);
    assert !IsSpace(f.question[0]);
    if f.answer.Some? {
      StripClean(f.answer.value);
      assert !IsSpace(f.answer.value[0]);
    }
  }

  lemma {:induction false} ReparseEntries(r: seq<Faq>, url: Option<string>)
    requires forall i :: 0 <= i < |r| ==> EntryOk(r[i], url)
    ensures ParseFaqs(ToRaws(r), url) == r
    decreases |r|
  {
    if r != [] {
      assert forall i :: 0 <= i < |r[1..]| ==> r[1..][i] == r[i + 1];
      ReparseEntries(r[1..], url);
      ReparseEntry(r[0], url);
      var raws := ToRaws(r);
      assert raws[0] == ToRaw(r[0]) && raws[1..] == ToRaws(r[1..]);
    }
  }

  /** Feeding parsed entries back through the parser changes nothing: every
      question survives and trimming is idempotent. */
  lemma ParseFaqsFixedPoint(raws: seq<RawFaq>, url: Option<string>)
    ensures ParseFaqs(ToRaws(ParseFaqs(raws, url)), url) == ParseFaqs(raws, url)
  {
    ReparseEntries(ParseFaqs(raws, url), url);
  }

  // ---------- the FAQ page ----------

  /** Some FAQ candidate ("/pages/faq", "/pages/faqs", "/faq") occurs in the
      lower-cased link. */
  predicate FaqShaped(low: string) {
    Contains(low, "/pages/faq") || Contains(low, "/pages/faqs") || Contains(low, "/faq")
  }

  /** The three candidates collapse to one: every candidate contains "/faq". */
  lemma FaqShapedIff(low: string)
    ensures FaqShaped(low) <==> Contains(low, "/faq")
  {
    assert OccursAt("/pages/faq", "/faq", 6);
    ContainsAt("/pages/faq", "/faq", 6);
    assert OccursAt("/pages/faqs", "/faq", 6);
    ContainsAt("/pages/faqs", "/faq", 6);
    if Contains(low, "/pages/faq") {
      ContainsTrans(low, "/pages/faq", "/faq");
    }
    if Contains(low, "/pages/faqs") {
      ContainsTrans(low, "/pages/faqs", "/faq");
    }
  }

  /** `links[i]` is the first FAQ-shaped link. */
  predicate FirstFaqLink(links: seq<string>, i: int) {
    0 <= i < |links| && FaqShaped(Lower(links[i])) && forall j :: 0 <= j < i ==> !FaqShaped(Lower(links[j]))
  }

  /** `_guess_faq_page_url`: the first FAQ-shaped link, absolutised. */
  function GuessFaqPageUrl(lib: UrlLib, base: string, links: seq<string>): (r: Option<string>)
    ensures r.None? <==> forall i :: 0 <= i < |links| ==> !FaqShaped(Lower(links[i]))
    ensures r.Some? ==> exists i :: FirstFaqLink(links, i) && r.value == Absolutize(lib, base, links[i])
    decreases |links|
  {
    if links == [] then None
    else if FaqShaped(Lower(links[0])) then
      assert FirstFaqLink(links, 0);
      Some(Absolutize(lib, base, links[0]))
    else
      var r := GuessFaqPageUrl(lib, base, links[1..]);
      FaqLinkTail(links);
      if r.Some? then
        var i :| FirstFaqLink(links[1..], i) && r.value == Absolutize(lib, base, links[1..][i]);
        assert links[1..][i] == links[i + 1];
        r
      else r
  }

  /** Past a link that is not FAQ-shaped, the first FAQ link of the rest is
      the first of the whole, one place later. */
  lemma FaqLinkTail(links: seq<string>)
    requires links != [] && !FaqShaped(Lower(links[0]))
    ensures forall i :: FirstFaqLink(links[1..], i) ==> FirstFaqLink(links, i + 1)
    ensures (forall i :: 0 <= i < |links| ==> !FaqShaped(Lower(links[i]))) <==>
      (forall i :: 0 <= i < |links[1..]| ==> !FaqShaped(Lower(links[1..][i])))
  {
    assert forall i :: 1 <= i < |links| ==> links[i] == links[1..][i - 1];
  }
}
