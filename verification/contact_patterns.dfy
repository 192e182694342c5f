/** The scraper's contact extraction (`get_contact_details`): the first
    email-shaped and the first phone-shaped piece of the contact page's
    text. The two patterns are stated as predicates on the matched text;
    the search returns the leftmost match, extended as far as it goes. */
module ContactPatterns {
  import opened Wrappers
  import opened Text
  import opened Schemas

  predicate IsDigit(c: char) {
    '0' <= c <= '9'
  }

  predicate IsLetter(c: char) {
    'a' <= c <= 'z' || 'A' <= c <= 'Z'
  }

  /** `[\d\-\s]`. */
  predicate PhoneBodyChar(c: char) {
    IsDigit(c) || c == '-' || IsSpace(c)
  }

  /** `\d[\d\-\s]{7,}\d`: a digit, at least seven digits, dashes or spaces,
      and a final digit. */
  predicate PhoneDigits(t: string) {
    |t| >= 9 && IsDigit(t[0]) && IsDigit(t[|t| - 1]) &&
    forall k :: 0 < k < |t| - 1 ==> PhoneBodyChar(t[k])
  }

  /** `\+?\d[\d\-\s]{7,}\d`. */
  predicate PhoneShape(s: string) {
    PhoneDigits(s) || (|s| > 0 && s[0] == '+' && PhoneDigits(s[1..]))
  }

  /** `[A-Za-z0-9._%+-]`. */
  predicate LocalChar(c: char) {
    IsLetter(c) || IsDigit(c) || c in "._%+-"
  }

  /** `[A-Za-z0-9.-]`. */
  predicate DomainChar(c: char) {
    IsLetter(c) || IsDigit(c) || c == '.' || c == '-'
  }

  /** `s[..at]` is a local part, `s[at]` the '@', `s[at + 1..dot]` a domain,
      `s[dot]` a '.', and the rest at least two letters. */
  predicate EmailSplit(s: string, at: int, dot: int) {
    && 0 < at && at + 1 < dot && dot + 3 <= |s|
    && s[at] == '@' && s[dot] == '.'
    && (forall k :: 0 <= k < at ==> LocalChar(s[k]))
    && (forall k :: at < k < dot ==> DomainChar(s[k]))
    && (forall k :: dot < k < |s| ==> IsLetter(s[k]))
  }

  /** `[A-Za-z0-9._%+-]+@[A-Za-z0-9.-]+\.[A-Za-z]{2,}`. */
  predicate EmailShape(s: string) {
    exists at, dot :: 0 < at < |s| && 0 < dot < |s| && EmailSplit(s, at, dot)
  }

  /** The largest end `e` with `i <= e <= j` such that `text[i..e]` has the
      shape. */
  function LongestFrom(text: string, i: nat, j: nat, shape: string -> bool): (r: Option<nat>)
    requires i <= j <= |text|
    ensures r.Some? ==> i <= r.value <= j && shape(text[i..r.value])
    ensures r.Some? ==> forall e :: r.value < e <= j ==> !shape(text[i..e])
    ensures r.None? ==> forall e :: i <= e <= j ==> !shape(text[i..e])
    decreases j - i
  {
    if shape(text[i..j]) then Some(j)
    else if j == i then None
    else LongestFrom(text, i, j - 1, shape)
  }

  /** No piece of `text` starting at or after `i` has the shape. */
  predicate NoneFrom(text: string, i: nat, shape: string -> bool) {
    forall s, e :: i <= s <= e <= |text| ==> !shape(text[s..e])
  }

  /** The leftmost start at or after `i` where a piece has the shape, with
      the longest such piece there. */
  function LeftmostFrom(text: string, i: nat, shape: string -> bool): (r: Option<(nat, nat)>)
    requires i <= |text|
    ensures r.Some? ==> i <= r.value.0 <= r.value.1 <= |text| && shape(text[r.value.0..r.value.1])
    ensures r.Some? ==> forall s, e :: i <= s < r.value.0 && s <= e <= |text| ==> !shape(text[s..e])
    ensures r.Some? ==> forall e :: r.value.1 < e <= |text| ==> !shape(text[r.value.0..e])
    ensures r.None? <==> NoneFrom(text, i, shape)
    decreases |text| - i
  {
    match LongestFrom(text, i, |text|, shape)
    case Some(e) => Some((i, e))
    case None =>
      if i == |text| then None
      else
        LeftmostFrom(text, i + 1, shape)
  }

  /** `re.search(pattern, text).group(0)`, or none. */
  function Search(text: string, shape: string -> bool): (r: Option<string>)
    ensures r.Some? ==> shape(r.value) && Contains(text, r.value)
    ensures r.None? <==> NoneFrom(text, 0, shape)
  {
    match LeftmostFrom(text, 0, shape)
    case Some((s, e)) =>
      assert OccursAt(text, text[s..e], s);
      ContainsAt(text, text[s..e], s);
      Some(text[s..e])
    case None => None
  }

  /** `get_contact_details`: nothing without a contact page; otherwise the
      email match and the phone match of the page's text, each when there is
      one. */
  function GetContactDetails(page: Option<string>): (r: ContactMap)
    ensures page.None? ==> r == ContactMap(None, None)
    ensures r.email.Some? ==> EmailShape(r.email.value) && page.Some? && Contains(page.value, r.email.value)
    ensures r.phone.Some? ==> PhoneShape(r.phone.value) && page.Some? && Contains(page.value, r.phone.value)
    ensures page.Some? ==> (r.email.None? <==> NoneFrom(page.value, 0, EmailShape))
    ensures page.Some? ==> (r.phone.None? <==> NoneFrom(page.value, 0, PhoneShape))
  {
    match page
    case None => ContactMap(None, None)
    case Some(text) => ContactMap(Search(text, EmailShape), Search(text, PhoneShape))
  }

  /** A phone match starts and ends with a digit and has at least nine
      characters after an optional leading '+'. */
  lemma PhoneMatchFacts(s: string)
    requires PhoneShape(s)
    ensures |s| >= 9 && IsDigit(s[|s| - 1]) && (IsDigit(s[0]) || (s[0] == '+' && IsDigit(s[1])))
    ensures var t := if s[0] == '+' then s[1..] else s; |t| >= 9
  {
  }

  /** The pieces a phone match may consist of: one '+' at the front at most,
      and nothing but digits, dashes and whitespace elsewhere. */
  lemma PhoneMatchChars(s: string, k: nat)
    requires PhoneShape(s) && k < |s|
    ensures PhoneBodyChar(s[k]) || (k == 0 && s[k] == '+')
  {
    if !PhoneDigits(s) {
      if k > 0 {
        assert s[k] == s[1..][k - 1];
      }
    }
  }

  /** Text shorter than nine characters holds no phone number. */
  lemma ShortTextNoPhone(text: string)
    requires |text| < 9
    ensures Search(text, PhoneShape).None?
  {
    forall s, e | 0 <= s <= e <= |text|
      ensures !PhoneShape(text[s..e])
    {
      assert |text[s..e]| < 9;
    }
  }

  /** Text that is a phone number as a whole is found whole. */
  lemma WholePhoneFound(text: string)
    requires PhoneShape(text)
    ensures Search(text, PhoneShape) == Some(text)
  {
    assert text[0..|text|] == text;
  }

  /** An email match has exactly one '@', since neither the local part nor
      the domain may hold one; it splits the match into the two parts. */
  lemma EmailOneAt(s: string, i: nat)
    requires EmailShape(s) && i < |s| && s[i] == '@'
    ensures forall at, dot :: EmailSplit(s, at, dot) ==> at == i
  {
  }
}
