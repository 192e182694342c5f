/** The normaliser's contact pass (`_parse_contacts`): the trimmed email and
    the trimmed phone of the contact dictionary, each kept only when it is
    not empty, email first. */
module Contacts {
  import opened Wrappers
  import opened Text
  import opened DbModels
  import opened Schemas

  predicate HasContactType(cs: seq<ContactDetail>, t: ContactType) {
    exists i :: 0 <= i < |cs| && cs[i].contactType == t
  }

  /** The single-entry list for one dictionary value: nothing when the
      trimmed text is empty. */
  function Entry(t: ContactType, v: Option<string>): (r: seq<ContactDetail>)
    ensures |r| <= 1
    ensures r == [] <==> AllSpace(TextOf(v))
    ensures r != [] ==> r[0].contactType == t && Trimmed(r[0].value) && r[0].value == Strip(TextOf(v))
  {
    var s := Strip(TextOf(v));
    if s == "" then [] else [ContactDetail(t, s)]
  }

  /** `_parse_contacts`. */
  function ParseContacts(cm: ContactMap): (r: seq<ContactDetail>)
    ensures |r| <= 2
    ensures HasContactType(r, Email) <==> !AllSpace(TextOf(cm.email))
    ensures HasContactType(r, Phone) <==> !AllSpace(TextOf(cm.phone))
    ensures forall i :: 0 <= i < |r| ==> Trimmed(r[i].value)
    ensures forall i :: 0 <= i < |r| && r[i].contactType == Email ==> r[i].value == Strip(TextOf(cm.email))
    ensures forall i :: 0 <= i < |r| && r[i].contactType == Phone ==> r[i].value == Strip(TextOf(cm.phone))
    ensures |r| == 2 ==> r[0].contactType == Email && r[1].contactType == Phone
  {
    var e := Entry(Email, cm.email);
    var p := Entry(Phone, cm.phone);
    var r := e + p;
    assert forall i :: 0 <= i < |e| ==> r[i] == e[i];
    assert forall i :: |e| <= i < |r| ==> r[i] == p[i - |e|];
    assert p != [] ==> r[|e|] == p[0];
    r
  }

  /** The dictionary a contact list describes: the value of each type it
      holds, or nothing. */
  function ToMap(cs: seq<ContactDetail>): ContactMap {
    ContactMap(ValueOf(cs, Email), ValueOf(cs, Phone))
  }

  function ValueOf(cs: seq<ContactDetail>, t: ContactType): (r: Option<string>)
    ensures r.Some? <==> HasContactType(cs, t)
    ensures r.Some? ==> exists i :: 0 <= i < |cs| && cs[i].contactType == t && cs[i].value == r.value
    decreases |cs|
  {
    if cs == [] then None
    else if cs[0].contactType == t then Some(cs[0].value)
    else
      var r := ValueOf(cs[1..], t);
      assert forall i :: 1 <= i < |cs| ==> cs[i] == cs[1..][i - 1];
      r
  }

  /** Parsing the dictionary that the parsed contacts describe gives the same
      contacts back: the values are already trimmed and non-empty, and each
      type occurs at most once. */
  lemma ContactsRoundTrip(cm: ContactMap)
    ensures ParseContacts(ToMap(ParseContacts(cm))) == ParseContacts(cm)
  {
    var r := ParseContacts(cm);
    var m := ToMap(r);
    var e := Strip(TextOf(cm.email));
    var p := Strip(TextOf(cm.phone));
    if m.email.Some? {
      assert m.email.value == e;
      StripClean(e);
    }
    if m.phone.Some? {
      assert m.phone.value == p;
      StripClean(p);
    }
    assert m.email.Some? <==> e != "";
    assert m.phone.Some? <==> p != "";
  }
}
