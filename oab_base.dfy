/** Definitions oab2google.rb shares between its parts: the managed phone
    field names, the exchange-domain test, the phone normaliser and the
    configuration the run is given. */
module Oab {
  import opened Util

  /** `PHONEFIELDS_PRIMARY`, `PHONEFIELDS_ASSISTANT` and `PHONEFIELDS`, in order. */
  const PrimaryFields: seq<string> := ["BusinessTelephoneNumber", "Business2TelephoneNumber", "MobileTelephoneNumber"]
  const AssistantFields: seq<string> := ["Assistant", "AssistantTelephoneNumber"]
  const PhoneFields: seq<string> := PrimaryFields + AssistantFields

  lemma PhoneFieldsDistinct()
    ensures NoDup(PhoneFields)
    ensures |PhoneFields| == 5
    ensures forall i :: 0 <= i < 3 ==> PhoneFields[i] == PrimaryFields[i]
    ensures forall i :: 3 <= i < 5 ==> PhoneFields[i] == AssistantFields[i - 3]
  {
    assert PhoneFields == ["BusinessTelephoneNumber", "Business2TelephoneNumber", "MobileTelephoneNumber", "Assistant", "AssistantTelephoneNumber"];
    assert "BusinessTelephoneNumber"[8] == 'T' && "Business2TelephoneNumber"[8] == '2';
    assert "Assistant" != "AssistantTelephoneNumber" by { assert |"Assistant"| != |"AssistantTelephoneNumber"|; }
  }

  /** No primary field is an assistant field. */
  lemma PrimaryNotAssistant()
    ensures forall k :: k in PrimaryFields ==> k !in AssistantFields
  {
    PhoneFieldsDistinct();
  }

  /** `EXCHANGE_DOMAIN`, `/[@\.]domain$/i`: the address ends, ignoring ASCII
      case, in "@" or "." followed by the domain. */
  predicate InExchangeDomain(address: string, domain: string) {
    var a, d := Lower(address), Lower(domain);
    EndsWith(a, "@" + d) || EndsWith(a, "." + d)
  }

  /** The same test read as a decomposition of the address. */
  ghost predicate HasDomainSuffix(address: string, domain: string) {
    exists front: string, sep: char, tail: string ::
      address == front + [sep] + tail && (sep == '@' || sep == '.') && Lower(tail) == Lower(domain)
  }

  lemma InExchangeDomainIsSuffix(address: string, domain: string)
    ensures InExchangeDomain(address, domain) <==> HasDomainSuffix(address, domain)
  {
    if InExchangeDomain(address, domain) {
      SuffixOfInExchangeDomain(address, domain);
    }
    if HasDomainSuffix(address, domain) {
      var front: string, sep: char, tail: string :|
        address == front + [sep] + tail && (sep == '@' || sep == '.') && Lower(tail) == Lower(domain);
      InExchangeDomainOfSuffix(front, sep, tail, domain);
    }
  }

  lemma SuffixOfInExchangeDomain(address: string, domain: string)
    requires InExchangeDomain(address, domain)
    ensures HasDomainSuffix(address, domain)
  {
    var a, d := Lower(address), Lower(domain);
    var k := |a| - |d| - 1;
    var s := if EndsWith(a, "@" + d) then '@' else '.';
    assert a[k..] == [s] + d;
    assert a[k] == s && a[k + 1..] == d;
    LowerCharOfPunct(address[k]);
    LowerSlice(address, k + 1);
    assert address == address[..k] + [address[k]] + address[k + 1..];
  }

  lemma InExchangeDomainOfSuffix(front: string, sep: char, tail: string, domain: string)
    requires (sep == '@' || sep == '.') && Lower(tail) == Lower(domain)
    ensures InExchangeDomain(front + [sep] + tail, domain)
  {
    var address := front + [sep] + tail;
    var a, d := Lower(address), Lower(domain);
    LowerAppend(front + [sep], tail);
    LowerAppend(front, [sep]);
    assert Lower([sep]) == [sep];
    assert a == Lower(front) + [sep] + d;
    assert a[|a| - |d| - 1..] == [sep] + d;
  }

  /** An address built as name + "@" + domain is in the domain, whatever the case of either. */
  lemma AddressInOwnDomain(name: string, domain: string)
    ensures InExchangeDomain(name + "@" + domain, domain)
  {
    LowerAppend(name + "@", domain);
    LowerAppend(name, "@");
    var a := Lower(name + "@" + domain);
    assert a == Lower(name) + Lower("@") + Lower(domain);
    assert a[|a| - |domain| - 1..] == "@" + Lower(domain);
  }

  /** The test ignores the case of the address. */
  lemma InExchangeDomainIgnoresCase(address: string, domain: string)
    ensures InExchangeDomain(Lower(address), domain) == InExchangeDomain(address, domain)
  {
    LowerIdempotent(address);
  }

  /** Phonelib as the program consults it: `valid?` and the international format. */
  datatype PhoneLib = PhoneLib(valid: string -> bool, international: string -> string)

  /** `normalize` (oab2google.rb:81-84): nil for a number Phonelib rejects. */
  function Normalize(lib: PhoneLib, number: string): (r: Option<string>)
    ensures r.None? <==> !lib.valid(number)
    ensures r.Some? ==> r.value == lib.international(number)
  {
    if lib.valid(number) then Some(lib.international(number)) else None
  }

  /** The hrefs of the Google groups the merge consults (`GoogleAccount.groups`):
      the work group, the optional friends group, "Starred in Android" and
      "System Group: My Contacts". */
  datatype Groups = Groups(work: string, friends: Option<string>, starred: string, myContacts: string)

  /** The configuration and options a run depends on. `domain` is the
      configured exchange domain, `workName` the title of the work group
      (written as the organisation and as the e-mail label of a new entry);
      `limit` is the `--number` option. */
  datatype Config = Config(domain: string, workName: string, groups: Groups, remove: bool, limit: Option<int>)

  /** An address-book record after the pruning pass: its SMTP address, its
      display name (nil when the record has none), its surname (a missing
      one reads as empty text where it is interpolated), and a number list
      per `PHONEFIELDS` name. */
  datatype Record = Record(smtp: Option<string>, displayName: Option<string>, surname: string, numbers: map<string, seq<string>>)

  /** `record[kind]`; a kind the record lacks has no numbers. */
  function NumbersOf(r: Record, kind: string): seq<string> {
    if kind in r.numbers then r.numbers[kind] else []
  }
}
