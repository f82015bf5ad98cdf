/** The older importer's view of the Google contact feed (import.rb:55-244):
    the work address of an entry, the index of the feed by that address,
    and the merge of one address-book record into the feed. */
module ImportGoogle {
  import opened Util
  import opened Xml
  import opened ImportPhone

  const GdNs := "http://schemas.google.com/g/2005"
  const ContactNs := "http://schemas.google.com/contact/2008"

  /** The options the importer consults: the work domain (`--domain`), the
      href of the contacts group, `--batch`, the `--action` filter,
      `--offline` and `--dry-run`. */
  datatype Settings = Settings(domain: string, group: string, batch: bool, action: string, offline: bool, dryRun: bool)

  /** An address-book record as `OAB#each` presents it. */
  datatype Source = Source(email: string, numbers: seq<string>, givenName: Option<string>, familyName: Option<string>, fullName: string)

  /** Outside functions: the Phony library and the serialisation of a feed
      entry (`to_xml`). */
  datatype Env = Env(ph: Phony, entryXml: XNode -> string)

  /** How a run of the importer stops early. `Unlabelled`: Phony cannot
      normalise a number when labelling it; `Unaddressed`: the save pass meets
      an entry without a work address (import.rb:267); `NoId`/`NoSelfLink`:
      an entry lacks the `id` child or the `self` link the save pass
      rewrites; `Unmerged`: the save pass looks a status up before any merge
      created the status map (import.rb:268); `NoSmtpAddress`: a record
      without an address has no fallback display name (import.rb:421);
      `Retrurn`: `action` calls the undefined `retrurn` (import.rb:255-256);
      `NoGroup`: no group entry yields the group's id (import.rb:76-80). */
  datatype ImportError =
    | Unlabelled(number: string)
    | Unaddressed(entry: XNode)
    | NoId(email: string)
    | NoSelfLink(email: string)
    | Unmerged
    | NoSmtpAddress
    | Retrurn(verb: string)
    | NoGroup

  // ---------------------------------------------------------------- work address

  function LowerAll(s: seq<string>): (r: seq<string>)
    ensures |r| == |s|
    ensures forall i :: 0 <= i < |s| ==> r[i] == Lower(s[i])
  {
    seq(|s|, i requires 0 <= i < |s| => Lower(s[i]))
  }

  /** The `address` attributes of an entry's `gd:email` children, in order. */
  function Addresses(entry: XNode): seq<string> {
    Compact(MapOpt(Named(Children(entry), "gd:email"), x => Attr(x, "address")))
  }

  /** `address =~ /@domain$/i` on a lower-cased address. */
  predicate InDomain(address: string, domain: string) {
    EndsWith(address, "@" + Lower(domain))
  }

  /** `corp_email` (import.rb:157-159): the first lower-cased address of the
      entry in the work domain. */
  function CorpEmail(entry: XNode, domain: string): Option<string> {
    var a := LowerAll(Addresses(entry));
    match Detect(a, x => InDomain(x, domain))
    case None => None
    case Some(i) => Some(a[i])
  }

  /** The work address is the first lower-cased address in the domain, and
      there is none exactly when no address is in the domain. */
  lemma CorpEmailIsFirst(entry: XNode, domain: string)
    ensures CorpEmail(entry, domain).Some? ==>
      exists i :: 0 <= i < |Addresses(entry)| && CorpEmail(entry, domain).value == Lower(Addresses(entry)[i]) &&
        InDomain(Lower(Addresses(entry)[i]), domain) && (forall j :: 0 <= j < i ==> !InDomain(Lower(Addresses(entry)[j]), domain))
    ensures CorpEmail(entry, domain).None? <==> forall a :: a in Addresses(entry) ==> !InDomain(Lower(a), domain)
  {
    var a := LowerAll(Addresses(entry));
    match Detect(a, x => InDomain(x, domain))
    case None =>
    case Some(i) =>
      assert a[i] == Lower(Addresses(entry)[i]);
  }

  // ---------------------------------------------------------------- the index

  predicate IsEntry(x: XNode) {
    IsNamed(x, "entry")
  }

  /** The work address of an entry, as a function the index consults. */
  type WorkOf = XNode -> Option<string>

  /** An entry the index unlinks from the feed: it has no work address. */
  predicate Unlinked(x: XNode, work: WorkOf) {
    IsEntry(x) && work(x).None?
  }

  /** A feed entry with the given work address. */
  predicate EntryOf(x: XNode, email: string, work: WorkOf) {
    IsEntry(x) && work(x) == Some(email)
  }

  /** The loop of import.rb:89-99 over the feed's children, as the feed it
      leaves and the index it builds: an entry with a work address is indexed
      at its position, overwriting an earlier entry with the same address,
      and an entry without one is unlinked. */
  function Indexed(cs: seq<XNode>, work: WorkOf): (r: (seq<XNode>, map<string, nat>))
    ensures forall k :: k in r.1 ==> r.1[k] < |r.0|
  {
    if cs == [] then ([], map[])
    else
      var (kept, index) := Indexed(cs[..|cs| - 1], work);
      var x := cs[|cs| - 1];
      if !IsEntry(x) then (kept + [x], index)
      else
        match work(x)
        case None => (kept, index)
        case Some(e) => (kept + [x], index[e := |kept|])
  }

  /** The feed keeps, in order, every child except the unlinked entries. */
  lemma {:induction false} IndexedKeeps(cs: seq<XNode>, work: WorkOf)
    ensures Indexed(cs, work).0 == Filter(cs, x => !Unlinked(x, work))
  {
    if cs != [] {
      var init, x := cs[..|cs| - 1], cs[|cs| - 1];
      IndexedKeeps(init, work);
      assert cs == init + [x];
      FilterAppend(init, [x], x => !Unlinked(x, work));
    }
  }

  /** Exactly the addresses of entries are indexed. */
  lemma {:induction false} IndexedKeys(cs: seq<XNode>, work: WorkOf)
    ensures forall k :: k in Indexed(cs, work).1 <==> exists i :: 0 <= i < |cs| && EntryOf(cs[i], k, work)
  {
    if cs != [] {
      var init, x := cs[..|cs| - 1], cs[|cs| - 1];
      IndexedKeys(init, work);
      forall k ensures k in Indexed(cs, work).1 <==> exists i :: 0 <= i < |cs| && EntryOf(cs[i], k, work) {
        if k in Indexed(init, work).1 {
          var i :| 0 <= i < |init| && EntryOf(init[i], k, work);
          assert cs[i] == init[i];
        }
        if exists i :: 0 <= i < |cs| && EntryOf(cs[i], k, work) {
          var i :| 0 <= i < |cs| && EntryOf(cs[i], k, work);
          if i < |init| {
            assert EntryOf(init[i], k, work);
          }
        }
      }
    }
  }

  /** Each address indexes an entry with that address, and no later entry
      kept in the feed has it: the last entry with an address wins. */
  lemma {:induction false} IndexedSlots(cs: seq<XNode>, work: WorkOf)
    ensures forall k :: k in Indexed(cs, work).1 ==> EntryOf(Indexed(cs, work).0[Indexed(cs, work).1[k]], k, work)
    ensures forall k, j :: k in Indexed(cs, work).1 && Indexed(cs, work).1[k] < j < |Indexed(cs, work).0| ==>
      !EntryOf(Indexed(cs, work).0[j], k, work)
  {
    if cs != [] {
      var init, x := cs[..|cs| - 1], cs[|cs| - 1];
      IndexedSlots(init, work);
      var (kept, index) := Indexed(init, work);
      assert forall j :: 0 <= j < |kept| ==> (kept + [x])[j] == kept[j];
    }
  }
}
