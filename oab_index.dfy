/** `GoogleAccount::Contacts` of oab2google.rb (lines 323-353): the contact
    feed decoded entry by entry and indexed by lower-cased work address, and
    the lookup that creates a shell entry for an address not in the feed. */
module OabIndex {
  import opened Util
  import opened Xml
  import opened OxPatch
  import opened Oab
  import opened OabStatus
  import opened OabDecode
  import opened OabContact

  /** Every entry of the feed decoded, in order; the first entry that fails
      to decode fails the whole feed with its error. */
  function DecodeEntries(entries: seq<XNode>, domain: string): (r: Result<seq<Fields>, DecodeError>)
    ensures r.Success? ==> |r.value| == |entries|
  {
    if entries == [] then Success([])
    else
      var fs :- DecodeEntries(entries[..|entries| - 1], domain);
      var f :- DecodeAll(Children(entries[|entries| - 1]), domain);
      Success(fs + [f])
  }

  /** Each decoded entry is its own children decoded. */
  lemma {:induction false} DecodeEntriesEach(entries: seq<XNode>, domain: string)
    requires DecodeEntries(entries, domain).Success?
    ensures forall i :: 0 <= i < |entries| ==>
      DecodeAll(Children(entries[i]), domain) == Success(DecodeEntries(entries, domain).value[i])
  {
    if entries != [] {
      var init := entries[..|entries| - 1];
      DecodeEntriesEach(init, domain);
      assert forall i :: 0 <= i < |init| ==> init[i] == entries[i];
    }
  }

  /** The feed decodes exactly when every entry does. */
  lemma {:induction false} DecodeEntriesSucceeds(entries: seq<XNode>, domain: string)
    ensures DecodeEntries(entries, domain).Success? <==>
      forall i :: 0 <= i < |entries| ==> DecodeAll(Children(entries[i]), domain).Success?
  {
    if entries != [] {
      var init := entries[..|entries| - 1];
      DecodeEntriesSucceeds(init, domain);
      assert forall i :: 0 <= i < |init| ==> init[i] == entries[i];
    }
  }

  /** Decoding the first `i` entries, once it fails, fails the feed with the same error. */
  lemma {:induction false} DecodeEntriesPrefixFails(entries: seq<XNode>, i: nat, domain: string)
    requires i <= |entries| && DecodeEntries(entries[..i], domain).Failure?
    ensures DecodeEntries(entries, domain) == DecodeEntries(entries[..i], domain)
  {
    if i < |entries| {
      var init := entries[..|entries| - 1];
      assert init[..i] == entries[..i];
      DecodeEntriesPrefixFails(init, i, domain);
    } else {
      assert entries[..i] == entries;
    }
  }

  /** The first `|fs|` entries decode, one by one, to `fs`. */
  ghost predicate EachDecodes(entries: seq<XNode>, fs: seq<Fields>, domain: string)
    requires |fs| <= |entries|
  {
    forall j {:trigger DecodeAll(Children(entries[j]), domain)} :: 0 <= j < |fs| ==> DecodeAll(Children(entries[j]), domain) == Success(fs[j])
  }

  lemma {:induction false} DecodeEntriesOfEach(entries: seq<XNode>, fs: seq<Fields>, domain: string)
    requires |fs| == |entries| && EachDecodes(entries, fs, domain)
    ensures DecodeEntries(entries, domain) == Success(fs)
  {
    if entries != [] {
      var n := |entries| - 1;
      assert EachDecodes(entries[..n], fs[..n], domain) by {
        forall j | 0 <= j < n ensures DecodeAll(Children(entries[..n][j]), domain) == Success(fs[..n][j]) {
          assert entries[..n][j] == entries[j];
          assert DecodeAll(Children(entries[j]), domain) == Success(fs[j]);
        }
      }
      DecodeEntriesOfEach(entries[..n], fs[..n], domain);
      assert DecodeAll(Children(entries[n]), domain) == Success(fs[n]);
      assert fs[..n] + [fs[n]] == fs;
    }
  }

  /** The first entry that fails to decode fails the feed with its error. */
  lemma DecodeEntriesFirstFailure(entries: seq<XNode>, fs: seq<Fields>, domain: string)
    requires |fs| < |entries| && EachDecodes(entries, fs, domain)
    requires DecodeAll(Children(entries[|fs|]), domain).Failure?
    ensures DecodeEntries(entries, domain) == Failure(DecodeAll(Children(entries[|fs|]), domain).error)
  {
    var i := |fs|;
    assert EachDecodes(entries[..i], fs, domain) by {
      forall j | 0 <= j < i ensures DecodeAll(Children(entries[..i][j]), domain) == Success(fs[j]) {
        assert entries[..i][j] == entries[j];
        assert DecodeAll(Children(entries[j]), domain) == Success(fs[j]);
      }
    }
    DecodeEntriesOfEach(entries[..i], fs, domain);
    assert entries[..i + 1][..i] == entries[..i];
    DecodeEntriesPrefixFails(entries, i + 1, domain);
  }

  /** The index the loop of oab2google.rb:330-334 builds, as positions: each
      lower-cased work address maps to the last entry having it; entries
      without a work address are not indexed. */
  function IndexOfWorks(works: seq<Option<string>>): (r: map<string, nat>)
    ensures forall k :: k in r ==> r[k] < |works|
  {
    if works == [] then map[]
    else
      var m := IndexOfWorks(works[..|works| - 1]);
      match works[|works| - 1]
      case Some(w) => m[Lower(w) := |works| - 1]
      case None => m
  }

  lemma IndexOfWorksSnoc(works: seq<Option<string>>, w: Option<string>)
    ensures IndexOfWorks(works + [w]) ==
      if w.Some? then IndexOfWorks(works)[Lower(w.value) := |works|] else IndexOfWorks(works)
  {
    assert (works + [w])[..|works|] == works;
  }

  /** An address is a key exactly when some entry has it as its work address,
      and its slot holds the last such entry. */
  lemma IndexOfWorksLast(works: seq<Option<string>>)
    ensures forall k :: k in IndexOfWorks(works) <==>
      exists i :: 0 <= i < |works| && works[i].Some? && Lower(works[i].value) == k
    ensures forall k :: k in IndexOfWorks(works) ==>
      var i := IndexOfWorks(works)[k];
      && i < |works| && works[i].Some? && Lower(works[i].value) == k
      && forall j :: i < j < |works| && works[j].Some? ==> Lower(works[j].value) != k
  {
    IndexOfWorksKeys(works);
    IndexOfWorksSlots(works);
  }

  lemma {:induction false} IndexOfWorksKeys(works: seq<Option<string>>)
    ensures forall k :: k in IndexOfWorks(works) <==>
      exists i :: 0 <= i < |works| && works[i].Some? && Lower(works[i].value) == k
  {
    if works != [] {
      var n := |works| - 1;
      var init := works[..n];
      IndexOfWorksKeys(init);
      var m := IndexOfWorks(works);
      assert works == init + [works[n]];
      IndexOfWorksSnoc(init, works[n]);
      forall k | k in m
        ensures exists i :: 0 <= i < |works| && works[i].Some? && Lower(works[i].value) == k
      {
        if works[n].Some? && Lower(works[n].value) == k {
          assert 0 <= n < |works| && works[n].Some? && Lower(works[n].value) == k;
        } else {
          assert k in IndexOfWorks(init);
          var i :| 0 <= i < |init| && init[i].Some? && Lower(init[i].value) == k;
          assert init[i] == works[i];
          assert 0 <= i < |works| && works[i].Some? && Lower(works[i].value) == k;
        }
      }
      forall k, i | 0 <= i < |works| && works[i].Some? && Lower(works[i].value) == k
        ensures k in m
      {
        if i < n {
          assert init[i] == works[i];
          assert 0 <= i < |init| && init[i].Some? && Lower(init[i].value) == k;
          assert k in IndexOfWorks(init);
        }
      }
    }
  }

  lemma {:induction false} IndexOfWorksSlots(works: seq<Option<string>>)
    ensures forall k :: k in IndexOfWorks(works) ==>
      var i := IndexOfWorks(works)[k];
      && i < |works| && works[i].Some? && Lower(works[i].value) == k
      && forall j :: i < j < |works| && works[j].Some? ==> Lower(works[j].value) != k
  {
    if works != [] {
      var n := |works| - 1;
      var init := works[..n];
      IndexOfWorksSlots(init);
      var m := IndexOfWorks(works);
      assert works == init + [works[n]];
      IndexOfWorksSnoc(init, works[n]);
      forall k | k in m
        ensures var i := m[k];
          && i < |works| && works[i].Some? && Lower(works[i].value) == k
          && forall j :: i < j < |works| && works[j].Some? ==> Lower(works[j].value) != k
      {
        if !(works[n].Some? && Lower(works[n].value) == k) {
          var i := m[k];
          assert k in IndexOfWorks(init) && i == IndexOfWorks(init)[k];
          assert init[i] == works[i];
          forall j | i < j < |works| && works[j].Some? ensures Lower(works[j].value) != k {
            if j < n { assert init[j] == works[j]; }
          }
        }
      }
    }
  }

  /** The work addresses of decoded entries. */
  function Works(fs: seq<Fields>): (r: seq<Option<string>>)
    ensures |r| == |fs| && forall i :: 0 <= i < |fs| ==> r[i] == fs[i].work
  {
    if fs == [] then [] else Works(fs[..|fs| - 1]) + [fs[|fs| - 1].work]
  }

  /** The children of the shell entry `Contacts#[]` builds for an unknown address. */
  function ShellNodes(email: string, workName: string): seq<XNode> {
    [ Element("atom:category", map[
          "scheme" := "http://schemas.google.com/g/2005#kind",
          "term" := "http://schemas.google.com/contact/2008#contact"], []),
      Element("gd:email", map["label" := workName, "address" := email], []) ]
  }

  /** No fields but the work address, which is `email` when that is in the
      exchange domain. */
  function ShellFields(email: string, domain: string): Fields {
    NoFields().(work := if InExchangeDomain(email, domain) then Some(email) else None)
  }

  /** The shell decodes: no edit link, so it starts `new` (unset under the
      remove option); its work address is the address asked for when that is
      in the exchange domain, and nothing else is set. */
  lemma ShellDecodes(email: string, workName: string, domain: string)
    ensures DecodeAll(ShellNodes(email, workName), domain) == Success(ShellFields(email, domain))
  {
    var nodes := ShellNodes(email, workName);
    var c := nodes[0];
    assert nodes[..|nodes| - 1] == [c] && [c][..0] == [];
    assert "atom:category" in IgnoredFields;
    assert DecodeField(NoFields(), c, domain) == Success(NoFields());
    assert DecodeAll([c], domain) == Success(NoFields());
  }

  /** `doc.root.entry!`. */
  method SelectEntries(root: XNode) returns (entries: seq<XNode>)
    requires root.Element?
    ensures entries == Named(root.nodes, "entry")
  {
    var name := "entry";
    BangOfPlain(root, name);
    entries := MethodMissing(root, name + "!", OxChild).nodes;
  }

  /** A contact as `Contact.new` leaves it: holding the entry, its decoded
      fields, and the initial status. */
  ghost predicate Decoded(c: Contact, e: XNode, f: Fields, remove: bool)
    reads c
  {
    c.Node() == e && c.fields == f && c.status == InitialStatus(f.edit, remove)
  }

  /** `m` is the index of the decoded feed `fs` of `entries`: its keys are
      the lower-cased work addresses, and each holds the contact decoded
      from the last entry with that address. */
  ghost predicate Indexed(m: map<string, Contact>, entries: seq<XNode>, fs: seq<Fields>, remove: bool)
    requires |fs| <= |entries|
    reads m.Values
  {
    var index := IndexOfWorks(Works(fs));
    && m.Keys == index.Keys
    && forall k :: k in m ==> Decoded(m[k], entries[index[k]], fs[index[k]], remove)
  }

  /** Indexing the next decoded entry keeps the index. */
  lemma IndexedSnoc(m: map<string, Contact>, entries: seq<XNode>, fs: seq<Fields>, c: Contact, remove: bool)
    requires |fs| < |entries| && Indexed(m, entries, fs, remove)
    requires Decoded(c, entries[|fs|], c.fields, remove)
    ensures Indexed(if c.fields.work.Some? then m[Lower(c.fields.work.value) := c] else m, entries, fs + [c.fields], remove)
  {
    var i := |fs|;
    assert Works(fs + [c.fields]) == Works(fs) + [c.fields.work] by {
      assert (fs + [c.fields])[..i] == fs;
    }
    IndexOfWorksSnoc(Works(fs), c.fields.work);
  }

  /** What an index holds: an address is a key exactly when some decoded
      entry has it (lower-cased) as its work address, and the contact under it
      is the one decoded from the last such entry. */
  lemma IndexedIs(m: map<string, Contact>, entries: seq<XNode>, fs: seq<Fields>, remove: bool)
    requires |fs| == |entries| && Indexed(m, entries, fs, remove)
    ensures forall k :: k in m <==> exists i :: 0 <= i < |fs| && fs[i].work.Some? && Lower(fs[i].work.value) == k
    ensures forall k :: k in m ==> exists i :: (0 <= i < |fs|
      && Decoded(m[k], entries[i], fs[i], remove)
      && fs[i].work.Some? && Lower(fs[i].work.value) == k
      && forall j :: i < j < |fs| && fs[j].work.Some? ==> Lower(fs[j].work.value) != k)
  {
    IndexedKeys(m, entries, fs, remove);
    IndexedSlots(m, entries, fs, remove);
  }

  lemma IndexedKeys(m: map<string, Contact>, entries: seq<XNode>, fs: seq<Fields>, remove: bool)
    requires |fs| == |entries| && Indexed(m, entries, fs, remove)
    ensures forall k :: k in m <==> exists i :: 0 <= i < |fs| && fs[i].work.Some? && Lower(fs[i].work.value) == k
  {
    var works := Works(fs);
    var index := IndexOfWorks(works);
    IndexOfWorksKeys(works);
    IndexOfWorksSlots(works);
    forall k ensures k in m <==> exists i :: 0 <= i < |fs| && fs[i].work.Some? && Lower(fs[i].work.value) == k {
      if k in m {
        var i := index[k];
        assert works[i] == fs[i].work;
        assert 0 <= i < |fs| && fs[i].work.Some? && Lower(fs[i].work.value) == k;
      }
      if exists i :: 0 <= i < |fs| && fs[i].work.Some? && Lower(fs[i].work.value) == k {
        var i :| 0 <= i < |fs| && fs[i].work.Some? && Lower(fs[i].work.value) == k;
        assert works[i] == fs[i].work;
        assert 0 <= i < |works| && works[i].Some? && Lower(works[i].value) == k;
      }
    }
  }

  lemma IndexedSlots(m: map<string, Contact>, entries: seq<XNode>, fs: seq<Fields>, remove: bool)
    requires |fs| == |entries| && Indexed(m, entries, fs, remove)
    ensures forall k :: k in m ==> exists i :: (0 <= i < |fs|
      && Decoded(m[k], entries[i], fs[i], remove)
      && fs[i].work.Some? && Lower(fs[i].work.value) == k
      && forall j :: i < j < |fs| && fs[j].work.Some? ==> Lower(fs[j].work.value) != k)
  {
    var works := Works(fs);
    var index := IndexOfWorks(works);
    IndexOfWorksSlots(works);
    forall k | k in m ensures exists i :: (0 <= i < |fs|
      && Decoded(m[k], entries[i], fs[i], remove)
      && fs[i].work.Some? && Lower(fs[i].work.value) == k
      && forall j :: i < j < |fs| && fs[j].work.Some? ==> Lower(fs[j].work.value) != k)
    {
      var i := index[k];
      assert works[i] == fs[i].work;
      forall j | i < j < |fs| && fs[j].work.Some? ensures Lower(fs[j].work.value) != k {
        assert works[j] == fs[j].work;
      }
      assert Decoded(m[k], entries[i], fs[i], remove);
    }
  }

  /** `Contact.new(node)` for the next entry of the feed: a failure fails
      the whole feed with its error; a success extends the decoded prefix. */
  method DecodeNext(entries: seq<XNode>, i: nat, ghost fs: seq<Fields>, cfg: Config) returns (r: Result<Contact, DecodeError>)
    requires i == |fs| < |entries| && entries[i].Element?
    requires EachDecodes(entries, fs, cfg.domain)
    ensures r.Failure? ==> DecodeEntries(entries, cfg.domain) == Failure(r.error)
    ensures r.Success? ==>
      && fresh(r.value) && Decoded(r.value, entries[i], r.value.fields, cfg.remove)
      && EachDecodes(entries, fs + [r.value.fields], cfg.domain)
  {
    r := Contact.Decode(entries[i], cfg);
    if r.Failure? {
      DecodeEntriesFirstFailure(entries, fs, cfg.domain);
    } else {
      var fs' := fs + [r.value.fields];
      forall j | 0 <= j < |fs'| ensures DecodeAll(Children(entries[j]), cfg.domain) == Success(fs'[j]) {
        if j < i {
          assert DecodeAll(Children(entries[j]), cfg.domain) == Success(fs[j]);
        }
      }
    }
  }

  /** No contact is held under two addresses. */
  predicate Distinct(m: map<string, Contact>) {
    forall k1, k2 :: k1 in m && k2 in m && k1 != k2 ==> m[k1] != m[k2]
  }

  lemma DistinctPut(m: map<string, Contact>, k: string, c: Contact)
    requires Distinct(m) && c !in m.Values
    ensures Distinct(m[k := c])
  {
  }

  class Contacts {
    /** `@contacts`: lower-cased work address to contact. */
    var contacts: map<string, Contact>

    constructor Of(contacts: map<string, Contact>)
      ensures this.contacts == contacts
    {
      this.contacts := contacts;
    }

    /** Distinct addresses hold distinct contacts: a merge through one
        address changes no contact another address holds. */
    predicate Valid()
      reads this
    {
      Distinct(contacts)
    }

    /** `Contacts.new(xml)`, given the parsed feed's root element: decode its
        `entry` children in order and index each by its lower-cased work
        address, a later entry replacing an earlier one. */
    static method Load(root: XNode, cfg: Config) returns (r: Result<Contacts, DecodeError>)
      requires root.Element?
      ensures var entries := Named(root.nodes, "entry");
        var spec := DecodeEntries(entries, cfg.domain);
        && (r.Success? <==> spec.Success?)
        && (r.Failure? ==> r.error == spec.error)
        && (r.Success? ==>
              && fresh(r.value) && r.value.Valid()
              && (forall c :: c in r.value.contacts.Values ==> fresh(c))
              && Indexed(r.value.contacts, entries, spec.value, cfg.remove))
    {
      var entries := SelectEntries(root);
      var m: map<string, Contact> := map[];
      ghost var fs: seq<Fields> := [];
      var i := 0;
      while i < |entries|
        invariant 0 <= i <= |entries| && |fs| == i
        invariant EachDecodes(entries, fs, cfg.domain)
        invariant Indexed(m, entries, fs, cfg.remove)
        invariant forall k :: k in m ==> fresh(m[k])
        invariant Distinct(m)
      {
        assert entries[i] in entries;
        var c := DecodeNext(entries, i, fs, cfg);
        if c.Failure? {
          return Failure(c.error);
        }
        var entry := c.value;
        IndexedSnoc(m, entries, fs, entry, cfg.remove);
        if entry.fields.work.Some? {
          assert entry !in m.Values;
          DistinctPut(m, Lower(entry.fields.work.value), entry);
          m := m[Lower(entry.fields.work.value) := entry];
        }
        fs := fs + [entry.fields];
        i := i + 1;
      }
      DecodeEntriesOfEach(entries, fs, cfg.domain);
      var cs := new Contacts.Of(m);
      return Success(cs);
    }

    /** `contacts[email]`: the contact indexed under the lower-cased address,
        or a new shell entry for it, remembered so that the next lookup
        returns the same object. */
    method Get(email: string, cfg: Config) returns (r: Contact)
      modifies this
      ensures var k := Lower(email);
        && k in contacts && contacts[k] == r
        && (k in old(contacts) ==> contacts == old(contacts) && r == old(contacts[k]))
        && (k !in old(contacts) ==>
              && contacts == old(contacts)[k := r] && fresh(r)
              && r.Node() == Element("entry", map[], ShellNodes(email, cfg.workName))
              && DecodeAll(ShellNodes(email, cfg.workName), cfg.domain) == Success(r.fields)
              && r.status == InitialStatus(None, cfg.remove))
      ensures old(Valid()) ==> Valid()
    {
      var k := Lower(email);
      if k in contacts {
        return contacts[k];
      }
      var node := Element("entry", map[], ShellNodes(email, cfg.workName));
      ShellDecodes(email, cfg.workName, cfg.domain);
      var d := Contact.Decode(node, cfg);
      assert d.Success?;
      r := d.value;
      if Valid() {
        assert r !in contacts.Values;
        DistinctPut(contacts, k, r);
      }
      contacts := contacts[k := r];
    }
  }
}
