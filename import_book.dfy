/** The state `GoogleContacts#merge` (import.rb:161-244) works on, and the
    merge of one address-book record into it: the feed's children, the
    index of found entries, and the status kept per address. */
module ImportBook {
  import opened Util
  import opened Xml
  import opened ImportPhone
  import opened ImportGoogle
  import opened ImportMerge

  /** The actions kept in `status.action`. */
  datatype Act = Update | Insert | Delete | Keep | Ignore

  /** The `OpenStruct` kept per lower-cased address: the snapshot of the
      source record taken at the first merge of a found entry, and the
      action. */
  datatype Pending = Pending(xml: Option<string>, action: Option<Act>)

  /** The importer between merges: the children of the feed, `@contact` as
      positions into them, and `@status`, which is nil until the first merge
      of a record with an address. */
  datatype Book = Book(feed: seq<XNode>, index: map<string, nat>, status: Option<map<string, Pending>>)

  /** Every indexed position holds an element of the feed. */
  ghost predicate Linked(b: Book) {
    forall k :: k in b.index ==> b.index[k] < |b.feed| && b.feed[b.index[k]].Element?
  }

  /** `@status[key] ||= OpenStruct.new`: the stored status, or a fresh one. */
  function StatusOf(b: Book, key: string): Pending {
    if b.status.Some? && key in b.status.value then b.status.value[key] else Pending(None, None)
  }

  /** The status map with `key` set to `p`, created if it did not exist. */
  function Stored(b: Book, key: string, p: Pending): (m: map<string, Pending>)
    ensures key in m && m[key] == p
  {
    b.status.GetOr(map[])[key := p]
  }

  /** The snapshot `merge` keeps for a found entry (import.rb:172): the one
      an earlier merge stored, else the serialisation of the entry before
      this merge edits it. */
  function Snapshot(env: Env, p: Pending, entry: XNode): (r: Option<string>)
    ensures r.Some?
    ensures p.xml.Some? ==> r == p.xml
    ensures p.xml.None? ==> r == Some(env.entryXml(entry))
  {
    if p.xml.Some? then p.xml else Some(env.entryXml(entry))
  }

  /** The snapshot as import.rb:172 writes it: `contact` is the address-book
      record, an `OpenStruct`, whose `to_xml` is a missing member and reads as
      nil, so a snapshot that was nil stays nil. */
  function SnapshotAsWritten(p: Pending): (r: Option<string>)
    ensures p.xml.None? ==> r.None?
  {
    p.xml
  }

  /** `merge(contact)`: a record without an address changes nothing; a found
      entry is merged and marked for update, keeping the first snapshot; an
      unfound address with numbers gets a new entry appended and is marked
      for insert; otherwise only a status is created. */
  function Merge(env: Env, st: Settings, b: Book, src: Source): (r: Result<Book, ImportError>)
    requires Linked(b)
    ensures src.email == "" ==> r == Success(b)
    ensures r.Success? ==> r.value.index == b.index && Linked(r.value)
    ensures r.Success? && src.email != "" ==> r.value.status.Some? && Lower(src.email) in r.value.status.value
  {
    if src.email == "" then Success(b)
    else
      var key := Lower(src.email);
      var p := StatusOf(b, key);
      var nb := NumberingOf(env.ph);
      if key in b.index then
        var i := b.index[key];
        var e :- MergeEntry(nb, st.group, b.feed[i], src);
        var snap := Snapshot(env, p, b.feed[i]);
        Success(Book(b.feed[i := e], b.index, Some(Stored(b, key, Pending(snap, Some(Update))))))
      else if |src.numbers| != 0 then
        var e :- NewEntry(nb, st, src);
        Success(Book(b.feed + [e], b.index, Some(Stored(b, key, Pending(p.xml, Some(Insert))))))
      else
        Success(Book(b.feed, b.index, Some(Stored(b, key, p))))
  }

  /** A found entry: the merge fails exactly when the entry merge does; on
      success only that entry changes, into the merged entry, and the address
      is marked for update with the snapshot of its first merge. */
  lemma MergeFound(env: Env, st: Settings, b: Book, src: Source)
    requires Linked(b) && src.email != "" && Lower(src.email) in b.index
    ensures var i := b.index[Lower(src.email)];
      Merge(env, st, b, src).Success? <==> MergeEntry(NumberingOf(env.ph), st.group, b.feed[i], src).Success?
    ensures var i := b.index[Lower(src.email)];
      Merge(env, st, b, src).Success? ==>
        var r := Merge(env, st, b, src).value;
        |r.feed| == |b.feed| && r.feed[i] == MergeEntry(NumberingOf(env.ph), st.group, b.feed[i], src).value &&
        (forall j :: 0 <= j < |b.feed| && j != i ==> r.feed[j] == b.feed[j])
    ensures Merge(env, st, b, src).Success? ==>
      var p := StatusOf(Merge(env, st, b, src).value, Lower(src.email));
      p.action == Some(Update) &&
      p.xml == Snapshot(env, StatusOf(b, Lower(src.email)), b.feed[b.index[Lower(src.email)]])
  {
  }

  /** An unfound address with numbers: the merge fails exactly when some
      number has no work label; on success one entry is appended that
      carries the address, a work phone per number, the configured group
      and the name, and the address is marked for insert. */
  lemma MergeInserts(env: Env, st: Settings, b: Book, src: Source)
    requires Linked(b) && src.email != "" && Lower(src.email) !in b.index && |src.numbers| != 0
    ensures Merge(env, st, b, src).Success? <==> forall n :: n in src.numbers ==> Label(env.ph, n, "Work").Some?
    ensures Merge(env, st, b, src).Success? ==>
      var r := Merge(env, st, b, src).value;
      |r.feed| == |b.feed| + 1 && r.feed[..|b.feed|] == b.feed &&
      IsEntry(r.feed[|b.feed|]) && Addresses(r.feed[|b.feed|]) == [src.email] &&
      |Filter(r.feed[|b.feed|].nodes, IsPhone)| == |src.numbers| &&
      Filter(r.feed[|b.feed|].nodes, IsMembership) == [MembershipNode(st.group)] &&
      StatusOf(r, Lower(src.email)).action == Some(Insert)
  {
    var nb := NumberingOf(env.ph);
    NewPhonesAre(nb, src.numbers);
    if Merge(env, st, b, src).Success? {
      var r := Merge(env, st, b, src).value;
      var e := NewEntry(nb, st, src).value;
      assert r.feed == b.feed + [e];
      NewEntryCarries(nb, st, src);
    }
  }

  /** An unfound address without numbers: nothing is appended and the
      address has a status whose action is still unset unless an earlier
      merge set one. */
  lemma MergeNoNumbers(env: Env, st: Settings, b: Book, src: Source)
    requires Linked(b) && src.email != "" && Lower(src.email) !in b.index && |src.numbers| == 0
    ensures Merge(env, st, b, src).Success?
    ensures Merge(env, st, b, src).value.feed == b.feed
    ensures StatusOf(Merge(env, st, b, src).value, Lower(src.email)) == StatusOf(b, Lower(src.email))
  {
  }

  /** A merge touches the status of its own address only. */
  lemma MergeOtherStatus(env: Env, st: Settings, b: Book, src: Source, k: string)
    requires Linked(b) && Merge(env, st, b, src).Success? && k != Lower(src.email)
    ensures StatusOf(Merge(env, st, b, src).value, k) == StatusOf(b, k)
  {
  }

  /** A second merge of a found address keeps the snapshot the first one
      stored, when it stored one. */
  lemma MergeSnapshotFirst(env: Env, st: Settings, b: Book, src: Source, src2: Source)
    requires Linked(b) && src.email != "" && Lower(src2.email) == Lower(src.email) && Lower(src.email) in b.index
    requires src2.email != ""
    requires Merge(env, st, b, src).Success? && Merge(env, st, Merge(env, st, b, src).value, src2).Success?
    ensures var once := Merge(env, st, b, src).value;
      StatusOf(once, Lower(src.email)).xml.Some? ==>
        StatusOf(Merge(env, st, once, src2).value, Lower(src.email)).xml == StatusOf(once, Lower(src.email)).xml
  {
    var once := Merge(env, st, b, src).value;
    assert once.index == b.index && Linked(once);
    MergeFound(env, st, once, src2);
  }

  /** The new entry is not indexed, so a second merge of the same unseen
      address appends a second entry. */
  lemma MergeTwiceAppendsTwice(env: Env, st: Settings, b: Book, src: Source)
    requires Linked(b) && src.email != "" && Lower(src.email) !in b.index && |src.numbers| != 0
    requires Merge(env, st, b, src).Success?
    ensures Merge(env, st, Merge(env, st, b, src).value, src).Success?
    ensures var twice := Merge(env, st, Merge(env, st, b, src).value, src).value;
      |twice.feed| == |b.feed| + 2 && twice.feed[|b.feed|] == twice.feed[|b.feed| + 1] &&
      Addresses(twice.feed[|b.feed| + 1]) == [src.email]
  {
    var once := Merge(env, st, b, src).value;
    MergeInserts(env, st, b, src);
    MergeInserts(env, st, once, src);
    var twice := Merge(env, st, once, src).value;
    assert once.feed[|b.feed|] == NewEntry(NumberingOf(env.ph), st, src).value;
    assert twice.feed[|once.feed|] == NewEntry(NumberingOf(env.ph), st, src).value;
  }
}
