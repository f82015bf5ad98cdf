/** The `GoogleContacts` object of import.rb (lines 55-354): the contact feed
    it downloaded, the index of its entries by work address, and the status
    map, updated in place by the index loop of `initialize`, by `merge` and
    by `save`. */
module ImportContacts {
  import opened Util
  import opened Xml
  import opened ImportGoogle
  import opened ImportMerge
  import opened ImportBook
  import opened ImportSave

  /** The key `initialize` files an entry under: its work address, lower-cased
      once more (import.rb:92). */
  function Work(domain: string): (w: WorkOf)
    ensures forall x :: w(x).Some? <==> CorpEmail(x, domain).Some?
  {
    x => match CorpEmail(x, domain)
         case None => None
         case Some(e) => Some(Lower(e))
  }

  /** An entry of the groups feed that `initialize` may take the group from:
      the system group `Coworkers` when no group is configured, otherwise
      the group titled as configured (import.rb:76-80). */
  predicate PicksGroup(x: XNode, option: string) {
    IsEntry(x) &&
    if Strip(option) == "" then
      exists g :: g in Children(x) && IsNamed(g, "gContact:systemGroup") && Attr(g, "id") == Some("Coworkers")
    else
      exists t :: t in Children(x) && IsNamed(t, "title") && Text(option) in t.nodes
  }

  /** An `id` child holding text. */
  predicate HasIdText(x: XNode) {
    IsNamed(x, "id") && FirstText(Children(x)).Some?
  }

  /** `xmlns:id/text()` under one entry, first in document order: the first
      text of the first `id` child that holds text. */
  function IdText(cs: seq<XNode>): (r: Option<string>)
    ensures r.None? <==> forall k :: 0 <= k < |cs| ==> !HasIdText(cs[k])
    ensures r.Some? ==>
      exists k :: 0 <= k < |cs| && HasIdText(cs[k]) && r == FirstText(Children(cs[k])) &&
        forall j :: 0 <= j < k ==> !HasIdText(cs[j])
  {
    match Detect(cs, HasIdText)
    case None => None
    case Some(k) => FirstText(Children(cs[k]))
  }

  /** A group entry the XPath of import.rb:77 or :79 answers from: one the
      option picks that has id text. */
  function PicksWithId(option: string): XNode -> bool {
    x => PicksGroup(x, option) && IdText(Children(x)).Some?
  }

  /** `groups.at(...)`: the id text of the first group entry that the option
      picks and that has id text; nil when there is none, where `to_xml` on
      nil fails. */
  function GroupHref(groups: seq<XNode>, option: string): (r: Option<string>)
    ensures r.None? <==> forall i :: 0 <= i < |groups| ==> !PicksGroup(groups[i], option) || IdText(Children(groups[i])).None?
    ensures r.Some? ==>
      exists i :: 0 <= i < |groups| && PicksGroup(groups[i], option) && r == IdText(Children(groups[i])) &&
        forall j :: 0 <= j < i ==> !PicksGroup(groups[j], option) || IdText(Children(groups[j])).None?
  {
    match Detect(groups, PicksWithId(option))
    case None => None
    case Some(i) => IdText(Children(groups[i]))
  }

  /** The phone pass of import.rb:176-189 as the loop it is, over the
      entry's children. */
  method DiffPhones(nb: Numbering, kids: seq<XNode>, numbers: seq<string>) returns (r: Result<Diff, ImportError>)
    ensures r == PhoneDiff(nb, kids, numbers)
  {
    var out: seq<XNode> := [];
    var rest := numbers;
    var i := 0;
    while i < |kids|
      invariant 0 <= i <= |kids|
      invariant PhoneDiff(nb, kids[..i], numbers) == Success(Diff(out, rest))
    {
      var x := kids[i];
      assert kids[..i + 1][..i] == kids[..i] && kids[..i + 1][i] == x;
      if IsPhone(x) {
        var t := nb.tel(InnerText(x));
        if t.Some? && t.value in rest {
          var lbl := nb.work(t.value);
          if lbl.None? {
            PhoneDiffStops(nb, kids, numbers, i + 1);
            return Failure(Unlabelled(t.value));
          }
          out := out + [Relabel(x, lbl.value)];
          rest := Remove(rest, t.value);
        } else if !WorkLabelled(x) {
          out := out + [x];
        }
      } else {
        out := out + [x];
      }
      i := i + 1;
    }
    assert kids[..i] == kids;
    return Success(Diff(out, rest));
  }

  /** The phones appended for the numbers left over (import.rb:192-197). */
  method AddPhones(nb: Numbering, numbers: seq<string>) returns (r: Result<seq<XNode>, ImportError>)
    ensures r == NewPhones(nb, numbers)
  {
    var out: seq<XNode> := [];
    var i := 0;
    while i < |numbers|
      invariant 0 <= i <= |numbers|
      invariant NewPhones(nb, numbers[..i]) == Success(out)
    {
      var n := numbers[i];
      assert numbers[..i + 1][..i] == numbers[..i] && numbers[..i + 1][i] == n;
      var lbl := nb.work(n);
      if lbl.None? {
        NewPhonesStops(nb, numbers, i + 1);
        return Failure(Unlabelled(n));
      }
      out := out + [PhoneNode(lbl.value, n)];
      i := i + 1;
    }
    assert numbers[..i] == numbers;
    return Success(out);
  }

  /** import.rb:175-218 on a found entry: the phone loop, the appended
      phones, the group and the name. */
  method EditEntry(nb: Numbering, group: string, e: XNode, src: Source) returns (r: Result<XNode, ImportError>)
    requires e.Element?
    ensures r == MergeEntry(nb, group, e, src)
  {
    var d := DiffPhones(nb, e.nodes, src.numbers);
    if d.Failure? {
      return Failure(d.error);
    }
    var added := AddPhones(nb, d.value.rest);
    if added.Failure? {
      return Failure(added.error);
    }
    return Success(Element(e.name, e.attrs, WithName(ForceGroup(d.value.kids + added.value, group), src)));
  }

  /** import.rb:224-242: the entry built for an address the feed lacks. */
  method BuildEntry(nb: Numbering, st: Settings, src: Source) returns (r: Result<XNode, ImportError>)
    ensures r == NewEntry(nb, st, src)
  {
    var phones := AddPhones(nb, src.numbers);
    if phones.Failure? {
      return Failure(phones.error);
    }
    return Success(Element("entry", map["xmlns:gd" := GdNs, "xmlns:gContact" := ContactNs],
      EntryHead(st, src) + phones.value + [MembershipNode(st.group), NameNode(src)]));
  }

  class GoogleContacts {
    const env: Env
    const st: Settings
    var feed: seq<XNode>
    var index: map<string, nat>
    var status: Option<map<string, Pending>>

    /** The state as the merge and save functions see it. */
    function State(): Book
      reads this
    {
      Book(feed, index, status)
    }

    ghost predicate Valid()
      reads this
    {
      Linked(State())
    }

    /** The index loop of import.rb:88-99 over the children of the feed. */
    constructor (env: Env, st: Settings, children: seq<XNode>)
      ensures this.env == env && this.st == st && Valid()
      ensures (feed, index) == Indexed(children, Work(st.domain)) && status.None?
    {
      var work := Work(st.domain);
      var kept: seq<XNode> := [];
      var idx: map<string, nat> := map[];
      var i := 0;
      while i < |children|
        invariant 0 <= i <= |children|
        invariant (kept, idx) == Indexed(children[..i], work)
      {
        var x := children[i];
        assert children[..i + 1][..i] == children[..i] && children[..i + 1][i] == x;
        if IsEntry(x) {
          var email := CorpEmail(x, st.domain);
          if email.Some? {
            idx := idx[Lower(email.value) := |kept|];
            kept := kept + [x];
          }
        } else {
          kept := kept + [x];
        }
        i := i + 1;
      }
      assert children[..i] == children;
      IndexedSlots(children, work);
      this.env := env;
      this.st := st;
      feed := kept;
      index := idx;
      status := None;
    }

    /** `merge(contact)`, editing the found entry or appending a new one and
      updating the status map. A failure ends the run, so the state it
      leaves is not described. */
    method Merge(src: Source) returns (err: Option<ImportError>)
      requires Valid()
      modifies this
      ensures match ImportBook.Merge(env, st, old(State()), src)
        case Success(b) => err.None? && State() == b && Valid()
        case Failure(e) => err == Some(e)
    {
      if src.email == "" {
        return None;
      }
      var key := Lower(src.email);
      if key in index {
        err := MergeFound(src);
      } else if |src.numbers| != 0 {
        err := MergeNew(src);
      } else {
        var b := State();
        status := Some(Stored(b, key, StatusOf(b, key)));
        err := None;
      }
    }

    /** import.rb:170-218: the found entry's phones, groups and name are
      edited and the address is marked for update. */
    method MergeFound(src: Source) returns (err: Option<ImportError>)
      requires Valid() && src.email != "" && Lower(src.email) in index
      modifies this
      ensures var i := old(index)[Lower(src.email)];
        var p := StatusOf(old(State()), Lower(src.email));
        var snap := Snapshot(env, p, old(feed)[i]);
        match MergeEntry(NumberingOf(env.ph), st.group, old(feed)[i], src)
        case Success(e) => err.None? && feed == old(feed)[i := e] && index == old(index) &&
          status == Some(Stored(old(State()), Lower(src.email), Pending(snap, Some(Update))))
        case Failure(x) => err == Some(x)
    {
      var b := State();
      var key := Lower(src.email);
      var p := StatusOf(b, key);
      var i := index[key];
      var snap := Snapshot(env, p, feed[i]);
      var merged := EditEntry(NumberingOf(env.ph), st.group, feed[i], src);
      if merged.Success? {
        feed := feed[i := merged.value];
        status := Some(Stored(b, key, Pending(snap, Some(Update))));
        err := None;
      } else {
        err := Some(merged.error);
      }
    }

    /** import.rb:220-242: a new entry is appended to the feed and the
      address is marked for insert. */
    method MergeNew(src: Source) returns (err: Option<ImportError>)
      requires Valid() && src.email != "" && Lower(src.email) !in index && |src.numbers| != 0
      modifies this
      ensures match NewEntry(NumberingOf(env.ph), st, src)
        case Success(e) => err.None? && feed == old(feed) + [e] && index == old(index) &&
          status == Some(Stored(old(State()), Lower(src.email), Pending(StatusOf(old(State()), Lower(src.email)).xml, Some(Insert))))
        case Failure(x) => err == Some(x)
    {
      var b := State();
      var key := Lower(src.email);
      var entry := BuildEntry(NumberingOf(env.ph), st, src);
      if entry.Success? {
        feed := feed + [entry.value];
        status := Some(Stored(b, key, Pending(StatusOf(b, key).xml, Some(Insert))));
        err := None;
      } else {
        err := Some(entry.error);
      }
    }

    /** The pass of import.rb:265-335 over the entries, with its counters. */
    method SaveEntries(kept: seq<XNode>) returns (r: Result<Saved, ImportError>)
      modifies this
      ensures var ps0 := Pass([], old(status), Saved(0, 0, 0, 0), []);
        match SaveAll(env, st, ps0, kept)
        case Success(ps) => r == Success(ps.saved) && feed == ps.feed && status == ps.status
        case Failure(e) => r == Failure(e)
    {
      var ps0 := Pass([], status, Saved(0, 0, 0, 0), []);
      var out: seq<XNode> := [];
      var saved := Saved(0, 0, 0, 0);
      ghost var acts: seq<Act> := [];
      var i := 0;
      while i < |kept|
        invariant 0 <= i <= |kept|
        invariant ps0 == Pass([], old(status), Saved(0, 0, 0, 0), [])
        invariant SaveAll(env, st, ps0, kept[..i]) == Success(Pass(out, status, saved, acts))
      {
        var x := kept[i];
        assert kept[..i + 1][..i] == kept[..i] && kept[..i + 1][i] == x;
        if !IsEntry(x) {
          out := out + [x];
        } else {
          var id := CorpEmail(x, st.domain);
          if id.None? {
            SaveAllStops(env, st, ps0, kept, i + 1);
            return Failure(Unaddressed(x));
          }
          if status.None? {
            SaveAllStops(env, st, ps0, kept, i + 1);
            return Failure(Unmerged);
          }
          var m := status.value;
          var key := Lower(id.value);
          var stored := if key in m then Some(m[key]) else None;
          var a := Resolve(stored, x, env.entryXml(x));
          if key in m {
            status := Some(m[key := Pending(m[key].xml, Some(a))]);
          }
          var left := SaveEntry(st, id.value, a, x);
          if left.Failure? {
            SaveAllStops(env, st, ps0, kept, i + 1);
            return Failure(left.error);
          }
          out := out + left.value;
          saved := Tally(saved, a);
          acts := acts + [a];
        }
        i := i + 1;
      }
      assert kept[..i] == kept;
      feed := out;
      return Success(saved);
    }

    /** `save`: the feed is narrowed to its entries, the entries are saved,
      and in batch mode filtered by action and capped. */
    method Save() returns (r: Result<Saved, ImportError>)
      modifies this
      ensures match ImportSave.Save(env, st, old(State()))
        case Success(rep) => r == Success(rep.saved) && feed == rep.feed && status == rep.status
        case Failure(e) => r == Failure(e)
    {
      var kept := KeepEntries(feed);
      var saved := SaveEntries(kept);
      if saved.Failure? {
        return saved;
      }
      if st.batch {
        var narrowed := feed;
        if st.action != "" {
          narrowed := KeepAction(feed, st.action);
        }
        feed := Cap(narrowed, BatchLimit);
      }
      return saved;
    }
  }

  /** import.rb:263: every child whose name is not `entry` is unlinked. */
  method KeepEntries(children: seq<XNode>) returns (kept: seq<XNode>)
    ensures kept == Filter(children, IsFeedEntry)
  {
    kept := [];
    var i := 0;
    ghost var pre := [];
    while i < |children|
      invariant 0 <= i <= |children| && pre == children[..i]
      invariant kept == Filter(pre, IsFeedEntry)
    {
      FilterSnoc(pre, children[i], IsFeedEntry);
      if IsFeedEntry(children[i]) {
        kept := kept + [children[i]];
      }
      TakeSnoc(children, i);
      pre := pre + [children[i]];
      i := i + 1;
    }
    assert pre == children;
  }

  /** import.rb:340-344: entries of another batch operation are unlinked. */
  method KeepAction(children: seq<XNode>, action: string) returns (kept: seq<XNode>)
    ensures kept == ByAction(children, action)
  {
    var p := ForAction(action);
    kept := [];
    var i := 0;
    ghost var pre := [];
    while i < |children|
      invariant 0 <= i <= |children| && pre == children[..i]
      invariant kept == Filter(pre, p)
    {
      FilterSnoc(pre, children[i], p);
      if p(children[i]) {
        kept := kept + [children[i]];
      }
      TakeSnoc(children, i);
      pre := pre + [children[i]];
      i := i + 1;
    }
    assert pre == children;
  }

  /** import.rb:347-349: the entries are counted as they are met, and every
      entry from the `n`-th on is unlinked. */
  method Cap(children: seq<XNode>, n: nat) returns (kept: seq<XNode>)
    ensures kept == Capped(children, n)
  {
    kept := [];
    var seen := 0;
    var i := 0;
    ghost var pre := [];
    while i < |children|
      invariant 0 <= i <= |children| && pre == children[..i]
      invariant kept == Capped(pre, n) && seen == |Filter(pre, IsEntry)|
    {
      kept, seen := CapOne(children[i], n, kept, seen, pre);
      TakeSnoc(children, i);
      pre := pre + [children[i]];
      i := i + 1;
    }
    assert pre == children;
  }

  /** One child of the cap: kept unless it is an entry once `n` were met. */
  method CapOne(x: XNode, n: nat, kept: seq<XNode>, seen: nat, ghost pre: seq<XNode>) returns (kept': seq<XNode>, seen': nat)
    requires kept == Capped(pre, n) && seen == |Filter(pre, IsEntry)|
    ensures kept' == Capped(pre + [x], n) && seen' == |Filter(pre + [x], IsEntry)|
  {
    FilterSnoc(pre, x, IsEntry);
    CappedSnoc(pre, x, n);
    kept', seen' := kept, seen;
    if !IsEntry(x) || seen < n {
      kept' := kept + [x];
    }
    if IsEntry(x) {
      seen' := seen + 1;
    }
  }
}
