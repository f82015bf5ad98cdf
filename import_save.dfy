/** `GoogleContacts#save` of import.rb (lines 260-354): each entry's status is
    resolved into an action, the entry is rewritten, tagged for the batch
    request or unlinked, the actions are counted, and in batch mode the feed
    is narrowed to one action and to the first hundred entries. */
module ImportSave {
  import opened Util
  import opened Xml
  import opened ImportGoogle
  import opened ImportMerge
  import opened ImportBook

  /** The largest number of entries one batch request carries. */
  const BatchLimit: nat := 100

  /** The counters `save` keeps (import.rb:261). */
  datatype Saved = Saved(updated: nat, deleted: nat, inserted: nat, retained: nat)

  /** A child the first pass leaves in the feed: an element whose local name
      is `entry` (import.rb:263). */
  predicate IsFeedEntry(x: XNode) {
    x.Element? && LocalName(x.name) == "entry"
  }

  /** The phone elements of an entry. */
  function PhonesOf(e: XNode): seq<XNode> {
    Named(Children(e), "gd:phoneNumber")
  }

  // ---------------------------------------------------------------- resolution

  /** import.rb:268-281: an address without a stored status is to be
      deleted, so is an entry without phones; an update whose snapshot equals
      the entry's serialisation `now` is downgraded to keep; an unset action
      becomes ignore. */
  function Resolve(stored: Option<Pending>, e: XNode, now: string): Act {
    var p := stored.GetOr(Pending(None, Some(Delete)));
    var a0 := if |PhonesOf(e)| == 0 then Some(Delete) else p.action;
    var a1 := if a0 == Some(Update) && p.xml == Some(now) then Some(Keep) else a0;
    a1.GetOr(Ignore)
  }

  /** The resolution, case by case. */
  lemma ResolveCases(stored: Option<Pending>, e: XNode, now: string)
    ensures stored.None? ==> Resolve(stored, e, now) == Delete
    ensures |PhonesOf(e)| == 0 ==> Resolve(stored, e, now) == Delete
    ensures Resolve(stored, e, now) == Delete <==>
      stored.None? || |PhonesOf(e)| == 0 || stored.value.action == Some(Delete)
    ensures Resolve(stored, e, now) == Keep <==>
      stored.Some? && |PhonesOf(e)| != 0 && stored.value.action in {Some(Update), Some(Keep)} &&
      (stored.value.action == Some(Update) ==> stored.value.xml == Some(now))
    ensures Resolve(stored, e, now) == Update <==>
      stored.Some? && |PhonesOf(e)| != 0 && stored.value.action == Some(Update) && stored.value.xml != Some(now)
    ensures Resolve(stored, e, now) == Insert <==>
      stored.Some? && |PhonesOf(e)| != 0 && stored.value.action == Some(Insert)
    ensures Resolve(stored, e, now) == Ignore <==>
      stored.Some? && |PhonesOf(e)| != 0 && stored.value.action in {None, Some(Ignore)}
  {
  }

  /** As import.rb is written, the snapshot of a first merge is nil, so an
      entry merged as found is never kept: it is updated, or deleted when it
      has no phones left. */
  lemma AsWrittenNeverKeeps(action: Option<Act>, e: XNode, now: string)
    ensures var stored := Pending(SnapshotAsWritten(Pending(None, action)), Some(Update));
      Resolve(Some(stored), e, now) == if |PhonesOf(e)| == 0 then Delete else Update
  {
  }

  /** With the snapshot taken from the entry before its first merge, an
      entry that still has phones is kept exactly when its serialisation at
      save time equals the one before the merge; in particular an entry the
      merge left as it was is kept. */
  lemma SnapshotKeepsUnchanged(env: Env, st: Settings, b: Book, src: Source)
    requires Linked(b) && src.email != "" && Lower(src.email) in b.index
    requires StatusOf(b, Lower(src.email)).xml.None? && Merge(env, st, b, src).Success?
    ensures var r := Merge(env, st, b, src).value;
      var i := b.index[Lower(src.email)];
      |PhonesOf(r.feed[i])| != 0 ==>
        (Resolve(Some(StatusOf(r, Lower(src.email))), r.feed[i], env.entryXml(r.feed[i])) == Keep <==>
          env.entryXml(r.feed[i]) == env.entryXml(b.feed[i]))
    ensures var i := b.index[Lower(src.email)];
      MergeEntry(NumberingOf(env.ph), st.group, b.feed[i], src) == Success(b.feed[i]) && |PhonesOf(b.feed[i])| != 0 ==>
        var r := Merge(env, st, b, src).value;
        Resolve(Some(StatusOf(r, Lower(src.email))), r.feed[i], env.entryXml(r.feed[i])) == Keep
  {
    var key := Lower(src.email);
    var i := b.index[key];
    var r := Merge(env, st, b, src).value;
    MergeFound(env, st, b, src);
    var p := StatusOf(r, key);
    assert p == Pending(Some(env.entryXml(b.feed[i])), Some(Update));
    ResolveCases(Some(p), r.feed[i], env.entryXml(r.feed[i]));
  }

  /** The counter an action increments; keep increments none. */
  function Tally(s: Saved, a: Act): (r: Saved)
    ensures r.updated + r.deleted + r.inserted + r.retained ==
      s.updated + s.deleted + s.inserted + s.retained + (if a == Keep then 0 else 1)
  {
    match a
    case Update => s.(updated := s.updated + 1)
    case Delete => s.(deleted := s.deleted + 1)
    case Insert => s.(inserted := s.inserted + 1)
    case Ignore => s.(retained := s.retained + 1)
    case Keep => s
  }

  // ---------------------------------------------------------------- one entry

  predicate IsSelfLink(x: XNode) {
    IsNamed(x, "link") && Attr(x, "rel") == Some("self")
  }

  predicate IsIdNode(x: XNode) {
    IsNamed(x, "id")
  }

  /** A child the delete pass keeps: an element whose local name is `id`. */
  predicate IsIdChild(x: XNode) {
    x.Element? && LocalName(x.name) == "id"
  }

  /** `contact.at('./xmlns:id').content = contact.at("./xmlns:link[@rel='self']")['href']`:
      the first `id` child comes to hold the `href` of the first self link.
      The self link is looked up first; a missing `href` reads as empty text. */
  function WithSelfId(nodes: seq<XNode>, id: string): (r: Result<seq<XNode>, ImportError>)
    ensures r.Success? ==> |r.value| == |nodes|
    ensures r.Success? <==> Detect(nodes, IsSelfLink).Some? && Detect(nodes, IsIdNode).Some?
  {
    match Detect(nodes, IsSelfLink)
    case None => Failure(NoSelfLink(id))
    case Some(l) =>
      var href := Attr(nodes[l], "href").GetOr("");
      match Detect(nodes, IsIdNode)
      case None => Failure(NoId(id))
      case Some(k) => Success(nodes[k := Element("id", nodes[k].attrs, [Text(href)])])
  }

  /** The rewritten `id` holds the self link's `href`, and nothing else
      changes. */
  lemma WithSelfIdSets(nodes: seq<XNode>, id: string)
    requires WithSelfId(nodes, id).Success?
    ensures var k := Detect(nodes, IsIdNode).value;
      var l := Detect(nodes, IsSelfLink).value;
      WithSelfId(nodes, id).value[k] == Element("id", nodes[k].attrs, [Text(Attr(nodes[l], "href").GetOr(""))]) &&
      forall j :: 0 <= j < |nodes| && j != k ==> WithSelfId(nodes, id).value[j] == nodes[j]
  {
  }

  function Verb(a: Act): string {
    match a
    case Update => "update"
    case Delete => "delete"
    case Insert => "insert"
    case Keep => "keep"
    case Ignore => "ignore"
  }

  /** The `batch:id` and `batch:operation` children appended in batch mode. */
  function BatchTags(verb: string, id: string): (r: seq<XNode>)
    ensures |r| == 2 && IsNamed(r[1], "batch:operation") && Attr(r[1], "type") == Some(verb)
    ensures IsNamed(r[0], "batch:id") && r[0].nodes == [Text(verb + "-" + id)]
  {
    [Leaf("batch:id", map[], verb + "-" + id), Element("batch:operation", map["type" := verb], [])]
  }

  function Tags(st: Settings, verb: string, id: string): seq<XNode> {
    if st.batch then BatchTags(verb, id) else []
  }

  /** `action(verb)` (import.rb:252-258) gets past its offline and dry-run
      guards and reaches a line whose condition holds; that line calls the
      misspelt `retrurn`, an undefined method, and raises. */
  predicate ActionRaises(st: Settings, verb: string) {
    !st.offline && !st.dryRun && (st.action == "" || st.action == verb)
  }

  /** The branches of import.rb:285-334 that call `action` and so raise:
      delete, insert and update outside batch mode, and keep always (it asks
      for `action('update')`). */
  predicate Raises(st: Settings, a: Act) {
    match a
    case Delete => !st.batch && ActionRaises(st, "delete")
    case Insert => !st.batch && ActionRaises(st, "insert")
    case Update => !st.batch && ActionRaises(st, "update")
    case Keep => ActionRaises(st, "update")
    case Ignore => false
  }

  /** import.rb:285-334 on one entry with work address `id` and action `a`:
      what is left of it in the feed, nothing when it is unlinked. A branch
      that calls `action` fails there when `action` raises, after the
      entry's rewrite. */
  function SaveEntry(st: Settings, id: string, a: Act, e: XNode): (r: Result<seq<XNode>, ImportError>)
    requires e.Element?
    ensures r.Success? ==> |r.value| <= 1 && (|r.value| == 0 <==> a == Ignore)
    ensures r.Success? ==> forall y :: y in r.value ==> y.Element? && y.name == e.name && y.attrs == e.attrs
  {
    match a
    case Delete =>
      var nodes :- WithSelfId(e.nodes, id);
      if Raises(st, a) then Failure(Retrurn("delete"))
      else Success([Element(e.name, e.attrs, Filter(nodes, IsIdChild) + Tags(st, "delete", id))])
    case Insert =>
      if Raises(st, a) then Failure(Retrurn("insert"))
      else Success([Element(e.name, e.attrs, e.nodes + Tags(st, "insert", id))])
    case Update =>
      var nodes :- WithSelfId(e.nodes, id);
      if Raises(st, a) then Failure(Retrurn("update"))
      else Success([Element(e.name, e.attrs, nodes + Tags(st, "update", id))])
    case Keep =>
      if Raises(st, a) then Failure(Retrurn("update")) else Success([e])
    case Ignore => Success([])
  }

  /** An entry fails to save exactly when its `id` cannot be rewritten (on
      delete and update) or its branch calls a raising `action`; the error
      names the verb `action` was asked about, unless the rewrite failed. */
  lemma SaveEntryFails(st: Settings, id: string, a: Act, e: XNode)
    requires e.Element?
    ensures SaveEntry(st, id, a, e).Failure? <==>
      ((a == Delete || a == Update) && WithSelfId(e.nodes, id).Failure?) || Raises(st, a)
    ensures Raises(st, a) && !((a == Delete || a == Update) && WithSelfId(e.nodes, id).Failure?) ==>
      SaveEntry(st, id, a, e) == Failure(Retrurn(if a == Keep then "update" else Verb(a)))
  {
  }

  /** A deleted entry keeps only its `id` children, one of which holds the
      self link's `href`, and in batch mode the two batch tags after them. */
  lemma SaveEntryDeletes(st: Settings, id: string, e: XNode)
    requires e.Element? && SaveEntry(st, id, Delete, e).Success?
    ensures var out := SaveEntry(st, id, Delete, e).value[0];
      (forall y :: y in out.nodes ==> IsIdChild(y) || y in Tags(st, "delete", id)) &&
      (exists y :: y in out.nodes && IsNamed(y, "id") &&
        y.nodes == [Text(Attr(e.nodes[Detect(e.nodes, IsSelfLink).value], "href").GetOr(""))])
  {
    var nodes := WithSelfId(e.nodes, id).value;
    var k := Detect(e.nodes, IsIdNode).value;
    WithSelfIdSets(e.nodes, id);
    var out := SaveEntry(st, id, Delete, e).value[0];
    assert out.nodes == Filter(nodes, IsIdChild) + Tags(st, "delete", id);
    assert nodes[k] in nodes && IsIdChild(nodes[k]);
    assert nodes[k] in out.nodes;
  }

  /** In batch mode a deleted, inserted or updated entry ends with `batch:id`
      holding `<action>-<address>` and `batch:operation` naming the action. */
  lemma SaveEntryTags(st: Settings, id: string, a: Act, e: XNode)
    requires e.Element? && st.batch && a in {Delete, Insert, Update} && SaveEntry(st, id, a, e).Success?
    ensures var out := SaveEntry(st, id, a, e).value[0].nodes;
      |out| >= 2 && out[|out| - 2 ..] == BatchTags(Verb(a), id)
  {
  }

  // ---------------------------------------------------------------- the pass

  /** The pass so far: the children left in the feed, the status map, the
      counters, and the action taken on each entry (the action `save` logs). */
  datatype Pass = Pass(feed: seq<XNode>, status: Option<map<string, Pending>>, saved: Saved, acts: seq<Act>)

  /** import.rb:266-334 on one child: an entry is resolved, its resolved
      action written back into a stored status, and the entry rewritten; a
      child that is not an entry stays. An entry without a work address, or
      a save before any merge, stops the pass. */
  function SaveStep(env: Env, st: Settings, ps: Pass, x: XNode): Result<Pass, ImportError> {
    if !IsEntry(x) then Success(ps.(feed := ps.feed + [x]))
    else
      match CorpEmail(x, st.domain)
      case None => Failure(Unaddressed(x))
      case Some(id) =>
        match ps.status
        case None => Failure(Unmerged)
        case Some(m) =>
          var key := Lower(id);
          var stored := if key in m then Some(m[key]) else None;
          var a := Resolve(stored, x, env.entryXml(x));
          var m' := if key in m then m[key := Pending(m[key].xml, Some(a))] else m;
          var out :- SaveEntry(st, id, a, x);
          Success(Pass(ps.feed + out, Some(m'), Tally(ps.saved, a), ps.acts + [a]))
  }

  /** The pass over the children, in order. */
  function SaveAll(env: Env, st: Settings, ps0: Pass, xs: seq<XNode>): Result<Pass, ImportError> {
    if xs == [] then Success(ps0)
    else
      var ps :- SaveAll(env, st, ps0, xs[..|xs| - 1]);
      SaveStep(env, st, ps, xs[|xs| - 1])
  }

  /** A pass that stops on a prefix of the children stops, with the same
      error, on all of them. */
  lemma {:induction false} SaveAllStops(env: Env, st: Settings, ps0: Pass, xs: seq<XNode>, j: nat)
    requires j <= |xs| && SaveAll(env, st, ps0, xs[..j]).Failure?
    ensures SaveAll(env, st, ps0, xs) == SaveAll(env, st, ps0, xs[..j])
    decreases |xs|
  {
    if j < |xs| {
      var init := xs[..|xs| - 1];
      assert init[..j] == xs[..j];
      SaveAllStops(env, st, ps0, init, j);
    } else {
      assert xs[..j] == xs;
    }
  }

  /** The counters count the actions taken. */
  predicate Tallied(ps: Pass) {
    ps.saved == Saved(Count(ps.acts, Update), Count(ps.acts, Delete), Count(ps.acts, Insert), Count(ps.acts, Ignore))
  }

  function NotEntry(x: XNode): bool {
    !IsEntry(x)
  }

  /** Taking one more action keeps the counters counting. */
  lemma TalliedSnoc(ps: Pass, a: Act, feed: seq<XNode>, status: Option<map<string, Pending>>)
    requires Tallied(ps)
    ensures Tallied(Pass(feed, status, Tally(ps.saved, a), ps.acts + [a]))
  {
    CountAppend(ps.acts, [a], Update);
    CountAppend(ps.acts, [a], Delete);
    CountAppend(ps.acts, [a], Insert);
    CountAppend(ps.acts, [a], Ignore);
  }

  /** Appending entries adds to the entries and leaves the other children. */
  lemma AppendEntries(feed: seq<XNode>, out: seq<XNode>)
    requires forall y :: y in out ==> IsEntry(y)
    ensures Filter(feed + out, NotEntry) == Filter(feed, NotEntry)
    ensures |Filter(feed + out, IsEntry)| == |Filter(feed, IsEntry)| + |out|
  {
    FilterAppend(feed, out, NotEntry);
    FilterAppend(feed, out, IsEntry);
    FilterNone(out, NotEntry);
    FilterAll(out, IsEntry);
  }

  /** The balance of one step, on the shape of the step's result. */
  predicate Balanced(ps: Pass, x: XNode, r: Pass) {
    Tallied(r) && |r.acts| == |ps.acts| + |Filter([x], IsEntry)| &&
    Filter(r.feed, NotEntry) == Filter(ps.feed, NotEntry) + Filter([x], NotEntry) &&
    |Filter(r.feed, IsEntry)| + r.saved.retained == |Filter(ps.feed, IsEntry)| + ps.saved.retained + |Filter([x], IsEntry)|
  }

  lemma EntryBalanced(ps: Pass, x: XNode, a: Act, out: seq<XNode>, status: Option<map<string, Pending>>)
    requires Tallied(ps) && IsEntry(x)
    requires |out| <= 1 && (|out| == 0 <==> a == Ignore) && forall y :: y in out ==> IsEntry(y)
    ensures Balanced(ps, x, Pass(ps.feed + out, status, Tally(ps.saved, a), ps.acts + [a]))
  {
    assert Filter([x], IsEntry) == [x] && Filter([x], NotEntry) == [];
    TalliedSnoc(ps, a, ps.feed + out, status);
    AppendEntries(ps.feed, out);
  }

  /** One step keeps the counters counting, takes one action per entry,
      passes other children through, and drops exactly the ignored entries. */
  lemma SaveStepBalance(env: Env, st: Settings, ps: Pass, x: XNode)
    requires Tallied(ps) && SaveStep(env, st, ps, x).Success?
    ensures Balanced(ps, x, SaveStep(env, st, ps, x).value)
  {
    if !IsEntry(x) {
      FilterAppend(ps.feed, [x], NotEntry);
      FilterAppend(ps.feed, [x], IsEntry);
    } else {
      var id := CorpEmail(x, st.domain).value;
      var m := ps.status.value;
      var key := Lower(id);
      var stored := if key in m then Some(m[key]) else None;
      var a := Resolve(stored, x, env.entryXml(x));
      var out := SaveEntry(st, id, a, x).value;
      var m' := if key in m then m[key := Pending(m[key].xml, Some(a))] else m;
      EntryBalanced(ps, x, a, out, Some(m'));
    }
  }

  /** The balance of a pass over `xs` from `ps0` that ended in `r`. */
  predicate BalancedAll(ps0: Pass, xs: seq<XNode>, r: Pass) {
    Tallied(r) && |r.acts| == |ps0.acts| + |Filter(xs, IsEntry)| &&
    Filter(r.feed, NotEntry) == Filter(ps0.feed, NotEntry) + Filter(xs, NotEntry) &&
    |Filter(r.feed, IsEntry)| + r.saved.retained == |Filter(ps0.feed, IsEntry)| + ps0.saved.retained + |Filter(xs, IsEntry)|
  }

  lemma BalancedSnoc(ps0: Pass, init: seq<XNode>, ps: Pass, x: XNode, r: Pass)
    requires BalancedAll(ps0, init, ps) && Balanced(ps, x, r)
    ensures BalancedAll(ps0, init + [x], r)
  {
    FilterAppend(init, [x], IsEntry);
    FilterAppend(init, [x], NotEntry);
    SnocCounts(Filter(ps0.feed, NotEntry), Filter(init, NotEntry), Filter([x], NotEntry), Filter(ps.feed, NotEntry), Filter(r.feed, NotEntry));
  }

  /** The other children carried over two stretches of a pass. */
  lemma SnocCounts(before: seq<XNode>, oi: seq<XNode>, ox: seq<XNode>, mid: seq<XNode>, after: seq<XNode>)
    requires mid == before + oi && after == mid + ox
    ensures after == before + (oi + ox)
  {
  }

  /** Over the whole pass: the counters count the actions, one action is
      taken per entry, the other children stay in order, and the entries
      left plus the retained ones are the entries met. */
  lemma {:induction false} SaveAllBalance(env: Env, st: Settings, ps0: Pass, xs: seq<XNode>)
    requires Tallied(ps0) && SaveAll(env, st, ps0, xs).Success?
    ensures BalancedAll(ps0, xs, SaveAll(env, st, ps0, xs).value)
    decreases |xs|
  {
    if xs == [] {
      assert Filter(xs, IsEntry) == [] && Filter(xs, NotEntry) == [];
    } else {
      var init, x := xs[..|xs| - 1], xs[|xs| - 1];
      assert xs == init + [x];
      SaveAllBalance(env, st, ps0, init);
      var ps := SaveAll(env, st, ps0, init).value;
      assert SaveAll(env, st, ps0, xs) == SaveStep(env, st, ps, x);
      SaveStepBalance(env, st, ps, x);
      BalancedSnoc(ps0, init, ps, x, SaveStep(env, st, ps, x).value);
    }
  }

  // ---------------------------------------------------------------- batch mode

  /** The `type` of an entry's first `batch:operation`, nil without one. */
  function OpType(x: XNode): Option<string> {
    match FirstNamed(Children(x), "batch:operation")
    case None => None
    case Some(o) => Attr(o, "type")
  }

  /** import.rb:339-345: entries of another operation are unlinked. */
  function ByAction(feed: seq<XNode>, action: string): (r: seq<XNode>)
    ensures forall x :: x in r && IsEntry(x) ==> OpType(x) == Some(action)
    ensures forall x :: x in feed && (!IsEntry(x) || OpType(x) == Some(action)) ==> x in r
    ensures forall x :: x in r ==> x in feed
  {
    Filter(feed, ForAction(action))
  }

  /** What `ByAction` keeps: children that are not entries, and entries of
      that operation. */
  function ForAction(action: string): XNode -> bool {
    x => !IsEntry(x) || OpType(x) == Some(action)
  }

  /** import.rb:347-349: every entry from the `n`-th on is unlinked. */
  function Capped(s: seq<XNode>, n: nat): seq<XNode> {
    if s == [] then []
    else
      var init, x := s[..|s| - 1], s[|s| - 1];
      if IsEntry(x) && |Filter(init, IsEntry)| >= n then Capped(init, n) else Capped(init, n) + [x]
  }

  /** The cap over one more child: an entry once `n` were met is dropped,
      any other child kept. */
  lemma CappedSnoc(s: seq<XNode>, x: XNode, n: nat)
    ensures Capped(s + [x], n) == if IsEntry(x) && |Filter(s, IsEntry)| >= n then Capped(s, n) else Capped(s, n) + [x]
  {
    assert (s + [x])[..|s|] == s && (s + [x])[|s|] == x;
  }

  /** The capped feed holds the first `n` entries, in order. */
  lemma {:induction false} CappedEntries(s: seq<XNode>, n: nat)
    ensures Filter(Capped(s, n), IsEntry) == Filter(s, IsEntry)[..Min(n, |Filter(s, IsEntry)|)]
  {
    if s != [] {
      var init, x := s[..|s| - 1], s[|s| - 1];
      assert s == init + [x];
      CappedEntries(init, n);
      CappedEntriesSnoc(init, x, n);
    }
  }

  /** One more child keeps the capped entries the first `n`. */
  lemma CappedEntriesSnoc(init: seq<XNode>, x: XNode, n: nat)
    requires Filter(Capped(init, n), IsEntry) == Filter(init, IsEntry)[..Min(n, |Filter(init, IsEntry)|)]
    ensures Filter(Capped(init + [x], n), IsEntry) == Filter(init + [x], IsEntry)[..Min(n, |Filter(init + [x], IsEntry)|)]
  {
    if IsEntry(x) && |Filter(init, IsEntry)| >= n {
      CappedDropsEntry(init, x, n);
    } else {
      CappedKeepsChild(init, x, n);
    }
  }

  lemma CappedDropsEntry(init: seq<XNode>, x: XNode, n: nat)
    requires Filter(Capped(init, n), IsEntry) == Filter(init, IsEntry)[..Min(n, |Filter(init, IsEntry)|)]
    requires IsEntry(x) && |Filter(init, IsEntry)| >= n
    ensures Filter(Capped(init + [x], n), IsEntry) == Filter(init + [x], IsEntry)[..Min(n, |Filter(init + [x], IsEntry)|)]
  {
    var s := init + [x];
    assert Capped(s, n) == Capped(init, n) by {
      assert s[..|s| - 1] == init && s[|s| - 1] == x;
    }
    assert Filter(s, IsEntry) == Filter(init, IsEntry) + [x] by {
      FilterAppend(init, [x], IsEntry);
    }
    PrefixDrop(Filter(Capped(s, n), IsEntry), Filter(init, IsEntry), Filter(s, IsEntry), x, n);
  }

  lemma CappedKeepsChild(init: seq<XNode>, x: XNode, n: nat)
    requires Filter(Capped(init, n), IsEntry) == Filter(init, IsEntry)[..Min(n, |Filter(init, IsEntry)|)]
    requires !(IsEntry(x) && |Filter(init, IsEntry)| >= n)
    ensures Filter(Capped(init + [x], n), IsEntry) == Filter(init + [x], IsEntry)[..Min(n, |Filter(init + [x], IsEntry)|)]
  {
    var s := init + [x];
    var c := Capped(init, n);
    var fx := Filter([x], IsEntry);
    assert Filter(Capped(s, n), IsEntry) == Filter(c, IsEntry) + fx by {
      assert s[..|s| - 1] == init && s[|s| - 1] == x;
      assert Capped(s, n) == c + [x];
      FilterAppend(c, [x], IsEntry);
    }
    assert Filter(s, IsEntry) == Filter(init, IsEntry) + fx by {
      FilterAppend(init, [x], IsEntry);
    }
    assert fx == if IsEntry(x) then [x] else [];
    PrefixKeep(Filter(Capped(s, n), IsEntry), Filter(c, IsEntry), Filter(init, IsEntry), Filter(s, IsEntry), fx, n);
  }

  /** An entry past the cap leaves the first `n` as they were. */
  lemma PrefixDrop(fcs: seq<XNode>, e: seq<XNode>, fs: seq<XNode>, x: XNode, n: nat)
    requires fcs == e[..Min(n, |e|)] && |e| >= n && fs == e + [x]
    ensures fcs == fs[..Min(n, |fs|)]
  {
    assert Min(n, |e|) == n && Min(n, |fs|) == n;
    assert fs[..n] == e[..n];
  }

  /** A child under the cap is kept. */
  lemma PrefixKeep(fcs: seq<XNode>, fc: seq<XNode>, e: seq<XNode>, fs: seq<XNode>, fx: seq<XNode>, n: nat)
    requires fcs == fc + fx && fc == e[..Min(n, |e|)] && fs == e + fx && |fx| <= 1 && (fx != [] ==> |e| < n)
    ensures fcs == fs[..Min(n, |fs|)]
  {
    if fx != [] {
      assert Min(n, |e|) == |e| && Min(n, |fs|) == |fs|;
      assert e[..|e|] == e && fs[..|fs|] == fs;
    } else {
      assert fs == e && fcs == fc;
    }
  }

  /** The cap keeps every child that is not an entry, in order. */
  lemma {:induction false} CappedOthers(s: seq<XNode>, n: nat)
    ensures Filter(Capped(s, n), NotEntry) == Filter(s, NotEntry)
  {
    if s != [] {
      var init, x := s[..|s| - 1], s[|s| - 1];
      assert s == init + [x];
      CappedOthers(init, n);
      FilterAppend(init, [x], NotEntry);
      var c := Capped(init, n);
      if IsEntry(x) && |Filter(init, IsEntry)| >= n {
        assert Filter([x], NotEntry) == [];
      } else {
        FilterAppend(c, [x], NotEntry);
      }
    }
  }

  function Min(a: nat, b: nat): nat {
    if a <= b then a else b
  }

  // ---------------------------------------------------------------- save

  /** What `save` leaves: the feed it writes out, the counters, and the
      status map with the resolved actions. */
  datatype Report = Report(feed: seq<XNode>, saved: Saved, status: Option<map<string, Pending>>)

  /** The whole of `save`: the feed narrowed to its entries, the pass over
      them, and in batch mode the action filter and the cap. */
  function Save(env: Env, st: Settings, b: Book): Result<Report, ImportError> {
    var kept := Filter(b.feed, IsFeedEntry);
    var ps :- SaveAll(env, st, Pass([], b.status, Saved(0, 0, 0, 0), []), kept);
    var narrowed := if st.batch && st.action != "" then ByAction(ps.feed, st.action) else ps.feed;
    var f := if st.batch then Capped(narrowed, BatchLimit) else narrowed;
    Success(Report(f, ps.saved, ps.status))
  }

  /** Without batch mode the counters count the actions taken on the feed's
      entries, and the entries written out plus the retained ones are all
      the entries. */
  lemma SaveCounts(env: Env, st: Settings, b: Book)
    requires Save(env, st, b).Success? && !st.batch
    ensures var r := Save(env, st, b).value;
      |Filter(r.feed, IsEntry)| + r.saved.retained == |Filter(Filter(b.feed, IsFeedEntry), IsEntry)|
    ensures var r := Save(env, st, b).value;
      Filter(r.feed, NotEntry) == Filter(Filter(b.feed, IsFeedEntry), NotEntry)
  {
    var kept := Filter(b.feed, IsFeedEntry);
    var ps0 := Pass([], b.status, Saved(0, 0, 0, 0), []);
    SaveAllBalance(env, st, ps0, kept);
  }

  /** An online run that is neither a batch nor a dry run and has no
      `--action` filter: every branch but ignore calls a raising `action`. */
  predicate DefaultRun(st: Settings) {
    !st.batch && !st.offline && !st.dryRun && st.action == ""
  }

  /** In such a run, a pass that gets through has taken no action but
      ignore. */
  lemma {:induction false} SaveAllOnlyIgnores(env: Env, st: Settings, ps0: Pass, xs: seq<XNode>)
    requires DefaultRun(st) && (forall a :: a in ps0.acts ==> a == Ignore)
    requires SaveAll(env, st, ps0, xs).Success?
    ensures forall a :: a in SaveAll(env, st, ps0, xs).value.acts ==> a == Ignore
    decreases |xs|
  {
    if xs != [] {
      var init, x := xs[..|xs| - 1], xs[|xs| - 1];
      SaveAllOnlyIgnores(env, st, ps0, init);
      var ps := SaveAll(env, st, ps0, init).value;
      if IsEntry(x) {
        var id := CorpEmail(x, st.domain).value;
        var m := ps.status.value;
        var key := Lower(id);
        var stored := if key in m then Some(m[key]) else None;
        var a := Resolve(stored, x, env.entryXml(x));
        SaveEntryFails(st, id, a, x);
        assert SaveStep(env, st, ps, x).value.acts == ps.acts + [a];
      }
    }
  }

  /** A default run that saves at all saves nothing: no entry is deleted,
      inserted or updated, every entry is counted as retained and unlinked,
      and the feed written out holds no entry. */
  lemma SaveDefaultRun(env: Env, st: Settings, b: Book)
    requires DefaultRun(st) && Save(env, st, b).Success?
    ensures var r := Save(env, st, b).value;
      r.saved.updated == 0 && r.saved.deleted == 0 && r.saved.inserted == 0 &&
      r.saved.retained == |Filter(Filter(b.feed, IsFeedEntry), IsEntry)| && Filter(r.feed, IsEntry) == []
  {
    var kept := Filter(b.feed, IsFeedEntry);
    var ps0 := Pass([], b.status, Saved(0, 0, 0, 0), []);
    SaveAllBalance(env, st, ps0, kept);
    SaveAllOnlyIgnores(env, st, ps0, kept);
    var ps := SaveAll(env, st, ps0, kept).value;
    CountAllOrNone(ps.acts, Update);
    CountAllOrNone(ps.acts, Delete);
    CountAllOrNone(ps.acts, Insert);
    CountAllOrNone(ps.acts, Ignore);
    assert Filter(ps0.feed, IsEntry) == [];
  }

  /** In batch mode at most a hundred entries are written out, each of the
      filtered action when there is one, and every child is one the feed
      held after the pass. */
  lemma SaveBatch(env: Env, st: Settings, b: Book)
    requires Save(env, st, b).Success? && st.batch
    ensures |Filter(Save(env, st, b).value.feed, IsEntry)| <= BatchLimit
    ensures st.action != "" ==>
      forall x :: x in Save(env, st, b).value.feed && IsEntry(x) ==> OpType(x) == Some(st.action)
  {
    var kept := Filter(b.feed, IsFeedEntry);
    var ps := SaveAll(env, st, Pass([], b.status, Saved(0, 0, 0, 0), []), kept).value;
    var narrowed := if st.action != "" then ByAction(ps.feed, st.action) else ps.feed;
    CappedEntries(narrowed, BatchLimit);
    CappedWithin(narrowed, BatchLimit);
  }

  /** The capped feed holds only children of the feed it capped. */
  lemma {:induction false} CappedWithin(s: seq<XNode>, n: nat)
    ensures forall x :: x in Capped(s, n) ==> x in s
  {
    if s != [] {
      CappedWithin(s[..|s| - 1], n);
    }
  }
}
