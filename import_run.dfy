/** The top level of import.rb (lines 447-456): every address-book record is
    shaped, its numbers are added to the numbers already seen for its
    lower-cased address, the record is merged with that union, and the feed
    is saved at the end. */
module ImportRun {
  import opened Util
  import opened Xml
  import opened ImportPhone
  import opened ImportGoogle
  import opened ImportBook
  import opened ImportSave
  import opened ImportContacts
  import opened ImportOab

  /** `numbers[key] || []`. */
  function Get(m: map<string, seq<string>>, key: string): seq<string> {
    if key in m then m[key] else []
  }

  /** The `numbers` hash after the given shaped records: per lower-cased
      address, their numbers concatenated in order. */
  function Acc(srcs: seq<Source>): map<string, seq<string>> {
    if srcs == [] then map[]
    else
      var m := Acc(srcs[..|srcs| - 1]);
      var key := Lower(srcs[|srcs| - 1].email);
      m[key := Get(m, key) + srcs[|srcs| - 1].numbers]
  }

  lemma AccSnoc(srcs: seq<Source>, s: Source)
    ensures var key := Lower(s.email);
      Acc(srcs + [s]) == Acc(srcs)[key := Get(Acc(srcs), key) + s.numbers]
  {
    assert (srcs + [s])[..|srcs|] == srcs;
  }

  /** The numbers of the records with the given lower-cased address. */
  function Seen(srcs: seq<Source>, key: string): seq<string> {
    if srcs == [] then []
    else Seen(srcs[..|srcs| - 1], key) + (if Lower(srcs[|srcs| - 1].email) == key then srcs[|srcs| - 1].numbers else [])
  }

  /** The hash holds, for every address, exactly the numbers seen for it. */
  lemma {:induction false} AccSeen(srcs: seq<Source>, key: string)
    ensures Get(Acc(srcs), key) == Seen(srcs, key)
  {
    if srcs != [] {
      AccSeen(srcs[..|srcs| - 1], key);
    }
  }

  lemma {:induction false} SeenMembers(srcs: seq<Source>, key: string)
    ensures forall n :: n in Seen(srcs, key) <==> exists j :: 0 <= j < |srcs| && Lower(srcs[j].email) == key && n in srcs[j].numbers
  {
    if srcs != [] {
      var init := srcs[..|srcs| - 1];
      SeenMembers(init, key);
      forall n | n in Seen(srcs, key)
        ensures exists j :: 0 <= j < |srcs| && Lower(srcs[j].email) == key && n in srcs[j].numbers
      {
        if n in Seen(init, key) {
          var j :| 0 <= j < |init| && Lower(init[j].email) == key && n in init[j].numbers;
          assert srcs[j] == init[j];
        } else {
          assert Lower(srcs[|srcs| - 1].email) == key && n in srcs[|srcs| - 1].numbers;
        }
      }
      forall n | exists j :: 0 <= j < |srcs| && Lower(srcs[j].email) == key && n in srcs[j].numbers
        ensures n in Seen(srcs, key)
      {
        var j :| 0 <= j < |srcs| && Lower(srcs[j].email) == key && n in srcs[j].numbers;
        if j < |init| {
          assert init[j] == srcs[j];
        }
      }
    }
  }

  /** The last shaped record as `merge` receives it (import.rb:452): with
      the sorted union of the numbers seen for its address. */
  function Handed(srcs: seq<Source>): Source
    requires srcs != []
  {
    var s := srcs[|srcs| - 1];
    s.(numbers := Sort(Uniq(Get(Acc(srcs), Lower(s.email)))))
  }

  /** Each merge for an address receives the sorted, duplicate-free union of
      the numbers of every record seen so far with that address, the record
      itself included; the rest of the record is as shaped. */
  lemma HandedNumbers(srcs: seq<Source>)
    requires srcs != []
    ensures var h, s := Handed(srcs), srcs[|srcs| - 1];
      h.email == s.email && h.givenName == s.givenName && h.familyName == s.familyName && h.fullName == s.fullName
    ensures Sorted(Handed(srcs).numbers) && NoDup(Handed(srcs).numbers)
    ensures var key := Lower(srcs[|srcs| - 1].email);
      forall n :: n in Handed(srcs).numbers <==> exists j :: 0 <= j < |srcs| && Lower(srcs[j].email) == key && n in srcs[j].numbers
  {
    var key := Lower(srcs[|srcs| - 1].email);
    var all := Get(Acc(srcs), key);
    AccSeen(srcs, key);
    SeenMembers(srcs, key);
    UniqNoDup(all);
    SortKeepsNoDup(Uniq(all));
    SortedPreservesMembers(Uniq(all));
  }

  /** How one record is shaped, and how one shaped record is merged into
      the book; the loop is stated over these two so that reasoning about
      the loop does not reopen them. */
  type ShapeFn = OabRecord -> Result<Source, ImportError>
  type MergeFn = (Book, Source) -> Result<Book, ImportError>

  function ShapeOf(ph: Phony): ShapeFn {
    rec => Shape(ph, rec)
  }

  /** `gc.merge` on a linked book. The loop only ever hands it a linked
      book (`RunLinked`), so the second branch is never taken. */
  ghost function MergeOf(env: Env, st: Settings): MergeFn {
    (b, src) => if Linked(b) then Merge(env, st, b, src) else Success(b)
  }

  /** The book and the shaped records after the loop has taken the given
      records; the first record that cannot be shaped or merged stops it. */
  ghost function Run(shape: ShapeFn, merge: MergeFn, b0: Book, recs: seq<OabRecord>): (r: Result<(Book, seq<Source>), ImportError>)
    ensures r.Success? ==> |r.value.1| == |recs|
  {
    if recs == [] then Success((b0, []))
    else
      var p :- Run(shape, merge, b0, recs[..|recs| - 1]);
      var s :- shape(recs[|recs| - 1]);
      var b :- merge(p.0, Handed(p.1 + [s]));
      Success((b, p.1 + [s]))
  }

  /** A loop that stops on a prefix of the records stops, with the same
      error, on all of them. */
  lemma {:induction false} RunStops(shape: ShapeFn, merge: MergeFn, b0: Book, recs: seq<OabRecord>, j: nat)
    requires j <= |recs| && Run(shape, merge, b0, recs[..j]).Failure?
    ensures Run(shape, merge, b0, recs) == Run(shape, merge, b0, recs[..j])
    decreases |recs|
  {
    if j < |recs| {
      var init := recs[..|recs| - 1];
      assert init[..j] == recs[..j];
      RunStops(shape, merge, b0, init, j);
    } else {
      assert recs[..j] == recs;
    }
  }

  /** One more record: it is shaped, and the shaped record with the union
      of its address's numbers is merged. */
  lemma RunSnoc(shape: ShapeFn, merge: MergeFn, b0: Book, recs: seq<OabRecord>, j: nat)
    requires j < |recs| && Run(shape, merge, b0, recs[..j]).Success?
    ensures var p := Run(shape, merge, b0, recs[..j]).value;
      match shape(recs[j])
      case Failure(e) => Run(shape, merge, b0, recs[..j + 1]) == Failure(e)
      case Success(s) =>
        match merge(p.0, Handed(p.1 + [s]))
        case Failure(e) => Run(shape, merge, b0, recs[..j + 1]) == Failure(e)
        case Success(b) => Run(shape, merge, b0, recs[..j + 1]) == Success((b, p.1 + [s]))
  {
    assert recs[..j + 1][..j] == recs[..j];
  }

  /** The shaped records are the records, shaped one by one. */
  lemma {:induction false} RunShapes(shape: ShapeFn, merge: MergeFn, b0: Book, recs: seq<OabRecord>, n: nat)
    requires n <= |recs| && Run(shape, merge, b0, recs[..n]).Success?
    ensures forall i :: 0 <= i < n ==> shape(recs[i]) == Success(Run(shape, merge, b0, recs[..n]).value.1[i])
  {
    if n > 0 {
      var j := n - 1;
      var p := Run(shape, merge, b0, recs[..j]);
      assert p.Success? by {
        assert recs[..n][..j] == recs[..j];
      }
      RunShapes(shape, merge, b0, recs, j);
      RunSnoc(shape, merge, b0, recs, j);
      var srcs := Run(shape, merge, b0, recs[..n]).value.1;
      assert shape(recs[j]).Success?;
      var prev := p.value.1;
      assert |prev| == j;
      assert srcs == prev + [shape(recs[j]).value];
      forall i | 0 <= i < n ensures shape(recs[i]) == Success(srcs[i]) {
        if i < j {
          assert shape(recs[i]) == Success(prev[i]);
          assert srcs[i] == prev[i];
        } else {
          assert i == j && srcs[i] == shape(recs[j]).value;
          assert shape(recs[j]) == Success(srcs[i]);
        }
      }
    }
  }

  /** The merges of the loop keep the book linked. */
  lemma {:induction false} RunLinked(env: Env, st: Settings, shape: ShapeFn, b0: Book, recs: seq<OabRecord>)
    requires Linked(b0) && Run(shape, MergeOf(env, st), b0, recs).Success?
    ensures Linked(Run(shape, MergeOf(env, st), b0, recs).value.0)
  {
    if recs != [] {
      var init := recs[..|recs| - 1];
      RunLinked(env, st, shape, b0, init);
      var p := Run(shape, MergeOf(env, st), b0, init).value;
      var s := shape(recs[|recs| - 1]).value;
      assert MergeOf(env, st)(p.0, Handed(p.1 + [s])) == Merge(env, st, p.0, Handed(p.1 + [s]));
    }
  }

  /** The book the loop starts from: the indexed feed and no statuses. */
  function Start(st: Settings, children: seq<XNode>): (b: Book)
    ensures Linked(b)
  {
    IndexedSlots(children, Work(st.domain));
    var (feed, index) := Indexed(children, Work(st.domain));
    Book(feed, index, None)
  }

  /** The whole run: the loop over the records and then `save`. */
  ghost function Imported(env: Env, st: Settings, children: seq<XNode>, recs: seq<OabRecord>): Result<Report, ImportError> {
    var p :- Run(ShapeOf(env.ph), MergeOf(env, st), Start(st, children), recs);
    Save(env, st, p.0)
  }

  /** A record without an address stops the run, whatever the records
      before it did. */
  lemma ImportedNeedsAddresses(env: Env, st: Settings, children: seq<XNode>, recs: seq<OabRecord>)
    requires Imported(env, st, children, recs).Success?
    ensures forall i :: 0 <= i < |recs| ==> Value(Prop(recs[i], "SmtpAddress"), None).Some?
  {
    assert recs[..|recs|] == recs;
    RunShapes(ShapeOf(env.ph), MergeOf(env, st), Start(st, children), recs, |recs|);
    forall i | 0 <= i < |recs| ensures Value(Prop(recs[i], "SmtpAddress"), None).Some? {
      assert ShapeOf(env.ph)(recs[i]).Success?;
    }
  }

  /** import.rb:449-455 on the importer object: each record shaped, its
      numbers accumulated in the `numbers` hash, and the record merged with
      the accumulated numbers. A failure ends the run, so the state it
      leaves is not described. */
  method MergeAll(gc: GoogleContacts, recs: seq<OabRecord>) returns (err: Option<ImportError>)
    requires gc.Valid()
    modifies gc
    ensures match Run(ShapeOf(gc.env.ph), MergeOf(gc.env, gc.st), old(gc.State()), recs)
      case Success(p) => err.None? && gc.State() == p.0 && gc.Valid()
      case Failure(e) => err == Some(e)
  {
    ghost var b0 := gc.State();
    var acc: map<string, seq<string>> := map[];
    ghost var srcs: seq<Source> := [];
    var i := 0;
    while i < |recs|
      invariant 0 <= i <= |recs|
      invariant gc.Valid()
      invariant Run(ShapeOf(gc.env.ph), MergeOf(gc.env, gc.st), b0, recs[..i]) == Success((gc.State(), srcs))
      invariant acc == Acc(srcs)
    {
      RunSnoc(ShapeOf(gc.env.ph), MergeOf(gc.env, gc.st), b0, recs, i);
      var s := ShapeRecord(gc.env.ph, recs[i]);
      assert ShapeOf(gc.env.ph)(recs[i]) == s;
      if s.Failure? {
        RunStops(ShapeOf(gc.env.ph), MergeOf(gc.env, gc.st), b0, recs, i + 1);
        return Some(s.error);
      }
      var key := Lower(s.value.email);
      var all := Get(acc, key) + s.value.numbers;
      acc := acc[key := all];
      AccSnoc(srcs, s.value);
      srcs := srcs + [s.value];
      assert Handed(srcs) == s.value.(numbers := Sort(Uniq(all)));
      assert MergeOf(gc.env, gc.st)(gc.State(), Handed(srcs)) == Merge(gc.env, gc.st, gc.State(), Handed(srcs));
      err := gc.Merge(s.value.(numbers := Sort(Uniq(all))));
      if err.Some? {
        RunStops(ShapeOf(gc.env.ph), MergeOf(gc.env, gc.st), b0, recs, i + 1);
        return err;
      }
      i := i + 1;
    }
    assert recs[..i] == recs;
    return None;
  }

  /** The whole of import.rb:442-456: the group looked up in the groups feed
      by the `--group` option, then the run over the feed with that group. */
  method Import(env: Env, st: Settings, groups: seq<XNode>, option: string, children: seq<XNode>, recs: seq<OabRecord>)
    returns (r: Result<Saved, ImportError>)
    ensures match GroupHref(groups, option)
      case None => r == Failure(NoGroup)
      case Some(g) =>
        match Imported(env, st.(group := g), children, recs)
        case Success(rep) => r == Success(rep.saved)
        case Failure(e) => r == Failure(e)
  {
    var g := GroupHref(groups, option);
    if g.None? {
      return Failure(NoGroup);
    }
    r := ImportFeed(env, st.(group := g.value), children, recs);
  }

  /** import.rb:442-456 once the group is known: the importer built over the
      feed, the records merged, and the feed saved. */
  method ImportFeed(env: Env, st: Settings, children: seq<XNode>, recs: seq<OabRecord>) returns (r: Result<Saved, ImportError>)
    ensures match Imported(env, st, children, recs)
      case Success(rep) => r == Success(rep.saved)
      case Failure(e) => r == Failure(e)
  {
    var gc := new GoogleContacts(env, st, children);
    var err := MergeAll(gc, recs);
    if err.Some? {
      return Failure(err.value);
    }
    RunLinked(env, st, ShapeOf(env.ph), Start(st, children), recs);
    r := gc.Save();
  }
}
