/** The main loop of oab2google.rb (lines 578-591): every pruned address-book
    record with an address is looked up in the contact feed, merged into its
    contact and saved, counting the saves and stopping at the configured
    number. */
module OabMain {
  import opened Util
  import opened Xml
  import opened Oab
  import opened OabStatus
  import opened OabDecode
  import opened OabMerge
  import opened OabContact
  import opened OabIndex

  /** Why the loop stops early: `raise record.SmtpAddress` for an address
      outside the Exchange domain, a merge that raises (for the address
      being merged), or a save that raises. */
  datatype RunError = OutOfDomain(smtp: string) | MergeFailed(smtp: string) | SaveFailed(error: SaveError)

  /** A contact of the feed as a value: its element's tag and attributes,
      what was decoded from it, and its children and status. */
  datatype Held = Held(tag: string, attrs: map<string, string>, fields: Fields, entry: Entry)

  ghost function HeldOf(c: Contact): Held
    reads c
  {
    Held(c.tag, c.attrs, c.fields, c.State())
  }

  /** The contact index as values. */
  ghost function View(m: map<string, Contact>): (v: map<string, Held>)
    reads m.Values
    ensures v.Keys == m.Keys
  {
    map k | k in m :: HeldOf(m[k])
  }

  /** `contacts[email]` as a value: the held contact, or the shell entry for
      an address the index does not have. */
  function Lookup(book: map<string, Held>, email: string, cfg: Config): Held {
    if Lower(email) in book then book[Lower(email)]
    else Held("entry", map[], ShellFields(email, cfg.domain), Entry(ShellNodes(email, cfg.workName), InitialStatus(None, cfg.remove)))
  }

  /** One record's turn: skipped, or merged and saved. */
  datatype Stepped = Skipped | Went(book: map<string, Held>, saved: Saved)

  /** `merge(record)` then `save` on the looked-up contact `h`, given whether
      a PUT succeeds: the merged entry and what `save` did. */
  function Turn(h: Held, rec: Record, cfg: Config, putOk: bool, smtp: string): Result<(Entry, Saved), RunError> {
    match Merge(h.entry, h.fields, rec, cfg)
    case Failure(_) => Failure(MergeFailed(smtp))
    case Success(e) =>
      match Save(e.status, h.fields.edit, Element(h.tag, h.attrs, e.nodes), putOk)
      case Failure(err) => Failure(SaveFailed(err))
      case Success(s) => Success((e, s))
  }

  /** The body of the loop for one record, given whether a PUT for its
      address succeeds. */
  function Step(book: map<string, Held>, rec: Record, cfg: Config, putOk: string -> bool): Result<Stepped, RunError> {
    if cfg.remove || rec.smtp.None? then Success(Skipped)
    else
      var a := rec.smtp.value;
      if !InExchangeDomain(a, cfg.domain) then Failure(OutOfDomain(a))
      else
        var h := Lookup(book, a, cfg);
        match Turn(h, rec, cfg, putOk(a), a)
        case Failure(e) => Failure(e)
        case Success((e, s)) => Success(Went(book[Lower(a) := h.(entry := e)], s))
  }

  function OpsOf(s: Saved): seq<Op> {
    if s.op.Some? then [s.op.value] else []
  }

  /** A run ends with the index, the requests issued in order and the save
      count, or stops on an error after the requests issued so far. */
  datatype Run = Finished(book: map<string, Held>, ops: seq<Op>, saved: nat) | Failed(error: RunError, ops: seq<Op>, saved: nat)

  /** The loop body, for one record, as a function of the index. */
  type StepFn = (map<string, Held>, Record) -> Result<Stepped, RunError>

  /** The rest of the loop over `recs`, from the requests and count so far;
      `exit` once the save count reaches the limit. */
  function Rest(book: map<string, Held>, recs: seq<Record>, step: StepFn, limit: Option<int>, ops: seq<Op>, saved: nat): Run
    decreases |recs|
  {
    if recs == [] then Finished(book, ops, saved)
    else
      match step(book, recs[0])
      case Failure(e) => Failed(e, ops, saved)
      case Success(Skipped) => Rest(book, recs[1..], step, limit, ops, saved)
      case Success(Went(b, s)) =>
        if !s.saved then Rest(b, recs[1..], step, limit, ops + OpsOf(s), saved)
        else if limit.Some? && saved + 1 >= limit.value then Finished(b, ops + OpsOf(s), saved + 1)
        else Rest(b, recs[1..], step, limit, ops + OpsOf(s), saved + 1)
  }

  /** The loop body of oab2google.rb:579-591 under the given configuration. */
  function StepOf(cfg: Config, putOk: string -> bool): StepFn {
    (b, r) => Step(b, r, cfg, putOk)
  }

  /** The whole loop of oab2google.rb:578-591. */
  function RunAll(book: map<string, Held>, recs: seq<Record>, cfg: Config, putOk: string -> bool): Run {
    Rest(book, recs, StepOf(cfg, putOk), cfg.limit, [], 0)
  }

  /** The lower-cased addresses of the records that have one. */
  ghost function SourceKeys(recs: seq<Record>): set<string> {
    set r | r in recs && r.smtp.Some? :: Lower(r.smtp.value)
  }

  lemma SourceKeysSplit(recs: seq<Record>)
    requires recs != []
    ensures SourceKeys(recs[1..]) <= SourceKeys(recs)
    ensures recs[0].smtp.Some? ==> Lower(recs[0].smtp.value) in SourceKeys(recs)
  {
    assert recs[0] in recs;
    forall k | k in SourceKeys(recs[1..]) ensures k in SourceKeys(recs) {
      var r :| r in recs[1..] && r.smtp.Some? && Lower(r.smtp.value) == k;
      assert r in recs;
    }
  }

  // ---------------------------------------------------------------- one step

  /** What a step that goes ahead does to the index: it touches only the
      record's own contact, which keeps its decoded fields, or is added as a
      shell without an edit link; and a DELETE goes to the edit link of that
      contact as it was indexed. */
  ghost predicate Local(book: map<string, Held>, rec: Record, res: Result<Stepped, RunError>) {
    res.Success? && res.value.Went? ==>
      && rec.smtp.Some?
      && LocalIndex(book, Lower(rec.smtp.value), res.value.book)
      && (res.value.saved.op.Some? && res.value.saved.op.value.DeleteAt? ==>
            var k := Lower(rec.smtp.value);
            k in book && book[k].fields.edit == Some(res.value.saved.op.value.uri))
  }

  /** `b` is `book` with at most the contact under `k` changed or added. */
  ghost predicate LocalIndex(book: map<string, Held>, k: string, b: map<string, Held>) {
    && b.Keys == book.Keys + {k}
    && (forall k' :: k' in book && k' != k ==> b[k'] == book[k'])
    && (k in book ==> b[k].fields == book[k].fields)
    && (k !in book ==> b[k].fields.edit.None?)
  }

  lemma SaveDeletesEdit(status: Option<Status>, edit: Option<string>, body: XNode, putOk: bool)
    requires Save(status, edit, body, putOk).Success?
    ensures var s := Save(status, edit, body, putOk).value;
      s.op.Some? && s.op.value.DeleteAt? ==> edit == Some(s.op.value.uri)
  {
  }

  lemma StepIsLocal(book: map<string, Held>, rec: Record, cfg: Config, putOk: string -> bool)
    ensures Local(book, rec, Step(book, rec, cfg, putOk))
  {
    var res := Step(book, rec, cfg, putOk);
    if res.Success? && res.value.Went? {
      StepIndex(book, rec, cfg, putOk);
      StepDeletes(book, rec, cfg, putOk);
    }
  }

  lemma StepIndex(book: map<string, Held>, rec: Record, cfg: Config, putOk: string -> bool)
    requires Step(book, rec, cfg, putOk).Success? && Step(book, rec, cfg, putOk).value.Went?
    ensures rec.smtp.Some? && LocalIndex(book, Lower(rec.smtp.value), Step(book, rec, cfg, putOk).value.book)
  {
    ShellDecodes(rec.smtp.value, cfg.workName, cfg.domain);
  }

  lemma StepDeletes(book: map<string, Held>, rec: Record, cfg: Config, putOk: string -> bool)
    requires Step(book, rec, cfg, putOk).Success? && Step(book, rec, cfg, putOk).value.Went?
    ensures var s := Step(book, rec, cfg, putOk).value.saved;
      s.op.Some? && s.op.value.DeleteAt? ==>
        var k := Lower(rec.smtp.value);
        k in book && book[k].fields.edit == Some(s.op.value.uri)
  {
    var a := rec.smtp.value;
    var h := Lookup(book, a, cfg);
    ShellDecodes(a, cfg.workName, cfg.domain);
    var m := Merge(h.entry, h.fields, rec, cfg);
    assert m.Success?;
    SaveDeletesEdit(m.value.status, h.fields.edit, Element(h.tag, h.attrs, m.value.nodes), putOk(a));
  }

  /** Every held contact's status is consistent with its edit link. */
  ghost predicate AllConsistent(book: map<string, Held>, remove: bool) {
    forall k :: k in book ==> Consistent(book[k].entry.status, book[k].fields.edit.Some?, remove)
  }

  /** A step from consistent statuses does not raise in `save`, and leaves
      the statuses consistent. */
  ghost predicate SavesCleanly(book: map<string, Held>, remove: bool, res: Result<Stepped, RunError>) {
    AllConsistent(book, remove) ==>
      && !(res.Failure? && res.error.SaveFailed?)
      && (res.Success? && res.value.Went? ==> AllConsistent(res.value.book, remove))
  }

  lemma StepSavesCleanly(book: map<string, Held>, rec: Record, cfg: Config, putOk: string -> bool)
    ensures SavesCleanly(book, cfg.remove, Step(book, rec, cfg, putOk))
  {
    if AllConsistent(book, cfg.remove) && !cfg.remove && rec.smtp.Some? && InExchangeDomain(rec.smtp.value, cfg.domain) {
      var a := rec.smtp.value;
      var h := Lookup(book, a, cfg);
      ShellDecodes(a, cfg.workName, cfg.domain);
      assert Consistent(h.entry.status, h.fields.edit.Some?, cfg.remove);
      var m := Merge(h.entry, h.fields, rec, cfg);
      if m.Success? {
        MergeKeepsConsistent(h.entry, h.fields, rec, cfg);
        SaveOfConsistent(m.value.status, h.fields.edit, Element(h.tag, h.attrs, m.value.nodes), putOk(a));
      }
    }
  }

  // ---------------------------------------------------------------- the loop, for any step

  lemma {:induction false} RestOfSkips(book: map<string, Held>, recs: seq<Record>, step: StepFn, limit: Option<int>, ops: seq<Op>, saved: nat)
    requires forall b, r :: step(b, r) == Success(Skipped)
    ensures Rest(book, recs, step, limit, ops, saved) == Finished(book, ops, saved)
    decreases |recs|
  {
    if recs != [] {
      RestOfSkips(book, recs[1..], step, limit, ops, saved);
    }
  }

  /** The requests issued so far are never taken back, and each record adds
      at most one save and one request. */
  lemma {:induction false} RestCounts(book: map<string, Held>, recs: seq<Record>, step: StepFn, limit: Option<int>, ops: seq<Op>, saved: nat)
    ensures var r := Rest(book, recs, step, limit, ops, saved);
      && ops <= r.ops && saved <= r.saved <= saved + |recs| && |r.ops| <= |ops| + |recs|
    decreases |recs|
  {
    if recs != [] {
      match step(book, recs[0])
      case Failure(e) =>
      case Success(Skipped) =>
        RestCounts(book, recs[1..], step, limit, ops, saved);
      case Success(Went(b, s)) =>
        RestCounts(b, recs[1..], step, limit, ops + OpsOf(s), saved);
        RestCounts(b, recs[1..], step, limit, ops + OpsOf(s), saved + 1);
    }
  }

  /** With a limit, the loop stops as soon as the save count reaches it, so
      it never saves more than the limit (or once, for a limit below one). */
  lemma {:induction false} RestWithinLimit(book: map<string, Held>, recs: seq<Record>, step: StepFn, limit: Option<int>, ops: seq<Op>, saved: nat)
    requires limit.Some? && (saved < limit.value || saved == 0)
    ensures Rest(book, recs, step, limit, ops, saved).saved <= if limit.value >= 1 then limit.value else 1
    decreases |recs|
  {
    if recs != [] {
      match step(book, recs[0])
      case Failure(e) =>
      case Success(Skipped) =>
        RestWithinLimit(book, recs[1..], step, limit, ops, saved);
      case Success(Went(b, s)) =>
        if !s.saved {
          RestWithinLimit(b, recs[1..], step, limit, ops + OpsOf(s), saved);
        } else if saved + 1 < limit.value {
          RestWithinLimit(b, recs[1..], step, limit, ops + OpsOf(s), saved + 1);
        }
    }
  }

  /** With a local step, the loop never drops a contact, adds only contacts
      for addresses of the records, and leaves every contact no record names
      as it was. */
  lemma {:induction false} RestTouchesOnlySources(book: map<string, Held>, recs: seq<Record>, step: StepFn, limit: Option<int>, ops: seq<Op>, saved: nat)
    requires forall b, r :: Local(b, r, step(b, r))
    ensures var r := Rest(book, recs, step, limit, ops, saved);
      r.Finished? ==>
        && book.Keys <= r.book.Keys <= book.Keys + SourceKeys(recs)
        && (forall k :: k in book && k !in SourceKeys(recs) ==> r.book[k] == book[k])
    decreases |recs|
  {
    if recs != [] {
      SourceKeysSplit(recs);
      assert Local(book, recs[0], step(book, recs[0]));
      match step(book, recs[0])
      case Failure(e) =>
      case Success(Skipped) =>
        RestTouchesOnlySources(book, recs[1..], step, limit, ops, saved);
      case Success(Went(b, s)) =>
        RestTouchesOnlySources(b, recs[1..], step, limit, ops + OpsOf(s), saved);
        RestTouchesOnlySources(b, recs[1..], step, limit, ops + OpsOf(s), saved + 1);
    }
  }

  /** With a local step, every contact keeps its decoded fields, and a
      contact the loop adds has no edit link. */
  lemma {:induction false} RestKeepsFields(book: map<string, Held>, recs: seq<Record>, step: StepFn, limit: Option<int>, ops: seq<Op>, saved: nat)
    requires forall b, r :: Local(b, r, step(b, r))
    ensures var r := Rest(book, recs, step, limit, ops, saved);
      r.Finished? ==> forall k :: k in r.book ==> if k in book then r.book[k].fields == book[k].fields else r.book[k].fields.edit.None?
    decreases |recs|
  {
    if recs != [] {
      assert Local(book, recs[0], step(book, recs[0]));
      match step(book, recs[0])
      case Failure(e) =>
      case Success(Skipped) =>
        RestKeepsFields(book, recs[1..], step, limit, ops, saved);
      case Success(Went(b, s)) =>
        RestKeepsFields(b, recs[1..], step, limit, ops + OpsOf(s), saved);
        RestKeepsFields(b, recs[1..], step, limit, ops + OpsOf(s), saved + 1);
    }
  }

  /** `uri` is the edit link of a contact of `book` that a record names. */
  ghost predicate EditOfSource(book: map<string, Held>, recs: seq<Record>, uri: string) {
    exists k :: k in book && k in SourceKeys(recs) && book[k].fields.edit == Some(uri)
  }

  /** Contacts absent from the address book are never deleted: every DELETE
      the loop issues goes to the edit link of a contact that was in the
      feed and that a record names. */
  lemma {:induction false} RestDeletesOnlySources(book: map<string, Held>, recs: seq<Record>, step: StepFn, limit: Option<int>, ops: seq<Op>, saved: nat)
    requires forall b, r :: Local(b, r, step(b, r))
    ensures var r := Rest(book, recs, step, limit, ops, saved);
      forall i :: |ops| <= i < |r.ops| && r.ops[i].DeleteAt? ==> EditOfSource(book, recs, r.ops[i].uri)
    decreases |recs|, 1
  {
    if recs != [] {
      SourceKeysSplit(recs);
      assert Local(book, recs[0], step(book, recs[0]));
      match step(book, recs[0])
      case Failure(e) =>
      case Success(Skipped) =>
        var later := Rest(book, recs[1..], step, limit, ops, saved).ops;
        RestDeletesOnlySources(book, recs[1..], step, limit, ops, saved);
        assert forall i :: |ops| <= i < |Rest(book, recs[1..], step, limit, ops, saved).ops| && Rest(book, recs[1..], step, limit, ops, saved).ops[i].DeleteAt? ==> EditOfSource(book, recs[1..], Rest(book, recs[1..], step, limit, ops, saved).ops[i].uri);
        DeletesWiden(book, book, recs, ops, later);
      case Success(Went(b, s)) =>
        RestDeletesWent(book, recs, step, limit, ops, saved, b, s);
    }
  }

  /** The case of `RestDeletesOnlySources` where the first record's turn
      goes ahead. */
  lemma {:induction false} RestDeletesWent(book: map<string, Held>, recs: seq<Record>, step: StepFn, limit: Option<int>, ops: seq<Op>, saved: nat, b: map<string, Held>, s: Saved)
    requires forall b, r :: Local(b, r, step(b, r))
    requires recs != [] && SourceKeys(recs[1..]) <= SourceKeys(recs)
    requires recs[0].smtp.Some? ==> Lower(recs[0].smtp.value) in SourceKeys(recs)
    requires step(book, recs[0]) == Success(Went(b, s))
    ensures var r := Rest(book, recs, step, limit, ops, saved);
      forall i :: |ops| <= i < |r.ops| && r.ops[i].DeleteAt? ==> EditOfSource(book, recs, r.ops[i].uri)
    decreases |recs|, 0
  {
    assert Local(book, recs[0], step(book, recs[0]));
    var ops' := ops + OpsOf(s);
    var n := if s.saved then saved + 1 else saved;
    var stops := s.saved && limit.Some? && saved + 1 >= limit.value;
    var later := if stops then ops' else Rest(b, recs[1..], step, limit, ops', n).ops;
    assert Rest(book, recs, step, limit, ops, saved).ops == later;
    if !stops {
      RestDeletesOnlySources(b, recs[1..], step, limit, ops', n);
      RestCounts(b, recs[1..], step, limit, ops', n);
    }
    DeletesWiden(b, book, recs, ops', later);
    forall i | |ops| <= i < |ops'| && ops'[i].DeleteAt? ensures EditOfSource(book, recs, ops'[i].uri) {
      var k := Lower(recs[0].smtp.value);
      assert ops'[i] == s.op.value;
      assert k in book && k in SourceKeys(recs) && book[k].fields.edit == Some(ops'[i].uri);
    }
  }

  /** A DELETE aimed at a contact of a later index that a later record names
      aims at a contact of the earlier index, since fields are kept and added
      shells have no edit link. */
  lemma DeletesWiden(b: map<string, Held>, book: map<string, Held>, recs: seq<Record>, ops: seq<Op>, later: seq<Op>)
    requires recs != [] && SourceKeys(recs[1..]) <= SourceKeys(recs)
    requires forall k :: k in b ==> if k in book then b[k].fields == book[k].fields else b[k].fields.edit.None?
    requires forall i :: |ops| <= i < |later| && later[i].DeleteAt? ==> EditOfSource(b, recs[1..], later[i].uri)
    ensures forall i :: |ops| <= i < |later| && later[i].DeleteAt? ==> EditOfSource(book, recs, later[i].uri)
  {
    forall i | |ops| <= i < |later| && later[i].DeleteAt? ensures EditOfSource(book, recs, later[i].uri) {
      var k :| k in b && k in SourceKeys(recs[1..]) && b[k].fields.edit == Some(later[i].uri);
      assert k in book && k in SourceKeys(recs) && book[k].fields.edit == Some(later[i].uri);
    }
  }

  /** With a step that saves cleanly, a run from consistent statuses never
      stops on a save. */
  lemma {:induction false} RestSavesCleanly(book: map<string, Held>, recs: seq<Record>, step: StepFn, limit: Option<int>, remove: bool, ops: seq<Op>, saved: nat)
    requires forall b, r :: SavesCleanly(b, remove, step(b, r))
    requires AllConsistent(book, remove)
    ensures var r := Rest(book, recs, step, limit, ops, saved);
      !(r.Failed? && r.error.SaveFailed?)
    decreases |recs|
  {
    if recs != [] {
      assert SavesCleanly(book, remove, step(book, recs[0]));
      match step(book, recs[0])
      case Failure(e) =>
      case Success(Skipped) =>
        RestSavesCleanly(book, recs[1..], step, limit, remove, ops, saved);
      case Success(Went(b, s)) =>
        RestSavesCleanly(b, recs[1..], step, limit, remove, ops + OpsOf(s), saved);
        RestSavesCleanly(b, recs[1..], step, limit, remove, ops + OpsOf(s), saved + 1);
    }
  }

  // ---------------------------------------------------------------- the loop of the program

  /** Under the remove option the loop does nothing at all. */
  lemma RunUnderRemove(book: map<string, Held>, recs: seq<Record>, cfg: Config, putOk: string -> bool)
    requires cfg.remove
    ensures RunAll(book, recs, cfg, putOk) == Finished(book, [], 0)
  {
    RestOfSkips(book, recs, StepOf(cfg, putOk), cfg.limit, [], 0);
  }

  /** At most one save per record, and never more than the limit (or one
      save, for a limit below one). */
  lemma RunWithinLimit(book: map<string, Held>, recs: seq<Record>, cfg: Config, putOk: string -> bool)
    ensures RunAll(book, recs, cfg, putOk).saved <= |recs|
    ensures cfg.limit.Some? ==> RunAll(book, recs, cfg, putOk).saved <= if cfg.limit.value >= 1 then cfg.limit.value else 1
  {
    var step := StepOf(cfg, putOk);
    RestCounts(book, recs, step, cfg.limit, [], 0);
    if cfg.limit.Some? {
      RestWithinLimit(book, recs, step, cfg.limit, [], 0);
    }
  }

  /** The contacts the run leaves: it drops none, adds only those for the
      records' addresses, changes none that no record names, keeps their
      decoded fields, and deletes only contacts of the feed that a record
      names. */
  lemma RunTouchesOnlySources(book: map<string, Held>, recs: seq<Record>, cfg: Config, putOk: string -> bool)
    ensures var r := RunAll(book, recs, cfg, putOk);
      && (r.Finished? ==>
            && book.Keys <= r.book.Keys <= book.Keys + SourceKeys(recs)
            && (forall k :: k in book && k !in SourceKeys(recs) ==> r.book[k] == book[k])
            && (forall k :: k in r.book ==> if k in book then r.book[k].fields == book[k].fields else r.book[k].fields.edit.None?))
      && (forall i :: 0 <= i < |r.ops| && r.ops[i].DeleteAt? ==> EditOfSource(book, recs, r.ops[i].uri))
  {
    var step := StepOf(cfg, putOk);
    forall b, r ensures Local(b, r, step(b, r)) {
      StepIsLocal(b, r, cfg, putOk);
    }
    RestTouchesOnlySources(book, recs, step, cfg.limit, [], 0);
    RestKeepsFields(book, recs, step, cfg.limit, [], 0);
    RestDeletesOnlySources(book, recs, step, cfg.limit, [], 0);
  }

  /** From consistent statuses (as decoding and lookups leave them) `save`
      never raises during the run. */
  lemma RunSavesCleanly(book: map<string, Held>, recs: seq<Record>, cfg: Config, putOk: string -> bool)
    requires AllConsistent(book, cfg.remove)
    ensures var r := RunAll(book, recs, cfg, putOk);
      !(r.Failed? && r.error.SaveFailed?)
  {
    var step := StepOf(cfg, putOk);
    forall b, r ensures SavesCleanly(b, cfg.remove, step(b, r)) {
      StepSavesCleanly(b, r, cfg, putOk);
    }
    RestSavesCleanly(book, recs, step, cfg.limit, cfg.remove, [], 0);
  }
  // ---------------------------------------------------------------- the loop in place

  /** What the loop hands back: the requests issued, the save count and,
      when it stopped on a `raise`, why. */
  datatype Outcome = Outcome(ops: seq<Op>, saved: nat, error: Option<RunError>)

  lemma ViewPut(m: map<string, Contact>, k: string, c: Contact)
    ensures View(m[k := c]) == View(m)[k := HeldOf(c)]
  {
  }

  /** A step on a record with a domain address is the turn on its
      looked-up contact. */
  lemma StepOfTurn(book: map<string, Held>, rec: Record, cfg: Config, putOk: string -> bool)
    requires !cfg.remove && rec.smtp.Some? && InExchangeDomain(rec.smtp.value, cfg.domain)
    ensures var a := rec.smtp.value; var h := Lookup(book, a, cfg);
      match Turn(h, rec, cfg, putOk(a), a)
      case Failure(e) => Step(book, rec, cfg, putOk) == Failure(e)
      case Success((e, s)) => Step(book, rec, cfg, putOk) == Success(Went(book[Lower(a) := h.(entry := e)], s))
  {
  }

  /** `contact.merge(record)` and `contact.save` on one contact, as `Turn`
      says on its value. */
  method MergeAndSave(c: Contact, rec: Record, cfg: Config, putOk: bool, smtp: string) returns (r: Result<Saved, RunError>)
    modifies c
    ensures var spec := Turn(old(HeldOf(c)), rec, cfg, putOk, smtp);
      && (r.Failure? <==> spec.Failure?)
      && (r.Failure? ==> r.error == spec.error)
      && (r.Success? ==> r.value == spec.value.1 && c.State() == spec.value.0)
  {
    var m := c.Merge(rec, cfg);
    if m.Failure? {
      return Failure(MergeFailed(smtp));
    }
    var s := Save(c.status, c.fields.edit, c.Node(), putOk);
    if s.Failure? {
      return Failure(SaveFailed(s.error));
    }
    return Success(s.value);
  }

  /** The turn on the contact under `k` of the index. */
  method TurnAt(book: Contacts, ghost k: string, c: Contact, rec: Record, cfg: Config, putOk: bool, smtp: string) returns (r: Result<Saved, RunError>)
    requires book.Valid() && k in book.contacts && book.contacts[k] == c
    modifies c
    ensures var spec := Turn(old(HeldOf(c)), rec, cfg, putOk, smtp);
      && (r.Failure? <==> spec.Failure?)
      && (r.Failure? ==> r.error == spec.error)
      && (r.Success? ==> r.value == spec.value.1 && c.State() == spec.value.0)
      && (r.Success? ==> View(book.contacts) == old(View(book.contacts))[k := HeldOf(c)])
  {
    r := MergeAndSave(c, rec, cfg, putOk, smtp);
    forall k' | k' in book.contacts && k' != k ensures HeldOf(book.contacts[k']) == old(HeldOf(book.contacts[k'])) {
      assert book.contacts[k'] != c;
    }
    assert View(book.contacts) == old(View(book.contacts))[k := HeldOf(c)];
  }

  /** `contacts[record.SmtpAddress]` on the index objects, as `Lookup` says
      on its value. */
  method LookUp(book: Contacts, email: string, cfg: Config) returns (c: Contact)
    requires book.Valid()
    modifies book
    ensures book.Valid()
    ensures forall c' :: c' in book.contacts.Values ==> c' in old(book.contacts.Values) || fresh(c')
    ensures Lower(email) in book.contacts && book.contacts[Lower(email)] == c
    ensures HeldOf(c) == Lookup(old(View(book.contacts)), email, cfg)
    ensures View(book.contacts) == old(View(book.contacts))[Lower(email) := HeldOf(c)]
  {
    ghost var before := View(book.contacts);
    c := book.Get(email, cfg);
    ShellDecodes(email, cfg.workName, cfg.domain);
    assert HeldOf(c) == Lookup(before, email, cfg);
    ViewPut(old(book.contacts), Lower(email), c);
  }

  lemma MapPutTwice<K, V>(m: map<K, V>, k: K, x: V, y: V)
    ensures m[k := x][k := y] == m[k := y]
  {
  }

  /** The turn for a record with a domain address `a`: look its contact up,
      merge and save, as `Turn` says of the looked-up value. */
  method ProcessAddress(book: Contacts, rec: Record, cfg: Config, putOk: bool, a: string) returns (r: Result<Saved, RunError>)
    requires book.Valid()
    modifies book, book.contacts.Values
    ensures book.Valid()
    ensures forall c :: c in book.contacts.Values ==> c in old(book.contacts.Values) || fresh(c)
    ensures var h := Lookup(old(View(book.contacts)), a, cfg);
      match Turn(h, rec, cfg, putOk, a)
      case Failure(e) => r == Failure(e)
      case Success((e, s)) => r == Success(s) && View(book.contacts) == old(View(book.contacts))[Lower(a) := h.(entry := e)]
  {
    ghost var v0 := View(book.contacts);
    var c := LookUp(book, a, cfg);
    ghost var h := HeldOf(c);
    ghost var v1 := View(book.contacts);
    r := TurnAt(book, Lower(a), c, rec, cfg, putOk, a);
    if r.Success? {
      ghost var e := c.State();
      assert HeldOf(c) == h.(entry := e);
      assert View(book.contacts) == v1[Lower(a) := h.(entry := e)];
      MapPutTwice(v0, Lower(a), h, h.(entry := e));
    }
  }

  /** One record's turn on the contact objects: `contacts[record.SmtpAddress]`,
      `merge(record)` and `save`, as the step function says. */
  method Process(book: Contacts, rec: Record, cfg: Config, putOk: string -> bool) returns (r: Result<Option<Saved>, RunError>)
    requires book.Valid()
    modifies book, book.contacts.Values
    ensures book.Valid()
    ensures forall c :: c in book.contacts.Values ==> c in old(book.contacts.Values) || fresh(c)
    ensures match Step(old(View(book.contacts)), rec, cfg, putOk)
      case Failure(e) => r == Failure(e)
      case Success(Skipped) => r == Success(None) && View(book.contacts) == old(View(book.contacts))
      case Success(Went(b, s)) => r == Success(Some(s)) && View(book.contacts) == b
  {
    if cfg.remove || rec.smtp.None? {
      return Success(None);
    }
    var a := rec.smtp.value;
    if !InExchangeDomain(a, cfg.domain) {
      return Failure(OutOfDomain(a));
    }
    StepOfTurn(View(book.contacts), rec, cfg, putOk);
    var t := ProcessAddress(book, rec, cfg, putOk(a), a);
    if t.Failure? {
      return Failure(t.error);
    }
    return Success(Some(t.value));
  }

  /** What the loop hands back once a run has ended. */
  function OutcomeOf(r: Run): Outcome {
    match r
    case Finished(_, ops, saved) => Outcome(ops, saved, None)
    case Failed(e, ops, saved) => Outcome(ops, saved, Some(e))
  }

  /** One pass of the loop of oab2google.rb:579-591 on the objects, from the
      requests and count so far: either the run ends here, as the run
      function says it ends, or it goes on with the new requests and count
      towards the same end over the remaining records `rest`. */
  method SyncOne(book: Contacts, rec: Record, ghost rest: seq<Record>, cfg: Config, putOk: string -> bool, ops: seq<Op>, saved: nat)
    returns (ops': seq<Op>, saved': nat, stop: Option<Outcome>)
    requires book.Valid()
    modifies book, book.contacts.Values
    ensures book.Valid()
    ensures forall c :: c in book.contacts.Values ==> c in old(book.contacts.Values) || fresh(c)
    ensures var spec := Rest(old(View(book.contacts)), [rec] + rest, StepOf(cfg, putOk), cfg.limit, ops, saved);
      match stop
      case Some(o) => o == OutcomeOf(spec) && (spec.Finished? ==> View(book.contacts) == spec.book)
      case None => Rest(View(book.contacts), rest, StepOf(cfg, putOk), cfg.limit, ops', saved') == spec
  {
    assert ([rec] + rest)[0] == rec && ([rec] + rest)[1..] == rest;
    var t := Process(book, rec, cfg, putOk);
    ops', saved', stop := ops, saved, None;
    if t.Failure? {
      stop := Some(Outcome(ops, saved, Some(t.error)));
    } else if t.value.Some? {
      var sv := t.value.value;
      ops' := ops + OpsOf(sv);
      if sv.saved {
        saved' := saved + 1;
        if cfg.limit.Some? && saved' >= cfg.limit.value {
          stop := Some(Outcome(ops', saved', None));
        }
      }
    }
  }

  /** The loop of oab2google.rb:578-591 over the contact objects, proved to
      end as the run function says: the requests issued, the save count, the
      error that stops it, and on completion (or `exit` at the limit) the
      final index. */
  method Sync(book: Contacts, recs: seq<Record>, cfg: Config, putOk: string -> bool) returns (r: Outcome)
    requires book.Valid()
    modifies book, book.contacts.Values
    ensures book.Valid()
    ensures match RunAll(old(View(book.contacts)), recs, cfg, putOk)
      case Finished(b, ops, saved) => r == Outcome(ops, saved, None) && View(book.contacts) == b
      case Failed(e, ops, saved) => r == Outcome(ops, saved, Some(e))
  {
    ghost var spec := RunAll(old(View(book.contacts)), recs, cfg, putOk);
    var ops: seq<Op> := [];
    var saved: nat := 0;
    var i := 0;
    assert recs[0..] == recs;
    while i < |recs|
      invariant 0 <= i <= |recs|
      invariant book.Valid()
      invariant forall c :: c in book.contacts.Values ==> c in old(book.contacts.Values) || fresh(c)
      invariant Rest(View(book.contacts), recs[i..], StepOf(cfg, putOk), cfg.limit, ops, saved) == spec
    {
      assert recs[i..] == [recs[i]] + recs[i + 1..];
      var stop;
      ops, saved, stop := SyncOne(book, recs[i], recs[i + 1..], cfg, putOk, ops, saved);
      if stop.Some? {
        return stop.value;
      }
      i := i + 1;
    }
    return Outcome(ops, saved, None);
  }
}
