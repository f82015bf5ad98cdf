/** The per-contact status machine of oab2google.rb (`Contact#status=`).  The
    source looks the pair up as the string "current:requested", the current
    status printing as "" while unset (KeyedTransition); the model works with
    the same table read as pairs (Transition), and the lemma
    TransitionIsKeyedTable shows the two agree on every pair. */
module OabStatus {
  import opened Util

  datatype Status = New | Keep | Update | Delete | Strip

  function Name(s: Status): string {
    match s
    case New => "new"
    case Keep => "keep"
    case Update => "update"
    case Delete => "delete"
    case Strip => "strip"
  }

  /** `"#{@status}"`: an unset status interpolates as the empty string. */
  function CurrentName(cur: Option<Status>): string {
    if cur.Some? then Name(cur.value) else ""
  }

  /** The `raise`: the offending "current:requested" string. */
  datatype TransitionError = TransitionError(transition: string)

  /** `status=` as written: the "current:requested" string looked up in the
      `case` table, or the error naming it. Under the remove option the
      keep/new/update-producing pairs leave the status as it was. */
  function KeyedTransition(cur: Option<Status>, req: Status, remove: bool): Result<Option<Status>, TransitionError> {
    var transition := Key(cur, req);
    if transition == Name(req) + ":" + Name(req) then Success(cur)
    else if transition == "new:update" then Success(cur)
    else if transition in [":strip", ":delete"] then Success(Some(req))
    else if transition in [":keep", ":new", "delete:keep", "delete:update", "keep:update"] then
      Success(if remove then cur else Some(req))
    else Failure(TransitionError(transition))
  }

  /** The same table over pairs: a requested status equal to the current one,
      or `new` asked for `update`, changes nothing; from unset, `strip` and
      `delete` always apply; unset to `keep` or `new`, `delete` to `keep` or
      `update` and `keep` to `update` apply unless the remove option is set;
      every other pair is refused. */
  function Transition(cur: Option<Status>, req: Status, remove: bool): Result<Option<Status>, TransitionError> {
    if IsNoOp(cur, req) then Success(cur)
    else if AlwaysApplies(cur, req) then Success(Some(req))
    else if AppliesUnlessRemove(cur, req) then Success(if remove then cur else Some(req))
    else Failure(TransitionError(Key(cur, req)))
  }

  // ---------------------------------------------------------------- the table as pairs

  predicate IsNoOp(cur: Option<Status>, req: Status) {
    cur == Some(req) || (cur == Some(New) && req == Update)
  }

  predicate AlwaysApplies(cur: Option<Status>, req: Status) {
    cur.None? && (req == Strip || req == Delete)
  }

  predicate AppliesUnlessRemove(cur: Option<Status>, req: Status) {
    || (cur.None? && (req == Keep || req == New))
    || (cur == Some(Delete) && (req == Keep || req == Update))
    || (cur == Some(Keep) && req == Update)
  }

  lemma NamesDiffer(a: Status, b: Status)
    requires a != b
    ensures Name(a) != Name(b)
  {
    match a {
      case New => assert Name(a)[0] == 'n' && (b == Strip ==> Name(b)[0] == 's');
      case Keep => assert Name(a)[0] == 'k';
      case Update => assert Name(a)[0] == 'u';
      case Delete => assert Name(a)[0] == 'd';
      case Strip => assert Name(a)[0] == 's' && (b == New ==> Name(b)[0] == 'n');
    }
  }

  lemma NameHasNoColon(s: Status)
    ensures ':' !in Name(s) && Name(s) != ""
  {
  }

  function Key(cur: Option<Status>, req: Status): string {
    CurrentName(cur) + ":" + Name(req)
  }

  lemma KeyIs(cur: Option<Status>, req: Status, c: Option<Status>, r: Status)
    ensures Key(cur, req) == Key(c, r) <==> cur == c && req == r
  {
    if Key(cur, req) == Key(c, r) { KeyDeterminesPair(cur, req, c, r); }
  }

  /** The string key "current:requested" determines the pair. */
  lemma KeyDeterminesPair(cur: Option<Status>, req: Status, cur': Option<Status>, req': Status)
    requires Key(cur, req) == Key(cur', req')
    ensures cur == cur' && req == req'
  {
    var a, b := CurrentName(cur'), Name(req');
    NameHasNoColon(req');
    if cur'.Some? { NameHasNoColon(cur'.value); }
    var literal := a + ":" + b;
    forall i | 0 <= i < |literal| && i != |a| ensures literal[i] != ':' {
      if i < |a| { assert literal[i] == a[i]; } else { assert literal[i] == b[i - |a| - 1]; }
    }
    SplitAtColon(CurrentName(cur), Name(req), literal, |a|);
    if req != req' { NamesDiffer(req, req'); }
    if cur != cur' {
      if cur.Some? && cur'.Some? { NamesDiffer(cur.value, cur'.value); }
      else if cur.Some? { NameHasNoColon(cur.value); }
    }
  }

  /** oab2google.rb:166-183: the string-keyed table and the table of pairs
      give the same answer, error text included, for every pair. */
  lemma TransitionIsKeyedTable(cur: Option<Status>, req: Status, remove: bool)
    ensures Transition(cur, req, remove) == KeyedTransition(cur, req, remove)
  {
    KeyedNoOp(cur, req);
    KeyedAlways(cur, req);
    KeyedUnlessRemove(cur, req);
  }

  lemma KeyedNoOp(cur: Option<Status>, req: Status)
    ensures (Key(cur, req) == Name(req) + ":" + Name(req) || Key(cur, req) == "new:update") <==> IsNoOp(cur, req)
  {
    KeyIs(cur, req, Some(req), req);
    KeyIs(cur, req, Some(New), Update);
    assert Key(Some(New), Update) == "new:update";
  }

  lemma KeyedAlways(cur: Option<Status>, req: Status)
    ensures Key(cur, req) in [":strip", ":delete"] <==> AlwaysApplies(cur, req)
  {
    KeyIs(cur, req, None, Strip);
    KeyIs(cur, req, None, Delete);
    assert Key(None, Strip) == ":strip" && Key(None, Delete) == ":delete";
  }

  lemma KeyedUnlessRemove(cur: Option<Status>, req: Status)
    ensures Key(cur, req) in [":keep", ":new", "delete:keep", "delete:update", "keep:update"] <==> AppliesUnlessRemove(cur, req)
  {
    KeyIs(cur, req, None, Keep);
    KeyIs(cur, req, None, New);
    KeyIs(cur, req, Some(Delete), Keep);
    KeyIs(cur, req, Some(Delete), Update);
    KeyIs(cur, req, Some(Keep), Update);
    assert Key(None, Keep) == ":keep" && Key(None, New) == ":new";
    assert Key(Some(Delete), Keep) == "delete:keep" && Key(Some(Delete), Update) == "delete:update";
    assert Key(Some(Keep), Update) == "keep:update";
  }

  /** Asking for `update` a second time changes nothing more: this is why the
      source may request it once per edited field. */
  lemma UpdateTwice(cur: Option<Status>, remove: bool)
    requires Transition(cur, Update, remove).Success?
    ensures Transition(Transition(cur, Update, remove).value, Update, remove) == Transition(cur, Update, remove)
  {
  }

  /** Deletion can only be requested of an unset or already deleted contact. */
  lemma DeleteOnlyFromUnsetOrDeleted(cur: Option<Status>, remove: bool)
    ensures Transition(cur, Delete, remove).Success? <==> cur.None? || cur == Some(Delete)
    ensures Transition(cur, Delete, remove).Success? ==> Transition(cur, Delete, remove).value == Some(Delete)
  {
  }

  /** What oab2google.rb keeps true of a contact's status, given whether the
      entry has an edit link: under the remove option the status is unset or
      `delete`; otherwise it is set, never `strip`, and `new` exactly for an
      entry without an edit link. */
  predicate Consistent(cur: Option<Status>, hasEdit: bool, remove: bool) {
    if remove then cur.None? || cur == Some(Delete)
    else cur.Some? && cur.value != Strip && (cur.value == New <==> !hasEdit)
  }

  /** Every transition the program can ask for (it never asks for `strip`)
      keeps the status consistent. */
  lemma TransitionKeepsConsistent(cur: Option<Status>, req: Status, hasEdit: bool, remove: bool)
    requires Consistent(cur, hasEdit, remove) && req != Strip
    requires Transition(cur, req, remove).Success?
    ensures Consistent(Transition(cur, req, remove).value, hasEdit, remove)
  {
  }
}
