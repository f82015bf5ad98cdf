/** `Contact#merge` (oab2google.rb:185-284) as a composition of its steps, each
    a function of the entry's children and status: revive a deleted entry,
    fix the organisation, drop stale managed phones, add the missing ones,
    stop with `delete` when no phone is left, apply the group policy and
    rewrite the names.  `Contact#save` (oab2google.rb:290-320) is the
    decision at the end. */
module OabMerge {
  import opened Util
  import opened Xml
  import opened Oab
  import opened OabStatus
  import opened OabDecode

  const OtherRel := "http://schemas.google.com/g/2005#other"

  /** A refused status transition, `String#name` raised by `delete_if` on a
      text child, or `raise @status.inspect` in the name step. */
  datatype MergeError = Refused(transition: TransitionError) | TextChild | UnexpectedStatus(status: Option<Status>) | NoDisplayName

  /** The part of a contact the merge changes: the entry's children and its status. */
  datatype Entry = Entry(nodes: seq<XNode>, status: Option<Status>)

  /** `self.status = req` inside the merge. */
  function Request(cur: Option<Status>, req: Status, remove: bool): (r: Result<Option<Status>, MergeError>)
    ensures r.Success? <==> Transition(cur, req, remove).Success?
    ensures r.Success? ==> r.value == Transition(cur, req, remove).value
    ensures r.Failure? ==> r.error == Refused(Transition(cur, req, remove).error)
  {
    match Transition(cur, req, remove)
    case Success(s) => Success(s)
    case Failure(e) => Failure(Refused(e))
  }

  /** `@node.nodes.delete_if{...}`, given the complement of its block (the
      children to keep): every block asks the child for its name, which a
      text child does not have. */
  function KeepIf(nodes: seq<XNode>, keep: XNode -> bool): (r: Result<seq<XNode>, MergeError>)
    ensures r.Success? <==> !HasText(nodes)
    ensures r.Success? ==> r.value == Filter(nodes, keep)
  {
    if HasText(nodes) then Failure(TextChild) else Success(Filter(nodes, keep))
  }

  // ---------------------------------------------------------------- step 1: a deleted entry is kept

  function Revive(e: Entry, remove: bool): Result<Entry, MergeError> {
    if e.status == Some(Delete) then
      var st :- Request(e.status, Keep, remove);
      Success(Entry(e.nodes, st))
    else Success(e)
  }

  /** Merging starts by turning `delete` into `keep` (unless the remove option holds). */
  lemma ReviveDeleted(e: Entry, remove: bool)
    ensures Revive(e, remove).Success?
    ensures Revive(e, remove).value.nodes == e.nodes
    ensures Revive(e, remove).value.status == if e.status == Some(Delete) && !remove then Some(Keep) else e.status
  {
  }

  // ---------------------------------------------------------------- step 2: organisation

  /** The first `gd:organization` child has a first `gd:orgName` child whose text is the work group's name. */
  predicate OrgMatches(nodes: seq<XNode>, workName: string) {
    match FirstNamed(nodes, "gd:organization")
    case None => false
    case Some(o) =>
      match FirstNamed(o.nodes, "gd:orgName")
      case None => false
      case Some(on) => TextOf(on) == Some(workName)
  }

  function OrgElement(workName: string): XNode {
    Element("gd:organization", map["rel" := OtherRel], [Element("gd:orgName", map[], [Text(workName)])])
  }

  predicate IsOrg(n: XNode) {
    IsNamed(n, "gd:organization")
  }

  predicate NotOrg(n: XNode) {
    !IsOrg(n)
  }

  function OrgStep(e: Entry, workName: string, remove: bool): Result<Entry, MergeError> {
    if OrgMatches(e.nodes, workName) then Success(e)
    else
      var st :- Request(e.status, Update, remove);
      var kept :- KeepIf(e.nodes, NotOrg);
      Success(Entry(kept + [OrgElement(workName)], st))
  }

  /** A wrong or missing organisation is replaced by exactly one holding the
      work group's name, with `update` requested; nothing else changes, and
      afterwards the organisation matches. */
  lemma OrgStepResult(e: Entry, workName: string, remove: bool)
    requires !OrgMatches(e.nodes, workName) && OrgStep(e, workName, remove).Success?
    ensures var r := OrgStep(e, workName, remove).value;
      && Filter(r.nodes, IsOrg) == [OrgElement(workName)]
      && Filter(r.nodes, NotOrg) == Filter(e.nodes, NotOrg)
      && r.status == Transition(e.status, Update, remove).value
      && OrgMatches(r.nodes, workName)
  {
    var kept := Filter(e.nodes, NotOrg);
    var org := OrgElement(workName);
    var nodes := kept + [org];
    assert OrgStep(e, workName, remove).value.nodes == nodes;
    FilterAppend(kept, [org], IsOrg);
    FilterAppend(kept, [org], NotOrg);
    FilterNone(kept, IsOrg);
    FilterFilter(e.nodes, NotOrg, NotOrg);
    assert Filter([org], IsOrg) == [org] + Filter([], IsOrg);
    assert Filter([org], NotOrg) == [] + Filter([], NotOrg);
    assert Filter(kept, NotOrg) + [] == Filter(kept, NotOrg);
    assert forall x :: x in kept ==> !IsNamed(x, "gd:organization");
    OrgAppendedMatches(kept, workName);
  }

  /** Children without an organisation, with the work group's one appended,
      match the work group. */
  lemma OrgAppendedMatches(kept: seq<XNode>, workName: string)
    requires forall x :: x in kept ==> !IsNamed(x, "gd:organization")
    ensures OrgMatches(kept + [OrgElement(workName)], workName)
  {
    var org := OrgElement(workName);
    FirstNamedSkips(kept, [org], "gd:organization");
    assert FirstNamed(kept + [org], "gd:organization") == Some(org);
  }

  lemma {:induction false} FirstNamedSkips(a: seq<XNode>, b: seq<XNode>, name: string)
    requires forall x :: x in a ==> !IsNamed(x, name)
    ensures FirstNamed(a + b, name) == FirstNamed(b, name)
  {
    if a != [] {
      assert (a + b)[1..] == a[1..] + b;
      FirstNamedSkips(a[1..], b, name);
    } else {
      assert a + b == b;
    }
  }

  // ---------------------------------------------------------------- step 3: stale managed phones

  /** A phone child whose label is a `PHONEFIELDS` name. */
  predicate IsManaged(n: XNode) {
    IsNamed(n, "gd:phoneNumber") && Attr(n, "label").Some? && Attr(n, "label").value in PhoneFields
  }

  predicate Unmanaged(n: XNode) {
    !IsManaged(n)
  }

  /** A managed phone whose text is not among the record's numbers for its label. */
  predicate IsStale(n: XNode, rec: Record) {
    IsManaged(n) && !(TextOf(n).Some? && TextOf(n).value in NumbersOf(rec, Attr(n, "label").value))
  }

  ghost predicate AnyStale(nodes: seq<XNode>, rec: Record) {
    exists n :: n in nodes && IsStale(n, rec)
  }

  /** The removal `delete_if`, whose block requests `update` for each child it drops. */
  function RemovePhones(nodes: seq<XNode>, cur: Option<Status>, rec: Record, remove: bool): Result<Entry, MergeError> {
    if nodes == [] then Success(Entry([], cur))
    else if nodes[0].Text? then Failure(TextChild)
    else if IsStale(nodes[0], rec) then
      var st :- Request(cur, Update, remove);
      RemovePhones(nodes[1..], st, rec, remove)
    else
      var rest :- RemovePhones(nodes[1..], cur, rec, remove);
      Success(Entry([nodes[0]] + rest.nodes, rest.status))
  }

  /** The removal succeeds unless a child is text or `update` is refused;
      it keeps exactly the children that are not stale, in order, and has
      requested `update` exactly when one was stale. */
  lemma {:induction false} RemovePhonesResult(nodes: seq<XNode>, cur: Option<Status>, rec: Record, remove: bool)
    ensures var r := RemovePhones(nodes, cur, rec, remove);
      && (r.Success? <==> !HasText(nodes) && (AnyStale(nodes, rec) ==> Transition(cur, Update, remove).Success?))
      && (r.Success? ==> r.value.nodes == Filter(nodes, n => !IsStale(n, rec)))
      && (r.Success? ==> r.value.status == if AnyStale(nodes, rec) then Transition(cur, Update, remove).value else cur)
  {
    if nodes != [] {
      var n, rest := nodes[0], nodes[1..];
      assert forall x :: x in nodes <==> x == n || x in rest;
      if n.Element? {
        if IsStale(n, rec) {
          if Transition(cur, Update, remove).Success? {
            var st := Transition(cur, Update, remove).value;
            RemovePhonesResult(rest, st, rec, remove);
            UpdateTwice(cur, remove);
          }
        } else {
          RemovePhonesResult(rest, cur, rec, remove);
        }
      }
    }
  }

  /** After the removal every managed phone left has its text in the
      record's list for its label, and the other children are untouched. */
  lemma RemovePhonesKeeps(nodes: seq<XNode>, cur: Option<Status>, rec: Record, remove: bool)
    requires RemovePhones(nodes, cur, rec, remove).Success?
    ensures var kept := RemovePhones(nodes, cur, rec, remove).value.nodes;
      && (forall n :: n in kept && IsManaged(n) ==> TextOf(n).Some? && TextOf(n).value in NumbersOf(rec, Attr(n, "label").value))
      && Filter(kept, Unmanaged) == Filter(nodes, Unmanaged)
  {
    RemovePhonesResult(nodes, cur, rec, remove);
    FilterFilter(nodes, n => !IsStale(n, rec), Unmanaged);
  }

  // ---------------------------------------------------------------- step 4: new phones

  /** `contact[kind] - @phones[kind]`: the record's numbers for `kind` that the
      entry did not hold with that label when it was decoded. */
  function NewNumbers(f: Fields, rec: Record, kind: string): (r: seq<string>)
    ensures forall x :: x in r <==> x in NumbersOf(rec, kind) && Some(x) !in PhonesOf(f, kind)
  {
    Filter(NumbersOf(rec, kind), x => Some(x) !in PhonesOf(f, kind))
  }

  function PhoneElement(kind: string, number: string): XNode {
    Element("gd:phoneNumber", map["label" := kind], [Text(number)])
  }

  function PhoneElements(kind: string, numbers: seq<string>): (r: seq<XNode>)
    ensures |r| == |numbers|
    ensures forall i :: 0 <= i < |numbers| ==> r[i] == PhoneElement(kind, numbers[i])
  {
    seq(|numbers|, i requires 0 <= i < |numbers| => PhoneElement(kind, numbers[i]))
  }

  /** The elements the `PHONEFIELDS.each` loop appends for the given kinds, in order. */
  function Additions(f: Fields, rec: Record, kinds: seq<string>): seq<XNode> {
    if kinds == [] then []
    else Additions(f, rec, kinds[..|kinds| - 1]) + PhoneElements(kinds[|kinds| - 1], NewNumbers(f, rec, kinds[|kinds| - 1]))
  }

  function AddPhones(e: Entry, f: Fields, rec: Record, remove: bool): Result<Entry, MergeError> {
    var add := Additions(f, rec, PhoneFields);
    if add == [] then Success(e)
    else
      var st :- Request(e.status, Update, remove);
      Success(Entry(e.nodes + add, st))
  }

  lemma FilterPhoneElements(kind: string, numbers: seq<string>, k: string)
    ensures Filter(PhoneElements(kind, numbers), OfKind(k))
      == if kind == k && k in PhoneFields then PhoneElements(kind, numbers) else []
  {
    var els := PhoneElements(kind, numbers);
    if kind == k && k in PhoneFields {
      FilterAll(els, OfKind(k));
    } else {
      FilterNone(els, OfKind(k));
    }
  }

  /** Among the additions for distinct kinds, those labelled `k` are exactly
      the new numbers for `k`, each appended once, in the record's order. */
  lemma {:induction false} AdditionsOfKind(f: Fields, rec: Record, kinds: seq<string>, k: string)
    requires NoDup(kinds) && k in PhoneFields
    ensures Filter(Additions(f, rec, kinds), OfKind(k))
      == if k in kinds then PhoneElements(k, NewNumbers(f, rec, k)) else []
  {
    if kinds != [] {
      var init, last := kinds[..|kinds| - 1], kinds[|kinds| - 1];
      assert kinds == init + [last];
      assert NoDup(init);
      assert last !in init;
      AdditionsOfKind(f, rec, init, k);
      var p := OfKind(k);
      var front, els := Additions(f, rec, init), PhoneElements(last, NewNumbers(f, rec, last));
      FilterAppend(front, els, p);
      FilterPhoneElements(last, NewNumbers(f, rec, last), k);
      assert Filter(Additions(f, rec, kinds), p) == Filter(front, p) + Filter(els, p);
      if last == k {
        assert Filter(front, p) == [];
      } else {
        assert Filter(els, p) == [];
        assert k in kinds <==> k in init;
      }
    }
  }

  /** Every addition is a managed phone carrying one of the record's numbers for its label. */
  lemma {:induction false} AdditionsAreBacked(f: Fields, rec: Record, kinds: seq<string>)
    requires forall k :: k in kinds ==> k in PhoneFields
    ensures forall n :: n in Additions(f, rec, kinds) ==>
      IsManaged(n) && TextOf(n).Some? && TextOf(n).value in NumbersOf(rec, Attr(n, "label").value)
  {
    if kinds != [] {
      var init, last := kinds[..|kinds| - 1], kinds[|kinds| - 1];
      AdditionsAreBacked(f, rec, init);
      var els := PhoneElements(last, NewNumbers(f, rec, last));
      forall n | n in els ensures IsManaged(n) && TextOf(n).Some? && TextOf(n).value in NumbersOf(rec, Attr(n, "label").value) {
        var i :| 0 <= i < |els| && els[i] == n;
        assert NewNumbers(f, rec, last)[i] in NewNumbers(f, rec, last);
      }
    }
  }

  /** The additions request `update` once there is one; nothing is removed. */
  lemma AddPhonesResult(e: Entry, f: Fields, rec: Record, remove: bool)
    ensures var add := Additions(f, rec, PhoneFields);
      var r := AddPhones(e, f, rec, remove);
      && (r.Success? <==> add == [] || Transition(e.status, Update, remove).Success?)
      && (r.Success? ==> r.value.nodes == e.nodes + add)
      && (r.Success? ==> r.value.status == if add == [] then e.status else Transition(e.status, Update, remove).value)
  {
    assert e.nodes + [] == e.nodes;
  }

  /** The phone diff as a whole: every managed phone left is backed by the
      record, the other children are untouched, and each new number for a
      kind is appended once with that label. */
  lemma PhoneDiff(e: Entry, f: Fields, rec: Record, remove: bool, k: string)
    requires k in PhoneFields
    requires RemovePhones(e.nodes, e.status, rec, remove).Success?
    requires AddPhones(RemovePhones(e.nodes, e.status, rec, remove).value, f, rec, remove).Success?
    ensures var kept := RemovePhones(e.nodes, e.status, rec, remove).value;
      var r := AddPhones(kept, f, rec, remove).value.nodes;
      && (forall n :: n in r && IsManaged(n) ==> TextOf(n).Some? && TextOf(n).value in NumbersOf(rec, Attr(n, "label").value))
      && Filter(r, Unmanaged) == Filter(e.nodes, Unmanaged)
      && Filter(r, OfKind(k)) == Filter(kept.nodes, OfKind(k)) + PhoneElements(k, NewNumbers(f, rec, k))
  {
    var kept := RemovePhones(e.nodes, e.status, rec, remove).value;
    var add := Additions(f, rec, PhoneFields);
    RemovePhonesKeeps(e.nodes, e.status, rec, remove);
    AddPhonesResult(kept, f, rec, remove);
    AdditionsAreBacked(f, rec, PhoneFields);
    PhoneFieldsDistinct();
    AdditionsOfKind(f, rec, PhoneFields, k);
    FilterAppend(kept.nodes, add, Unmanaged);
    FilterNone(add, Unmanaged);
    FilterAppend(kept.nodes, add, OfKind(k));
    assert Filter(kept.nodes, Unmanaged) + [] == Filter(kept.nodes, Unmanaged);
  }

  // ---------------------------------------------------------------- step 5: group policy

  predicate IsMembership(n: XNode) {
    IsNamed(n, "gContact:groupMembershipInfo")
  }

  predicate HrefIn(n: XNode, hrefs: set<string>) {
    Attr(n, "href").Some? && Attr(n, "href").value in hrefs
  }

  /** Which branch of the group policy applies, judged on the groups decoded from the entry. */
  datatype GroupPolicy = AssignWork | LeaveWork | Unstar | NoChange

  function Policy(f: Fields, g: Groups): GroupPolicy {
    var inWork := g.work in f.groups;
    var inFriends := g.friends.Some? && g.friends.value in f.groups;
    if !inWork && !inFriends then AssignWork
    else if inWork && inFriends then LeaveWork
    else if inWork && (g.starred in f.groups || g.myContacts in f.groups) then Unstar
    else NoChange
  }

  /** The memberships the branch removes. */
  function Dropped(p: GroupPolicy, g: Groups): set<string> {
    match p
    case AssignWork => {g.starred, g.myContacts}
    case LeaveWork => {g.work}
    case Unstar => {g.starred, g.myContacts}
    case NoChange => {}
  }

  /** The children a branch keeps: all but the memberships with one of the given hrefs. */
  function KeepMemberships(hrefs: set<string>): XNode -> bool {
    n => !(IsMembership(n) && HrefIn(n, hrefs))
  }

  function GroupStep(e: Entry, f: Fields, g: Groups, remove: bool): Result<Entry, MergeError> {
    var p := Policy(f, g);
    if p == NoChange then Success(e)
    else
      var st :- Request(e.status, Update, remove);
      var kept :- KeepIf(e.nodes, KeepMemberships(Dropped(p, g)));
      Success(Entry(kept, st))
  }

  /** Each branch but the last requests `update` and removes exactly the
      memberships it names; no child is added, so with neither work nor
      friends membership no work membership appears. */
  lemma GroupStepResult(e: Entry, f: Fields, g: Groups, remove: bool)
    requires GroupStep(e, f, g, remove).Success?
    ensures var r := GroupStep(e, f, g, remove).value;
      var p := Policy(f, g);
      && r.nodes == Filter(e.nodes, KeepMemberships(Dropped(p, g)))
      && r.status == (if p == NoChange then e.status else Transition(e.status, Update, remove).value)
      && (forall n :: n in r.nodes ==> n in e.nodes)
  {
    if Policy(f, g) == NoChange {
      FilterAll(e.nodes, KeepMemberships(Dropped(NoChange, g)));
    }
  }

  /** The work membership the first branch builds is never attached: an entry
      decoded without it still lacks it after the step, so the next merge
      takes the same branch and requests `update` again. */
  lemma AssignWorkNeverAttaches(e: Entry, f: Fields, g: Groups, remove: bool, domain: string)
    requires Policy(f, g) == AssignWork && GroupStep(e, f, g, remove).Success?
    requires DecodeAll(e.nodes, domain).Success? && g.work !in DecodeAll(e.nodes, domain).value.groups
    requires DecodeAll(GroupStep(e, f, g, remove).value.nodes, domain).Success?
    ensures g.work !in DecodeAll(GroupStep(e, f, g, remove).value.nodes, domain).value.groups
  {
    var r := GroupStep(e, f, g, remove).value;
    GroupStepResult(e, f, g, remove);
    DecodeGroups(e.nodes, domain);
    DecodeGroups(r.nodes, domain);
  }

  // ---------------------------------------------------------------- step 6: names

  /** `fullname = "#{$2} #{$1}".strip if fullname =~ /^(Surname[^ ]*) (.*)/`:
      a display name that starts with the surname has its first word moved to
      the end. */
  function Rename(display: string, surname: string): string {
    if StartsWith(display, surname) then
      var rest := display[|surname|..];
      match IndexOf(rest, ' ')
      case None => display
      case Some(k) => Util.Strip(rest[k + 1..] + " " + surname + rest[..k])
    else display
  }

  /** A display name "Surname… rest" becomes "rest Surname…", stripped. */
  lemma RenameMovesFirstWord(surname: string, word: string, tail: string)
    requires ' ' !in word
    ensures Rename(surname + word + " " + tail, surname) == Util.Strip(tail + " " + surname + word)
  {
    var display := surname + word + " " + tail;
    assert display[..|surname|] == surname;
    var rest := display[|surname|..];
    assert rest == word + " " + tail;
    assert rest[|word|] == ' ';
    assert rest[..|word|] == word;
    match IndexOf(rest, ' ')
    case None =>
    case Some(k) =>
      assert k == |word|;
      assert rest[k + 1..] == tail;
  }

  /** Any other display name is kept: the rename either leaves the name as it
      is or is the move above. */
  lemma RenameCases(display: string, surname: string)
    ensures || Rename(display, surname) == display
            || exists word: string, tail: string :: ' ' !in word && display == surname + word + " " + tail
                 && Rename(display, surname) == Util.Strip(tail + " " + surname + word)
  {
    if StartsWith(display, surname) && IndexOf(display[|surname|..], ' ').Some? {
      var rest := display[|surname|..];
      var k := IndexOf(rest, ' ').value;
      var word, tail := rest[..k], rest[k + 1..];
      RenameSplits(display, surname, k);
      assert ' ' !in word && display == surname + word + " " + tail
        && Rename(display, surname) == Util.Strip(tail + " " + surname + word);
    }
  }

  lemma RenameSplits(display: string, surname: string, k: nat)
    requires StartsWith(display, surname) && IndexOf(display[|surname|..], ' ') == Some(k)
    ensures var rest := display[|surname|..];
      && display == surname + rest[..k] + " " + rest[k + 1..]
      && Rename(display, surname) == Util.Strip(rest[k + 1..] + " " + surname + rest[..k])
  {
    var rest := display[|surname|..];
    assert rest == rest[..k] + " " + rest[k + 1..];
    assert display == surname + rest;
  }

  function NameElements(fullname: string): seq<XNode> {
    [Leaf("title", map[], fullname), Element("gd:name", map[], [Leaf("gd:fullName", map[], fullname)])]
  }

  predicate IsNameField(n: XNode) {
    IsNamed(n, "gd:name") || IsNamed(n, "title")
  }

  predicate NotNameField(n: XNode) {
    !IsNameField(n)
  }

  function NameStep(e: Entry, rec: Record, remove: bool): Result<Entry, MergeError> {
    if e.status == Some(New) || e.status == Some(Update) then
      var st :- Request(e.status, Update, remove);
      var kept :- KeepIf(e.nodes, NotNameField);
      // `name << fullname` refuses a nil display name
      if rec.displayName.None? then Failure(NoDisplayName)
      else Success(Entry(kept + NameElements(Rename(rec.displayName.value, rec.surname)), st))
    else if e.status == Some(Keep) then Success(e)
    else Failure(UnexpectedStatus(e.status))
  }

  /** A `new` or `update` entry ends with exactly one `title` and one
      `gd:name/gd:fullName`, both holding the renamed display name, and its
      status unchanged; without a display name it fails; a `keep` entry is
      untouched; any other status is refused. */
  lemma NameStepResult(e: Entry, rec: Record, remove: bool)
    ensures var r := NameStep(e, rec, remove);
      && (e.status == Some(Keep) ==> r == Success(e))
      && (e.status != Some(New) && e.status != Some(Update) && e.status != Some(Keep) ==> r == Failure(UnexpectedStatus(e.status)))
      && ((e.status == Some(New) || e.status == Some(Update)) ==>
            (r.Success? <==> !HasText(e.nodes) && rec.displayName.Some?)
            && (!HasText(e.nodes) && rec.displayName.None? ==> r == Failure(NoDisplayName))
            && (r.Success? ==>
                  && r.value.status == e.status
                  && Filter(r.value.nodes, IsNameField) == NameElements(Rename(rec.displayName.value, rec.surname))
                  && Filter(r.value.nodes, NotNameField) == Filter(e.nodes, NotNameField)))
  {
    if e.status == Some(New) || e.status == Some(Update) {
      assert Transition(e.status, Update, remove) == Success(e.status) by {
      }
      if !HasText(e.nodes) && rec.displayName.Some? {
        NameFieldsReplaced(e.nodes, NameElements(Rename(rec.displayName.value, rec.surname)));
      }
    }
  }

  lemma NameFieldsReplaced(nodes: seq<XNode>, names: seq<XNode>)
    requires forall n :: n in names ==> IsNameField(n)
    ensures Filter(Filter(nodes, NotNameField) + names, IsNameField) == names
    ensures Filter(Filter(nodes, NotNameField) + names, NotNameField) == Filter(nodes, NotNameField)
  {
    var kept := Filter(nodes, NotNameField);
    FilterAppend(kept, names, IsNameField);
    FilterAppend(kept, names, NotNameField);
    FilterNone(kept, IsNameField);
    FilterAll(names, IsNameField);
    FilterNone(names, NotNameField);
    FilterFilter(nodes, NotNameField, NotNameField);
    var none: seq<XNode> := [];
    assert none + names == names && kept + none == kept;
  }

  // ---------------------------------------------------------------- the whole merge

  /** The steps before the phone check: revive, organisation, removal, additions. */
  function PhoneStage(e: Entry, f: Fields, rec: Record, cfg: Config): Result<Entry, MergeError> {
    var e0 :- Revive(e, cfg.remove);
    var e1 :- OrgStep(e0, cfg.workName, cfg.remove);
    var e2 :- RemovePhones(e1.nodes, e1.status, rec, cfg.remove);
    AddPhones(e2, f, rec, cfg.remove)
  }

  /** Steps 5 to 7: an entry left without phone children is deleted, any
      other has its groups and names fixed. */
  function FinishStage(e3: Entry, f: Fields, rec: Record, cfg: Config): Result<Entry, MergeError> {
    if Named(e3.nodes, "gd:phoneNumber") == [] then
      var st :- Request(e3.status, Delete, cfg.remove);
      Success(Entry(e3.nodes, st))
    else
      var e4 :- GroupStep(e3, f, cfg.groups, cfg.remove);
      NameStep(e4, rec, cfg.remove)
  }

  function Merge(e: Entry, f: Fields, rec: Record, cfg: Config): Result<Entry, MergeError> {
    var e3 :- PhoneStage(e, f, rec, cfg);
    FinishStage(e3, f, rec, cfg)
  }

  /** Requests that succeed keep the status consistent. */
  lemma RequestKeepsConsistent(cur: Option<Status>, req: Status, hasEdit: bool, remove: bool)
    requires Consistent(cur, hasEdit, remove) && req != Strip && Request(cur, req, remove).Success?
    ensures Consistent(Request(cur, req, remove).value, hasEdit, remove)
  {
    TransitionKeepsConsistent(cur, req, hasEdit, remove);
  }

  /** A consistent status that is not `delete` unless the remove option holds. */
  predicate Live(st: Option<Status>, hasEdit: bool, remove: bool) {
    Consistent(st, hasEdit, remove) && (!remove ==> st != Some(Delete))
  }

  lemma UpdateKeepsLive(st: Option<Status>, hasEdit: bool, remove: bool)
    requires Live(st, hasEdit, remove) && Transition(st, Update, remove).Success?
    ensures Live(Transition(st, Update, remove).value, hasEdit, remove)
  {
    TransitionKeepsConsistent(st, Update, hasEdit, remove);
  }

  lemma OrgStepLive(e: Entry, workName: string, hasEdit: bool, remove: bool)
    requires Live(e.status, hasEdit, remove) && OrgStep(e, workName, remove).Success?
    ensures Live(OrgStep(e, workName, remove).value.status, hasEdit, remove)
  {
    if !OrgMatches(e.nodes, workName) { UpdateKeepsLive(e.status, hasEdit, remove); }
  }

  lemma RemovePhonesLive(e: Entry, rec: Record, hasEdit: bool, remove: bool)
    requires Live(e.status, hasEdit, remove) && RemovePhones(e.nodes, e.status, rec, remove).Success?
    ensures Live(RemovePhones(e.nodes, e.status, rec, remove).value.status, hasEdit, remove)
  {
    RemovePhonesResult(e.nodes, e.status, rec, remove);
    if AnyStale(e.nodes, rec) { UpdateKeepsLive(e.status, hasEdit, remove); }
  }

  lemma AddPhonesLive(e: Entry, f: Fields, rec: Record, hasEdit: bool, remove: bool)
    requires Live(e.status, hasEdit, remove) && AddPhones(e, f, rec, remove).Success?
    ensures Live(AddPhones(e, f, rec, remove).value.status, hasEdit, remove)
  {
    AddPhonesResult(e, f, rec, remove);
    if Additions(f, rec, PhoneFields) != [] { UpdateKeepsLive(e.status, hasEdit, remove); }
  }

  /** A status the phone stage can end in, from a consistent one: consistent
      again, and never `delete` without the remove option. */
  lemma PhoneStageStatus(e: Entry, f: Fields, rec: Record, cfg: Config)
    requires Consistent(e.status, f.edit.Some?, cfg.remove) && PhoneStage(e, f, rec, cfg).Success?
    ensures Consistent(PhoneStage(e, f, rec, cfg).value.status, f.edit.Some?, cfg.remove)
    ensures !cfg.remove ==> PhoneStage(e, f, rec, cfg).value.status != Some(Delete)
  {
    var h, rm := f.edit.Some?, cfg.remove;
    var e0 := Revive(e, rm).value;
    ReviveDeleted(e, rm);
    if e.status == Some(Delete) { RequestKeepsConsistent(e.status, Keep, h, rm); }
    assert Live(e0.status, h, rm);
    var e1 := OrgStep(e0, cfg.workName, rm).value;
    OrgStepLive(e0, cfg.workName, h, rm);
    var e2 := RemovePhones(e1.nodes, e1.status, rec, rm).value;
    RemovePhonesLive(e1, rec, h, rm);
    AddPhonesLive(e2, f, rec, h, rm);
  }

  /** A merge that succeeds leaves a consistent status consistent. */
  lemma MergeKeepsConsistent(e: Entry, f: Fields, rec: Record, cfg: Config)
    requires Consistent(e.status, f.edit.Some?, cfg.remove) && Merge(e, f, rec, cfg).Success?
    ensures Consistent(Merge(e, f, rec, cfg).value.status, f.edit.Some?, cfg.remove)
  {
    var h, rm := f.edit.Some?, cfg.remove;
    PhoneStageStatus(e, f, rec, cfg);
    var e3 := PhoneStage(e, f, rec, cfg).value;
    if Named(e3.nodes, "gd:phoneNumber") == [] {
      RequestKeepsConsistent(e3.status, Delete, h, rm);
    } else {
      var e4 := GroupStep(e3, f, cfg.groups, rm).value;
      GroupStepResult(e3, f, cfg.groups, rm);
      if Policy(f, cfg.groups) != NoChange { TransitionKeepsConsistent(e3.status, Update, h, rm); }
      NameStepResult(e4, rec, rm);
    }
  }

  /** When no phone child is left the merge requests `delete`, which from
      `new`, `keep` or `update` is refused: without the remove option, from a
      consistent status, a merge that succeeds leaves a phone child. */
  lemma MergeKeepsAPhone(e: Entry, f: Fields, rec: Record, cfg: Config)
    requires Consistent(e.status, f.edit.Some?, cfg.remove) && !cfg.remove
    requires Merge(e, f, rec, cfg).Success?
    ensures Named(Merge(e, f, rec, cfg).value.nodes, "gd:phoneNumber") != []
  {
    PhoneStageStatus(e, f, rec, cfg);
    var e3 := PhoneStage(e, f, rec, cfg).value;
    if Named(e3.nodes, "gd:phoneNumber") == [] {
      DeleteOnlyFromUnsetOrDeleted(e3.status, cfg.remove);
    } else {
      FinishKeepsAPhone(e3, f, rec, cfg);
    }
  }

  /** Fixing groups and names keeps the phone children. */
  lemma FinishKeepsAPhone(e3: Entry, f: Fields, rec: Record, cfg: Config)
    requires Named(e3.nodes, "gd:phoneNumber") != [] && FinishStage(e3, f, rec, cfg).Success?
    ensures Named(FinishStage(e3, f, rec, cfg).value.nodes, "gd:phoneNumber") != []
  {
    var rm := cfg.remove;
    var x := Named(e3.nodes, "gd:phoneNumber")[0];
    assert x in Named(e3.nodes, "gd:phoneNumber");
    GroupStepKeeps(e3, f, cfg.groups, rm, x);
    var e4 := GroupStep(e3, f, cfg.groups, rm).value;
    NameStepKeeps(e4, rec, rm, x);
    assert x in Named(NameStep(e4, rec, rm).value.nodes, "gd:phoneNumber");
  }

  lemma GroupStepKeeps(e: Entry, f: Fields, g: Groups, remove: bool, x: XNode)
    requires GroupStep(e, f, g, remove).Success? && x in e.nodes && !IsMembership(x)
    ensures x in GroupStep(e, f, g, remove).value.nodes
  {
    var p := Policy(f, g);
    if p != NoChange {
      assert x in Filter(e.nodes, KeepMemberships(Dropped(p, g)));
    }
  }

  lemma NameStepKeeps(e: Entry, rec: Record, remove: bool, x: XNode)
    requires NameStep(e, rec, remove).Success? && x in e.nodes && NotNameField(x)
    ensures x in NameStep(e, rec, remove).value.nodes
  {
    if e.status != Some(Keep) {
      assert x in Filter(e.nodes, NotNameField);
    }
  }

  // ---------------------------------------------------------------- save

  /** The request `save` issues: a POST of the entry, a PUT of it to the edit
      link, or a DELETE of the edit link. */
  datatype Op = Post(body: XNode) | Put(target: Option<string>, body: XNode) | DeleteAt(uri: string)

  /** The operation issued, if any, and `save`'s return value. */
  datatype Saved = Saved(op: Option<Op>, saved: bool)

  /** `raise "#{@status}: #{@work}"`. */
  datatype SaveError = Unsaveable(status: Option<Status>)

  /** `Contact#save`; `putOk` is whether the PUT request succeeded. */
  function Save(status: Option<Status>, edit: Option<string>, body: XNode, putOk: bool): Result<Saved, SaveError> {
    match status
    case Some(Keep) => Success(Saved(None, false))
    case Some(New) => Success(Saved(Some(Post(body)), true))
    case Some(Update) => Success(Saved(Some(Put(edit, body)), putOk))
    case Some(Delete) => Success(Saved(if edit.Some? then Some(DeleteAt(edit.value)) else None, true))
    case _ => Failure(Unsaveable(status))
  }

  /** With a consistent status and without the remove option, saving never
      fails; an update is always sent to the entry's edit link, a delete is
      always issued, and a new entry is posted. */
  lemma SaveOfConsistent(status: Option<Status>, edit: Option<string>, body: XNode, putOk: bool)
    requires Consistent(status, edit.Some?, false)
    ensures Save(status, edit, body, putOk).Success?
    ensures var s := Save(status, edit, body, putOk).value;
      && (s.op.None? <==> status == Some(Keep))
      && (s.op.Some? && s.op.value.Put? ==> s.op.value.target == edit && edit.Some?)
      && (s.saved <==> status != Some(Keep) && (status == Some(Update) ==> putOk))
      && (s.op.Some? && !s.op.value.Post? ==> edit.Some?)
  {
  }
}
