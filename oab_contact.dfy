/** `GoogleAccount::Contact` of oab2google.rb: a Google contact entry whose
    children and status the merge edits in place, over the fields decoded
    when it was built. */
module OabContact {
  import opened Util
  import opened Xml
  import opened OxPatch
  import opened Oab
  import opened OabStatus
  import opened OabDecode
  import opened OabMerge

  /** The removal loop's invariant: the children kept so far, followed by
      what the removal of the rest would give. */
  function Prefixed(kept: seq<XNode>, r: Result<Entry, MergeError>): Result<Entry, MergeError> {
    match r
    case Success(e) => Success(Entry(kept + e.nodes, e.status))
    case Failure(err) => Failure(err)
  }

  lemma {:induction false} AdditionsGrow(f: Fields, rec: Record, kinds: seq<string>, k: nat)
    requires k <= |kinds|
    ensures |Additions(f, rec, kinds[..k])| <= |Additions(f, rec, kinds)|
  {
    if k < |kinds| {
      var init := kinds[..|kinds| - 1];
      assert init[..k] == kinds[..k];
      AdditionsGrow(f, rec, init, k);
    } else {
      assert kinds[..k] == kinds;
    }
  }

  lemma AdditionsSnoc(f: Fields, rec: Record, kinds: seq<string>, k: nat)
    requires k < |kinds|
    ensures Additions(f, rec, kinds[..k + 1]) == Additions(f, rec, kinds[..k]) + PhoneElements(kinds[k], NewNumbers(f, rec, kinds[k]))
  {
    assert kinds[..k + 1][..k] == kinds[..k];
  }

  lemma PhoneElementsSnoc(kind: string, numbers: seq<string>, j: nat, acc: seq<XNode>)
    requires j < |numbers|
    ensures acc + PhoneElements(kind, numbers[..j + 1]) == acc + PhoneElements(kind, numbers[..j]) + [PhoneElement(kind, numbers[j])]
    ensures |PhoneElements(kind, numbers[..j])| == j
  {
    assert PhoneElements(kind, numbers[..j + 1]) == PhoneElements(kind, numbers[..j]) + [PhoneElement(kind, numbers[j])];
  }

  lemma PhoneTagSpelled()
    ensures "gd" + ":" + "phoneNumber" == "gd:phoneNumber"
  {
  }

  class Contact {
    const tag: string
    const attrs: map<string, string>
    /** `@id`, `@title`, `@edit`, `@work`, `@phones`, `@groups`, ... as decoded. */
    const fields: Fields
    var nodes: seq<XNode>
    var status: Option<Status>

    /** `@node`. */
    function Node(): XNode
      reads this
    {
      Element(tag, attrs, nodes)
    }

    function State(): Entry
      reads this
    {
      Entry(nodes, status)
    }

    predicate Valid(remove: bool)
      reads this
    {
      Consistent(status, fields.edit.Some?, remove)
    }

    constructor Init(tag: string, attrs: map<string, string>, nodes: seq<XNode>, fields: Fields, status: Option<Status>)
      ensures this.tag == tag && this.attrs == attrs && this.nodes == nodes
      ensures this.fields == fields && this.status == status
    {
      this.tag := tag;
      this.attrs := attrs;
      this.nodes := nodes;
      this.fields := fields;
      this.status := status;
    }

    /** `Contact.new(node)`: decode the children in order, then request `delete`
        or `new` from the unset status. */
    static method Decode(node: XNode, cfg: Config) returns (r: Result<Contact, DecodeError>)
      requires node.Element?
      ensures r.Success? <==> DecodeAll(node.nodes, cfg.domain).Success?
      ensures r.Failure? ==> r.error == DecodeAll(node.nodes, cfg.domain).error
      ensures r.Success? ==> fresh(r.value) && r.value.Node() == node
      ensures r.Success? ==> r.value.fields == DecodeAll(node.nodes, cfg.domain).value
      ensures r.Success? ==> r.value.status == InitialStatus(r.value.fields.edit, cfg.remove)
      ensures r.Success? ==> r.value.Valid(cfg.remove)
    {
      var f := NoFields();
      var i := 0;
      while i < |node.nodes|
        invariant 0 <= i <= |node.nodes|
        invariant DecodeAll(node.nodes[..i], cfg.domain) == Success(f)
      {
        assert node.nodes[..i + 1][..i] == node.nodes[..i];
        var step := DecodeField(f, node.nodes[i], cfg.domain);
        if step.Failure? {
          DecodePrefixFails(node.nodes, i + 1, cfg.domain);
          return Failure(step.error);
        }
        f := step.value;
        i := i + 1;
      }
      assert node.nodes[..i] == node.nodes;
      var c := new Contact.Init(node.name, node.attrs, node.nodes, f, InitialStatus(f.edit, cfg.remove));
      return Success(c);
    }

    /** `status=`: the transition table applied to the current status; a
        refused request leaves the status as it was. */
    method SetStatus(req: Status, remove: bool) returns (r: Result<Option<Status>, MergeError>)
      modifies this
      ensures r == Request(old(status), req, remove)
      ensures nodes == old(nodes)
      ensures status == if r.Success? then r.value else old(status)
      ensures old(Valid(remove)) && req != Strip ==> Valid(remove)
    {
      r := Request(status, req, remove);
      if r.Success? {
        if Valid(remove) && req != Strip { RequestKeepsConsistent(status, req, fields.edit.Some?, remove); }
        status := r.value;
      }
    }

    /** `merge(contact)`: the steps of oab2google.rb:185-284 applied in place.
        It ends as the merge function says, or fails where it fails, and a
        consistent status stays consistent whatever the outcome. */
    method Merge(rec: Record, cfg: Config) returns (r: Result<(), MergeError>)
      modifies this
      ensures var spec := OabMerge.Merge(old(State()), fields, rec, cfg);
        && (r.Success? <==> spec.Success?)
        && (r.Success? ==> State() == spec.value)
      ensures old(Valid(cfg.remove)) ==> Valid(cfg.remove)
    {
      r := MergePhones(rec, cfg);
      if r.Failure? { return; }
      r := Finish(rec, cfg);
    }

    /** Merge steps 5 to 7 (oab2google.rb:227-283). */
    method Finish(rec: Record, cfg: Config) returns (r: Result<(), MergeError>)
      modifies this
      ensures var spec := FinishStage(old(State()), fields, rec, cfg);
        && (r.Success? <==> spec.Success?)
        && (r.Success? ==> State() == spec.value)
      ensures old(Valid(cfg.remove)) ==> Valid(cfg.remove)
    {
      // `@node.gd_phoneNumber!`
      var prefix, local := "gd", "phoneNumber";
      BangOfPrefixed(Node(), prefix, local);
      var selected := MethodMissing(Node(), prefix + "_" + local + "!", OxChild);
      PhoneTagSpelled();
      if selected.nodes == [] {
        var t := SetStatus(Delete, cfg.remove);
        if t.Failure? { return Failure(t.error); }
        return Success(());
      }
      r := ApplyGroupsAndNames(rec, cfg);
    }

    /** Merge steps 1 to 4 (oab2google.rb:187-225). */
    method MergePhones(rec: Record, cfg: Config) returns (r: Result<(), MergeError>)
      modifies this
      ensures var spec := PhoneStage(old(State()), fields, rec, cfg);
        && (r.Success? <==> spec.Success?)
        && (r.Success? ==> State() == spec.value)
      ensures old(Valid(cfg.remove)) ==> Valid(cfg.remove)
    {
      r := ReviveAndFixOrganisation(cfg);
      if r.Failure? { return; }
      r := RemoveStalePhones(rec, cfg.remove);
      if r.Failure? { return; }
      r := AddNewPhones(rec, cfg.remove);
    }

    /** Merge steps 1 and 2 (oab2google.rb:187-200). */
    method ReviveAndFixOrganisation(cfg: Config) returns (r: Result<(), MergeError>)
      modifies this
      ensures var spec := Revive(old(State()), cfg.remove);
        var spec' := if spec.Success? then OrgStep(spec.value, cfg.workName, cfg.remove) else spec;
        && (r.Success? <==> spec'.Success?)
        && (r.Success? ==> State() == spec'.value)
      ensures old(Valid(cfg.remove)) ==> Valid(cfg.remove)
    {
      ghost var e := State();
      var t;
      if status == Some(Delete) {
        t := SetStatus(Keep, cfg.remove);
        if t.Failure? { return Failure(t.error); }
      }
      ghost var e0 := State();
      assert Revive(e, cfg.remove) == Success(e0);
      if !OrgMatches(nodes, cfg.workName) {
        t := SetStatus(Update, cfg.remove);
        if t.Failure? { return Failure(t.error); }
        var kept := KeepIf(nodes, NotOrg);
        if kept.Failure? { return Failure(kept.error); }
        nodes := kept.value + [OrgElement(cfg.workName)];
      }
      return Success(());
    }

    /** Merge steps 5 and 6 (oab2google.rb:232-283). */
    method ApplyGroupsAndNames(rec: Record, cfg: Config) returns (r: Result<(), MergeError>)
      modifies this
      ensures var spec := GroupStep(old(State()), fields, cfg.groups, cfg.remove);
        var spec' := if spec.Success? then NameStep(spec.value, rec, cfg.remove) else spec;
        && (r.Success? <==> spec'.Success?)
        && (r.Success? ==> State() == spec'.value)
      ensures old(Valid(cfg.remove)) ==> Valid(cfg.remove)
    {
      ghost var e := State();
      var t;
      var p := Policy(fields, cfg.groups);
      if p != NoChange {
        t := SetStatus(Update, cfg.remove);
        if t.Failure? { return Failure(t.error); }
        var kept := KeepIf(nodes, KeepMemberships(Dropped(p, cfg.groups)));
        if kept.Failure? { return Failure(kept.error); }
        nodes := kept.value;
      }
      ghost var e4 := State();
      assert GroupStep(e, fields, cfg.groups, cfg.remove) == Success(e4);
      if status == Some(New) || status == Some(Update) {
        // from `new` or `update` this request cannot be refused
        t := SetStatus(Update, cfg.remove);
        var kept := KeepIf(nodes, NotNameField);
        if kept.Failure? { return Failure(kept.error); }
        nodes := kept.value;
        if rec.displayName.None? { return Failure(NoDisplayName); }
        nodes := nodes + NameElements(Rename(rec.displayName.value, rec.surname));
      } else if status != Some(Keep) {
        return Failure(UnexpectedStatus(status));
      }
      return Success(());
    }

    /** The removal `delete_if` of oab2google.rb:203-213, child by child. */
    method RemoveStalePhones(rec: Record, remove: bool) returns (r: Result<(), MergeError>)
      modifies this
      ensures var spec := RemovePhones(old(nodes), old(status), rec, remove);
        && (r.Success? <==> spec.Success?)
        && (r.Success? ==> State() == spec.value)
      ensures old(Valid(remove)) ==> Valid(remove)
    {
      ghost var start := State();
      var kept: seq<XNode> := [];
      var i := 0;
      assert nodes[0..] == nodes;
      assert forall e: Entry :: [] + e.nodes == e.nodes;
      while i < |nodes|
        invariant 0 <= i <= |nodes| && nodes == start.nodes
        invariant Prefixed(kept, RemovePhones(nodes[i..], status, rec, remove)) == RemovePhones(start.nodes, start.status, rec, remove)
        invariant old(Valid(remove)) ==> Valid(remove)
      {
        var n := nodes[i];
        assert nodes[i..][0] == n && nodes[i..][1..] == nodes[i + 1..];
        if n.Text? { return Failure(TextChild); }
        if IsStale(n, rec) {
          var t := SetStatus(Update, remove);
          if t.Failure? { return Failure(t.error); }
        } else {
          ghost var rest := RemovePhones(nodes[i + 1..], status, rec, remove);
          if rest.Success? {
            assert kept + ([n] + rest.value.nodes) == (kept + [n]) + rest.value.nodes;
          }
          kept := kept + [n];
        }
        i := i + 1;
      }
      assert kept + [] == kept;
      nodes := kept;
      return Success(());
    }

    /** The `PHONEFIELDS.each` loop of oab2google.rb:216-225: append every new
        number with its label, requesting `update` after each. */
    method AddNewPhones(rec: Record, remove: bool) returns (r: Result<(), MergeError>)
      modifies this
      ensures var spec := AddPhones(old(State()), fields, rec, remove);
        && (r.Success? <==> spec.Success?)
        && (r.Success? ==> State() == spec.value)
      ensures old(Valid(remove)) ==> Valid(remove)
    {
      r := AddKinds(rec, PhoneFields, remove);
      if Additions(fields, rec, PhoneFields) == [] { assert old(nodes) + [] == old(nodes); }
    }

    /** The loop over a list of kinds. */
    method AddKinds(rec: Record, kinds: seq<string>, remove: bool) returns (r: Result<(), MergeError>)
      modifies this
      ensures var add := Additions(fields, rec, kinds);
        var update := Transition(old(status), Update, remove);
        && (r.Success? <==> add == [] || update.Success?)
        && (r.Success? ==> nodes == old(nodes) + add)
        && (r.Success? ==> status == if add == [] then old(status) else update.value)
      ensures old(Valid(remove)) ==> Valid(remove)
    {
      ghost var start := State();
      var k := 0;
      while k < |kinds|
        invariant 0 <= k <= |kinds|
        invariant Added(start, Additions(fields, rec, kinds[..k]), remove)
        invariant old(Valid(remove)) ==> Valid(remove)
      {
        var t := AddKind(rec, kinds, k, remove, start);
        if t.Failure? {
          AdditionsGrow(fields, rec, kinds, k + 1);
          return t;
        }
        k := k + 1;
      }
      assert kinds[..k] == kinds;
      return Success(());
    }

    /** The additions `acc` have been appended to the children of `start`,
        and `update` requested if there was one. */
    ghost predicate Added(start: Entry, acc: seq<XNode>, remove: bool)
      reads this
    {
      && nodes == start.nodes + acc
      && (acc != [] ==> Transition(start.status, Update, remove).Success?)
      && status == if acc == [] then start.status else Transition(start.status, Update, remove).value
    }

    /** One round of the `PHONEFIELDS.each` loop, after the additions of the earlier kinds. */
    method AddKind(rec: Record, kinds: seq<string>, k: nat, remove: bool, ghost start: Entry) returns (r: Result<(), MergeError>)
      requires k < |kinds| && Added(start, Additions(fields, rec, kinds[..k]), remove)
      modifies this
      ensures r.Success? ==> Added(start, Additions(fields, rec, kinds[..k + 1]), remove)
      ensures r.Failure? ==> Additions(fields, rec, kinds[..k + 1]) != [] && Transition(start.status, Update, remove).Failure?
      ensures old(Valid(remove)) ==> Valid(remove)
    {
      AdditionsSnoc(fields, rec, kinds, k);
      r := AppendPhones(kinds[k], NewNumbers(fields, rec, kinds[k]), remove, start, Additions(fields, rec, kinds[..k]));
    }

    /** The inner loop: one phone child per number, each followed by `update`. */
    method AppendPhones(kind: string, numbers: seq<string>, remove: bool, ghost start: Entry, ghost acc: seq<XNode>) returns (r: Result<(), MergeError>)
      requires Added(start, acc, remove)
      modifies this
      ensures r.Success? ==> Added(start, acc + PhoneElements(kind, numbers), remove)
      ensures r.Failure? ==> acc == [] && numbers != [] && Transition(start.status, Update, remove).Failure?
      ensures old(Valid(remove)) ==> Valid(remove)
    {
      var j := 0;
      while j < |numbers|
        invariant 0 <= j <= |numbers|
        invariant Added(start, acc + PhoneElements(kind, numbers[..j]), remove)
        invariant old(Valid(remove)) ==> Valid(remove)
      {
        ghost var done := acc + PhoneElements(kind, numbers[..j]);
        PhoneElementsSnoc(kind, numbers, j, acc);
        nodes := nodes + [PhoneElement(kind, numbers[j])];
        if done != [] { UpdateTwice(start.status, remove); }
        var t := SetStatus(Update, remove);
        if t.Failure? { return Failure(t.error); }
        j := j + 1;
      }
      assert numbers[..j] == numbers;
      return Success(());
    }
  }
}
