/** `GoogleContacts#merge` of import.rb (lines 161-244): the phone, group and
    name edits on a found entry, the entry built for a new address, and the
    per-address status the save pass resolves later. */
module ImportMerge {
  import opened Util
  import opened Xml
  import opened ImportPhone
  import opened ImportGoogle

  /** How the merge reads and labels numbers: `telephone` and
      `label(.., 'Work')`. */
  datatype Numbering = Numbering(tel: string -> Option<string>, work: string -> Option<string>)

  /** The numbering of the importer, through Phony. */
  function NumberingOf(ph: Phony): (nb: Numbering)
    ensures forall n :: nb.tel(n) == Telephone(ph, n) && nb.work(n) == Label(ph, n, "Work")
  {
    Numbering(n => Telephone(ph, n), n => Label(ph, n, "Work"))
  }

  predicate IsPhone(x: XNode) {
    IsNamed(x, "gd:phoneNumber")
  }

  predicate IsMembership(x: XNode) {
    IsNamed(x, "gContact:groupMembershipInfo")
  }

  /** `s =~ /needle/` for a needle without metacharacters. */
  predicate Contains(s: string, needle: string) {
    StartsWith(s, needle) || (s != [] && Contains(s[1..], needle))
  }

  /** `n['label'] =~ /work/i`; a phone without a label does not match. */
  predicate WorkLabelled(x: XNode) {
    match Attr(x, "label")
    case None => false
    case Some(l) => Contains(Lower(l), "work")
  }

  /** The number of a destination phone as `telephone` reads its text, when it
      is one of `numbers`. */
  predicate TelIn(nb: Numbering, x: XNode, numbers: seq<string>) {
    nb.tel(InnerText(x)).Some? && nb.tel(InnerText(x)).value in numbers
  }

  /** Some phone of `kids` reads, through `telephone`, as `n`. */
  ghost predicate Matched(nb: Numbering, kids: seq<XNode>, n: string) {
    exists x :: x in kids && IsPhone(x) && nb.tel(InnerText(x)) == Some(n)
  }

  /** `n['label'] = label`. */
  function Relabel(x: XNode, lbl: string): (r: XNode)
    requires x.Element?
    ensures r.Element? && r.name == x.name && r.nodes == x.nodes
    ensures Attr(r, "label") == Some(lbl)
  {
    Element(x.name, x.attrs["label" := lbl], x.nodes)
  }

  /** The phone element `merge` writes for a number. */
  function PhoneNode(lbl: string, number: string): XNode {
    Leaf("gd:phoneNumber", map["label" := lbl], number)
  }

  /** The entry's children after the phone pass so far, and the source
      numbers not yet met (`numbers`, import.rb:175). */
  datatype Diff = Diff(kids: seq<XNode>, rest: seq<string>)

  /** Array#delete: every occurrence removed. */
  function Remove(s: seq<string>, t: string): (r: seq<string>)
    ensures forall n :: n in r <==> n in s && n != t
  {
    Filter(s, n => n != t)
  }

  /** One turn of the loop of import.rb:176-189 on the child `x`: a phone
      whose number is still unmet is relabelled and consumes that number; an
      unmatched phone labelled as work is unlinked; anything else stays. */
  function DiffStep(nb: Numbering, d: Diff, x: XNode): Result<Diff, ImportError> {
    if !IsPhone(x) then Success(Diff(d.kids + [x], d.rest))
    else
      var t := nb.tel(InnerText(x));
      if t.Some? && t.value in d.rest then
        match nb.work(t.value)
        case None => Failure(Unlabelled(t.value))
        case Some(l) => Success(Diff(d.kids + [Relabel(x, l)], Remove(d.rest, t.value)))
      else if WorkLabelled(x) then Success(d)
      else Success(Diff(d.kids + [x], d.rest))
  }

  /** The whole phone pass over the entry's children. */
  function PhoneDiff(nb: Numbering, kids: seq<XNode>, numbers: seq<string>): Result<Diff, ImportError> {
    if kids == [] then Success(Diff([], numbers))
    else
      var d :- PhoneDiff(nb, kids[..|kids| - 1], numbers);
      DiffStep(nb, d, kids[|kids| - 1])
  }

  lemma MatchedSnoc(nb: Numbering, init: seq<XNode>, x: XNode, n: string)
    ensures Matched(nb, init + [x], n) <==> Matched(nb, init, n) || (IsPhone(x) && nb.tel(InnerText(x)) == Some(n))
  {
    if Matched(nb, init + [x], n) {
      var y :| y in init + [x] && IsPhone(y) && nb.tel(InnerText(y)) == Some(n);
      if y != x {
        assert y in init;
      }
    }
    if Matched(nb, init, n) {
      var y :| y in init && IsPhone(y) && nb.tel(InnerText(y)) == Some(n);
      assert y in init + [x];
    }
  }

  /** A number is left over exactly when it is a source number that no
      destination phone reads as. */
  lemma {:induction false} DiffRest(nb: Numbering, kids: seq<XNode>, numbers: seq<string>)
    requires PhoneDiff(nb, kids, numbers).Success?
    ensures forall n :: n in PhoneDiff(nb, kids, numbers).value.rest <==> n in numbers && !Matched(nb, kids, n)
  {
    if kids != [] {
      var init, x := kids[..|kids| - 1], kids[|kids| - 1];
      assert kids == init + [x];
      DiffRest(nb, init, numbers);
      forall n ensures Matched(nb, kids, n) <==> Matched(nb, init, n) || (IsPhone(x) && nb.tel(InnerText(x)) == Some(n)) {
        MatchedSnoc(nb, init, x, n);
      }
    }
  }

  /** Every number left over occurs in the source list, once when the source
      list holds it once. */
  lemma {:induction false} DiffRestNoDup(nb: Numbering, kids: seq<XNode>, numbers: seq<string>)
    requires PhoneDiff(nb, kids, numbers).Success? && NoDup(numbers)
    ensures NoDup(PhoneDiff(nb, kids, numbers).value.rest)
  {
    if kids != [] {
      var init := kids[..|kids| - 1];
      DiffRestNoDup(nb, init, numbers);
      var d := PhoneDiff(nb, init, numbers).value;
      FilterNoDup(d.rest, n => n != nb.tel(InnerText(kids[|kids| - 1])).GetOr(""));
      if PhoneDiff(nb, kids, numbers).value.rest != d.rest {
        var t := nb.tel(InnerText(kids[|kids| - 1])).value;
        assert PhoneDiff(nb, kids, numbers).value.rest == Filter(d.rest, n => n != t);
      }
    }
  }

  /** The children that are not phones stay, in their order. */
  lemma {:induction false} DiffKeepsOthers(nb: Numbering, kids: seq<XNode>, numbers: seq<string>)
    requires PhoneDiff(nb, kids, numbers).Success?
    ensures Filter(PhoneDiff(nb, kids, numbers).value.kids, x => !IsPhone(x)) == Filter(kids, x => !IsPhone(x))
  {
    if kids != [] {
      var p := x => !IsPhone(x);
      var init, x := kids[..|kids| - 1], kids[|kids| - 1];
      assert kids == init + [x];
      DiffKeepsOthers(nb, init, numbers);
      var d := PhoneDiff(nb, init, numbers).value;
      var out := PhoneDiff(nb, kids, numbers).value.kids;
      assert Filter(kids, p) == Filter(init, p) + Filter([x], p) by {
        FilterAppend(init, [x], p);
      }
      if !IsPhone(x) {
        assert out == d.kids + [x];
        FilterAppend(d.kids, [x], p);
      } else {
        assert Filter([x], p) == [];
        var t := nb.tel(InnerText(x));
        if t.Some? && t.value in d.rest {
          var y := Relabel(x, nb.work(t.value).value);
          assert out == d.kids + [y] && !p(y);
          FilterAppend(d.kids, [y], p);
        } else if !WorkLabelled(x) {
          assert out == d.kids + [x];
          FilterAppend(d.kids, [x], p);
        }
      }
    }
  }

  /** A phone that remains either reads as a source number or is an
      unchanged destination phone not labelled as work; so no work phone
      whose number is missing from the source survives. */
  lemma {:induction false} DiffPhonesFrom(nb: Numbering, kids: seq<XNode>, numbers: seq<string>)
    requires PhoneDiff(nb, kids, numbers).Success?
    ensures forall y :: y in PhoneDiff(nb, kids, numbers).value.kids && IsPhone(y) ==>
      TelIn(nb, y, numbers) || (y in kids && !WorkLabelled(y))
  {
    if kids != [] {
      var init, x := kids[..|kids| - 1], kids[|kids| - 1];
      DiffPhonesFrom(nb, init, numbers);
      DiffRest(nb, init, numbers);
      var d := PhoneDiff(nb, init, numbers).value;
      forall y | y in PhoneDiff(nb, kids, numbers).value.kids && IsPhone(y)
        ensures TelIn(nb, y, numbers) || (y in kids && !WorkLabelled(y))
      {
        if y in d.kids {
          assert TelIn(nb, y, numbers) || (y in init && !WorkLabelled(y));
          assert y in init ==> y in kids;
        } else if IsPhone(x) && TelIn(nb, x, d.rest) {
          InnerTextOfChildren(y, x);
        } else {
          assert y == x;
        }
      }
    }
  }

  /** A destination phone not labelled as work whose number is not a source
      number survives unchanged. */
  lemma {:induction false} DiffKeepsUnmatched(nb: Numbering, kids: seq<XNode>, numbers: seq<string>)
    requires PhoneDiff(nb, kids, numbers).Success?
    ensures forall x :: x in kids && IsPhone(x) && !WorkLabelled(x) && !TelIn(nb, x, numbers) ==>
      x in PhoneDiff(nb, kids, numbers).value.kids
  {
    if kids != [] {
      var init, last := kids[..|kids| - 1], kids[|kids| - 1];
      DiffKeepsUnmatched(nb, init, numbers);
      DiffRest(nb, init, numbers);
      forall x | x in kids && IsPhone(x) && !WorkLabelled(x) && !TelIn(nb, x, numbers)
        ensures x in PhoneDiff(nb, kids, numbers).value.kids
      {
        if x != last {
          assert x in init;
        }
      }
    }
  }

  /** Every source number some destination phone reads as is carried by a
      phone relabelled `label(number, 'Work')`. */
  lemma {:induction false} DiffRelabels(nb: Numbering, kids: seq<XNode>, numbers: seq<string>)
    requires PhoneDiff(nb, kids, numbers).Success?
    ensures forall n :: n in numbers && Matched(nb, kids, n) ==>
      exists y :: y in PhoneDiff(nb, kids, numbers).value.kids && IsPhone(y) &&
        nb.tel(InnerText(y)) == Some(n) && Attr(y, "label") == nb.work(n)
  {
    if kids != [] {
      var init, x := kids[..|kids| - 1], kids[|kids| - 1];
      assert kids == init + [x];
      DiffRelabels(nb, init, numbers);
      DiffRest(nb, init, numbers);
      var d := PhoneDiff(nb, init, numbers).value;
      var out := PhoneDiff(nb, kids, numbers).value.kids;
      assert forall y :: y in d.kids ==> y in out;
      forall n | n in numbers && Matched(nb, kids, n)
        ensures exists y :: y in out && IsPhone(y) && nb.tel(InnerText(y)) == Some(n) && Attr(y, "label") == nb.work(n)
      {
        MatchedSnoc(nb, init, x, n);
        if !Matched(nb, init, n) {
          assert n in d.rest;
          var y := Relabel(x, nb.work(n).value);
          InnerTextOfChildren(y, x);
          assert y in out && IsPhone(y) && nb.tel(InnerText(y)) == Some(n);
        }
      }
    }
  }

  /** A phone pass that fails on a prefix of the children fails, with the
      same error, on all of them. */
  lemma {:induction false} PhoneDiffStops(nb: Numbering, kids: seq<XNode>, numbers: seq<string>, j: nat)
    requires j <= |kids| && PhoneDiff(nb, kids[..j], numbers).Failure?
    ensures PhoneDiff(nb, kids, numbers) == PhoneDiff(nb, kids[..j], numbers)
    decreases |kids|
  {
    if j < |kids| {
      var init := kids[..|kids| - 1];
      assert init[..j] == kids[..j];
      PhoneDiffStops(nb, init, numbers, j);
    } else {
      assert kids[..j] == kids;
    }
  }

  /** The phones appended for the numbers left over (import.rb:192-197). */
  function NewPhones(nb: Numbering, numbers: seq<string>): (r: Result<seq<XNode>, ImportError>)
    ensures r.Success? ==> |r.value| == |numbers|
    ensures r.Success? ==> forall x :: x in r.value ==> IsPhone(x)
  {
    if numbers == [] then Success([])
    else
      var n := numbers[|numbers| - 1];
      var ps :- NewPhones(nb, numbers[..|numbers| - 1]);
      match nb.work(n)
      case None => Failure(Unlabelled(n))
      case Some(l) => Success(ps + [PhoneNode(l, n)])
  }

  /** Each number becomes one phone element with its work label, in order,
      and the appending fails exactly when some number has no label. */
  lemma {:induction false} NewPhonesAre(nb: Numbering, numbers: seq<string>)
    ensures NewPhones(nb, numbers).Success? <==> forall n :: n in numbers ==> nb.work(n).Some?
    ensures NewPhones(nb, numbers).Success? ==> forall i :: 0 <= i < |numbers| ==>
      NewPhones(nb, numbers).value[i] == PhoneNode(nb.work(numbers[i]).value, numbers[i])
  {
    if numbers != [] {
      var init := numbers[..|numbers| - 1];
      NewPhonesAre(nb, init);
      assert numbers == init + [numbers[|numbers| - 1]];
      if NewPhones(nb, init).Success? {
        var ps := NewPhones(nb, init).value;
        assert forall i :: 0 <= i < |init| ==> init[i] == numbers[i];
      }
    }
  }

  /** Appending fails, with the same error, once it fails on a prefix of the
      numbers. */
  lemma {:induction false} NewPhonesStops(nb: Numbering, numbers: seq<string>, j: nat)
    requires j <= |numbers| && NewPhones(nb, numbers[..j]).Failure?
    ensures NewPhones(nb, numbers) == NewPhones(nb, numbers[..j])
    decreases |numbers|
  {
    if j < |numbers| {
      var init := numbers[..|numbers| - 1];
      assert init[..j] == numbers[..j];
      NewPhonesStops(nb, init, j);
    } else {
      assert numbers[..j] == numbers;
    }
  }

  // ---------------------------------------------------------------- groups and names

  predicate InGroup(x: XNode, group: string) {
    Attr(x, "href") == Some(group)
  }

  /** The membership element `merge` writes for the configured group. */
  function MembershipNode(group: string): (r: XNode)
    ensures IsMembership(r) && InGroup(r, group)
  {
    Element("gContact:groupMembershipInfo", map["deleted" := "false", "href" := group], [])
  }

  /** import.rb:200-207: every membership of another group is unlinked, and
      one for the configured group is appended unless one is left. */
  function ForceGroup(kids: seq<XNode>, group: string): (r: seq<XNode>)
    ensures forall x :: x in r && IsMembership(x) ==> InGroup(x, group)
    ensures exists x :: x in r && IsMembership(x)
    ensures forall x :: x in kids && !IsMembership(x) ==> x in r
  {
    var k := Filter(kids, x => !IsMembership(x) || InGroup(x, group));
    if exists x :: x in k && IsMembership(x) && InGroup(x, group) then k
    else
      var m := MembershipNode(group);
      assert m in k + [m];
      k + [m]
  }

  /** The structured name `merge` writes (import.rb:211-217); a missing given
      or family name is written as empty text. */
  function NameNode(src: Source): (r: XNode)
    ensures IsNamed(r, "gd:name")
  {
    Element("gd:name", map[], [
      Leaf("gd:givenName", map[], src.givenName.GetOr("")),
      Leaf("gd:familyName", map[], src.familyName.GetOr("")),
      Leaf("gd:fullName", map[], src.fullName)])
  }

  /** import.rb:210-218: the structured name is added only when none is there. */
  function WithName(kids: seq<XNode>, src: Source): (r: seq<XNode>)
    ensures FirstNamed(r, "gd:name").Some?
    ensures r == kids <==> FirstNamed(kids, "gd:name").Some?
    ensures forall x :: x in kids ==> x in r
  {
    if FirstNamed(kids, "gd:name").Some? then kids
    else
      assert NameNode(src) in kids + [NameNode(src)];
      kids + [NameNode(src)]
  }

  /** The edits of import.rb:175-218 on a found entry. */
  function MergeEntry(nb: Numbering, group: string, e: XNode, src: Source): (r: Result<XNode, ImportError>)
    requires e.Element?
    ensures r.Success? ==> r.value.Element? && r.value.name == e.name && r.value.attrs == e.attrs
  {
    var d :- PhoneDiff(nb, e.nodes, src.numbers);
    var added :- NewPhones(nb, d.rest);
    Success(Element(e.name, e.attrs, WithName(ForceGroup(d.kids + added, group), src)))
  }

  /** After the merge every source number is on the entry: on a destination
      phone relabelled as work, or on a phone appended for it. */
  lemma MergeEntryCarriesNumbers(nb: Numbering, group: string, e: XNode, src: Source)
    requires e.Element? && MergeEntry(nb, group, e, src).Success?
    ensures forall n :: n in src.numbers ==>
      (exists y :: y in MergeEntry(nb, group, e, src).value.nodes && IsPhone(y) &&
         nb.tel(InnerText(y)) == Some(n) && Attr(y, "label") == nb.work(n)) ||
      (nb.work(n).Some? && PhoneNode(nb.work(n).value, n) in MergeEntry(nb, group, e, src).value.nodes)
  {
    var d := PhoneDiff(nb, e.nodes, src.numbers).value;
    var added := NewPhones(nb, d.rest).value;
    var out := MergeEntry(nb, group, e, src).value.nodes;
    DiffRest(nb, e.nodes, src.numbers);
    DiffRelabels(nb, e.nodes, src.numbers);
    NewPhonesAre(nb, d.rest);
    assert forall x :: x in d.kids + added && IsPhone(x) ==> x in out;
    forall n | n in src.numbers
      ensures (exists y :: y in out && IsPhone(y) && nb.tel(InnerText(y)) == Some(n) && Attr(y, "label") == nb.work(n)) ||
        (nb.work(n).Some? && PhoneNode(nb.work(n).value, n) in out)
    {
      if !Matched(nb, e.nodes, n) {
        var i :| 0 <= i < |d.rest| && d.rest[i] == n;
        assert added[i] in d.kids + added;
      }
    }
  }

  /** After the merge every membership names the configured group, there is
      one, and the entry has a structured name. */
  lemma MergeEntryGroupAndName(nb: Numbering, group: string, e: XNode, src: Source)
    requires e.Element? && MergeEntry(nb, group, e, src).Success?
    ensures forall x :: x in MergeEntry(nb, group, e, src).value.nodes && IsMembership(x) ==> InGroup(x, group)
    ensures exists x :: x in MergeEntry(nb, group, e, src).value.nodes && IsMembership(x)
    ensures FirstNamed(MergeEntry(nb, group, e, src).value.nodes, "gd:name").Some?
  {
    var d := PhoneDiff(nb, e.nodes, src.numbers).value;
    var added := NewPhones(nb, d.rest).value;
    var g := ForceGroup(d.kids + added, group);
    var w := WithName(g, src);
    if w != g {
      assert w == g + [NameNode(src)];
      assert !IsMembership(NameNode(src));
    }
  }

  // ---------------------------------------------------------------- new entries

  /** The organisation name of a new entry (import.rb:229): the domain with
      everything from its first dot removed. */
  function OrgName(domain: string): (r: string)
    ensures '.' !in r
    ensures StartsWith(domain, r)
    ensures |r| < |domain| ==> domain[|r|] == '.'
    ensures '.' !in domain ==> r == domain
  {
    match IndexOf(domain, '.')
    case None => domain
    case Some(k) => domain[..k]
  }

  /** The children of a new entry before its phones: kind, title,
      organisation and work address. */
  function EntryHead(st: Settings, src: Source): seq<XNode> {
    [KindNode(), TitleNode(src.fullName), OrgNode(st.domain), AddressNode(src.email)]
  }

  function KindNode(): (r: XNode)
    ensures r.Element? && r.name == "category"
  {
    Element("category", map["scheme" := GdNs + "#kind", "term" := ContactNs + "#contact"], [])
  }

  function TitleNode(fullName: string): (r: XNode)
    ensures r.Element? && r.name == "title"
  {
    Leaf("title", map["type" := "text"], fullName)
  }

  function OrgNode(domain: string): (r: XNode)
    ensures r.Element? && r.name == "gd:organization"
  {
    Element("gd:organization", map["rel" := GdNs + "#work", "primary" := "true"], [Leaf("gd:orgName", map[], OrgName(domain))])
  }

  function AddressNode(email: string): (r: XNode)
    ensures r.Element? && r.name == "gd:email" && Attr(r, "address") == Some(email)
  {
    Element("gd:email", map["rel" := GdNs + "#work", "address" := email], [])
  }

  /** The entry `merge` appends to the feed for an address it does not know
      (import.rb:224-242). */
  function NewEntry(nb: Numbering, st: Settings, src: Source): (r: Result<XNode, ImportError>)
    ensures r.Success? <==> NewPhones(nb, src.numbers).Success?
    ensures r.Success? ==> IsEntry(r.value)
  {
    var phones :- NewPhones(nb, src.numbers);
    Success(Element("entry", map["xmlns:gd" := GdNs, "xmlns:gContact" := ContactNs],
      EntryHead(st, src) + phones + [MembershipNode(st.group), NameNode(src)]))
  }

  /** The head holds no phone, no membership and no name, and one address. */
  lemma EntryHeadKinds(st: Settings, src: Source)
    ensures Filter(EntryHead(st, src), IsPhone) == []
    ensures Filter(EntryHead(st, src), IsMembership) == []
    ensures Named(EntryHead(st, src), "gd:email") == [AddressNode(src.email)]
    ensures FirstNamed(EntryHead(st, src), "gd:name").None?
  {
    HeadShape(KindNode(), TitleNode(src.fullName), OrgNode(st.domain), AddressNode(src.email));
  }

  /** Four children named as the head's are, taken by name. */
  lemma HeadShape(k: XNode, t: XNode, o: XNode, a: XNode)
    requires k.Element? && k.name == "category" && t.Element? && t.name == "title"
    requires o.Element? && o.name == "gd:organization" && a.Element? && a.name == "gd:email"
    ensures Filter([k, t, o, a], IsPhone) == []
    ensures Filter([k, t, o, a], IsMembership) == []
    ensures Named([k, t, o, a], "gd:email") == [a]
    ensures FirstNamed([k, t, o, a], "gd:name").None?
  {
    var h := [k, t, o, a];
    HeadNames(k, t, o, a);
    FilterNone(h, IsPhone);
    FilterNone(h, IsMembership);
    NoneNamed(h, "gd:name");
    var p := x => IsNamed(x, "gd:email");
    var front := [k, t, o];
    assert h == front + [a];
    FilterNone(front, p);
    FilterAppend(front, [a], p);
  }

  lemma HeadNames(k: XNode, t: XNode, o: XNode, a: XNode)
    requires k.Element? && k.name == "category" && t.Element? && t.name == "title"
    requires o.Element? && o.name == "gd:organization" && a.Element? && a.name == "gd:email"
    ensures forall x :: x in [k, t, o, a] ==> !IsPhone(x) && !IsMembership(x) && !IsNamed(x, "gd:name")
    ensures forall x :: x in [k, t, o] ==> !IsNamed(x, "gd:email")
  {
  }

  lemma NoneNamed(nodes: seq<XNode>, name: string)
    requires forall x :: x in nodes ==> !IsNamed(x, name)
    ensures FirstNamed(nodes, name).None?
  {
  }

  /** The new entry carries the address, one work phone per number in order,
      exactly one membership (of the configured group) and the name. */
  lemma NewEntryCarries(nb: Numbering, st: Settings, src: Source)
    requires NewEntry(nb, st, src).Success?
    ensures Addresses(NewEntry(nb, st, src).value) == [src.email]
    ensures Filter(NewEntry(nb, st, src).value.nodes, IsPhone) == NewPhones(nb, src.numbers).value
    ensures Filter(NewEntry(nb, st, src).value.nodes, IsMembership) == [MembershipNode(st.group)]
    ensures FirstNamed(NewEntry(nb, st, src).value.nodes, "gd:name") == Some(NameNode(src))
  {
    var head, phones := EntryHead(st, src), NewPhones(nb, src.numbers).value;
    var tail := [MembershipNode(st.group), NameNode(src)];
    var e := NewEntry(nb, st, src).value;
    assert e.Element? && e.nodes == head + phones + tail;
    NewPhonesAre(nb, src.numbers);
    EntryHeadKinds(st, src);
    NewEntryPhones(head, phones, tail, IsPhone);
    NewEntryMemberships(head, phones, tail);
    NewEntryAddresses(e, head, phones, tail, src.email);
    NewEntryName(head, phones, tail);
  }

  lemma NewEntryPhones(head: seq<XNode>, phones: seq<XNode>, tail: seq<XNode>, p: XNode -> bool)
    requires Filter(head, p) == [] && (forall x :: x in phones ==> p(x))
    requires |tail| == 2 && !p(tail[0]) && !p(tail[1])
    ensures Filter(head + phones + tail, p) == phones
  {
    FilterAppend3(head, phones, tail, p);
    FilterAll(phones, p);
    assert tail == [tail[0], tail[1]];
    FilterPair(tail[0], tail[1], p);
  }

  lemma NewEntryMemberships(head: seq<XNode>, phones: seq<XNode>, tail: seq<XNode>)
    requires Filter(head, IsMembership) == [] && (forall x :: x in phones ==> IsPhone(x))
    requires |tail| == 2 && IsMembership(tail[0]) && !IsMembership(tail[1])
    ensures Filter(head + phones + tail, IsMembership) == [tail[0]]
  {
    FilterAppend3(head, phones, tail, IsMembership);
    FilterNone(phones, IsMembership);
    assert tail == [tail[0], tail[1]];
    FilterPair(tail[0], tail[1], IsMembership);
  }

  lemma NewEntryAddresses(entry: XNode, head: seq<XNode>, phones: seq<XNode>, tail: seq<XNode>, email: string)
    requires entry.Element? && entry.nodes == head + phones + tail
    requires Named(head, "gd:email") == [AddressNode(email)] && (forall x :: x in phones ==> IsPhone(x))
    requires |tail| == 2 && IsMembership(tail[0]) && IsNamed(tail[1], "gd:name")
    ensures Addresses(entry) == [email]
  {
    var p := x => IsNamed(x, "gd:email");
    assert Named(entry.nodes, "gd:email") == [AddressNode(email)] by {
      FilterAppend3(head, phones, tail, p);
      FilterNone(phones, p);
      assert tail == [tail[0], tail[1]];
      FilterPair(tail[0], tail[1], p);
    }
    OneAddress(entry, AddressNode(email), email);
  }

  /** An entry whose one email child carries `email` has that one address. */
  lemma OneAddress(entry: XNode, a: XNode, email: string)
    requires Named(Children(entry), "gd:email") == [a] && Attr(a, "address") == Some(email)
    ensures Addresses(entry) == [email]
  {
    assert Compact([Some(email)]) == [email];
  }

  /** Skipping a prefix without the name leaves the first name unchanged. */
  lemma {:induction false} FirstNamedAppend(a: seq<XNode>, b: seq<XNode>, name: string)
    requires FirstNamed(a, name).None?
    ensures FirstNamed(a + b, name) == FirstNamed(b, name)
  {
    if a != [] {
      assert (a + b)[1..] == a[1..] + b;
      FirstNamedAppend(a[1..], b, name);
    } else {
      assert a + b == b;
    }
  }

  lemma NewEntryName(head: seq<XNode>, phones: seq<XNode>, tail: seq<XNode>)
    requires FirstNamed(head, "gd:name").None? && (forall x :: x in phones ==> IsPhone(x))
    requires |tail| == 2 && IsMembership(tail[0]) && IsNamed(tail[1], "gd:name")
    ensures FirstNamed(head + phones + tail, "gd:name") == Some(tail[1])
  {
    assert FirstNamed(head + phones, "gd:name").None? by {
      assert forall x :: x in head + phones ==> x in head || x in phones;
    }
    FirstNamedAppend(head + phones, tail, "gd:name");
    assert tail[1..] == [tail[1]];
  }
}
