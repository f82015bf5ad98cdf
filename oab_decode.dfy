/** Decoding a Google contact entry (`Contact#initialize`, oab2google.rb:93-158):
    one pass over the entry's children that records the fields the merge
    needs and refuses any child it does not know. */
module OabDecode {
  import opened Util
  import opened Xml
  import opened Oab
  import opened OabStatus

  const PhotoRel := "http://schemas.google.com/contacts/2008/rel#photo"

  /** The children the decoder reads nothing from. */
  const IgnoredFields: set<string> := {
    "updated", "category", "content", "app:edited", "atom:category",
    "gd:structuredPostalAddress", "gd:extendedProperty", "gd:im",
    "gContact:birthday", "gContact:fileAs", "gContact:website", "gContact:userDefinedField"
  }

  /** The instance variables `initialize` sets.  `phones` holds a list per
      `PHONEFIELDS` name of the texts of the phone elements with that label
      (a text-less element contributes nil); `groups` the hrefs of the
      memberships that are not deleted. */
  datatype Fields = Fields(
    id: Option<string>,
    title: Option<string>,
    photo: Option<string>,
    photoEtag: Option<string>,
    edit: Option<string>,
    fullName: Option<string>,
    work: Option<string>,
    phones: map<string, seq<Option<string>>>,
    groups: set<string>,
    organization: Option<string>)

  function NoFields(): (f: Fields)
    ensures f.phones.Keys == set k | k in PhoneFields
  {
    Fields(None, None, None, None, None, None, None, map k | k in PhoneFields :: [], {}, None)
  }

  function PhonesOf(f: Fields, kind: string): seq<Option<string>> {
    if kind in f.phones then f.phones[kind] else []
  }

  /** `raise field.name` for an unknown child or link relation, and Ox's
      NoMethodError for an attribute the code reads but the child lacks. */
  datatype DecodeError = UnknownField(name: string) | MissingAttribute(name: string, attr: string)

  predicate IsActiveMembership(n: XNode) {
    IsNamed(n, "gContact:groupMembershipInfo") && (Attr(n, "deleted").None? || Attr(n, "deleted") == Some("false"))
  }

  predicate IsManagedPhone(n: XNode, kind: string) {
    IsNamed(n, "gd:phoneNumber") && Attr(n, "label") == Some(kind) && kind in PhoneFields
  }

  /** The managed phones with the given label, as a selector. */
  function OfKind(kind: string): XNode -> bool {
    n => IsManagedPhone(n, kind)
  }

  predicate IsLink(n: XNode, rel: string) {
    IsNamed(n, "link") && Attr(n, "rel") == Some(rel)
  }

  predicate IsDomainEmail(n: XNode, domain: string) {
    IsNamed(n, "gd:email") && Attr(n, "address").Some? && InExchangeDomain(Attr(n, "address").value, domain)
  }

  /** A `link` child: the photo link, the edit link, or the self link. */
  function DecodeLink(f: Fields, n: XNode): Result<Fields, DecodeError> {
    match Attr(n, "rel")
    case None => Failure(MissingAttribute("link", "rel"))
    case Some(rel) =>
      if rel == PhotoRel then
        match Attr(n, "href")
        case None => Failure(MissingAttribute("link", "href"))
        case Some(h) => Success(f.(photo := Some(h), photoEtag := Attr(n, "gd:etag")))
      else if rel == "edit" then
        match Attr(n, "href")
        case None => Failure(MissingAttribute("link", "href"))
        case Some(h) => Success(f.(edit := Some(h)))
      else if rel == "self" then Success(f)
      else Failure(UnknownField("link"))
  }

  /** A `gd:email` child: the work address when it is in the exchange domain. */
  function DecodeEmail(f: Fields, n: XNode, domain: string): Result<Fields, DecodeError> {
    match Attr(n, "address")
    case None => Failure(MissingAttribute("gd:email", "address"))
    case Some(a) => Success(if InExchangeDomain(a, domain) then f.(work := Some(a)) else f)
  }

  /** A `gd:phoneNumber` child: its text joins the list of its label when that is managed. */
  function DecodePhone(f: Fields, n: XNode): Result<Fields, DecodeError> {
    match Attr(n, "label")
    case Some(l) =>
      if l in PhoneFields then Success(f.(phones := f.phones[l := PhonesOf(f, l) + [TextOf(n)]]))
      else Success(f)
    case None => Success(f)
  }

  /** A `gContact:groupMembershipInfo` child: the group of a membership not deleted. */
  function DecodeMembership(f: Fields, n: XNode): Result<Fields, DecodeError> {
    if IsActiveMembership(n) then
      match Attr(n, "href")
      case None => Failure(MissingAttribute("gContact:groupMembershipInfo", "href"))
      case Some(h) => Success(f.(groups := f.groups + {h}))
    else Success(f)
  }

  /** Any other child: ignored when it is one of the known ones, refused otherwise. */
  function DecodeOther(f: Fields, n: XNode): Result<Fields, DecodeError>
    requires n.Element?
  {
    if n.name in IgnoredFields then Success(f) else Failure(UnknownField(n.name))
  }

  /** One step of the `node.nodes.each` loop. */
  function DecodeField(f: Fields, n: XNode, domain: string): Result<Fields, DecodeError> {
    if n.Text? then Success(f)
    else if n.name == "id" then Success(f.(id := TextOf(n)))
    else if n.name == "title" then Success(f.(title := TextOf(n)))
    else if n.name == "link" then DecodeLink(f, n)
    else if n.name == "gd:name" then
      match FirstNamed(n.nodes, "gd:fullName")
      case Some(c) => Success(f.(fullName := TextOf(c)))
      case None => Success(f)
    else if n.name == "gd:email" then DecodeEmail(f, n, domain)
    else if n.name == "gd:phoneNumber" then DecodePhone(f, n)
    else if n.name == "gContact:groupMembershipInfo" then DecodeMembership(f, n)
    else if n.name == "gd:organization" then
      match FirstNamed(n.nodes, "gd:orgName")
      case Some(c) => Success(f.(organization := TextOf(c)))
      case None => Success(f)
    else DecodeOther(f, n)
  }

  /** The whole loop: the children decoded in order, stopping at the first error. */
  function DecodeAll(nodes: seq<XNode>, domain: string): Result<Fields, DecodeError> {
    if nodes == [] then Success(NoFields())
    else
      var f :- DecodeAll(nodes[..|nodes| - 1], domain);
      DecodeField(f, nodes[|nodes| - 1], domain)
  }

  /** Once a prefix of the children fails to decode, the whole does, with the same error. */
  lemma {:induction false} DecodePrefixFails(nodes: seq<XNode>, i: nat, domain: string)
    requires i <= |nodes| && DecodeAll(nodes[..i], domain).Failure?
    ensures DecodeAll(nodes, domain) == DecodeAll(nodes[..i], domain)
  {
    if i < |nodes| {
      var init := nodes[..|nodes| - 1];
      assert init[..i] == nodes[..i];
      DecodePrefixFails(init, i, domain);
    } else {
      assert nodes[..i] == nodes;
    }
  }

  /** The status `initialize` gives the entry: `delete` when it has an edit
      link, `new` otherwise, by way of the transition table from unset. */
  function InitialStatus(edit: Option<string>, remove: bool): Option<Status> {
    if edit.Some? then Some(Delete) else if remove then None else Some(New)
  }

  /** `initialize` ends by requesting `delete` or `new` of the unset status:
      an entry with an edit link starts `delete`, one without starts `new`,
      or stays unset under the remove option. */
  lemma InitialStatusFromUnset(edit: Option<string>, remove: bool)
    ensures Transition(None, if edit.Some? then Delete else New, remove) == Success(InitialStatus(edit, remove))
    ensures edit.Some? ==> InitialStatus(edit, remove) == Some(Delete)
    ensures edit.None? ==> InitialStatus(edit, remove) == (if remove then None else Some(New))
  {
  }


  // ---------------------------------------------------------------- what decoding reads

  /** The children the decoder accepts. */
  predicate Acceptable(n: XNode, domain: string) {
    || n.Text?
    || n.name in IgnoredFields
    || n.name in {"id", "title", "gd:name", "gd:phoneNumber", "gd:organization"}
    || (n.name == "link" &&
        (|| Attr(n, "rel") == Some("self")
         || ((Attr(n, "rel") == Some(PhotoRel) || Attr(n, "rel") == Some("edit")) && Attr(n, "href").Some?)))
    || (n.name == "gd:email" && Attr(n, "address").Some?)
    || (n.name == "gContact:groupMembershipInfo" && (IsActiveMembership(n) ==> Attr(n, "href").Some?))
  }

  function Last<T>(s: seq<T>): Option<T> {
    if s == [] then None else Some(s[|s| - 1])
  }

  function LastAttr(nodes: seq<XNode>, key: string): Option<string> {
    match Last(nodes)
    case None => None
    case Some(n) => Attr(n, key)
  }

  lemma DecodeFieldSucceeds(f: Fields, n: XNode, domain: string)
    ensures DecodeField(f, n, domain).Success? <==> Acceptable(n, domain)
  {
  }

  /** Decoding fails exactly when some child is not acceptable. */
  lemma {:induction false} DecodeAllSucceeds(nodes: seq<XNode>, domain: string)
    ensures DecodeAll(nodes, domain).Success? <==> forall n :: n in nodes ==> Acceptable(n, domain)
  {
    if nodes != [] {
      var init, x := nodes[..|nodes| - 1], nodes[|nodes| - 1];
      assert nodes == init + [x];
      DecodeAllSucceeds(init, domain);
      if DecodeAll(init, domain).Success? {
        DecodeFieldSucceeds(DecodeAll(init, domain).value, x, domain);
      }
    }
  }

  lemma LastAppend<T(!new)>(a: seq<T>, x: T, p: T -> bool)
    ensures Last(Filter(a + [x], p)) == if p(x) then Some(x) else Last(Filter(a, p))
  {
    FilterAppend(a, [x], p);
    assert Filter([x], p) == (if p(x) then [x] else []) + Filter([], p);
    if !p(x) { assert Filter(a, p) + [] == Filter(a, p); }
  }

  /** `@work` is the address of the last e-mail child in the exchange domain. */
  lemma {:induction false} DecodeWork(nodes: seq<XNode>, domain: string)
    requires DecodeAll(nodes, domain).Success?
    ensures DecodeAll(nodes, domain).value.work == LastAttr(Filter(nodes, n => IsDomainEmail(n, domain)), "address")
  {
    if nodes != [] {
      var init, x := nodes[..|nodes| - 1], nodes[|nodes| - 1];
      assert nodes == init + [x];
      DecodeWork(init, domain);
      DecodeFieldWork(DecodeAll(init, domain).value, x, domain);
      LastAppend(init, x, n => IsDomainEmail(n, domain));
    }
  }

  lemma DecodeFieldWork(f: Fields, x: XNode, domain: string)
    requires DecodeField(f, x, domain).Success?
    ensures DecodeField(f, x, domain).value.work == if IsDomainEmail(x, domain) then Attr(x, "address") else f.work
  {
  }

  /** `@edit` is the href of the last edit link. */
  lemma {:induction false} DecodeEdit(nodes: seq<XNode>, domain: string)
    requires DecodeAll(nodes, domain).Success?
    ensures DecodeAll(nodes, domain).value.edit == LastAttr(Filter(nodes, n => IsLink(n, "edit")), "href")
  {
    if nodes != [] {
      var init, x := nodes[..|nodes| - 1], nodes[|nodes| - 1];
      assert nodes == init + [x];
      DecodeEdit(init, domain);
      DecodeFieldEdit(DecodeAll(init, domain).value, x, domain);
      LastAppend(init, x, n => IsLink(n, "edit"));
    }
  }

  lemma DecodeFieldEdit(f: Fields, x: XNode, domain: string)
    requires DecodeField(f, x, domain).Success?
    ensures DecodeField(f, x, domain).value.edit == if IsLink(x, "edit") then Attr(x, "href") else f.edit
    ensures IsLink(x, "edit") ==> Attr(x, "href").Some?
  {
  }

  /** There is an `@edit` exactly when some child is an edit link. */
  lemma {:induction false} DecodeEditPresent(nodes: seq<XNode>, domain: string)
    requires DecodeAll(nodes, domain).Success?
    ensures DecodeAll(nodes, domain).value.edit.Some? <==> exists n :: n in nodes && IsLink(n, "edit")
  {
    if nodes != [] {
      var init, x := nodes[..|nodes| - 1], nodes[|nodes| - 1];
      assert nodes == init + [x];
      assert forall n :: n in nodes <==> n in init || n == x;
      DecodeEditPresent(init, domain);
      DecodeFieldEdit(DecodeAll(init, domain).value, x, domain);
    }
  }

  lemma DecodeFieldPhoneKeys(f: Fields, x: XNode, domain: string)
    requires DecodeField(f, x, domain).Success?
    ensures DecodeField(f, x, domain).value.phones.Keys == f.phones.Keys + (if IsNamed(x, "gd:phoneNumber") && Attr(x, "label").Some? && Attr(x, "label").value in PhoneFields then {Attr(x, "label").value} else {})
  {
  }

  lemma DecodeFieldPhones(f: Fields, x: XNode, domain: string, kind: string)
    requires DecodeField(f, x, domain).Success?
    ensures PhonesOf(DecodeField(f, x, domain).value, kind) == PhonesOf(f, kind) + (if IsManagedPhone(x, kind) then [TextOf(x)] else [])
  {
  }

  /** Mapping over a filtered sequence grown by one element. */
  lemma MapOptFilterSnoc<T(!new), U>(s: seq<T>, x: T, p: T -> bool, g: T -> Option<U>)
    ensures MapOpt(Filter(s + [x], p), g) == MapOpt(Filter(s, p), g) + (if p(x) then [g(x)] else [])
  {
    var a := Filter(s, p);
    FilterAppend(s, [x], p);
    if p(x) {
      assert Filter([x], p) == [x];
      MapOptSnoc(a, x, g);
    } else {
      assert Filter([x], p) == [];
      assert a + [] == a;
    }
  }

  lemma MapOptSnoc<T, U>(s: seq<T>, x: T, g: T -> Option<U>)
    ensures MapOpt(s + [x], g) == MapOpt(s, g) + [g(x)]
  {
    assert |MapOpt(s + [x], g)| == |MapOpt(s, g) + [g(x)]|;
    forall i | 0 <= i <= |s| ensures MapOpt(s + [x], g)[i] == (MapOpt(s, g) + [g(x)])[i] {
      assert (s + [x])[i] == if i < |s| then s[i] else x;
    }
  }

  lemma {:induction false} DecodePhoneKeys(nodes: seq<XNode>, domain: string)
    requires DecodeAll(nodes, domain).Success?
    ensures DecodeAll(nodes, domain).value.phones.Keys == set k | k in PhoneFields
  {
    if nodes != [] {
      var init, x := nodes[..|nodes| - 1], nodes[|nodes| - 1];
      DecodePhoneKeys(init, domain);
      DecodeFieldPhoneKeys(DecodeAll(init, domain).value, x, domain);
    }
  }

  lemma {:induction false} DecodePhoneKind(nodes: seq<XNode>, domain: string, kind: string)
    requires DecodeAll(nodes, domain).Success?
    ensures PhonesOf(DecodeAll(nodes, domain).value, kind) == MapOpt(Filter(nodes, OfKind(kind)), TextOf)
  {
    if nodes != [] {
      var init, x := nodes[..|nodes| - 1], nodes[|nodes| - 1];
      assert nodes == init + [x];
      DecodePhoneKind(init, domain, kind);
      DecodeFieldPhones(DecodeAll(init, domain).value, x, domain, kind);
      MapOptFilterSnoc(init, x, OfKind(kind), TextOf);
    }
  }

  /** `@phones[kind]` lists, in order, the texts of the phone children labelled `kind`,
      for every `PHONEFIELDS` name and no other label. */
  lemma DecodePhones(nodes: seq<XNode>, domain: string)
    requires DecodeAll(nodes, domain).Success?
    ensures DecodeAll(nodes, domain).value.phones.Keys == set k | k in PhoneFields
    ensures forall kind :: kind in PhoneFields ==>
      PhonesOf(DecodeAll(nodes, domain).value, kind) == MapOpt(Filter(nodes, OfKind(kind)), TextOf)
  {
    DecodePhoneKeys(nodes, domain);
    forall kind | kind in PhoneFields
      ensures PhonesOf(DecodeAll(nodes, domain).value, kind) == MapOpt(Filter(nodes, OfKind(kind)), TextOf)
    {
      DecodePhoneKind(nodes, domain, kind);
    }
  }

  /** `@groups` holds the hrefs of the memberships without a `deleted` flag or
      with `deleted="false"`. */
  lemma {:induction false} DecodeGroups(nodes: seq<XNode>, domain: string)
    requires DecodeAll(nodes, domain).Success?
    ensures DecodeAll(nodes, domain).value.groups == set n | n in nodes && IsActiveMembership(n) :: Attr(n, "href").GetOr("")
  {
    if nodes != [] {
      var init, x := nodes[..|nodes| - 1], nodes[|nodes| - 1];
      assert nodes == init + [x];
      DecodeGroups(init, domain);
      DecodeFieldGroups(DecodeAll(init, domain).value, x, domain);
      var s := set n | n in nodes && IsActiveMembership(n) :: Attr(n, "href").GetOr("");
      var s0 := set n | n in init && IsActiveMembership(n) :: Attr(n, "href").GetOr("");
      if IsActiveMembership(x) {
        assert s == s0 + {Attr(x, "href").GetOr("")};
      } else {
        assert s == s0;
      }
    }
  }

  lemma DecodeFieldGroups(f: Fields, x: XNode, domain: string)
    requires DecodeField(f, x, domain).Success?
    ensures DecodeField(f, x, domain).value.groups == if IsActiveMembership(x) then f.groups + {Attr(x, "href").GetOr("")} else f.groups
    ensures IsActiveMembership(x) ==> Attr(x, "href").Some?
  {
  }

  /** A decoded entry starts as `delete` exactly when it has an edit link. */
  lemma DecodedStatus(nodes: seq<XNode>, domain: string, remove: bool)
    requires DecodeAll(nodes, domain).Success?
    ensures InitialStatus(DecodeAll(nodes, domain).value.edit, remove) == Some(Delete)
      <==> exists n :: n in nodes && IsLink(n, "edit")
  {
    DecodeEditPresent(nodes, domain);
  }
}
