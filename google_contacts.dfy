/** The accessors google_contacts.rb adds to Nokogiri elements of a Google
    contacts feed: the kind of a feed, its contact or group entries, an
    entry's id, its addresses split into work and private ones, and the
    importer's own state, kept in the href of an entry's rel="oab" link.
    Every accessor memoises its answer in an instance variable; here those
    are the fields of `XElement`, and `Valid` keeps each memo equal to what
    the accessor would compute afresh, so the memo never shows, except in
    the two address splits, which keep their first answer whatever pattern
    they are later given. */
module GContacts {
  import opened Util
  import opened Xml
  import OabStatus

  const KindScheme := "http://schemas.google.com/g/2005#kind"

  /** The `raise`s (and the nil dereferences) of the accessors. */
  datatype GcError =
    | NotA(name: string, what: string)   // "<name> is not a <what>"
    | NoCategory                         // no kind category: `nil['term']`
    | NoIdChild                          // no id child: `nil.text`
    | NoContactsParent                   // the entry's parent is the document
    | BadTransition(transition: string)  // "state:requested" not in the table

  // ---------------------------------------------------------------- the children looked for

  /** Nokogiri's `name` is the local part of the element name; a text node
      is never any of the names looked for. */
  predicate HasName(x: XNode, name: string) {
    x.Element? && LocalName(x.name) == name
  }

  predicate IsKind(x: XNode) {
    HasName(x, "category") && Attr(x, "scheme") == Some(KindScheme) && Attr(x, "term").Some?
  }

  predicate IsEntryNode(x: XNode) {
    HasName(x, "entry")
  }

  predicate IsIdField(x: XNode) {
    HasName(x, "id")
  }

  predicate IsEmailField(x: XNode) {
    HasName(x, "email")
  }

  predicate IsOabLink(x: XNode) {
    HasName(x, "link") && Attr(x, "rel") == Some("oab")
  }

  /** The link the Nokogiri builder appends. */
  const OabLink: XNode := Element("link", map["rel" := "oab"], [])

  /** The appended link is a rel="oab" link, and none of the other children
      looked for. */
  lemma OabLinkIs()
    ensures IsOabLink(OabLink)
    ensures !IsKind(OabLink) && !IsEntryNode(OabLink) && !IsIdField(OabLink) && !IsEmailField(OabLink)
  {
    assert ':' !in "link" by {
      assert "link" == ['l', 'i', 'n', 'k'];
    }
    LinkIsNoOther(OabLink);
  }

  /** A link is none of the other children looked for. */
  lemma LinkIsNoOther(x: XNode)
    requires HasName(x, "link")
    ensures !IsKind(x) && !IsEntryNode(x) && !IsIdField(x) && !IsEmailField(x)
  {
  }

  // ---------------------------------------------------------------- what the accessors compute

  /** `sub(/.*#/, '')`: what follows the last '#'. */
  function AfterHash(t: string): (r: string)
    decreases |t|
  {
    match IndexOf(t, '#')
    case None => t
    case Some(k) => AfterHash(t[k + 1..])
  }

  /** The kind is a suffix of the term with no '#' in it, starting right
      after a '#' unless it is the whole term. */
  lemma {:induction false} AfterHashIsLastPart(t: string)
    ensures '#' !in AfterHash(t)
    ensures exists k :: 0 <= k <= |t| && AfterHash(t) == t[k..] && (k == 0 || t[k - 1] == '#')
    ensures '#' !in t ==> AfterHash(t) == t
    decreases |t|
  {
    match IndexOf(t, '#')
    case None =>
      assert t == t[0..];
    case Some(k) =>
      var rest := t[k + 1..];
      AfterHashIsLastPart(rest);
      var j :| 0 <= j <= |rest| && AfterHash(rest) == rest[j..] && (j == 0 || rest[j - 1] == '#');
      assert rest[j..] == t[k + 1 + j..];
      assert j == 0 ==> t[k + 1 + j - 1] == '#';
      assert j > 0 ==> t[k + 1 + j - 1] == rest[j - 1];
  }

  /** `category`: the kind named by the first kind category's term. */
  function KindOf(e: XNode): (r: Result<string, GcError>) {
    match Detect(Children(e), IsKind)
    case None => Failure(NoCategory)
    case Some(i) => Success(AfterHash(Attr(e.nodes[i], "term").value))
  }

  /** An element has a kind exactly when some child is a kind category
      with a term; the kind is the last '#'-part of the first such term. */
  lemma KindIs(e: XNode)
    ensures KindOf(e).Failure? <==> forall i :: 0 <= i < |Children(e)| ==> !IsKind(Children(e)[i])
    ensures KindOf(e).Failure? ==> KindOf(e) == Failure(NoCategory)
    ensures KindOf(e).Success? ==>
      exists i :: (0 <= i < |Children(e)| && IsKind(Children(e)[i]) &&
                   (forall j :: 0 <= j < i ==> !IsKind(Children(e)[j])) &&
                   KindOf(e).value == AfterHash(Attr(Children(e)[i], "term").value))
    ensures KindOf(e).Success? ==> '#' !in KindOf(e).value
  {
    match Detect(Children(e), IsKind)
    case None =>
    case Some(i) =>
      AfterHashIsLastPart(Attr(e.nodes[i], "term").value);
  }

  /** The entry children, in order. */
  function EntriesOf(e: XNode): (r: seq<XNode>) {
    Filter(Children(e), IsEntryNode)
  }

  /** `contacts` and `groups`: the entries of a feed of the given kind;
      any other element, or a feed of another kind, is refused. */
  function ListOf(e: XNode, kind: string, what: string): (r: Result<seq<XNode>, GcError>) {
    if !e.Element? then Failure(NotA("", what))
    else if LocalName(e.name) != "feed" then Failure(NotA(LocalName(e.name), what))
    else
      var c :- KindOf(e);
      if c != kind then Failure(NotA(LocalName(e.name), what)) else Success(EntriesOf(e))
  }

  /** `id`: the text of an entry's first id child. */
  function IdOf(e: XNode): (r: Result<string, GcError>) {
    if !e.Element? then Failure(NotA("", "contact or group"))
    else if LocalName(e.name) != "entry" then Failure(NotA(LocalName(e.name), "contact or group"))
    else
      match Detect(e.nodes, IsIdField)
      case None => Failure(NoIdChild)
      case Some(i) => Success(InnerText(e.nodes[i]))
  }

  function AddressOf(x: XNode): Option<string> {
    Attr(x, "address")
  }

  /** The address attribute of every email child, nil where it is missing,
      in order. */
  function AddressesOf(e: XNode): (r: seq<Option<string>>) {
    MapOpt(Filter(Children(e), IsEmailField), AddressOf)
  }

  /** `email_addresses`: an entry's addresses, once its parent is confirmed
      to be a contacts feed; `parent` is None for an entry at the top of the
      document. */
  function EmailsOf(e: XNode, parent: Option<XNode>): (r: Result<seq<Option<string>>, GcError>) {
    if !e.Element? then Failure(NotA("", "contact"))
    else if LocalName(e.name) != "entry" then Failure(NotA(LocalName(e.name), "contact"))
    else if parent.None? then Failure(NoContactsParent)
    else
      var _ :- ListOf(parent.value, "contact", "contacts list");
      Success(AddressesOf(e))
  }

  /** A contacts (groups) list is exactly the entries of a feed whose kind
      is "contact" ("group"); anything else is refused with its name, or
      with the missing kind. */
  lemma ListIs(e: XNode, kind: string, what: string)
    ensures ListOf(e, kind, what).Success? <==> HasName(e, "feed") && KindOf(e) == Success(kind)
    ensures ListOf(e, kind, what).Success? ==>
      forall x :: x in ListOf(e, kind, what).value <==> x in Children(e) && HasName(x, "entry")
    ensures !HasName(e, "feed") && e.Element? ==> ListOf(e, kind, what) == Failure(NotA(LocalName(e.name), what))
    ensures HasName(e, "feed") && KindOf(e).Failure? ==> ListOf(e, kind, what) == Failure(NoCategory)
  {
    KindIs(e);
  }

  /** An entry's id is the text of its first id child, and is refused
      exactly when it has none; anything but an entry is refused by name. */
  lemma IdIs(e: XNode)
    ensures !HasName(e, "entry") && e.Element? ==> IdOf(e) == Failure(NotA(LocalName(e.name), "contact or group"))
    ensures HasName(e, "entry") ==> (IdOf(e) == Failure(NoIdChild) <==> forall i :: 0 <= i < |e.nodes| ==> !IsIdField(e.nodes[i]))
    ensures IdOf(e).Success? ==>
      exists i :: (0 <= i < |e.nodes| && IsIdField(e.nodes[i]) &&
                   (forall j :: 0 <= j < i ==> !IsIdField(e.nodes[j])) && IdOf(e).value == InnerText(e.nodes[i]))
  {
  }

  /** An entry's addresses are given exactly when its parent is a contacts
      feed; they are the address attributes of its email children, one per
      child, in order, nil where the attribute is missing. */
  lemma EmailsAre(e: XNode, parent: Option<XNode>)
    ensures EmailsOf(e, parent).Success? <==>
      HasName(e, "entry") && parent.Some? && ListOf(parent.value, "contact", "contacts list").Success?
    ensures EmailsOf(e, parent).Success? ==>
      var a := EmailsOf(e, parent).value;
      var f := Filter(e.nodes, IsEmailField);
      |a| == |f| && forall i :: 0 <= i < |f| ==> a[i] == Attr(f[i], "address")
    ensures HasName(e, "entry") && parent.None? ==> EmailsOf(e, parent) == Failure(NoContactsParent)
  {
  }

  /** `address =~ re`: a nil address never matches. */
  predicate IsWork(re: string -> bool, a: Option<string>) {
    a.Some? && re(a.value)
  }

  function Matching(re: string -> bool): Option<string> -> bool {
    a => IsWork(re, a)
  }

  function NotMatching(re: string -> bool): Option<string> -> bool {
    a => !IsWork(re, a)
  }

  /** `select{|address| address =~ re}`. */
  function WorkOf(addresses: seq<Option<string>>, re: string -> bool): (r: seq<Option<string>>) {
    Filter(addresses, Matching(re))
  }

  /** `select{|address| address !~ re}`: a nil address is private. */
  function PrivateOf(addresses: seq<Option<string>>, re: string -> bool): (r: seq<Option<string>>) {
    Filter(addresses, NotMatching(re))
  }

  /** The work and private addresses split the addresses: each address is in
      exactly the one its pattern says, as often as in the whole list, and
      the two lists together are as long as the whole. */
  lemma SplitPartitions(addresses: seq<Option<string>>, re: string -> bool)
    ensures forall a :: a in WorkOf(addresses, re) <==> a in addresses && IsWork(re, a)
    ensures forall a :: a in PrivateOf(addresses, re) <==> a in addresses && !IsWork(re, a)
    ensures forall a :: Count(WorkOf(addresses, re), a) + Count(PrivateOf(addresses, re), a) == Count(addresses, a)
    ensures |WorkOf(addresses, re)| + |PrivateOf(addresses, re)| == |addresses|
  {
    forall a
      ensures Count(WorkOf(addresses, re), a) + Count(PrivateOf(addresses, re), a) == Count(addresses, a)
    {
      FilterCount(addresses, Matching(re), a);
      FilterCount(addresses, NotMatching(re), a);
    }
    SplitLength(addresses, Matching(re), NotMatching(re));
  }

  lemma {:induction false} SplitLength<T(!new)>(s: seq<T>, p: T -> bool, q: T -> bool)
    requires forall x :: q(x) == !p(x)
    ensures |Filter(s, p)| + |Filter(s, q)| == |s|
  {
    if s != [] {
      SplitLength(s[1..], p, q);
    }
  }

  // ---------------------------------------------------------------- the state link

  /** `_state` on an entry: the entry with its first rel="oab" link, appended
      when it has none, and that link's position. */
  function WithLink(e: XNode): (r: (XNode, nat))
    requires e.Element?
    ensures r.0.Element? && r.0.name == e.name && r.0.attrs == e.attrs
    ensures r.1 < |r.0.nodes| && Detect(r.0.nodes, IsOabLink) == Some(r.1)
    ensures Detect(e.nodes, IsOabLink).Some? ==> r.0 == e
    ensures Detect(e.nodes, IsOabLink).None? ==> r.0.nodes == e.nodes + [OabLink] && r.1 == |e.nodes|
  {
    match Detect(e.nodes, IsOabLink)
    case Some(i) => (e, i)
    case None =>
      var e' := Element(e.name, e.attrs, e.nodes + [OabLink]);
      OabLinkIs();
      DetectSnocHit(e.nodes, OabLink, IsOabLink);
      (e', |e.nodes|)
  }

  /** `_state['href'] = h`: the link at position `i` with its href set. */
  function SetHref(e: XNode, i: nat, h: string): (r: XNode)
    requires e.Element? && i < |e.nodes| && e.nodes[i].Element?
    ensures r.Element? && r.name == e.name && r.attrs == e.attrs && |r.nodes| == |e.nodes|
    ensures Attr(r.nodes[i], "href") == Some(h)
    ensures forall j :: 0 <= j < |e.nodes| && j != i ==> r.nodes[j] == e.nodes[j]
  {
    var l := e.nodes[i];
    Element(e.name, e.attrs, e.nodes[i := Element(l.name, l.attrs["href" := h], l.nodes)])
  }

  /** What `state=` does with the current state. */
  datatype Move = Stay | SetTo(href: string)

  /** `state=`'s table on the "current:requested" string, an unset state
      reading as "". */
  function StateMove(cur: Option<string>, req: string): (r: Result<Move, GcError>)
    ensures r.Success? && r.value.SetTo? ==> r.value.href == req
    ensures cur == Some(req) ==> r == Success(Stay)
    ensures r.Failure? ==> r.error == BadTransition(cur.GetOr("") + ":" + req)
  {
    var key := cur.GetOr("") + ":" + req;
    if key == req + ":" + req then Success(Stay)
    else if key == "new:update" then Success(Stay)
    else if key in [":strip", ":keep", ":new", ":delete", "delete:keep", "delete:update", "keep:update"] then Success(SetTo(req))
    else Failure(BadTransition(key))
  }

  function HrefOf(cur: Option<OabStatus.Status>): Option<string> {
    if cur.Some? then Some(OabStatus.Name(cur.value)) else None
  }

  /** On the five statuses, `state=` is the address book's status table
      with the remove option off: it stays exactly where the table keeps the
      status, sets the requested one exactly where the table moves to it,
      and refuses the same "current:requested" strings. */
  lemma StateMoveIsStatusTable(cur: Option<OabStatus.Status>, req: OabStatus.Status)
    ensures StateMove(HrefOf(cur), OabStatus.Name(req)) ==
      match OabStatus.Transition(cur, req, false)
      case Success(c) => Success(if c == cur then Stay else SetTo(OabStatus.Name(req)))
      case Failure(e) => Failure(BadTransition(e.transition))
  {
    OabStatus.TransitionIsKeyedTable(cur, req, false);
    assert HrefOf(cur).GetOr("") == OabStatus.CurrentName(cur);
    if cur == Some(req) {
    } else {
      assert OabStatus.Key(cur, req) != OabStatus.Name(req) + ":" + OabStatus.Name(req) by {
        if OabStatus.Key(cur, req) == OabStatus.Name(req) + ":" + OabStatus.Name(req) {
          OabStatus.KeyIs(cur, req, Some(req), req);
        }
      }
    }
  }

  // ---------------------------------------------------------------- list lemmas

  lemma {:induction false} DetectSnoc<T>(s: seq<T>, x: T, p: T -> bool)
    requires !p(x)
    ensures Detect(s + [x], p) == Detect(s, p)
  {
    if s != [] {
      assert (s + [x])[1..] == s[1..] + [x];
      DetectSnoc(s[1..], x, p);
    }
  }

  lemma {:induction false} DetectSnocHit<T>(s: seq<T>, x: T, p: T -> bool)
    requires p(x) && Detect(s, p).None?
    ensures Detect(s + [x], p) == Some(|s|)
  {
    if s != [] {
      assert (s + [x])[1..] == s[1..] + [x];
      DetectSnocHit(s[1..], x, p);
    }
  }

  /** Replacing an element outside `p` by another outside `p` keeps the
      first position satisfying `p`, and so does replacing the first such
      element by another inside `p`. */
  lemma {:induction false} DetectUpdate<T>(s: seq<T>, i: nat, y: T, p: T -> bool)
    requires i < |s|
    requires (!p(s[i]) && !p(y)) || (p(y) && Detect(s, p) == Some(i))
    ensures Detect(s[i := y], p) == Detect(s, p)
  {
    if i > 0 {
      assert s[i := y][1..] == s[1..][i - 1 := y];
      DetectUpdate(s[1..], i - 1, y, p);
    }
  }

  lemma {:induction false} FilterUpdate<T(!new)>(s: seq<T>, i: nat, y: T, p: T -> bool)
    requires i < |s| && !p(s[i]) && !p(y)
    ensures Filter(s[i := y], p) == Filter(s, p)
  {
    if i > 0 {
      assert s[i := y][1..] == s[1..][i - 1 := y];
      FilterUpdate(s[1..], i - 1, y, p);
    }
  }

  lemma FilterSnoc<T(!new)>(s: seq<T>, x: T, p: T -> bool)
    requires !p(x)
    ensures Filter(s + [x], p) == Filter(s, p)
  {
    FilterAppend(s, [x], p);
    assert Filter([x], p) == [];
  }

  /** What the memoised accessors read from an element: its kind, entries,
      id and addresses. */
  datatype Facts = Facts(kind: Result<string, GcError>, entries: seq<XNode>,
                         id: Result<string, GcError>, addresses: seq<Option<string>>)

  ghost function FactsOf(e: XNode): Facts {
    Facts(KindOf(e), EntriesOf(e), IdOf(e), AddressesOf(e))
  }

  /** Each memo that is set holds what its accessor reads. */
  ghost predicate MemosAgree(f: Facts, category: Option<string>, contacts: Option<seq<XNode>>,
                             groups: Option<seq<XNode>>, id: Option<string>,
                             addresses: Option<seq<Option<string>>>) {
    (category.Some? ==> f.kind == Success(category.value)) &&
    (contacts.Some? ==> contacts.value == f.entries) &&
    (groups.Some? ==> groups.value == f.entries) &&
    (id.Some? ==> f.id == Success(id.value)) &&
    (addresses.Some? ==> addresses.value == f.addresses)
  }

  /** A memoised state link is the entry's first rel="oab" link. */
  ghost predicate LinkAgrees(e: XNode, link: Option<nat>) {
    link.Some? ==> HasName(e, "entry") && Detect(e.nodes, IsOabLink) == link
  }

  /** Two elements with the same name agree on what the accessors read when
      they have the same first kind category and id child, and the same
      entries and email children. */
  lemma FactsKept(e: XNode, e': XNode)
    requires e.Element? && e'.Element? && e'.name == e.name
    requires Detect(e'.nodes, IsKind) == Detect(e.nodes, IsKind)
    requires Detect(e.nodes, IsKind).Some? ==> e'.nodes[Detect(e.nodes, IsKind).value] == e.nodes[Detect(e.nodes, IsKind).value]
    requires Detect(e'.nodes, IsIdField) == Detect(e.nodes, IsIdField)
    requires Detect(e.nodes, IsIdField).Some? ==> e'.nodes[Detect(e.nodes, IsIdField).value] == e.nodes[Detect(e.nodes, IsIdField).value]
    requires Filter(e'.nodes, IsEntryNode) == Filter(e.nodes, IsEntryNode)
    requires Filter(e'.nodes, IsEmailField) == Filter(e.nodes, IsEmailField)
    ensures FactsOf(e') == FactsOf(e)
  {
  }

  /** Finding or appending the state link keeps what the other accessors
      read. */
  lemma WithLinkKeeps(e: XNode)
    requires e.Element?
    ensures FactsOf(WithLink(e).0) == FactsOf(e)
  {
    if Detect(e.nodes, IsOabLink).None? {
      var e' := WithLink(e).0;
      assert e'.nodes == e.nodes + [OabLink];
      OabLinkIs();
      DetectSnoc(e.nodes, OabLink, IsKind);
      DetectSnoc(e.nodes, OabLink, IsIdField);
      FilterSnoc(e.nodes, OabLink, IsEntryNode);
      FilterSnoc(e.nodes, OabLink, IsEmailField);
      FactsKept(e, e');
    }
  }

  /** Setting the href of the state link keeps what the other accessors
      read, and the link stays the first rel="oab" one. */
  lemma SetHrefKeeps(e: XNode, i: nat, h: string)
    requires e.Element? && i < |e.nodes| && Detect(e.nodes, IsOabLink) == Some(i)
    ensures FactsOf(SetHref(e, i, h)) == FactsOf(e)
    ensures Detect(SetHref(e, i, h).nodes, IsOabLink) == Some(i)
  {
    var e' := SetHref(e, i, h);
    var y := e'.nodes[i];
    assert e'.nodes == e.nodes[i := y];
    assert IsOabLink(y);
    LinkIsNoOther(y);
    LinkIsNoOther(e.nodes[i]);
    DetectUpdate(e.nodes, i, y, IsOabLink);
    DetectUpdate(e.nodes, i, y, IsKind);
    DetectUpdate(e.nodes, i, y, IsIdField);
    FilterUpdate(e.nodes, i, y, IsEntryNode);
    FilterUpdate(e.nodes, i, y, IsEmailField);
    FactsKept(e, e');
  }

  // ---------------------------------------------------------------- the element

  /** A Nokogiri element of the feed with the instance variables the
      accessors set.  `parent` is the element holding it, null for the top
      of the document; the tree is not linked back: `node` is this element
      as a value. */
  class XElement {
    var node: XNode
    const parent: XElement?
    var category: Option<string>
    var contacts: Option<seq<XNode>>
    var groups: Option<seq<XNode>>
    var id: Option<string>
    var emailAddresses: Option<seq<Option<string>>>
    var workEmail: Option<seq<Option<string>>>
    var privateEmail: Option<seq<Option<string>>>
    /** `@state`: the position of the rel="oab" link among the children. */
    var link: Option<nat>

    /** Every memo holds what its accessor computes from the element as it
        is now; the state link is its first rel="oab" link. */
    ghost predicate Valid()
      reads this
    {
      node.Element? && parent != this &&
      MemosAgree(FactsOf(node), category, contacts, groups, id, emailAddresses) &&
      LinkAgrees(node, link)
    }

    /** A freshly parsed element: nothing memoised yet. */
    constructor (n: XNode, p: XElement?)
      requires n.Element?
      ensures Valid() && node == n && parent == p
      ensures category.None? && contacts.None? && groups.None? && id.None?
      ensures emailAddresses.None? && workEmail.None? && privateEmail.None? && link.None?
    {
      node := n;
      parent := p;
      category := None;
      contacts := None;
      groups := None;
      id := None;
      emailAddresses := None;
      workEmail := None;
      privateEmail := None;
      link := None;
    }

    /** `category`: memoised once found. */
    method Category() returns (r: Result<string, GcError>)
      requires Valid()
      modifies this`category
      ensures Valid()
      ensures r == KindOf(node)
      ensures category == (if r.Success? then Some(r.value) else old(category))
    {
      if category.Some? {
        return Success(category.value);
      }
      var i := Detect(node.nodes, IsKind);
      if i.None? {
        return Failure(NoCategory);
      }
      r := Success(AfterHash(Attr(node.nodes[i.value], "term").value));
      category := Some(r.value);
    }

    /** `contacts`: the entries of a contacts feed. */
    method Contacts() returns (r: Result<seq<XNode>, GcError>)
      requires Valid()
      modifies this`category, this`contacts
      ensures Valid()
      ensures r == ListOf(node, "contact", "contacts list")
      ensures r.Success? ==> contacts == Some(r.value)
      ensures r.Failure? ==> contacts == old(contacts)
    {
      if LocalName(node.name) != "feed" {
        return Failure(NotA(LocalName(node.name), "contacts list"));
      }
      var c := Category();
      if c.Failure? {
        return Failure(c.error);
      }
      if c.value != "contact" {
        return Failure(NotA(LocalName(node.name), "contacts list"));
      }
      if contacts.None? {
        contacts := Some(Filter(node.nodes, IsEntryNode));
      }
      r := Success(contacts.value);
    }

    /** `groups`: the entries of a groups feed. */
    method Groups() returns (r: Result<seq<XNode>, GcError>)
      requires Valid()
      modifies this`category, this`groups
      ensures Valid()
      ensures r == ListOf(node, "group", "groups list")
      ensures r.Success? ==> groups == Some(r.value)
      ensures r.Failure? ==> groups == old(groups)
    {
      if LocalName(node.name) != "feed" {
        return Failure(NotA(LocalName(node.name), "groups list"));
      }
      var c := Category();
      if c.Failure? {
        return Failure(c.error);
      }
      if c.value != "group" {
        return Failure(NotA(LocalName(node.name), "groups list"));
      }
      if groups.None? {
        groups := Some(Filter(node.nodes, IsEntryNode));
      }
      r := Success(groups.value);
    }

    /** `id`: an entry's id text. */
    method Id() returns (r: Result<string, GcError>)
      requires Valid()
      modifies this`id
      ensures Valid()
      ensures r == IdOf(node)
      ensures id == (if r.Success? then Some(r.value) else old(id))
    {
      if LocalName(node.name) != "entry" {
        return Failure(NotA(LocalName(node.name), "contact or group"));
      }
      if id.Some? {
        return Success(id.value);
      }
      var i := Detect(node.nodes, IsIdField);
      if i.None? {
        return Failure(NoIdChild);
      }
      r := Success(InnerText(node.nodes[i.value]));
      id := Some(r.value);
    }

    /** The parent's element, None at the top of the document. */
    ghost function ParentNode(): Option<XNode>
      reads this, parent
    {
      if parent == null then None else Some(parent.node)
    }

    /** The parent, whose memos `email_addresses` may set; this element
        itself at the top of the document, where nothing of it is touched. */
    function ParentFrame(): (r: XElement)
      ensures parent != null ==> r == parent
    {
      if parent == null then this else parent
    }

    /** `email_addresses`: asks the parent for its contacts first, so an
        entry outside a contacts feed is refused. */
    method EmailAddresses() returns (r: Result<seq<Option<string>>, GcError>)
      requires Valid() && (parent != null ==> parent.Valid())
      modifies this`emailAddresses, ParentFrame()`category, ParentFrame()`contacts
      ensures Valid() && (parent != null ==> parent.Valid())
      ensures r == EmailsOf(node, ParentNode())
      ensures emailAddresses == (if r.Success? then Some(r.value) else old(emailAddresses))
    {
      if LocalName(node.name) != "entry" {
        return Failure(NotA(LocalName(node.name), "contact"));
      }
      if parent == null {
        return Failure(NoContactsParent);
      }
      var c := parent.Contacts();
      if c.Failure? {
        return Failure(c.error);
      }
      if emailAddresses.None? {
        emailAddresses := Some(MapOpt(Filter(node.nodes, IsEmailField), AddressOf));
      }
      r := Success(emailAddresses.value);
    }

    /** `work_email(re)`: the addresses matching the first pattern it was
        given; a later call returns that first answer whatever its pattern. */
    method WorkEmail(re: string -> bool) returns (r: Result<seq<Option<string>>, GcError>)
      requires Valid() && (parent != null ==> parent.Valid())
      modifies this`workEmail, this`emailAddresses, ParentFrame()`category, ParentFrame()`contacts
      ensures Valid() && (parent != null ==> parent.Valid())
      ensures old(workEmail).Some? ==> r == Success(old(workEmail).value) && workEmail == old(workEmail)
      ensures old(workEmail).None? ==>
        r == (match EmailsOf(node, ParentNode())
              case Success(a) => Success(WorkOf(a, re))
              case Failure(e) => Failure(e))
      ensures old(workEmail).None? && r.Success? ==> workEmail == Some(r.value)
    {
      if workEmail.Some? {
        return Success(workEmail.value);
      }
      var a := EmailAddresses();
      if a.Failure? {
        return Failure(a.error);
      }
      workEmail := Some(WorkOf(a.value, re));
      r := Success(workEmail.value);
    }

    /** `private_email(re)`: the addresses not matching the first pattern it
        was given, nil addresses included; memoised like `work_email`. */
    method PrivateEmail(re: string -> bool) returns (r: Result<seq<Option<string>>, GcError>)
      requires Valid() && (parent != null ==> parent.Valid())
      modifies this`privateEmail, this`emailAddresses, ParentFrame()`category, ParentFrame()`contacts
      ensures Valid() && (parent != null ==> parent.Valid())
      ensures old(privateEmail).Some? ==> r == Success(old(privateEmail).value) && privateEmail == old(privateEmail)
      ensures old(privateEmail).None? ==>
        r == (match EmailsOf(node, ParentNode())
              case Success(a) => Success(PrivateOf(a, re))
              case Failure(e) => Failure(e))
      ensures old(privateEmail).None? && r.Success? ==> privateEmail == Some(r.value)
    {
      if privateEmail.Some? {
        return Success(privateEmail.value);
      }
      var a := EmailAddresses();
      if a.Failure? {
        return Failure(a.error);
      }
      privateEmail := Some(PrivateOf(a.value, re));
      r := Success(privateEmail.value);
    }

    /** `_state`: finds the entry's rel="oab" link, appending one the first
        time there is none; later calls reuse it and change nothing. */
    method StateLink() returns (r: Result<nat, GcError>)
      requires Valid()
      modifies this`node, this`link
      ensures Valid()
      ensures !HasName(old(node), "entry") ==> r == Failure(NotA(LocalName(old(node).name), "contact")) && node == old(node)
      ensures HasName(old(node), "entry") ==>
        r == Success(WithLink(old(node)).1) && node == WithLink(old(node)).0 && link == Some(r.value)
      ensures old(link).Some? ==> node == old(node)
    {
      if LocalName(node.name) != "entry" {
        return Failure(NotA(LocalName(node.name), "contact"));
      }
      if link.Some? {
        return Success(link.value);
      }
      var w := WithLink(node);
      WithLinkKeeps(node);
      node := w.0;
      link := Some(w.1);
      r := Success(w.1);
    }

    /** `state`: the href of the state link, nil until set. */
    method State() returns (r: Result<Option<string>, GcError>)
      requires Valid()
      modifies this`node, this`link
      ensures Valid()
      ensures !HasName(old(node), "entry") ==> r == Failure(NotA(LocalName(old(node).name), "contact")) && node == old(node)
      ensures HasName(old(node), "entry") ==>
        var (e, i) := WithLink(old(node));
        node == e && link == Some(i) && r == Success(Attr(e.nodes[i], "href"))
    {
      var l := StateLink();
      if l.Failure? {
        return Failure(l.error);
      }
      r := Success(Attr(node.nodes[l.value], "href"));
    }

    /** `_state['href'] = h` on the memoised state link. */
    method WriteHref(h: string)
      requires Valid() && link.Some?
      modifies this`node
      ensures Valid()
      ensures node == SetHref(old(node), link.value, h)
    {
      SetHrefKeeps(node, link.value, h);
      node := SetHref(node, link.value, h);
    }

    /** `state=`: reads the state (creating the link), then moves it as the
        table says: stays, sets the link's href to the requested state, or
        refuses the "state:requested" pair. */
    method SetState(req: string) returns (err: Option<GcError>)
      requires Valid()
      modifies this`node, this`link
      ensures Valid()
      ensures !HasName(old(node), "entry") ==> err == Some(NotA(LocalName(old(node).name), "contact")) && node == old(node)
      ensures HasName(old(node), "entry") ==>
        var (e, i) := WithLink(old(node));
        link == Some(i) &&
        match StateMove(Attr(e.nodes[i], "href"), req)
        case Success(Stay) => err.None? && node == e
        case Success(SetTo(h)) => err.None? && node == SetHref(e, i, h)
        case Failure(x) => err == Some(x) && node == e
    {
      var s := State();
      if s.Failure? {
        return Some(s.error);
      }
      var m := StateMove(s.value, req);
      if m.Failure? {
        return Some(m.error);
      }
      if m.value.SetTo? {
        WriteHref(m.value.href);
      }
      err := None;
    }
  }

  /** Reading the state twice: the second read finds the link the first one
      appended, so the entry gains at most one link. */
  lemma StateLinkOnce(e: XNode)
    requires HasName(e, "entry")
    ensures WithLink(WithLink(e).0) == WithLink(e)
    ensures |WithLink(e).0.nodes| <= |e.nodes| + 1
  {
  }

  /** A state set to `h` reads back as `h`, and setting it again to the same
      value then changes nothing. */
  lemma SetStateReadsBack(e: XNode, i: nat, h: string)
    requires e.Element? && i < |e.nodes| && Detect(e.nodes, IsOabLink) == Some(i)
    ensures Attr(SetHref(e, i, h).nodes[i], "href") == Some(h)
    ensures Detect(SetHref(e, i, h).nodes, IsOabLink) == Some(i)
    ensures StateMove(Attr(SetHref(e, i, h).nodes[i], "href"), h) == Success(Stay)
  {
    SetHrefKeeps(e, i, h);
  }
}
