/** The `Ox::Element#method_missing` patch: a method name is an element name
    with its first underscore standing for the namespace colon; a trailing `!`
    selects all children of that name, a trailing `?` turns a failed lookup
    into `false`, and any other name goes to Ox's own lookup. */
module OxPatch {
  import opened Util
  import opened Xml

  /** What Ox's own `method_missing` answers: a value, or NoMethodError. */
  datatype Lookup<+V> = Found(value: V) | NoMethodError

  /** What the patched `method_missing` answers. */
  datatype Reply<+V> =
    | Selection(nodes: seq<XNode>)  // the `!` form
    | Answer(value: V)              // a successful lookup
    | False                         // the `?` form when the lookup failed
    | Raised                        // NoMethodError escapes

  /** `id.to_s.sub('_', ':')`. */
  function Translate(id: string): string {
    match IndexOf(id, '_')
    case None => id
    case Some(k) => id[..k] + ":" + id[k + 1..]
  }

  predicate EndsIn(name: string, c: char) {
    name != [] && name[|name| - 1] == c
  }

  function Chomp(name: string): string
    requires name != []
  {
    name[..|name| - 1]
  }

  /** Ox's lookup as this model reads it: the first child element with that name. */
  function OxChild(e: XNode, name: string): Lookup<XNode> {
    if e.Element? then
      match FirstNamed(e.nodes, name)
      case Some(c) => Found(c)
      case None => NoMethodError
    else NoMethodError
  }

  function MethodMissing<V>(self: XNode, id: string, lookup: (XNode, string) -> Lookup<V>): Reply<V>
    requires self.Element?
  {
    var name := Translate(id);
    if EndsIn(name, '!') then
      Selection(Named(self.nodes, Chomp(name)))
    else if EndsIn(name, '?') then
      match lookup(self, Chomp(name))
      case Found(v) => Answer(v)
      case NoMethodError => False
    else
      match lookup(self, name)
      case Found(v) => Answer(v)
      case NoMethodError => Raised
  }

  // ---------------------------------------------------------------- properties

  /** Only the first underscore is translated; the rest of the name is untouched. */
  lemma TranslateFirstUnderscore(head: string, tail: string)
    requires '_' !in head
    ensures Translate(head + "_" + tail) == head + ":" + tail
  {
    var id := head + "_" + tail;
    assert id[|head|] == '_';
    assert id[..|head|] == head;
    match IndexOf(id, '_')
    case None =>
    case Some(k) =>
      assert k == |head|;
      assert id[k + 1..] == tail;
  }

  lemma TranslateWithoutUnderscore(id: string)
    requires '_' !in id
    ensures Translate(id) == id
  {
  }

  /** A `!` name returns exactly the element children of the translated name, in
      order and with their multiplicities, and never consults the lookup. */
  lemma {:induction false} BangSelects<V>(self: XNode, id: string, lookup: (XNode, string) -> Lookup<V>)
    requires self.Element? && EndsIn(Translate(id), '!')
    ensures var name := Chomp(Translate(id));
      var r := MethodMissing(self, id, lookup);
      && r == Selection(Named(self.nodes, name))
      && (forall x :: x in r.nodes ==> x.Element? && x.name == name)
      && (forall x :: Count(r.nodes, x) == if IsNamed(x, name) then Count(self.nodes, x) else 0)
  {
    var name := Chomp(Translate(id));
    forall x ensures Count(Named(self.nodes, name), x) == if IsNamed(x, name) then Count(self.nodes, x) else 0 {
      FilterCount(self.nodes, y => IsNamed(y, name), x);
    }
  }

  /** A `?` name answers what the lookup answers for the name without `?`, and
      `false` where the lookup raised NoMethodError; it never raises. */
  lemma QuestionCatches<V>(self: XNode, id: string, lookup: (XNode, string) -> Lookup<V>)
    requires self.Element? && EndsIn(Translate(id), '?')
    ensures var r := MethodMissing(self, id, lookup);
      && r != Raised
      && (lookup(self, Chomp(Translate(id))).Found? ==> r == Answer(lookup(self, Chomp(Translate(id))).value))
      && (lookup(self, Chomp(Translate(id))).NoMethodError? ==> r == False)
  {
  }

  /** Any other name is delegated with only the underscore translated. */
  lemma OtherDelegates<V>(self: XNode, id: string, lookup: (XNode, string) -> Lookup<V>)
    requires self.Element? && !EndsIn(Translate(id), '!') && !EndsIn(Translate(id), '?')
    ensures var r := MethodMissing(self, id, lookup);
      && (lookup(self, Translate(id)).Found? ==> r == Answer(lookup(self, Translate(id)).value))
      && (lookup(self, Translate(id)).NoMethodError? ==> r == Raised)
  {
  }

  /** `gd_phoneNumber!`-style selection is the patch's `!` form on the translated name. */
  lemma BangOfPrefixed(self: XNode, prefix: string, local: string)
    requires self.Element? && '_' !in prefix && '!' !in local
    ensures MethodMissing(self, prefix + "_" + local + "!", OxChild) ==
      Selection(Named(self.nodes, prefix + ":" + local))
  {
    TranslateFirstUnderscore(prefix, local + "!");
    assert prefix + "_" + local + "!" == prefix + "_" + (local + "!");
    assert prefix + ":" + (local + "!") == (prefix + ":" + local) + "!";
    assert Chomp((prefix + ":" + local) + "!") == prefix + ":" + local;
  }

  /** `entry!`-style selection of an unprefixed name. */
  lemma BangOfPlain(self: XNode, name: string)
    requires self.Element? && '_' !in name && '!' !in name
    ensures MethodMissing(self, name + "!", OxChild) == Selection(Named(self.nodes, name))
  {
    assert '_' !in name + "!";
    TranslateWithoutUnderscore(name + "!");
    assert Chomp(name + "!") == name;
  }
}
