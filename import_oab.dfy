/** `OAB#value` and `OAB#each` of import.rb (lines 389-391 and 412-439): how
    one record of the offline address book becomes the source record the
    merge takes, with its address, its numbers normalised, deduplicated and
    sorted, and its display name reordered to put the surname last. */
module ImportOab {
  import opened Util
  import opened ImportPhone
  import opened ImportGoogle

  /** A record of the address book: the values of its properties by
      property name. A property the record lacks reads as nil. */
  type OabRecord = map<string, seq<string>>

  function Prop(rec: OabRecord, k: string): (r: Option<seq<string>>)
    ensures r.Some? <==> k in rec
  {
    if k in rec then Some(rec[k]) else None
  }

  /** `value(p, dflt)`: the first value of a property, or the default when
      the property is nil or has no values. */
  function Value(p: Option<seq<string>>, dflt: Option<string>): (r: Option<string>)
    ensures p.Some? && |p.value| > 0 ==> r == Some(p.value[0])
    ensures p.None? || |p.value| == 0 ==> r == dflt
  {
    if p.Some? && |p.value| > 0 then Some(p.value[0]) else dflt
  }

  /** The telephone properties `each` collects, in its order. */
  const PhoneKeys: seq<string> :=
    ["BusinessTelephoneNumber", "Business2TelephoneNumber", "Assistant", "AssistantTelephoneNumber", "MobileTelephoneNumber"]

  /** The values of the telephone properties, flattened. */
  function RawNumbers(rec: OabRecord): (r: seq<string>)
    ensures forall n :: n in r <==> exists i :: 0 <= i < |PhoneKeys| && PhoneKeys[i] in rec && n in rec[PhoneKeys[i]]
  {
    var fields := seq(|PhoneKeys|, i requires 0 <= i < |PhoneKeys| => Prop(rec, PhoneKeys[i]).GetOr([]));
    assert forall i :: 0 <= i < |PhoneKeys| ==> fields[i] == Prop(rec, PhoneKeys[i]).GetOr([]);
    Flatten(fields)
  }

  // ---------------------------------------------------------------- postal codes

  /** Ruby's `\s`: space, \t, \n, \v, \f and \r. */
  predicate IsSpace(c: char) {
    c == ' ' || c == '\t' || c == '\n' || c == '\U{B}' || c == '\U{C}' || c == '\r'
  }

  /** `pc =~ /^(0|\+)[-0-9\s]+$/` on a one-line value: a postal code field
      that holds a phone number. */
  predicate IsPostalPhone(pc: string) {
    |pc| >= 2 && (pc[0] == '0' || pc[0] == '+') &&
    forall i :: 1 <= i < |pc| ==> pc[i] == '-' || '0' <= pc[i] <= '9' || IsSpace(pc[i])
  }

  // ---------------------------------------------------------------- numbers

  /** A normalised number `reject` keeps: one that is not blank. */
  predicate Filled(n: string) {
    Strip(n) != ""
  }

  /** `telephone` followed by the blank test of `reject`: the normalised
      number, or nil when Phony rejects the number or the result is blank. */
  function Kept(ph: Phony): string -> Option<string> {
    n => match Telephone(ph, n) case Some(t) => if Filled(t) then Some(t) else None case None => None
  }

  /** `collect{|n| telephone(n)}.reject{|n| n.to_s.strip == ''}`, with
      `keep` the two tests together: the kept numbers, in order. */
  function Formatted(keep: string -> Option<string>, raw: seq<string>): seq<string> {
    if raw == [] then []
    else
      var init := Formatted(keep, raw[..|raw| - 1]);
      match keep(raw[|raw| - 1])
      case Some(n) => init + [n]
      case None => init
  }

  /** A number survives exactly when it is what some raw number is kept as. */
  lemma {:induction false} FormattedMembers(keep: string -> Option<string>, raw: seq<string>)
    ensures forall n :: n in Formatted(keep, raw) <==> exists i :: 0 <= i < |raw| && keep(raw[i]) == Some(n)
  {
    if raw != [] {
      var init, x := raw[..|raw| - 1], raw[|raw| - 1];
      FormattedMembers(keep, init);
      var f := Formatted(keep, init);
      assert Formatted(keep, raw) == f + (if keep(x).Some? then [keep(x).value] else []);
      forall n | n in Formatted(keep, raw) ensures exists i :: 0 <= i < |raw| && keep(raw[i]) == Some(n) {
        if n in f {
          var i :| 0 <= i < |init| && keep(init[i]) == Some(n);
          assert raw[i] == init[i];
        } else {
          assert raw[|raw| - 1] == x;
        }
      }
      forall n | exists i :: 0 <= i < |raw| && keep(raw[i]) == Some(n) ensures n in Formatted(keep, raw) {
        var i :| 0 <= i < |raw| && keep(raw[i]) == Some(n);
        if i < |init| {
          assert init[i] == raw[i];
        }
      }
    }
  }

  /** What `Kept` keeps from a list of raw numbers. */
  lemma KeptMembers(ph: Phony, raw: seq<string>)
    ensures forall n :: (exists i :: 0 <= i < |raw| && Kept(ph)(raw[i]) == Some(n)) <==>
      Filled(n) && exists i :: 0 <= i < |raw| && Telephone(ph, raw[i]) == Some(n)
  {
    forall n | exists i :: 0 <= i < |raw| && Kept(ph)(raw[i]) == Some(n)
      ensures Filled(n) && exists i :: 0 <= i < |raw| && Telephone(ph, raw[i]) == Some(n)
    {
      var i :| 0 <= i < |raw| && Kept(ph)(raw[i]) == Some(n);
      assert Telephone(ph, raw[i]) == Some(n);
    }
    forall n | Filled(n) && exists i :: 0 <= i < |raw| && Telephone(ph, raw[i]) == Some(n)
      ensures exists i :: 0 <= i < |raw| && Kept(ph)(raw[i]) == Some(n)
    {
      var i :| 0 <= i < |raw| && Telephone(ph, raw[i]) == Some(n);
      assert Kept(ph)(raw[i]) == Some(n);
    }
  }

  /** The whole chain, ending in `uniq.sort`. */
  function CleanNumbers(ph: Phony, raw: seq<string>): seq<string> {
    Sort(Uniq(Formatted(Kept(ph), raw)))
  }

  /** A record's numbers are sorted, free of duplicates, and exactly the
      non-blank normalisations of its raw numbers. */
  lemma CleanNumbersAre(ph: Phony, raw: seq<string>)
    ensures Sorted(CleanNumbers(ph, raw)) && NoDup(CleanNumbers(ph, raw))
    ensures forall n :: n in CleanNumbers(ph, raw) <==> Filled(n) && exists i :: 0 <= i < |raw| && Telephone(ph, raw[i]) == Some(n)
  {
    var f := Formatted(Kept(ph), raw);
    UniqNoDup(f);
    SortKeepsNoDup(Uniq(f));
    SortedPreservesMembers(Uniq(f));
    FormattedMembers(Kept(ph), raw);
    KeptMembers(ph, raw);
  }

  // ---------------------------------------------------------------- names

  /** The fallback display name: the address up to its `@`, with every `.`
      a space: the `sub` and `gsub` of import.rb:421. */
  function FallbackName(smtp: string): (r: string)
    ensures '@' !in r && '.' !in r
    ensures |r| <= |smtp| && '@' !in smtp[..|r|] && (|r| < |smtp| ==> smtp[|r|] == '@')
    ensures forall i :: 0 <= i < |r| ==> r[i] == if smtp[i] == '.' then ' ' else smtp[i]
  {
    var local := (match IndexOf(smtp, '@') case None => smtp case Some(k) => smtp[..k]);
    seq(|local|, i requires 0 <= i < |local| => if local[i] == '.' then ' ' else local[i])
  }

  /** `s` starts with `pat`, compared case-insensitively (`/i`). */
  predicate StartsCI(s: string, pat: string) {
    |pat| <= |s| && Lower(s[..|pat|]) == Lower(pat)
  }

  /** `gsub(/#{family} /i, "#{family}, ")`, the surname read as literal text. */
  function CommaFamily(s: string, family: string): string
    decreases |s|
  {
    if s == [] then []
    else if StartsCI(s, family + " ") then family + ", " + CommaFamily(s[|family| + 1..], family)
    else [s[0]] + CommaFamily(s[1..], family)
  }

  /** The length of the longest prefix of `t` without a `\s` character. */
  function WordLength(t: string): (r: nat)
    ensures r <= |t| && (r == |t| || IsSpace(t[r]))
    ensures forall i :: 0 <= i < r ==> !IsSpace(t[i])
  {
    if t == [] || IsSpace(t[0]) then 0 else 1 + WordLength(t[1..])
  }

  /** `gsub(/(#{family}[^\s]+)/i) { "#{$1}," }`: a comma after every word
      that starts with the surname and goes on past it. */
  function MarkFamily(s: string, family: string): string
    decreases |s|
  {
    if s == [] then []
    else if StartsCI(s, family) && |family| < |s| && !IsSpace(s[|family|]) then
      var k := |family| + WordLength(s[|family|..]);
      s[..k] + "," + MarkFamily(s[k..], family)
    else [s[0]] + MarkFamily(s[1..], family)
  }

  /** `split(',', 2).collect{|n| n.strip }.reverse.join(' ')`. */
  function Swapped(name: string): string {
    match IndexOf(name, ',')
    case None => Strip(name)
    case Some(k) => Strip(name[k + 1..]) + " " + Strip(name[..k])
  }

  /** import.rb:424-429: the display name with the surname moved last, when
      either substitution finds the surname. */
  function Reordered(full: string, family: string): string {
    var name := CommaFamily(full, family);
    var marked := if name == full then MarkFamily(full, family) else name;
    if marked != full then Swapped(marked) else full
  }

  /** `needle` occurs in `s`. */
  predicate Contains(s: string, needle: string) {
    StartsWith(s, needle) || (s != [] && Contains(s[1..], needle))
  }

  /** A text whose lower-cased form does not start with `pat` does not
      start with `pat + more`, case aside. */
  lemma NotStartsCI(s: string, pat: string, more: string)
    requires !StartsWith(Lower(s), Lower(pat))
    ensures !StartsCI(s, pat + more)
  {
    if |pat + more| <= |s| {
      LowerAppend(pat, more);
      assert Lower(s[..|pat + more|])[..|pat|] == Lower(s)[..|pat|];
      assert Lower(pat + more)[..|pat|] == Lower(pat);
    }
  }

  lemma {:induction false} CommaFamilyKeeps(s: string, family: string)
    requires !Contains(Lower(s), Lower(family))
    ensures CommaFamily(s, family) == s
    decreases |s|
  {
    if s != [] {
      NotStartsCI(s, family, " ");
      LowerSlice(s, 1);
      CommaFamilyKeeps(s[1..], family);
    }
  }

  lemma {:induction false} MarkFamilyKeeps(s: string, family: string)
    requires !Contains(Lower(s), Lower(family))
    ensures MarkFamily(s, family) == s
    decreases |s|
  {
    if s != [] {
      NotStartsCI(s, family, "");
      assert family + "" == family;
      LowerSlice(s, 1);
      MarkFamilyKeeps(s[1..], family);
    }
  }

  /** A display name in which the surname does not occur, case aside, is
      left as it is. */
  lemma ReorderedKeeps(full: string, family: string)
    requires !Contains(Lower(full), Lower(family))
    ensures Reordered(full, family) == full
  {
    CommaFamilyKeeps(full, family);
    MarkFamilyKeeps(full, family);
  }

  lemma StripLeadingSpace(g: string)
    ensures Strip(" " + g) == Strip(g)
  {
    assert (" " + g)[1..] == g;
  }

  /** The first substitution turns the leading surname and its space into
      the surname and a comma. */
  lemma {:induction false} CommaFamilyLeading(family: string, given: string)
    requires !Contains(Lower(given), Lower(family))
    ensures CommaFamily(family + " " + given, family) == family + ", " + given
  {
    var full := family + " " + given;
    assert full[..|family| + 1] == family + " ";
    assert full[|family| + 1..] == given;
    CommaFamilyKeeps(given, family);
  }

  lemma CommaIndex(family: string, given: string)
    requires ',' !in family
    ensures IndexOf(family + ", " + given, ',') == Some(|family|)
  {
    var name := family + ", " + given;
    assert name[|family|] == ',';
    assert name[..|family|] == family;
  }

  /** Swapping at the first comma, which ends the surname. */
  lemma SwappedLeading(family: string, given: string)
    requires ',' !in family
    ensures Swapped(family + ", " + given) == Strip(given) + " " + Strip(family)
  {
    var name := family + ", " + given;
    var k := |family|;
    CommaIndex(family, given);
    var after, before := name[k + 1..], name[..k];
    assert after == " " + given;
    assert before == family;
    assert Swapped(name) == Strip(after) + " " + Strip(before);
    StripLeadingSpace(given);
  }

  /** "Surname Given" becomes "Given Surname", with outer blanks stripped,
      when the surname has no comma and the given part does not contain the
      surname again. */
  lemma ReorderedSurnameFirst(family: string, given: string)
    requires ',' !in family && !Contains(Lower(given), Lower(family))
    ensures Reordered(family + " " + given, family) == Strip(given) + " " + Strip(family)
  {
    var full := family + " " + given;
    var name := family + ", " + given;
    CommaFamilyLeading(family, given);
    assert name[|family|] != full[|family|];
    SwappedLeading(family, given);
  }

  // ---------------------------------------------------------------- records

  /** One turn of `each`: the source record, or `NoSmtpAddress` for a record
      without an address, whose fallback display name Ruby evaluates on nil
      whether or not a display name is present. */
  function Shape(ph: Phony, rec: OabRecord): (r: Result<Source, ImportError>)
    ensures r.Failure? <==> Value(Prop(rec, "SmtpAddress"), None).None?
  {
    var smtp := Value(Prop(rec, "SmtpAddress"), None);
    if smtp.None? then Failure(NoSmtpAddress)
    else
      var family := Value(Prop(rec, "Surname"), None);
      var full := Value(Prop(rec, "DisplayName"), Some(FallbackName(smtp.value))).GetOr("");
      var raw := RawNumbers(rec) + Filter(Prop(rec, "PostalCode").GetOr([]), IsPostalPhone);
      Success(Source(Strip(smtp.value), CleanNumbers(ph, raw), Value(Prop(rec, "GivenName"), None), family,
        Reordered(full, family.GetOr(""))))
  }

  /** What a shaped record carries: the stripped first address, the first
      given name and surname, and as numbers the non-blank normalisations of
      the telephone values and of the postal codes that look like phone
      numbers, sorted and without duplicates. */
  lemma ShapeCarries(ph: Phony, rec: OabRecord)
    requires Shape(ph, rec).Success?
    ensures var s := Shape(ph, rec).value;
      s.email == Strip(rec["SmtpAddress"][0]) &&
      s.givenName == Value(Prop(rec, "GivenName"), None) && s.familyName == Value(Prop(rec, "Surname"), None)
    ensures var s := Shape(ph, rec).value;
      Sorted(s.numbers) && NoDup(s.numbers)
    ensures var s := Shape(ph, rec).value;
      var raw := RawNumbers(rec) + Filter(Prop(rec, "PostalCode").GetOr([]), IsPostalPhone);
      forall n :: n in s.numbers <==> Filled(n) && exists i :: 0 <= i < |raw| && Telephone(ph, raw[i]) == Some(n)
  {
    CleanNumbersAre(ph, RawNumbers(rec) + Filter(Prop(rec, "PostalCode").GetOr([]), IsPostalPhone));
  }

  /** Without a display name, the name is the address's local part with
      dots as spaces, reordered. */
  lemma ShapeFallback(ph: Phony, rec: OabRecord)
    requires Shape(ph, rec).Success? && Value(Prop(rec, "DisplayName"), None).None?
    ensures Shape(ph, rec).value.fullName ==
      Reordered(FallbackName(rec["SmtpAddress"][0]), Value(Prop(rec, "Surname"), None).GetOr(""))
  {
  }

  /** import.rb:431-434: the postal codes that look like phone numbers,
      appended to the numbers one by one. */
  method AddPostalPhones(numbers: seq<string>, codes: seq<string>) returns (r: seq<string>)
    ensures r == numbers + Filter(codes, IsPostalPhone)
  {
    r := numbers;
    var i := 0;
    while i < |codes|
      invariant 0 <= i <= |codes|
      invariant r == numbers + Filter(codes[..i], IsPostalPhone)
    {
      assert codes[..i + 1] == codes[..i] + [codes[i]];
      FilterAppend(codes[..i], [codes[i]], IsPostalPhone);
      if IsPostalPhone(codes[i]) {
        r := r + [codes[i]];
      }
      i := i + 1;
    }
    assert codes[..i] == codes;
  }

  /** import.rb:436 up to `uniq`: each number normalised, the rejected and
      blank ones dropped. */
  method FormatNumbers(keep: string -> Option<string>, numbers: seq<string>) returns (r: seq<string>)
    ensures r == Formatted(keep, numbers)
  {
    r := [];
    var j := 0;
    while j < |numbers|
      invariant 0 <= j <= |numbers|
      invariant r == Formatted(keep, numbers[..j])
    {
      assert numbers[..j + 1][..j] == numbers[..j] && numbers[..j + 1][j] == numbers[j];
      var t := keep(numbers[j]);
      if t.Some? {
        r := r + [t.value];
      }
      j := j + 1;
    }
    assert numbers[..j] == numbers;
  }

  /** `each` for one record, building the numbers step by step. */
  method ShapeRecord(ph: Phony, rec: OabRecord) returns (r: Result<Source, ImportError>)
    ensures r == Shape(ph, rec)
  {
    var smtp := Value(Prop(rec, "SmtpAddress"), None);
    if smtp.None? {
      return Failure(NoSmtpAddress);
    }
    var family := Value(Prop(rec, "Surname"), None);
    var full := Value(Prop(rec, "DisplayName"), Some(FallbackName(smtp.value))).GetOr("");
    var numbers := AddPostalPhones(RawNumbers(rec), Prop(rec, "PostalCode").GetOr([]));
    var formatted := FormatNumbers(Kept(ph), numbers);
    r := Success(Source(Strip(smtp.value), Sort(Uniq(formatted)), Value(Prop(rec, "GivenName"), None), family,
      Reordered(full, family.GetOr(""))));
  }
}
