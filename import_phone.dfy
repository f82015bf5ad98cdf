/** The older importer's telephone helpers (import.rb:37-53): a textual
    rewrite of the national trunk prefix and the `00` and `+` prefixes into
    one international `+` form, followed by the Phony library's plausibility
    check and formatting, and the label that marks Dutch mobile numbers. */
module ImportPhone {
  import opened Util

  /** The Phony library as the importer consults it: `plausible?`,
      `normalize`, `format(.., format: :international)` and `split`. */
  datatype Phony = Phony(plausible: string -> bool, normalize: string -> string, format: string -> string, split: string -> seq<string>)

  /** The input begins with the character `a`. */
  predicate Leads(t: string, a: char) {
    |t| >= 1 && t[0] == a
  }

  /** The input begins with the characters `a` and `b`. */
  predicate Leads2(t: string, a: char, b: char) {
    |t| >= 2 && t[0] == a && t[1] == b
  }

  /** The four rewrites of import.rb:38-42, in order, on the stripped input:
      a leading `31` gets `00` in front, a leading `+` becomes `00`, a
      leading `0[1-9]` becomes `0031[1-9]`, and a leading `00` becomes `+`. */
  function Rewritten(t0: string): string {
    var t1 := if Leads2(t0, '3', '1') then "00" + t0 else t0;
    var t2 := if Leads(t1, '+') then "00" + t1[1..] else t1;
    var t3 := if |t2| >= 2 && t2[0] == '0' && '1' <= t2[1] <= '9' then "0031" + t2[1..] else t2;
    if Leads2(t3, '0', '0') then "+" + t3[2..] else t3
  }

  /** The number as the importer hands it to Phony: stripped, then rewritten. */
  function Prefixed(num: string): string {
    Rewritten(Strip(num))
  }

  /** What the rewrite does, case by case, to the stripped input. */
  lemma RewrittenCountryCode(t: string, rest: string)
    requires t == "31" + rest
    ensures Rewritten(t) == "+31" + rest
  {
    var t1 := "00" + t;
    assert Leads2(t, '3', '1');
    assert t1[0] == '0' && t1[1] == '0';
    assert t1[2..] == "31" + rest;
  }

  lemma RewrittenPlus(t: string, rest: string)
    requires t == "+" + rest
    ensures Rewritten(t) == "+" + rest
  {
    var t2 := "00" + rest;
    assert t[0] == '+' && t[1..] == rest;
    assert t2[0] == '0' && t2[1] == '0' && t2[2..] == rest;
  }

  lemma RewrittenDoubleZero(t: string, rest: string)
    requires t == "00" + rest
    ensures Rewritten(t) == "+" + rest
  {
    assert t[0] == '0' && t[1] == '0' && t[2..] == rest;
  }

  lemma RewrittenTrunk(t: string, d: char, rest: string)
    requires '1' <= d <= '9'
    requires t == "0" + [d] + rest
    ensures Rewritten(t) == "+31" + [d] + rest
  {
    assert t[0] == '0' && t[1] == d;
    assert t[1..] == [d] + rest;
    var t3 := "0031" + t[1..];
    assert t3[0] == '0' && t3[1] == '0';
    assert t3[2..] == "31" + [d] + rest;
  }

  /** Any other stripped input is left as it is. */
  lemma RewrittenOther(t: string)
    requires !Leads2(t, '3', '1') && !Leads(t, '+') && !Leads(t, '0')
    ensures Rewritten(t) == t
  {
  }

  /** A rewritten number is rewritten no further. */
  lemma RewrittenIdempotent(t: string)
    ensures Rewritten(Rewritten(t)) == Rewritten(t)
  {
    var r := Rewritten(t);
    if Leads(r, '+') {
      RewrittenPlus(r, r[1..]);
    }
  }

  /** `telephone` (import.rb:37-46): the Phony international format of the
      rewritten number, or nil when Phony does not find it plausible. */
  function Telephone(ph: Phony, num: string): (r: Option<string>)
    ensures r.Some? <==> ph.plausible(Prefixed(num))
    ensures r.Some? ==> r.value == ph.format(ph.normalize(Prefixed(num)))
  {
    var p := Prefixed(num);
    if ph.plausible(p) then Some(ph.format(ph.normalize(p))) else None
  }

  /** `parts[0, 2] == ['31', '6']`: a Dutch mobile number. */
  predicate DutchMobile(parts: seq<string>) {
    |parts| >= 2 && parts[..2] == ["31", "6"]
  }

  /** `label` (import.rb:48-53): the prefix, with " mobile" after it for a
      Dutch mobile number. Phony refuses to normalise nil, so a number
      `telephone` rejects has no label (None). */
  function Label(ph: Phony, num: string, prefix: string): (r: Option<string>)
    ensures r.None? <==> Telephone(ph, num).None?
  {
    match Telephone(ph, num)
    case None => None
    case Some(t) =>
      if DutchMobile(ph.split(ph.normalize(t))) then Some(prefix + " mobile") else Some(prefix)
  }

  /** The label is the prefix itself or the prefix and " mobile", the latter
      exactly for a Dutch mobile number. */
  lemma LabelIsPrefixOrMobile(ph: Phony, num: string, prefix: string)
    requires Telephone(ph, num).Some?
    ensures Label(ph, num, prefix) == Some(prefix) || Label(ph, num, prefix) == Some(prefix + " mobile")
    ensures Label(ph, num, prefix) == Some(prefix + " mobile") <==> DutchMobile(ph.split(ph.normalize(Telephone(ph, num).value)))
  {
    assert |prefix + " mobile"| != |prefix|;
  }
}
