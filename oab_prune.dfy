/** The pruning pass `ExchangeOAB#initialize` runs over a freshly loaded
    address book (oab2google.rb:536-566): every phone field of a record is
    normalised, stripped of unusable and repeated numbers and of numbers an
    earlier field of the same record already holds; the assistant fields
    then lose every number some record has as a primary number; records
    left without numbers are dropped. */
module OabPrune {
  import opened Util
  import opened Oab

  /** A phone field as the address book holds it: no value, one number, or a list. */
  datatype RawField = Absent | One(number: string) | Many(numbers: seq<string>)

  /** An address-book record before the pass. */
  datatype RawRecord = RawRecord(smtp: Option<string>, displayName: Option<string>, surname: string, fields: map<string, RawField>)

  function RawOf(raw: RawRecord, kind: string): RawField {
    if kind in raw.fields then raw.fields[kind] else Absent
  }

  /** The numbers of a field: none, the single one, or the list. */
  function Sources(f: RawField): seq<string> {
    match f
    case Absent => []
    case One(n) => [n]
    case Many(ns) => ns
  }

  /** `collect{|n| normalize(n) }`. */
  function NormalizeAll(lib: PhoneLib, ns: seq<string>): (r: seq<Option<string>>)
    ensures |r| == |ns| && forall i :: 0 <= i < |ns| ==> r[i] == Normalize(lib, ns[i])
  {
    if ns == [] then [] else NormalizeAll(lib, ns[..|ns| - 1]) + [Normalize(lib, ns[|ns| - 1])]
  }

  /** A field after the normalisation, `compact!` and `uniq!`. */
  function Cleaned(lib: PhoneLib, f: RawField): seq<string> {
    Uniq(Compact(NormalizeAll(lib, Sources(f))))
  }

  /** A cleaned field holds, once each, exactly the numbers Phonelib accepts
      in their international form; rejected numbers are gone. */
  lemma CleanedIs(lib: PhoneLib, f: RawField)
    ensures NoDup(Cleaned(lib, f))
    ensures forall x :: x in Cleaned(lib, f) <==>
      exists n :: n in Sources(f) && lib.valid(n) && lib.international(n) == x
  {
    var ns := Sources(f);
    var s := NormalizeAll(lib, ns);
    UniqNoDup(Compact(s));
    forall x ensures Some(x) in s <==> exists n :: n in ns && lib.valid(n) && lib.international(n) == x {
      if Some(x) in s {
        var i :| 0 <= i < |s| && s[i] == Some(x);
        assert ns[i] in ns;
      }
      if exists n :: n in ns && lib.valid(n) && lib.international(n) == x {
        var n :| n in ns && lib.valid(n) && lib.international(n) == x;
        var i :| 0 <= i < |ns| && ns[i] == n;
        assert s[i] == Some(x);
      }
    }
  }

  // ---------------------------------------------------------------- within a record

  /** The state of the loop over the phone fields of one record: the fields
      written so far and `numbers`, what they hold together. */
  datatype Pass = Pass(done: map<string, seq<string>>, seen: seq<string>)

  /** `record[kind]` when the loop reaches `kind`: what the loop already wrote there, or the book's value. */
  function Current(raw: RawRecord, done: map<string, seq<string>>, kind: string): RawField {
    if kind in done then Many(done[kind]) else RawOf(raw, kind)
  }

  /** The loop of oab2google.rb:538-552 over `kinds`. */
  function Dedup(lib: PhoneLib, raw: RawRecord, kinds: seq<string>): Pass {
    if kinds == [] then Pass(map[], [])
    else
      var p := Dedup(lib, raw, kinds[..|kinds| - 1]);
      var kind := kinds[|kinds| - 1];
      var v := Minus(Cleaned(lib, Current(raw, p.done, kind)), p.seen);
      Pass(p.done[kind := v], p.seen + v)
  }

  /** Whatever the kinds: every kind visited is written, no field repeats a
      number, every written number is in `numbers`, and no two fields share
      a number. */
  lemma {:induction false} DedupInvariant(lib: PhoneLib, raw: RawRecord, kinds: seq<string>)
    ensures var p := Dedup(lib, raw, kinds);
      && (forall k :: k in p.done <==> k in kinds)
      && (forall k :: k in p.done ==> NoDup(p.done[k]))
      && (forall k, x :: k in p.done && x in p.done[k] ==> x in p.seen)
      && (forall k1, k2, x :: k1 in p.done && k2 in p.done && k1 != k2 && x in p.done[k1] ==> x !in p.done[k2])
  {
    if kinds != [] {
      var init := kinds[..|kinds| - 1];
      var kind := kinds[|kinds| - 1];
      DedupInvariant(lib, raw, init);
      var p := Dedup(lib, raw, init);
      var c := Cleaned(lib, Current(raw, p.done, kind));
      CleanedIs(lib, Current(raw, p.done, kind));
      FilterNoDup(c, x => x !in p.seen);
      assert kinds == init + [kind];
    }
  }

  /** `x` is in the cleaned field `kinds[i]` and in no cleaned field before it. */
  ghost predicate FirstHolder(lib: PhoneLib, raw: RawRecord, kinds: seq<string>, i: nat, x: string)
    requires i < |kinds|
  {
    && x in Cleaned(lib, RawOf(raw, kinds[i]))
    && forall j :: 0 <= j < i ==> x !in Cleaned(lib, RawOf(raw, kinds[j]))
  }

  /** `x` is in the cleaned field of one of the kinds. */
  ghost predicate InSomeCleaned(lib: PhoneLib, raw: RawRecord, kinds: seq<string>, x: string) {
    exists j :: 0 <= j < |kinds| && x in Cleaned(lib, RawOf(raw, kinds[j]))
  }

  lemma InSomeCleanedSnoc(lib: PhoneLib, raw: RawRecord, kinds: seq<string>, x: string)
    requires kinds != []
    ensures var n := |kinds| - 1;
      InSomeCleaned(lib, raw, kinds, x) <==> InSomeCleaned(lib, raw, kinds[..n], x) || x in Cleaned(lib, RawOf(raw, kinds[n]))
  {
    var n := |kinds| - 1;
    if InSomeCleaned(lib, raw, kinds, x) {
      var j :| 0 <= j < |kinds| && x in Cleaned(lib, RawOf(raw, kinds[j]));
      if j < n {
        assert kinds[..n][j] == kinds[j];
        assert 0 <= j < n && x in Cleaned(lib, RawOf(raw, kinds[..n][j]));
        assert InSomeCleaned(lib, raw, kinds[..n], x);
      } else {
        assert j == n;
      }
    }
    if InSomeCleaned(lib, raw, kinds[..n], x) {
      var j :| 0 <= j < n && x in Cleaned(lib, RawOf(raw, kinds[..n][j]));
      assert kinds[..n][j] == kinds[j];
      assert 0 <= j < |kinds| && x in Cleaned(lib, RawOf(raw, kinds[j]));
    }
    if x in Cleaned(lib, RawOf(raw, kinds[n])) {
      assert 0 <= n < |kinds| && x in Cleaned(lib, RawOf(raw, kinds[n]));
    }
  }

  /** Over distinct kinds, `numbers` ends as every number of every cleaned field. */
  lemma {:induction false} DedupSeen(lib: PhoneLib, raw: RawRecord, kinds: seq<string>)
    requires NoDup(kinds)
    ensures forall x :: x in Dedup(lib, raw, kinds).seen <==> InSomeCleaned(lib, raw, kinds, x)
  {
    if kinds != [] {
      var n := |kinds| - 1;
      var init, kind := kinds[..n], kinds[n];
      assert NoDup(init);
      DedupSeen(lib, raw, init);
      DedupInvariant(lib, raw, init);
      var p0 := Dedup(lib, raw, init);
      assert kind !in init;
      assert Current(raw, p0.done, kind) == RawOf(raw, kind);
      forall x ensures x in Dedup(lib, raw, kinds).seen <==> InSomeCleaned(lib, raw, kinds, x) {
        InSomeCleanedSnoc(lib, raw, kinds, x);
      }
    }
  }

  /** Over distinct kinds, a number stays exactly in the first field (in the
      order of the kinds) whose cleaned numbers hold it. */
  lemma {:induction false} DedupFirstHolder(lib: PhoneLib, raw: RawRecord, kinds: seq<string>)
    requires NoDup(kinds)
    ensures forall i :: 0 <= i < |kinds| ==> kinds[i] in Dedup(lib, raw, kinds).done
    ensures forall i, x :: 0 <= i < |kinds| ==>
      (x in Dedup(lib, raw, kinds).done[kinds[i]] <==> FirstHolder(lib, raw, kinds, i, x))
  {
    DedupInvariant(lib, raw, kinds);
    if kinds != [] {
      var n := |kinds| - 1;
      var init, kind := kinds[..n], kinds[n];
      assert NoDup(init);
      DedupFirstHolder(lib, raw, init);
      DedupSeen(lib, raw, init);
      DedupInvariant(lib, raw, init);
      var p0 := Dedup(lib, raw, init);
      var p := Dedup(lib, raw, kinds);
      assert kind !in init;
      assert Current(raw, p0.done, kind) == RawOf(raw, kind);
      forall i, x | 0 <= i < |kinds| ensures x in p.done[kinds[i]] <==> FirstHolder(lib, raw, kinds, i, x) {
        FirstHolderSnoc(lib, raw, kinds, i, x);
        if i < n {
          assert kinds[i] == init[i] && kinds[i] != kind;
        }
      }
    }
  }

  /** Being the first holder among `kinds` is being it among all but the
      last kind, or, for the last kind, holding a number no earlier kind holds. */
  lemma FirstHolderSnoc(lib: PhoneLib, raw: RawRecord, kinds: seq<string>, i: nat, x: string)
    requires i < |kinds|
    ensures var n := |kinds| - 1;
      && (i < n ==> FirstHolder(lib, raw, kinds, i, x) == FirstHolder(lib, raw, kinds[..n], i, x))
      && (i == n ==> FirstHolder(lib, raw, kinds, i, x) == (x in Cleaned(lib, RawOf(raw, kinds[n])) && !InSomeCleaned(lib, raw, kinds[..n], x)))
  {
    var n := |kinds| - 1;
    assert forall j :: 0 <= j < n ==> kinds[..n][j] == kinds[j];
    if i == n && InSomeCleaned(lib, raw, kinds[..n], x) {
      var j :| 0 <= j < n && x in Cleaned(lib, RawOf(raw, kinds[..n][j]));
      assert x in Cleaned(lib, RawOf(raw, kinds[j]));
    }
    if i == n && !InSomeCleaned(lib, raw, kinds[..n], x) {
      forall j | 0 <= j < n ensures x !in Cleaned(lib, RawOf(raw, kinds[j])) {
        assert kinds[j] == kinds[..n][j];
      }
    }
  }

  /** A record after the first loop over `kinds` (the pass uses `PHONEFIELDS`). */
  function DedupRecord(lib: PhoneLib, raw: RawRecord, kinds: seq<string>): Record {
    Record(raw.smtp, raw.displayName, raw.surname, Dedup(lib, raw, kinds).done)
  }

  // ---------------------------------------------------------------- across records

  /** The numbers of a record's `kinds`, one list per kind. */
  function FieldsOf(r: Record, kinds: seq<string>): (ls: seq<seq<string>>)
    ensures |ls| == |kinds| && forall i :: 0 <= i < |kinds| ==> ls[i] == NumbersOf(r, kinds[i])
  {
    seq(|kinds|, i requires 0 <= i < |kinds| => NumbersOf(r, kinds[i]))
  }

  lemma FlattenFieldsOf(r: Record, kinds: seq<string>)
    ensures forall x :: x in Flatten(FieldsOf(r, kinds)) <==> exists k :: k in kinds && x in NumbersOf(r, k)
  {
    var ls := FieldsOf(r, kinds);
    forall x ensures x in Flatten(ls) <==> exists k :: k in kinds && x in NumbersOf(r, k) {
      if exists k :: k in kinds && x in NumbersOf(r, k) {
        var k :| k in kinds && x in NumbersOf(r, k);
        var i :| 0 <= i < |kinds| && kinds[i] == k;
        assert x in ls[i];
      }
    }
  }

  /** x is a primary number of one of the records. */
  ghost predicate IsPrimary(recs: seq<Record>, x: string) {
    exists i, k :: 0 <= i < |recs| && k in PrimaryFields && x in NumbersOf(recs[i], k)
  }

  /** Each record's primary numbers, flattened, in record order. */
  function PerRecordPrimary(recs: seq<Record>): (ps: seq<seq<string>>)
    ensures |ps| == |recs| && forall i :: 0 <= i < |recs| ==> ps[i] == Flatten(FieldsOf(recs[i], PrimaryFields))
  {
    seq(|recs|, i requires 0 <= i < |recs| => Flatten(FieldsOf(recs[i], PrimaryFields)))
  }

  lemma PerRecordPrimaryIs(recs: seq<Record>)
    ensures forall x :: x in Flatten(PerRecordPrimary(recs)) <==> IsPrimary(recs, x)
  {
    var ps := PerRecordPrimary(recs);
    forall x ensures x in Flatten(ps) <==> IsPrimary(recs, x) {
      if x in Flatten(ps) {
        var i :| 0 <= i < |ps| && x in ps[i];
        FlattenFieldsOf(recs[i], PrimaryFields);
        var k :| k in PrimaryFields && x in NumbersOf(recs[i], k);
        assert 0 <= i < |recs| && k in PrimaryFields && x in NumbersOf(recs[i], k);
      }
      if IsPrimary(recs, x) {
        var i, k :| 0 <= i < |recs| && k in PrimaryFields && x in NumbersOf(recs[i], k);
        FlattenFieldsOf(recs[i], PrimaryFields);
        assert x in ps[i];
      }
    }
  }

  /** `primary_numbers` (oab2google.rb:554-558): every record's primary
      numbers, flattened, first occurrences only. */
  function PrimaryNumbers(recs: seq<Record>): (r: seq<string>)
    ensures NoDup(r)
    ensures forall x :: x in r <==> IsPrimary(recs, x)
  {
    PerRecordPrimaryIs(recs);
    UniqNoDup(Flatten(PerRecordPrimary(recs)));
    Uniq(Flatten(PerRecordPrimary(recs)))
  }

  /** The second loop over one record's `kinds`: `record[kind] - primary_numbers`. */
  function DropPrimary(rec: Record, kinds: seq<string>, primary: seq<string>): Record {
    if kinds == [] then rec
    else
      var r := DropPrimary(rec, kinds[..|kinds| - 1], primary);
      var kind := kinds[|kinds| - 1];
      r.(numbers := r.numbers[kind := Minus(NumbersOf(r, kind), primary)])
  }

  /** The fields among `kinds` lose the primary numbers, the others are left
      as they were, and so are the address and the names. */
  lemma {:induction false} DropPrimaryIs(rec: Record, kinds: seq<string>, primary: seq<string>)
    ensures var r := DropPrimary(rec, kinds, primary);
      && r.smtp == rec.smtp && r.displayName == rec.displayName && r.surname == rec.surname
      && forall k :: NumbersOf(r, k) == if k in kinds then Minus(NumbersOf(rec, k), primary) else NumbersOf(rec, k)
  {
    if kinds != [] {
      var init, kind := kinds[..|kinds| - 1], kinds[|kinds| - 1];
      DropPrimaryIs(rec, init, primary);
      assert kinds == init + [kind];
      if kind in init {
        FilterFilter(NumbersOf(rec, kind), x => x !in primary, x => x !in primary);
      }
    }
  }

  /** `.flatten.empty?` fails: the record has a number in some phone field. */
  predicate HasNumbers(r: Record) {
    Flatten(FieldsOf(r, PhoneFields)) != []
  }

  lemma HasNumbersIs(r: Record)
    ensures HasNumbers(r) <==> exists k :: k in PhoneFields && NumbersOf(r, k) != []
  {
    FlattenFieldsOf(r, PhoneFields);
    if HasNumbers(r) {
      assert Flatten(FieldsOf(r, PhoneFields))[0] in Flatten(FieldsOf(r, PhoneFields));
    }
    if exists k :: k in PhoneFields && NumbersOf(r, k) != [] {
      var k :| k in PhoneFields && NumbersOf(r, k) != [];
      var x := NumbersOf(r, k)[0];
      assert x in NumbersOf(r, k);
      assert x in Flatten(FieldsOf(r, PhoneFields));
    }
  }

  function DedupAll(lib: PhoneLib, raws: seq<RawRecord>, kinds: seq<string>): (r: seq<Record>)
    ensures |r| == |raws|
  {
    if raws == [] then [] else DedupAll(lib, raws[..|raws| - 1], kinds) + [DedupRecord(lib, raws[|raws| - 1], kinds)]
  }

  /** The first loop handles each record on its own. */
  lemma {:induction false} DedupAllAt(lib: PhoneLib, raws: seq<RawRecord>, kinds: seq<string>)
    ensures forall i :: 0 <= i < |raws| ==> DedupAll(lib, raws, kinds)[i] == DedupRecord(lib, raws[i], kinds)
  {
    if raws != [] {
      var init := raws[..|raws| - 1];
      var r := DedupAll(lib, raws, kinds);
      DedupAllAt(lib, init, kinds);
      assert r == DedupAll(lib, init, kinds) + [DedupRecord(lib, raws[|init|], kinds)];
      forall i | 0 <= i < |raws| ensures r[i] == DedupRecord(lib, raws[i], kinds) {
        if i < |init| {
          assert r[i] == DedupAll(lib, init, kinds)[i] && init[i] == raws[i];
        }
      }
    }
  }

  function DropPrimaryAll(recs: seq<Record>, primary: seq<string>): (r: seq<Record>)
    ensures |r| == |recs|
  {
    if recs == [] then [] else DropPrimaryAll(recs[..|recs| - 1], primary) + [DropPrimary(recs[|recs| - 1], AssistantFields, primary)]
  }

  /** The second loop handles each record on its own. */
  lemma {:induction false} DropPrimaryAllAt(recs: seq<Record>, primary: seq<string>)
    ensures forall i :: 0 <= i < |recs| ==> DropPrimaryAll(recs, primary)[i] == DropPrimary(recs[i], AssistantFields, primary)
  {
    if recs != [] {
      var init := recs[..|recs| - 1];
      var r := DropPrimaryAll(recs, primary);
      DropPrimaryAllAt(init, primary);
      assert r == DropPrimaryAll(init, primary) + [DropPrimary(recs[|init|], AssistantFields, primary)];
      forall i | 0 <= i < |recs| ensures r[i] == DropPrimary(recs[i], AssistantFields, primary) {
        if i < |init| {
          assert r[i] == DropPrimaryAll(init, primary)[i] && init[i] == recs[i];
        }
      }
    }
  }

  /** The whole pass: the records it keeps, in their order. */
  function Pruned(lib: PhoneLib, raws: seq<RawRecord>): seq<Record> {
    var deduped := DedupAll(lib, raws, PhoneFields);
    Filter(DropPrimaryAll(deduped, PrimaryNumbers(deduped)), HasNumbers)
  }

  // ---------------------------------------------------------------- what the pass promises

  /** A record as the pass leaves it: no phone field repeats a number and no
      two phone fields share one. */
  ghost predicate SelfDisjoint(r: Record) {
    && (forall k :: k in PhoneFields ==> NoDup(NumbersOf(r, k)))
    && (forall k1, k2, x :: k1 in PhoneFields && k2 in PhoneFields && k1 != k2 && x in NumbersOf(r, k1) ==> x !in NumbersOf(r, k2))
  }

  lemma DedupRecordSelfDisjoint(lib: PhoneLib, raw: RawRecord)
    ensures SelfDisjoint(DedupRecord(lib, raw, PhoneFields))
  {
    DedupInvariant(lib, raw, PhoneFields);
  }

  /** Each phone field of a deduplicated record holds exactly the numbers
      that no earlier field in `PHONEFIELDS` order holds after cleaning. */
  lemma DedupRecordFirstHolder(lib: PhoneLib, raw: RawRecord)
    ensures forall i, x :: 0 <= i < |PhoneFields| ==>
      (x in NumbersOf(DedupRecord(lib, raw, PhoneFields), PhoneFields[i]) <==> FirstHolder(lib, raw, PhoneFields, i, x))
  {
    PhoneFieldsDistinct();
    DedupInvariant(lib, raw, PhoneFields);
    DedupFirstHolder(lib, raw, PhoneFields);
  }

  /** Dropping numbers from fields keeps a record self-disjoint. */
  lemma DropPrimaryKeepsSelfDisjoint(rec: Record, primary: seq<string>)
    requires SelfDisjoint(rec)
    ensures SelfDisjoint(DropPrimary(rec, AssistantFields, primary))
  {
    DropPrimaryIs(rec, AssistantFields, primary);
    forall k | k in PhoneFields ensures NoDup(NumbersOf(DropPrimary(rec, AssistantFields, primary), k)) {
      if k in AssistantFields { FilterNoDup(NumbersOf(rec, k), x => x !in primary); }
    }
  }

  /** What the pass promises of the book it leaves: the records kept are,
      in order, exactly those that still have a number after the assistant
      fields lost the primary numbers; each kept record is self-disjoint;
      and no kept record has, in an assistant field, a number that any
      record (kept or not) has in a primary field. */
  lemma PrunedIs(lib: PhoneLib, raws: seq<RawRecord>)
    ensures var deduped := DedupAll(lib, raws, PhoneFields);
      var dropped := DropPrimaryAll(deduped, PrimaryNumbers(deduped));
      var out := Pruned(lib, raws);
      && out == Filter(dropped, HasNumbers)
      && (forall r :: r in out <==> r in dropped && HasNumbers(r))
      && (forall r :: r in out ==> SelfDisjoint(r))
      && (forall r, k, x :: r in out && k in AssistantFields && x in NumbersOf(r, k) ==> !IsPrimary(deduped, x))
  {
    var deduped := DedupAll(lib, raws, PhoneFields);
    var primary := PrimaryNumbers(deduped);
    var dropped := DropPrimaryAll(deduped, primary);
    DedupAllAt(lib, raws, PhoneFields);
    DropPrimaryAllAt(deduped, primary);
    forall r | r in dropped ensures SelfDisjoint(r) && forall k, x :: k in AssistantFields && x in NumbersOf(r, k) ==> x !in primary {
      var i :| 0 <= i < |dropped| && dropped[i] == r;
      DedupRecordSelfDisjoint(lib, raws[i]);
      DropPrimaryKeepsSelfDisjoint(deduped[i], primary);
      DropPrimaryIs(deduped[i], AssistantFields, primary);
    }
  }

  /** A kept record has a number, and the primary numbers survive the pass:
      the primary fields of a kept record are those of its deduplicated form. */
  lemma PrunedKeepsPrimary(lib: PhoneLib, raws: seq<RawRecord>)
    ensures forall r :: r in Pruned(lib, raws) ==> exists k :: k in PhoneFields && NumbersOf(r, k) != []
    ensures forall r :: r in Pruned(lib, raws) ==> KeptFrom(lib, raws, r)
  {
    forall r | r in Pruned(lib, raws) ensures (exists k :: k in PhoneFields && NumbersOf(r, k) != []) && KeptFrom(lib, raws, r) {
      HasNumbersIs(r);
      KeptRecordFrom(lib, raws, r);
    }
  }

  /** `r` is some input record's address and name with that record's
      deduplicated primary fields. */
  ghost predicate KeptFrom(lib: PhoneLib, raws: seq<RawRecord>, r: Record) {
    exists i :: 0 <= i < |raws| && SameSourceRecord(lib, raws, i, r)
  }

  ghost predicate SameSourceRecord(lib: PhoneLib, raws: seq<RawRecord>, i: nat, r: Record)
    requires i < |raws|
  {
    && r.smtp == raws[i].smtp && r.displayName == raws[i].displayName
    && forall k :: k in PrimaryFields ==> NumbersOf(r, k) == NumbersOf(DedupRecord(lib, raws[i], PhoneFields), k)
  }

  lemma KeptRecordFrom(lib: PhoneLib, raws: seq<RawRecord>, r: Record)
    requires r in Pruned(lib, raws)
    ensures KeptFrom(lib, raws, r)
  {
    var deduped := DedupAll(lib, raws, PhoneFields);
    var primary := PrimaryNumbers(deduped);
    var dropped := DropPrimaryAll(deduped, primary);
    DedupAllAt(lib, raws, PhoneFields);
    DropPrimaryAllAt(deduped, primary);
    var i :| 0 <= i < |dropped| && dropped[i] == r;
    var d := deduped[i];
    assert d == DedupRecord(lib, raws[i], PhoneFields);
    DropPrimaryIs(d, AssistantFields, primary);
    PrimaryNotAssistant();
    forall k | k in PrimaryFields ensures NumbersOf(r, k) == NumbersOf(d, k) {
      assert k !in AssistantFields;
    }
    assert SameSourceRecord(lib, raws, i, r);
  }

  // ---------------------------------------------------------------- the pass itself

  /** One record's loop over `kinds` (oab2google.rb:538-552), on the
      record's fields and the `numbers` accumulator. */
  method DedupFields(lib: PhoneLib, raw: RawRecord, kinds: seq<string>) returns (fields: map<string, seq<string>>, numbers: seq<string>)
    ensures Pass(fields, numbers) == Dedup(lib, raw, kinds)
  {
    fields, numbers := map[], [];
    var i := 0;
    while i < |kinds|
      invariant 0 <= i <= |kinds|
      invariant Pass(fields, numbers) == Dedup(lib, raw, kinds[..i])
    {
      assert kinds[..i + 1][..i] == kinds[..i];
      var kind := kinds[i];
      var field := if kind in fields then Many(fields[kind]) else RawOf(raw, kind);
      var v := Uniq(Compact(NormalizeAll(lib, Sources(field))));
      v := Minus(v, numbers);
      fields := fields[kind := v];
      numbers := numbers + v;
      i := i + 1;
    }
    assert kinds[..i] == kinds;
  }

  /** One record's loop over `kinds` (oab2google.rb:560-564). */
  method DropPrimaryFields(rec: Record, kinds: seq<string>, primary: seq<string>) returns (r: Record)
    ensures r == DropPrimary(rec, kinds, primary)
  {
    r := rec;
    var i := 0;
    while i < |kinds|
      invariant 0 <= i <= |kinds|
      invariant r == DropPrimary(rec, kinds[..i], primary)
    {
      assert kinds[..i + 1][..i] == kinds[..i];
      var kind := kinds[i];
      r := r.(numbers := r.numbers[kind := Minus(NumbersOf(r, kind), primary)]);
      i := i + 1;
    }
    assert kinds[..i] == kinds;
  }

  /** The first loop over the records (oab2google.rb:537-553), each over `kinds`. */
  method DedupBook(lib: PhoneLib, raws: seq<RawRecord>, kinds: seq<string>) returns (records: seq<Record>)
    ensures records == DedupAll(lib, raws, kinds)
  {
    records := [];
    var i := 0;
    while i < |raws|
      invariant 0 <= i <= |raws|
      invariant records == DedupAll(lib, raws[..i], kinds)
    {
      assert raws[..i + 1][..i] == raws[..i];
      var fields, _ := DedupFields(lib, raws[i], kinds);
      records := records + [Record(raws[i].smtp, raws[i].displayName, raws[i].surname, fields)];
      i := i + 1;
    }
    assert raws[..i] == raws;
  }

  /** The second loop over the records (oab2google.rb:560-564), replacing each in turn. */
  method DropPrimaryBook(deduped: seq<Record>, primary: seq<string>) returns (records: seq<Record>)
    ensures records == DropPrimaryAll(deduped, primary)
  {
    records := deduped;
    var i := 0;
    while i < |records|
      invariant 0 <= i <= |records| && |records| == |deduped|
      invariant records[..i] == DropPrimaryAll(deduped[..i], primary)
      invariant records[i..] == deduped[i..]
    {
      assert deduped[..i + 1][..i] == deduped[..i];
      var r := DropPrimaryFields(records[i], AssistantFields, primary);
      records := records[i := r];
      i := i + 1;
      assert records[..i] == records[..i - 1] + [r];
    }
    assert records == records[..i] && deduped == deduped[..i];
  }

  /** The pass over the loaded records (oab2google.rb:536-566): the records
      it leaves are those `Pruned` describes. */
  method Prune(lib: PhoneLib, raws: seq<RawRecord>) returns (records: seq<Record>)
    ensures records == Pruned(lib, raws)
  {
    records := DedupBook(lib, raws, PhoneFields);
    var primary := PrimaryNumbers(records);
    records := DropPrimaryBook(records, primary);
    records := Filter(records, HasNumbers);
  }
}
