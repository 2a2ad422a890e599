/** Versioned fact keys: parsing them, and marking lower versions superseded. Go's int is 64 bits and wraps. */
module Supersede {
  import opened Basics
  import opened EmbeddedStore
  import Words

  const INT64_BOUND: int := 0x8000_0000_0000_0000

  function Wrap(x: int): (r: int)
    ensures -INT64_BOUND <= r < INT64_BOUND && (r - x) % UINT64_MODULUS == 0
  {
    (x + INT64_BOUND) % UINT64_MODULUS - INT64_BOUND
  }

  /* ---- segments ---- */

  /** The segments of a key, between slashes. */
  function Split(key: string): (parts: seq<string>)
    ensures parts != []
  {
    Words.Split(key, "/")
  }

  function Join(parts: seq<string>): string {
    Words.Join(parts, "/")
  }

  ghost predicate SlashFree(parts: seq<string>) {
    forall i | 0 <= i < |parts| :: '/' !in parts[i]
  }

  lemma {:induction false} FirstSlash(a: string, rest: string)
    requires '/' !in a
    ensures Words.Index(a + "/" + rest, "/") == |a| && Words.Index(a, "/") == |a|
  {
    var s := a + "/" + rest;
    if a == "" {
      assert s[..1] == "/";
    } else {
      FirstSlash(a[1..], rest);
      assert s[1..] == a[1..] + "/" + rest;
      assert s[..1][0] == a[0] && a[..1][0] == a[0];
    }
  }

  lemma SplitSegment(a: string, rest: string)
    requires '/' !in a
    ensures Split(a + "/" + rest) == [a] + Split(rest)
    ensures Split(a) == [a]
  {
    var s := a + "/" + rest;
    FirstSlash(a, rest);
    assert s[..|a|] == a && s[|a| + 1..] == rest;
  }

  /** Splitting undoes joining. */
  lemma {:induction false} SplitUndoesJoin(parts: seq<string>)
    requires parts != [] && SlashFree(parts)
    ensures Split(Join(parts)) == parts
  {
    hide Split;
    if |parts| == 1 {
      SplitSegment(parts[0], "");
    } else {
      SplitSegment(parts[0], Join(parts[1..]));
      SplitUndoesJoin(parts[1..]);
    }
  }

  /** Joining undoes splitting, and no segment has a slash: there is no other way to take the key apart. */
  lemma JoinUndoesSplit(key: string)
    ensures Join(Split(key)) == key && SlashFree(Split(key))
  {
    Words.JoinUndoesSplit(key, "/");
    forall k | 0 <= k < |Split(key)| ensures '/' !in Split(key)[k] {
      var part := Split(key)[k];
      if '/' in part {
        var j :| 0 <= j < |part| && part[j] == '/';
        assert Words.At(part, "/", j);
      }
    }
  }

  /* ---- version segments ---- */

  predicate AllDigits(s: string) {
    forall i | 0 <= i < |s| :: IsDigit(s[i])
  }

  /** The decimal value of the digits. */
  function Value(s: string): nat
    requires AllDigits(s)
  {
    if s == "" then 0 else 10 * Value(s[..|s| - 1]) + (s[|s| - 1] as nat - '0' as nat)
  }

  /** The value as the loop accumulates it, wrapping at every step. */
  function Accumulated(s: string): int
    requires AllDigits(s)
  {
    if s == "" then 0 else Wrap(10 * Accumulated(s[..|s| - 1]) + (s[|s| - 1] as int - '0' as int))
  }

  lemma WrapOfCongruent(x: int, y: int)
    requires (x - y) % UINT64_MODULUS == 0
    ensures Wrap(x) == Wrap(y)
  {
  }

  /** Wrapping at every step is wrapping once at the end. */
  lemma {:induction false} AccumulatedIsWrapped(s: string)
    requires AllDigits(s)
    ensures Accumulated(s) == Wrap(Value(s))
  {
    if s == "" {
    } else {
      var front, d := s[..|s| - 1], s[|s| - 1] as int - '0' as int;
      AccumulatedIsWrapped(front);
      var k := (Accumulated(front) - Value(front)) / UINT64_MODULUS;
      assert Accumulated(front) - Value(front) == k * UINT64_MODULUS;
      WrapOfCongruent(10 * Accumulated(front) + d, 10 * Value(front) + d) by {
        assert (10 * Accumulated(front) + d) - (10 * Value(front) + d) == (10 * k) * UINT64_MODULUS;
        MultipleOfModulus(10 * k);
      }
    }
  }

  lemma MultipleOfModulus(k: int)
    ensures (k * UINT64_MODULUS) % UINT64_MODULUS == 0
  {
  }

  lemma {:induction false} ValueOfDecimal(n: nat)
    ensures AllDigits(Decimal(n)) && Value(Decimal(n)) == n
  {
    var s := Decimal(n);
    if n >= 10 {
      ValueOfDecimal(n / 10);
      assert s[..|s| - 1] == Decimal(n / 10);
    } else {
      assert s[..0] == "";
    }
  }

  /** The version of a segment "vN"; 0 when it is none. A value that wraps below 1 is not a version either. */
  function SegmentVersion(part: string): (v: int)
    ensures 0 <= v < INT64_BOUND
  {
    if |part| > 1 && part[0] == 'v' && AllDigits(part[1..]) && Accumulated(part[1..]) >= 1 then Accumulated(part[1..]) else 0
  }

  /** A 'v' and then digits only, whose value taken into 64 bits is v, from 1 on. */
  ghost predicate NamesVersion(part: string, v: int) {
    && |part| > 1 && part[0] == 'v' && AllDigits(part[1..])
    && 1 <= v < INT64_BOUND && (Value(part[1..]) - v) % UINT64_MODULUS == 0
  }

  lemma VersionNamed(part: string, v: int)
    ensures NamesVersion(part, v) <==> v >= 1 && SegmentVersion(part) == v
  {
    if |part| > 1 && part[0] == 'v' && AllDigits(part[1..]) {
      AccumulatedIsWrapped(part[1..]);
      if 1 <= v < INT64_BOUND { WrapIs(Value(part[1..]), v); }
    }
  }

  /** Wrapping gives the one number in range that differs by a multiple of 2^64. */
  lemma WrapIs(x: int, v: int)
    requires -INT64_BOUND <= v < INT64_BOUND
    ensures Wrap(x) == v <==> (x - v) % UINT64_MODULUS == 0
  {
    if (x - v) % UINT64_MODULUS == 0 { WrapOfCongruent(x, v); }
  }

  /** The last segment that names a version, with what precedes it; "" and 0 when none does. */
  ghost predicate ParsedAs(key: string, prefix: string, version: int) {
    var parts := Split(key);
    if version == 0 then prefix == "" && forall j, v | 0 <= j < |parts| :: !NamesVersion(parts[j], v)
    else exists i | 0 <= i < |parts| ::
      && NamesVersion(parts[i], version) && prefix == Join(parts[..i])
      && forall j, v | i < j < |parts| :: !NamesVersion(parts[j], v)
  }

  /** The last version segment among the first i, with what precedes it. */
  function ParsedBelow(parts: seq<string>, i: nat): (r: (string, int))
    requires i <= |parts|
    ensures 0 <= r.1 < INT64_BOUND
  {
    if i == 0 then ("", 0)
    else if SegmentVersion(parts[i - 1]) >= 1 then (Join(parts[..i - 1]), SegmentVersion(parts[i - 1]))
    else ParsedBelow(parts, i - 1)
  }

  function Parsed(key: string): (string, int) {
    ParsedBelow(Split(key), |Split(key)|)
  }

  lemma {:induction false} ParsedBelowIs(parts: seq<string>, i: nat)
    requires i <= |parts|
    ensures var (prefix, version) := ParsedBelow(parts, i);
      if version == 0 then prefix == "" && forall j | 0 <= j < i :: SegmentVersion(parts[j]) == 0
      else exists j | 0 <= j < i ::
        && SegmentVersion(parts[j]) == version && prefix == Join(parts[..j]) && forall k | j < k < i :: SegmentVersion(parts[k]) == 0
  {
    hide SegmentVersion, Join;
    if i > 0 && SegmentVersion(parts[i - 1]) < 1 {
      assert SegmentVersion(parts[i - 1]) == 0;
      ParsedBelowIs(parts, i - 1);
    }
  }

  /** What the code gives is the last version segment with what precedes it, and nothing else is. */
  lemma ParsedIs(key: string, prefix: string, version: int)
    ensures ParsedAs(key, prefix, version) <==> (prefix, version) == Parsed(key)
  {
    hide SegmentVersion, Join, Split, NamesVersion, ParsedBelow;
    var parts := Split(key);
    forall j, v | 0 <= j < |parts| ensures NamesVersion(parts[j], v) <==> v >= 1 && SegmentVersion(parts[j]) == v {
      VersionNamed(parts[j], v);
    }
    assert forall j | 0 <= j < |parts| :: SegmentVersion(parts[j]) == 0 || NamesVersion(parts[j], SegmentVersion(parts[j]));
    ParsedBelowIs(parts, |parts|);
  }

  method ParseVersionedKey(key: string) returns (prefix: string, version: int)
    ensures (prefix, version) == Parsed(key) && ParsedAs(key, prefix, version)
  {
    ParsedIs(key, Parsed(key).0, Parsed(key).1);
    hide ParsedAs;
    var parts := Split(key);
    var i: nat := |parts|;
    while i > 0
      invariant i <= |parts| && Parsed(key) == ParsedBelow(parts, i)
    {
      i := i - 1;
      var part := parts[i];
      if |part| > 1 && part[0] == 'v' {
        var digits := part[1..];
        var allDigits := true;
        var j := 0;
        while j < |digits|
          invariant j <= |digits| && allDigits && AllDigits(digits[..j])
        {
          if digits[j] < '0' || digits[j] > '9' {
            allDigits := false;
            break;
          }
          j := j + 1;
        }
        assert allDigits ==> digits[..|digits|] == digits;
        if !allDigits {
          continue;
        }
        var v := 0;
        for k := 0 to |digits|
          invariant v == Accumulated(digits[..k])
        {
          assert digits[..k + 1][..k] == digits[..k];
          v := Wrap(v * 10 + (digits[k] as int - '0' as int));
        }
        assert digits[..|digits|] == digits;
        if v >= 1 {
          return Join(parts[..i]), v;
        }
      }
    }
    return "", 0;
  }

  function PrintKey(prefix: seq<string>, n: nat, suffix: seq<string>): string {
    Join(prefix + ["v" + Decimal(n)] + suffix)
  }

  lemma {:induction false} SkipsSuffix(parts: seq<string>, i: nat, k: nat)
    requires i <= k <= |parts| && forall j | i <= j < k :: SegmentVersion(parts[j]) == 0
    ensures ParsedBelow(parts, k) == ParsedBelow(parts, i)
    decreases k - i
  {
    if i < k { SkipsSuffix(parts, i, k - 1); }
  }

  lemma VersionSegment(n: nat)
    requires n >= 1
    ensures '/' !in "v" + Decimal(n)
    ensures SegmentVersion("v" + Decimal(n)) == if Wrap(n) >= 1 then Wrap(n) else 0
  {
    var part := "v" + Decimal(n);
    ValueOfDecimal(n);
    assert forall i | 0 < i < |part| :: part[i] == Decimal(n)[i - 1] && IsDigit(Decimal(n)[i - 1]);
    assert part[1..] == Decimal(n);
    AccumulatedIsWrapped(part[1..]);
  }

  lemma PrintedParses(prefix: seq<string>, n: nat, suffix: seq<string>)
    requires n >= 1 && SlashFree(prefix) && SlashFree(suffix)
    requires forall j | 0 <= j < |suffix| :: SegmentVersion(suffix[j]) == 0
    ensures var part := "v" + Decimal(n);
      Parsed(PrintKey(prefix, n, suffix)) ==
        if SegmentVersion(part) >= 1 then (Join(prefix), SegmentVersion(part)) else ParsedBelow(prefix + [part] + suffix, |prefix|)
  {
    hide SegmentVersion, Join, Split;
    var part := "v" + Decimal(n);
    var parts := prefix + [part] + suffix;
    VersionSegment(n);
    SplitUndoesJoin(parts);
    SkipsSuffix(parts, |prefix| + 1, |parts|);
    assert parts[..|prefix|] == prefix && parts[|prefix|] == part;
  }

  /**
   * Parsing undoes printing for a version from 1 on, with slash-free segments and no version segment behind it, if and only
   * if the version fits a 64-bit int.
   */
  lemma ParseUndoesPrintIff(prefix: seq<string>, n: nat, suffix: seq<string>)
    requires n >= 1 && SlashFree(prefix) && SlashFree(suffix)
    requires forall j | 0 <= j < |suffix| :: SegmentVersion(suffix[j]) == 0
    ensures Parsed(PrintKey(prefix, n, suffix)) == (Join(prefix), n) <==> n < INT64_BOUND
  {
    hide SegmentVersion, Join, PrintKey, Parsed;
    VersionSegment(n);
    PrintedParses(prefix, n, suffix);
  }

  /** A version just past 2^64 reads as version 1. */
  lemma VersionWraps()
    ensures Parsed(PrintKey(["org"], UINT64_MODULUS + 1, [])) == ("org", 1)
  {
    VersionSegment(UINT64_MODULUS + 1);
    PrintedParses(["org"], UINT64_MODULUS + 1, []);
  }

  /* ---- supersession ---- */

  datatype Fact = Fact(id: PointId, key: string, status: string)

  datatype VersionedFact = VersionedFact(pointID: string, version: int, key: string)

  predicate IsVersioned(f: Fact) {
    f.status == "active" && f.key != "" && Parsed(f.key).1 >= 1
  }

  /** A higher version of the same prefix is active. */
  ghost predicate Outdated(facts: seq<Fact>, f: Fact) {
    IsVersioned(f) && exists g :: g in facts && IsVersioned(g) && Parsed(g.key).0 == Parsed(f.key).0 && Parsed(g.key).1 > Parsed(f.key).1
  }

  /** Ids differ, and none is the empty UUID: a scroll starts behind it. */
  ghost predicate Scannable(facts: seq<Fact>) {
    && (forall i, j | 0 <= i < j < |facts| :: facts[i].id != facts[j].id)
    && (forall i | 0 <= i < |facts| :: facts[i].id != Uuid(""))
  }

  predicate HasUuidIn(f: Fact, uuids: set<string>) {
    f.id.Uuid? && f.id.uuid in uuids
  }

  ghost function Marked(facts: seq<Fact>, uuids: set<string>): (r: seq<Fact>)
    ensures |r| == |facts|
    ensures forall i | 0 <= i < |facts| :: r[i] == if HasUuidIn(facts[i], uuids) then facts[i].(status := "superseded") else facts[i]
  {
    seq(|facts|, i requires 0 <= i < |facts| => if HasUuidIn(facts[i], uuids) then facts[i].(status := "superseded") else facts[i])
  }

  /** The UUIDs that updates are sent to, for outdated facts, less those that the store refuses; "" for a numeric id. */
  ghost function ToMark(facts: seq<Fact>, refused: set<string>): set<string> {
    set f | f in facts && Outdated(facts, f) && UuidOf(f.id) !in refused :: UuidOf(f.id)
  }

  /** The facts after the scan. */
  ghost function Scanned(facts: seq<Fact>, refused: set<string>): seq<Fact> {
    Marked(facts, ToMark(facts, refused))
  }

  /** Exactly the outdated facts with a UUID whose update is not refused are marked; one with a numeric id never is. */
  lemma MarkedAre(facts: seq<Fact>, refused: set<string>, i: nat)
    requires Scannable(facts) && i < |facts|
    ensures Scanned(facts, refused)[i] ==
      if Outdated(facts, facts[i]) && facts[i].id.Uuid? && facts[i].id.uuid !in refused then facts[i].(status := "superseded")
      else facts[i]
  {
    if HasUuidIn(facts[i], ToMark(facts, refused)) {
      var f :| f in facts && Outdated(facts, f) && UuidOf(f.id) !in refused && UuidOf(f.id) == facts[i].id.uuid;
      var j :| 0 <= j < |facts| && facts[j] == f;
      assert j == i;
    }
  }

  /** Some fact of the group has the highest version and is outdated by none. */
  lemma {:induction false} HighestIsActive(facts: seq<Fact>, f: Fact, bound: int) returns (top: Fact)
    requires f in facts && IsVersioned(f) && Parsed(f.key).1 <= bound
    requires forall g | g in facts && IsVersioned(g) && Parsed(g.key).0 == Parsed(f.key).0 :: Parsed(g.key).1 <= bound
    ensures top in facts && IsVersioned(top) && Parsed(top.key).0 == Parsed(f.key).0 && !Outdated(facts, top)
    ensures Parsed(top.key).1 >= Parsed(f.key).1
    decreases bound - Parsed(f.key).1
  {
    if Outdated(facts, f) {
      var g :| g in facts && IsVersioned(g) && Parsed(g.key).0 == Parsed(f.key).0 && Parsed(g.key).1 > Parsed(f.key).1;
      top := HighestIsActive(facts, g, bound);
    } else {
      top := f;
    }
  }

  /**
   * After the scan the versioned facts still active are exactly those of the highest version of their prefix, those whose
   * update was refused, and those with a numeric id.
   */
  lemma ExactlyHighestStayActive(facts: seq<Fact>, refused: set<string>, i: nat)
    requires Scannable(facts) && i < |facts| && IsVersioned(facts[i])
    ensures IsVersioned(Scanned(facts, refused)[i]) <==>
      (|| facts[i].id.Num? || UuidOf(facts[i].id) in refused
       || forall g | g in facts && IsVersioned(g) && Parsed(g.key).0 == Parsed(facts[i].key).0 ::
            Parsed(g.key).1 <= Parsed(facts[i].key).1)
  {
    MarkedAre(facts, refused, i);
  }

  /** Two versions of a fact under numeric ids: the lower one is outdated, and stays as it is. */
  lemma NumericIdStaysActive()
    ensures var facts := [Fact(Num(1), PrintKey(["org"], 1, []), "active"), Fact(Num(2), PrintKey(["org"], 2, []), "active")];
      Scannable(facts) && Outdated(facts, facts[0]) && Scanned(facts, {}) == facts
  {
    hide PrintKey, Parsed;
    ParseUndoesPrintIff(["org"], 1, []);
    ParseUndoesPrintIff(["org"], 2, []);
    TwoNumericIds(PrintKey(["org"], 1, []), PrintKey(["org"], 2, []));
  }

  lemma TwoNumericIds(low: string, high: string)
    requires Parsed(low).0 == Parsed(high).0 && 1 <= Parsed(low).1 < Parsed(high).1
    ensures var facts := [Fact(Num(1), low, "active"), Fact(Num(2), high, "active")];
      Scannable(facts) && Outdated(facts, facts[0]) && Scanned(facts, {}) == facts
  {
    hide Parsed;
    var facts := [Fact(Num(1), low, "active"), Fact(Num(2), high, "active")];
    ParsedNotEmpty(low);
    ParsedNotEmpty(high);
    assert facts[0] in facts && facts[1] in facts;
    assert IsVersioned(facts[0]) && IsVersioned(facts[1]) && facts[1].key == high;
    assert Outdated(facts, facts[0]);
    MarkedAre(facts, {}, 0);
    MarkedAre(facts, {}, 1);
    assert Scanned(facts, {})[0] == facts[0] && Scanned(facts, {})[1] == facts[1];
    assert Scanned(facts, {}) == facts;
  }

  lemma ParsedNotEmpty(key: string)
    requires Parsed(key).1 >= 1
    ensures key != ""
  {
    assert Words.Index("", "/") == 0 && Split("") == [""];
    assert ParsedBelow([""], 0) == ("", 0) && SegmentVersion("") == 0;
    assert ParsedBelow([""], 1) == ("", 0);
  }

  /** A second scan changes nothing, even if the store refused some updates. */
  lemma ScanIsIdempotent(facts: seq<Fact>, refused: set<string>)
    ensures Scanned(Scanned(facts, refused), refused) == Scanned(facts, refused)
  {
    hide ToMark, Marked;
    var first, second := ToMark(facts, refused), ToMark(Scanned(facts, refused), refused);
    NothingNewToMark(facts, refused);
    MarkedTwice(facts, first, second);
    assert first + second == first;
  }

  lemma NothingNewToMark(facts: seq<Fact>, refused: set<string>)
    ensures ToMark(Scanned(facts, refused), refused) <= ToMark(facts, refused)
  {
    hide Parsed;
    var after := Scanned(facts, refused);
    forall id | id in ToMark(after, refused) ensures id in ToMark(facts, refused) {
      var f :| f in after && Outdated(after, f) && UuidOf(f.id) !in refused && UuidOf(f.id) == id;
      var g :| g in after && IsVersioned(g) && Parsed(g.key).0 == Parsed(f.key).0 && Parsed(g.key).1 > Parsed(f.key).1;
      StillActive(facts, ToMark(facts, refused), f);
      StillActive(facts, ToMark(facts, refused), g);
      assert Outdated(facts, f);
    }
  }

  /** What is active afterwards was there before. */
  lemma StillActive(facts: seq<Fact>, uuids: set<string>, f: Fact)
    requires f in Marked(facts, uuids) && f.status == "active"
    ensures f in facts
  {
    var i :| 0 <= i < |facts| && Marked(facts, uuids)[i] == f;
    assert f == facts[i];
  }

  /* ---- the scan, in the columns of the facts ---- */

  /** An active fact with a key that reads as this version, from 1 on, of this prefix. */
  ghost predicate IsVersion(f: Fact, prefix: string, version: int) {
    f.status == "active" && f.key != "" && version >= 1 && ParsedAs(f.key, prefix, version)
  }

  /** A fact of the same prefix has a higher version. */
  ghost predicate Beaten(facts: seq<Fact>, f: Fact) {
    exists prefix, low, high, g :: IsVersion(f, prefix, low) && g in facts && IsVersion(g, prefix, high) && low < high
  }

  lemma BeatenIff(facts: seq<Fact>, f: Fact)
    ensures Beaten(facts, f) <==> Outdated(facts, f)
  {
    hide Parsed, ParsedAs;
    forall g: Fact, prefix, version
      ensures IsVersion(g, prefix, version) <==> IsVersioned(g) && (prefix, version) == Parsed(g.key) {
      ParsedIs(g.key, prefix, version);
    }
    if Outdated(facts, f) {
      var g :| g in facts && IsVersioned(g) && Parsed(g.key).0 == Parsed(f.key).0 && Parsed(g.key).1 > Parsed(f.key).1;
      assert IsVersion(f, Parsed(f.key).0, Parsed(f.key).1) && IsVersion(g, Parsed(f.key).0, Parsed(g.key).1);
    }
  }

  /** The scan marks the facts that a higher version beats, have a UUID and are not refused, and changes nothing else. */
  ghost predicate LowerMarked(facts: seq<Fact>, after: seq<Fact>, refused: set<string>) {
    && |after| == |facts|
    && forall i | 0 <= i < |facts| ::
         && after[i].id == facts[i].id && after[i].key == facts[i].key
         && after[i].status ==
              if Beaten(facts, facts[i]) && facts[i].id.Uuid? && facts[i].id.uuid !in refused then "superseded" else facts[i].status
  }

  lemma ScanMarksLower(facts: seq<Fact>, refused: set<string>)
    requires Scannable(facts)
    ensures LowerMarked(facts, Scanned(facts, refused), refused)
  {
    hide Scanned, Beaten, Outdated;
    assert |Scanned(facts, refused)| == |facts| by { ScannedLength(facts, refused); }
    forall i | 0 <= i < |facts| ensures var f := Scanned(facts, refused)[i];
      && f.id == facts[i].id && f.key == facts[i].key
      && f.status == if Beaten(facts, facts[i]) && facts[i].id.Uuid? && facts[i].id.uuid !in refused then "superseded" else facts[i].status {
      MarkedAre(facts, refused, i);
      BeatenIff(facts, facts[i]);
    }
  }

  lemma ScannedLength(facts: seq<Fact>, refused: set<string>)
    ensures |Scanned(facts, refused)| == |facts|
  {
  }

  /* ---- the scan's loops ---- */

  /** The versioned facts of one prefix, in scan order. */
  ghost function GroupOf(facts: seq<Fact>, prefix: string): seq<VersionedFact> {
    if facts == [] then []
    else
      var before, f := GroupOf(facts[..|facts| - 1], prefix), facts[|facts| - 1];
      if IsVersioned(f) && Parsed(f.key).0 == prefix then before + [VersionedFact(UuidOf(f.id), Parsed(f.key).1, f.key)] else before
  }

  lemma {:induction false} GroupOfAre(facts: seq<Fact>, prefix: string)
    ensures forall v :: v in GroupOf(facts, prefix) <==>
      exists f :: f in facts && IsVersioned(f) && Parsed(f.key).0 == prefix && v == VersionedFact(UuidOf(f.id), Parsed(f.key).1, f.key)
  {
    if facts == [] {
    } else {
      GroupOfAre(facts[..|facts| - 1], prefix);
      assert facts == facts[..|facts| - 1] + [facts[|facts| - 1]];
      hide Parsed, IsVersioned;
    }
  }

  ghost predicate Grouped(groups: map<string, seq<VersionedFact>>, facts: seq<Fact>) {
    forall p :: GroupOf(facts, p) == if p in groups then groups[p] else []
  }

  method GroupFacts(facts: seq<Fact>) returns (groups: map<string, seq<VersionedFact>>)
    ensures Grouped(groups, facts)
  {
    hide Parsed;
    groups := map[];
    for i := 0 to |facts|
      invariant Grouped(groups, facts[..i])
    {
      assert facts[..i + 1][..i] == facts[..i];
      var f := facts[i];
      if f.status != "active" || f.key == "" {
        continue;
      }
      var prefix, version := ParseVersionedKey(f.key);
      if version >= 1 {
        var group := if prefix in groups then groups[prefix] else [];
        groups := groups[prefix := group + [VersionedFact(UuidOf(f.id), version, f.key)]];
      }
    }
    assert facts[..|facts|] == facts;
  }

  /** The ids of the facts of a group that are not of its highest version and whose update is not refused. */
  ghost function LowIds(g: seq<VersionedFact>, refused: set<string>): set<string> {
    set v | v in g && (exists w :: w in g && w.version > v.version) && v.pointID !in refused :: v.pointID
  }

  lemma MarkedTwice(facts: seq<Fact>, a: set<string>, b: set<string>)
    ensures Marked(Marked(facts, a), b) == Marked(facts, a + b)
  {
  }

  class Facts {
    var facts: seq<Fact>

    /** SetPayload on the point with this UUID; the store may refuse it, and then nothing changes. */
    method UpdateFactStatus(uuid: string, refused: set<string>) returns (ok: bool)
      modifies this
      ensures ok <==> uuid !in refused
      ensures facts == Marked(old(facts), {uuid} - refused)
    {
      ok := uuid !in refused;
      facts := seq(|facts|, i requires 0 <= i < |facts| reads this =>
        if facts[i].id == Uuid(uuid) && ok then facts[i].(status := "superseded") else facts[i]);
    }

    /** Marks the facts of one group that are below its highest version. */
    method SupersedeGroup(g: seq<VersionedFact>, refused: set<string>)
      requires forall v | v in g :: v.version >= 1
      modifies this
      ensures facts == Marked(old(facts), LowIds(g, refused))
    {
      var maxVersion := 0;
      for i := 0 to |g|
        invariant forall j | 0 <= j < i :: g[j].version <= maxVersion
        invariant maxVersion == 0 || exists j :: 0 <= j < i && g[j].version == maxVersion
      {
        if g[i].version > maxVersion {
          maxVersion := g[i].version;
        }
      }
      ghost var done: set<string> := {};
      assert Marked(facts, done) == facts;
      for i := 0 to |g|
        invariant facts == Marked(old(facts), done)
        invariant done == set v | v in g[..i] && v.version < maxVersion && v.pointID !in refused :: v.pointID
      {
        assert g[..i + 1] == g[..i] + [g[i]];
        if g[i].version < maxVersion {
          var ok := UpdateFactStatus(g[i].pointID, refused); // a refusal is logged and the loop goes on
          MarkedTwice(old(facts), done, {g[i].pointID} - refused);
          done := done + ({g[i].pointID} - refused);
        }
      }
      assert g[..|g|] == g;
      forall v | v in g ensures v.version < maxVersion <==> exists w :: w in g && w.version > v.version {
        if v.version < maxVersion { var j :| 0 <= j < |g| && g[j].version == maxVersion; assert g[j] in g; }
      }
      assert done == LowIds(g, refused);
    }

    /** Sends an update for every fact that a higher version of its prefix supersedes, whatever the order of the groups. */
    method SupersedeKeyPattern(refused: set<string>)
      modifies this
      ensures facts == Scanned(old(facts), refused)
      ensures Scannable(old(facts)) ==> LowerMarked(old(facts), facts, refused)
    {
      if Scannable(facts) { ScanMarksLower(facts, refused); }
      hide LowerMarked;
      var groups := GroupFacts(facts);
      ghost var before := facts;
      var todo := groups.Keys;
      ghost var ids: set<string> := {};
      assert facts == Marked(before, ids);
      while todo != {}
        invariant todo <= groups.Keys && facts == Marked(before, ids)
        invariant forall id :: id in ids <==> exists p :: p in groups.Keys - todo && id in LowIds(groups[p], refused)
        decreases |todo|
      {
        var p :| p in todo;
        var g := groups[p];
        todo := todo - {p};
        if |g| < 2 {
          SingleIsHighest(g, refused);
          continue;
        }
        GroupVersions(before, p);
        SupersedeGroup(g, refused);
        MarkedTwice(before, ids, LowIds(g, refused));
        ids := ids + LowIds(g, refused);
      }
      LowIdsAreToMark(before, groups, refused, ids);
    }
  }

  lemma SingleIsHighest(g: seq<VersionedFact>, refused: set<string>)
    requires |g| < 2
    ensures LowIds(g, refused) == {}
  {
  }

  lemma GroupVersions(facts: seq<Fact>, p: string)
    ensures forall v | v in GroupOf(facts, p) :: v.version >= 1
  {
    GroupOfAre(facts, p);
  }

  /** The ids found group by group are those of the outdated facts. */
  lemma LowIdsAreToMark(facts: seq<Fact>, groups: map<string, seq<VersionedFact>>, refused: set<string>, ids: set<string>)
    requires Grouped(groups, facts)
    requires forall id :: id in ids <==> exists p :: p in groups.Keys && id in LowIds(groups[p], refused)
    ensures ids == ToMark(facts, refused)
  {
    forall id ensures id in ids <==> id in ToMark(facts, refused) {
      if id in ids {
        var p :| p in groups.Keys && id in LowIds(groups[p], refused);
        LowIsOutdated(facts, p, refused, id);
      }
      if id in ToMark(facts, refused) {
        var f :| f in facts && Outdated(facts, f) && UuidOf(f.id) !in refused && UuidOf(f.id) == id;
        OutdatedIsLow(facts, f, refused);
        assert Parsed(f.key).0 in groups;
      }
    }
  }

  lemma LowIsOutdated(facts: seq<Fact>, p: string, refused: set<string>, id: string)
    requires id in LowIds(GroupOf(facts, p), refused)
    ensures id in ToMark(facts, refused)
  {
    hide Parsed;
    var g := GroupOf(facts, p);
    GroupOfAre(facts, p);
    var v :| v in g && (exists w :: w in g && w.version > v.version) && v.pointID !in refused && v.pointID == id;
    var w :| w in g && w.version > v.version;
    var f :| f in facts && IsVersioned(f) && Parsed(f.key).0 == p && v == VersionedFact(UuidOf(f.id), Parsed(f.key).1, f.key);
    var h :| h in facts && IsVersioned(h) && Parsed(h.key).0 == p && w == VersionedFact(UuidOf(h.id), Parsed(h.key).1, h.key);
    assert Outdated(facts, f);
  }

  lemma OutdatedIsLow(facts: seq<Fact>, f: Fact, refused: set<string>)
    requires f in facts && Outdated(facts, f) && UuidOf(f.id) !in refused
    ensures UuidOf(f.id) in LowIds(GroupOf(facts, Parsed(f.key).0), refused)
  {
    hide Parsed;
    var p := Parsed(f.key).0;
    GroupOfAre(facts, p);
    var h :| h in facts && IsVersioned(h) && Parsed(h.key).0 == p && Parsed(h.key).1 > Parsed(f.key).1;
    assert VersionedFact(UuidOf(f.id), Parsed(f.key).1, f.key) in GroupOf(facts, p);
    assert VersionedFact(UuidOf(h.id), Parsed(h.key).1, h.key) in GroupOf(facts, p);
  }
}
