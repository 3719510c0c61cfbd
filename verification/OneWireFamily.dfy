/** What a sequence of searches after target_search() returns. */
module OneWireFamily {
  import opened OneWireSearch

  const LAST: nat := 63

  ghost function Family(devices: set<Rom>, family: seq<bool>): set<Rom> {
    set d | d in devices && d[..FAMILY_BITS] == family
  }

  /** Another device has the same ROM up to the last bit. */
  ghost predicate HasTwin(devices: set<Rom>, r: Rom) {
    exists d :: d in devices && d != r && d[..LAST] == r[..LAST]
  }

  /** The least device of the family has a twin. */
  ghost predicate TwinAtLeast(devices: set<Rom>, family: seq<bool>) {
    exists r :: IsLeast(Family(devices, family), r) && HasTwin(devices, r)
  }

  /** As many searches as the family has devices return just these, in order. */
  ghost predicate EnumeratesFamily(devices: set<Rom>, s: SearchState, family: seq<bool>) {
    var n := |Family(devices, family)|;
    && (forall i | 0 <= i < n :: Found(devices, s, i))
    && Increasing(Addresses(devices, s, n))
    && Elements(Addresses(devices, s, n)) == Family(devices, family)
  }

  // ---------- the first search ----------

  /** The first search stays in the family. */
  lemma FirstIsInFamily(devices: set<Rom>, s: SearchState, family: seq<bool>)
    requires Targets(s, family) && Family(devices, family) != {}
    ensures FullWalk(devices, ROM_BITS, s.romNo) in Family(devices, family)
  {
    var d :| d in Family(devices, family);
    assert family <= d;
    TargetedWalk(devices, s.romNo, FAMILY_BITS);
    WalkPrefix(devices, ROM_BITS, s.romNo, FAMILY_BITS, ROM_BITS);
    WalkReachesDevice(devices, ROM_BITS, s.romNo);
  }

  /** At a fork behind the family byte it takes the 0, but the 1 at the last bit. */
  lemma TargetedFork(devices: set<Rom>, s: SearchState, family: seq<bool>, i: nat)
    requires Targets(s, family) && FAMILY_BITS <= i <= LAST
    requires Forks(devices, FullWalk(devices, ROM_BITS, s.romNo)[..i])
    ensures FullWalk(devices, ROM_BITS, s.romNo)[i] == (i == LAST)
  {
    WalkStep(devices, ROM_BITS, s.romNo, i);
  }

  lemma DiffersAt(a: Rom, b: Rom, i: nat)
    requires Less(a, b) && i < ROM_BITS && a[..i] == b[..i] && a[i] != b[i]
    ensures LessAt(a, b, i)
  {
    var j: nat :| LessAt(a, b, j);
    PrefixAgrees(a, b, i);
    PrefixAgrees(a, b, j);
  }

  /** It finds the least device of the family, or one that differs from it in the last bit only. */
  lemma FirstIsLeastButLastBit(devices: set<Rom>, s: SearchState, family: seq<bool>, r: Rom)
    requires Targets(s, family) && IsLeast(Family(devices, family), r)
    ensures FullWalk(devices, ROM_BITS, s.romNo)[..LAST] == r[..LAST]
  {
    var path: Rom := FullWalk(devices, ROM_BITS, s.romNo);
    FirstIsInFamily(devices, s, family);
    if path != r {
      var i := FirstDifference(path, r);
      DiffersAt(r, path, i);
      PrefixAgrees(path, r, i);
      PrefixAgrees(path, r, FAMILY_BITS);
      BothPresent(devices, r, path, i);
      TargetedFork(devices, s, family, i);
    }
  }

  lemma BothPresent(devices: set<Rom>, a: Rom, b: Rom, i: nat)
    requires a in devices && b in devices && LessAt(a, b, i)
    ensures Forks(devices, b[..i])
  {
    assert a[..i + 1] == b[..i] + [false];
    assert b[..i + 1] == b[..i] + [true];
    PresentPrefix(devices, a, i + 1);
    PresentPrefix(devices, b, i + 1);
  }

  lemma SameButLast(a: Rom, b: Rom)
    requires a[..LAST] == b[..LAST]
    ensures a == b <==> a[LAST] == b[LAST]
  {
    if a[LAST] == b[LAST] && a != b {
      var i := FirstDifference(a, b);
      PrefixAgrees(a, b, LAST);
    }
  }

  /** A twin of the least device of a family is greater: the two differ in the last bit. */
  lemma TwinIsGreater(devices: set<Rom>, family: seq<bool>, r: Rom, d: Rom)
    requires IsLeast(Family(devices, family), r)
    requires d in devices && d != r && d[..LAST] == r[..LAST]
    ensures d in Family(devices, family) && LessAt(r, d, LAST)
  {
    assert d[..FAMILY_BITS] == d[..LAST][..FAMILY_BITS] == r[..LAST][..FAMILY_BITS] == r[..FAMILY_BITS];
    SameButLast(r, d);
    DiffersAt(r, d, LAST);
  }

  /** The first search finds the least device of the family if and only if that one has no twin. */
  lemma FirstIsLeastIff(devices: set<Rom>, s: SearchState, family: seq<bool>, r: Rom)
    requires Targets(s, family) && IsLeast(Family(devices, family), r)
    ensures FullWalk(devices, ROM_BITS, s.romNo) == r <==> !HasTwin(devices, r)
  {
    var path: Rom := FullWalk(devices, ROM_BITS, s.romNo);
    FirstIsInFamily(devices, s, family);
    FirstIsLeastButLastBit(devices, s, family, r);
    if HasTwin(devices, r) {
      var d :| d in devices && d != r && d[..LAST] == r[..LAST];
      TwinIsGreater(devices, family, r, d);
      BothPresent(devices, r, d, LAST);
      TargetedFork(devices, s, family, LAST);
    }
  }

  // ---------- the searches after it ----------

  /** What lies between two devices of a family belongs to the family. */
  lemma BetweenInFamily(a: Rom, n: Rom, b: Rom)
    requires Less(a, n) && (n == b || Less(n, b)) && a[..FAMILY_BITS] == b[..FAMILY_BITS]
    ensures n[..FAMILY_BITS] == a[..FAMILY_BITS]
  {
    var i: nat :| LessAt(a, n, i);
    PrefixAgrees(a, b, FAMILY_BITS);
    PrefixAgrees(a, n, i);
    if n != b {
      var j: nat :| LessAt(n, b, j);
      PrefixAgrees(n, b, j);
    }
    assert i >= FAMILY_BITS;
    assert n[..FAMILY_BITS] == n[..i][..FAMILY_BITS];
  }

  lemma SuccessorInFamily(devices: set<Rom>, family: seq<bool>, r: Rom, n: Rom, d: Rom)
    requires r in Family(devices, family) && d in Family(devices, family) && Less(r, d)
    requires IsSuccessor(devices, r, n)
    ensures n in Family(devices, family) && IsSuccessor(Family(devices, family), r, n)
  {
    BetweenInFamily(r, n, d);
  }

  lemma InFamilyIsNotZero(family: seq<bool>, r: Rom)
    requires true in family && r[..FAMILY_BITS] == family
    ensures !NoFamily(r)
  {
    var i :| 0 <= i < |family| && family[i];
    assert r[i] == r[..FAMILY_BITS][i];
  }

  /** `s` is the state after the `n` least devices of the family were found. */
  ghost predicate FamilyPosition(devices: set<Rom>, family: seq<bool>, s: SearchState, n: nat) {
    && Resumable(devices, s) && s.romNo in Family(devices, family)
    && |UpTo(Family(devices, family), s.romNo)| == n
  }

  lemma FirstFamilyCall(devices: set<Rom>, s: SearchState, family: seq<bool>, r: Rom)
    requires Targets(s, family) && true in family
    requires IsLeast(Family(devices, family), r) && FullWalk(devices, ROM_BITS, s.romNo) == r
    ensures var (found, s') := SearchOnce(devices, s);
      && found && s'.romNo == r && FamilyPosition(devices, family, s', 1)
      && UpTo(Family(devices, family), r) == {r}
  {
    InFamilyIsNotZero(family, r);
    SearchContinues(devices, s);
    UpToLeast(Family(devices, family), r);
  }

  lemma NextFamilyCall(devices: set<Rom>, s: SearchState, family: seq<bool>, n: nat)
    requires true in family && FamilyPosition(devices, family, s, n) && n < |Family(devices, family)|
    ensures var (found, s') := SearchOnce(devices, s);
      && found && FamilyPosition(devices, family, s', n + 1) && Less(s.romNo, s'.romNo)
      && UpTo(Family(devices, family), s'.romNo) == UpTo(Family(devices, family), s.romNo) + {s'.romNo}
  {
    var members := Family(devices, family);
    SomeAbove(members, s.romNo);
    var d :| d in members && Less(s.romNo, d);
    NextSearch(devices, s);
    SearchContinues(devices, s);
    var next := SearchOnce(devices, s).1.romNo;
    SuccessorInFamily(devices, family, s.romNo, next, d);
    InFamilyIsNotZero(family, next);
    UpToSuccessor(members, s.romNo, next);
  }

  /** The first `n` calls return the `n` least devices of the family. */
  lemma {:induction false} FamilyPrefix(devices: set<Rom>, s: SearchState, family: seq<bool>, r: Rom, n: nat)
    requires Targets(s, family) && true in family
    requires IsLeast(Family(devices, family), r) && FullWalk(devices, ROM_BITS, s.romNo) == r
    requires 1 <= n <= |Family(devices, family)|
    ensures Found(devices, s, n - 1)
    ensures FamilyPosition(devices, family, After(devices, s, n), n)
    ensures Increasing(Addresses(devices, s, n))
    ensures Elements(Addresses(devices, s, n)) == UpTo(Family(devices, family), After(devices, s, n).romNo)
  {
    var members := Family(devices, family);
    if n == 1 {
      assert After(devices, s, 0) == s;
      FirstFamilyCall(devices, s, family, r);
      assert Addresses(devices, s, 0) == [];
    } else {
      FamilyPrefix(devices, s, family, r, n - 1);
      var before := After(devices, s, n - 1);
      NextFamilyCall(devices, before, family, n - 1);
      IncreasingAppend(members, Addresses(devices, s, n - 1), before.romNo, After(devices, s, n).romNo);
    }
  }

  lemma LeastIsUnique(devices: set<Rom>, a: Rom, b: Rom)
    requires IsLeast(devices, a) && IsLeast(devices, b)
    ensures a == b
  {
    if a != b {
      LessTransitive(a, b, a);
      LessIrreflexive(a);
    }
  }

  lemma {:induction false} LeastExists(devices: set<Rom>) returns (r: Rom)
    requires devices != {}
    ensures IsLeast(devices, r)
  {
    var any: Rom :| any in devices;
    r := FullWalk(devices, 0, any);
    FirstWalkIsLeast(devices, any);
  }

  lemma UpToAll(devices: set<Rom>, r: Rom)
    requires |UpTo(devices, r)| == |devices|
    ensures UpTo(devices, r) == devices
  {
    SubsetOfSameSize(UpTo(devices, r), devices);
  }

  lemma MissesLeast(devices: set<Rom>, s: SearchState, family: seq<bool>, r: Rom)
    requires Targets(s, family) && IsLeast(Family(devices, family), r)
    requires EnumeratesFamily(devices, s, family)
    ensures FullWalk(devices, ROM_BITS, s.romNo) == r
  {
    var n := |Family(devices, family)|;
    var roms := Addresses(devices, s, n);
    FirstIsInFamily(devices, s, family);
    assert n > 0 by {
      assert r in Family(devices, family);
    }
    AddressAt(devices, s, n, 0);
    assert After(devices, s, 0) == s;
    assert roms[0] == FullWalk(devices, ROM_BITS, s.romNo);
    assert r in Elements(roms);
    var j :| 0 <= j < n && roms[j] == r;
    if j > 0 {
      assert Less(roms[0], r) && Less(r, roms[0]);
      LessTransitive(r, roms[0], r);
      LessIrreflexive(r);
    }
  }

  /** After target_search(f), f != 0, the next searches return all devices of family f in order, if and only if
      the least of them has no twin.  (target_search leaves LastDiscrepancy at 64, and a fork at the last bit is
      answered with 1 then: the lesser one of the two is passed over.) */
  lemma FamilyEnumerationExactIff(devices: set<Rom>, s: SearchState, family: seq<bool>)
    requires Targets(s, family) && true in family && Family(devices, family) != {}
    ensures EnumeratesFamily(devices, s, family) <==> !TwinAtLeast(devices, family)
  {
    var members := Family(devices, family);
    var r := LeastExists(members);
    FirstIsLeastIff(devices, s, family, r);
    if TwinAtLeast(devices, family) {
      var q :| IsLeast(members, q) && HasTwin(devices, q);
      LeastIsUnique(members, r, q);
    }
    if EnumeratesFamily(devices, s, family) {
      MissesLeast(devices, s, family, r);
    }
    if !HasTwin(devices, r) {
      forall i | 0 <= i < |members| ensures Found(devices, s, i) {
        FamilyPrefix(devices, s, family, r, i + 1);
      }
      FamilyPrefix(devices, s, family, r, |members|);
      UpToAll(members, After(devices, s, |members|).romNo);
    }
  }

  /** It does happen: two devices of family 1 that differ in the last bit only. */
  lemma TwinIsPassedOver(s: SearchState)
    requires Targets(s, seq(FAMILY_BITS, i => i == 0))
    ensures var a: Rom, b: Rom := seq(ROM_BITS, i => i == 0), seq(ROM_BITS, i => i == 0 || i == LAST);
      !EnumeratesFamily({a, b}, s, seq(FAMILY_BITS, i => i == 0))
  {
    var family := seq(FAMILY_BITS, i => i == 0);
    var a: Rom, b: Rom := seq(ROM_BITS, i => i == 0), seq(ROM_BITS, i => i == 0 || i == LAST);
    assert family[0];
    assert a[..FAMILY_BITS] == family && b[..FAMILY_BITS] == family && a[..LAST] == b[..LAST];
    assert LessAt(a, b, LAST);
    assert a[LAST] != b[LAST];
    assert Less(a, b) && IsLeast(Family({a, b}, family), a);
    assert HasTwin({a, b}, a);
    FamilyEnumerationExactIff({a, b}, s, family);
  }
}
