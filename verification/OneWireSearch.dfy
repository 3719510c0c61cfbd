/** The 1-Wire ROM search: specification of one call and of whole enumerations.

    A ROM is the sequence of its 64 bits in the order in which they travel on the bus (least
    significant bit of the family byte first).  The devices on the bus form a set of ROMs, that is, a
    binary trie; one search is a walk down this trie that answers every fork from the state the
    previous search left behind.
  */
module OneWireSearch {
  const ROM_BITS: nat := 64
  const FAMILY_BITS: nat := 8

  type Rom = r: seq<bool> | |r| == ROM_BITS witness seq(ROM_BITS, _ => false)

  // ---------- the bus trie ----------

  /** Some device on the bus has a ROM that starts with `p`. */
  ghost predicate Present(devices: set<Rom>, p: seq<bool>) {
    exists d :: d in devices && p <= d
  }

  /** After the bits `p`, devices with a 0 and devices with a 1 are still taking part. */
  ghost predicate Forks(devices: set<Rom>, p: seq<bool>) {
    Present(devices, p + [false]) && Present(devices, p + [true])
  }

  /** The bit that a search writes after the bits `p`. */
  ghost function Direction(devices: set<Rom>, lastDiscrepancy: nat, previous: Rom, p: seq<bool>): bool
    requires |p| < ROM_BITS
  {
    if Forks(devices, p) then
      (if |p| + 1 < lastDiscrepancy then previous[|p|] else |p| + 1 == lastDiscrepancy)
    else
      Present(devices, p + [true])
  }

  /** The first `k` bits that a search writes. */
  ghost function Walk(devices: set<Rom>, lastDiscrepancy: nat, previous: Rom, k: nat): (path: seq<bool>)
    requires k <= ROM_BITS
    ensures |path| == k
  {
    if k == 0 then [] else
      var p := Walk(devices, lastDiscrepancy, previous, k - 1);
      p + [Direction(devices, lastDiscrepancy, previous, p)]
  }

  /** All the bits that a search writes: the ROM that it ends at. */
  ghost function FullWalk(devices: set<Rom>, lastDiscrepancy: nat, previous: Rom): Rom {
    Walk(devices, lastDiscrepancy, previous, |previous|)
  }

  /** The 1-based position of the last fork at which `path` takes the 0, among its first `k` bits; 0 if
      there is none. */
  ghost function LastZero(devices: set<Rom>, path: seq<bool>, k: nat): (z: nat)
    requires k <= |path|
    ensures z <= k
  {
    if k == 0 then 0
    else if Forks(devices, path[..k - 1]) && !path[k - 1] then k
    else LastZero(devices, path, k - 1)
  }

  // ---------- one call ----------

  datatype SearchState = SearchState(
    romNo: Rom,
    lastDiscrepancy: nat,
    lastFamilyDiscrepancy: nat,
    lastDeviceFlag: bool)

  ghost predicate NoFamily(rom: Rom) {
    forall i | 0 <= i < FAMILY_BITS :: !rom[i]
  }

  /** The state that makes the next call a first search. */
  ghost predicate AtStart(s: SearchState) {
    s.lastDiscrepancy == 0 && !s.lastDeviceFlag
  }

  ghost function ResetCounters(s: SearchState): SearchState {
    SearchState(s.romNo, 0, 0, false)
  }

  /** The result and the new state of one call of search(). */
  ghost function SearchOnce(devices: set<Rom>, s: SearchState): (result: (bool, SearchState)) {
    if s.lastDeviceFlag || devices == {} then
      (false, ResetCounters(s))
    else
      var path: Rom := FullWalk(devices, s.lastDiscrepancy, s.romNo);
      if NoFamily(path) then
        (false, SearchState(path, 0, 0, false))
      else
        var z := LastZero(devices, path, |path|);
        var f := LastZero(devices, path, |path[..FAMILY_BITS]|);
        (true, SearchState(path, z, if f == 0 then s.lastFamilyDiscrepancy else f, z == 0))
  }

  // ---------- order ----------

  ghost predicate LessAt(a: Rom, b: Rom, i: nat) {
    i < ROM_BITS && a[..i] == b[..i] && !a[i] && b[i]
  }

  /** Lexicographic order, first transmitted bit most significant. */
  ghost predicate Less(a: Rom, b: Rom) {
    exists i: nat :: LessAt(a, b, i)
  }

  lemma PrefixAgrees(a: Rom, b: Rom, k: nat)
    requires k <= ROM_BITS && a[..k] == b[..k]
    ensures forall i | 0 <= i < k :: a[i] == b[i]
  {
    forall i | 0 <= i < k
      ensures a[i] == b[i]
    {
      assert a[..k][i] == b[..k][i];
    }
  }

  lemma LessIrreflexive(a: Rom)
    ensures !Less(a, a)
  {}

  lemma LessTransitive(a: Rom, b: Rom, c: Rom)
    requires Less(a, b) && Less(b, c)
    ensures Less(a, c)
  {
    var i: nat :| LessAt(a, b, i);
    var j: nat :| LessAt(b, c, j);
    var m := if i < j then i else j;
    assert a[..m] == a[..i][..m] == b[..i][..m] == b[..j][..m] == c[..j][..m] == c[..m];
    if i < j {
      assert b[i] == b[..j][i] == c[..j][i];
    } else if j < i {
      assert a[j] == a[..i][j] == b[..i][j];
    }
    assert LessAt(a, c, m);
  }

  lemma LessTotal(a: Rom, b: Rom)
    requires a != b
    ensures Less(a, b) || Less(b, a)
  {
    var i := FirstDifference(a, b);
    assert LessAt(a, b, i) || LessAt(b, a, i);
  }

  lemma FirstDifference(a: Rom, b: Rom) returns (i: nat)
    requires a != b
    ensures i < ROM_BITS && a[..i] == b[..i] && a[i] != b[i]
  {
    i := 0;
    while a[i] == b[i]
      invariant i < ROM_BITS && a[..i] == b[..i]
      decreases ROM_BITS - i
    {
      assert a[..i + 1] == a[..i] + [a[i]] == b[..i] + [b[i]] == b[..i + 1];
      i := i + 1;
    }
  }

  // ---------- walks stay in the trie ----------

  lemma PresentExtends(devices: set<Rom>, p: seq<bool>)
    requires Present(devices, p) && |p| < ROM_BITS
    ensures Present(devices, p + [false]) || Present(devices, p + [true])
  {
    var d :| d in devices && p <= d;
    var b := d[|p|];
    assert p + [b] <= d;
    assert b == false || b == true;
  }

  lemma PresentPrefix(devices: set<Rom>, d: Rom, k: nat)
    requires d in devices && k <= ROM_BITS
    ensures Present(devices, d[..k])
  {
    assert d[..k] <= d;
  }

  lemma WalkPrefix(devices: set<Rom>, ld: nat, previous: Rom, j: nat, k: nat)
    requires j <= k <= ROM_BITS
    ensures Walk(devices, ld, previous, k)[..j] == Walk(devices, ld, previous, j)
    decreases k - j
  {
    if j < k {
      WalkPrefix(devices, ld, previous, j, k - 1);
      assert Walk(devices, ld, previous, k)[..j] == Walk(devices, ld, previous, k - 1)[..j];
    }
  }

  lemma {:induction false} WalkPresent(devices: set<Rom>, ld: nat, previous: Rom, k: nat)
    requires devices != {} && k <= ROM_BITS
    ensures Present(devices, Walk(devices, ld, previous, k))
  {
    if k == 0 {
      var d :| d in devices;
      assert [] <= d;
    } else {
      WalkPresent(devices, ld, previous, k - 1);
      PresentExtends(devices, Walk(devices, ld, previous, k - 1));
    }
  }

  /** A complete walk ends at a device. */
  lemma WalkReachesDevice(devices: set<Rom>, ld: nat, previous: Rom)
    requires devices != {}
    ensures FullWalk(devices, ld, previous) in devices
  {
    WalkPresent(devices, ld, previous, ROM_BITS);
    var path := FullWalk(devices, ld, previous);
    var d :| d in devices && path <= d;
    assert d == path;
  }

  /** The path and the direction taken at each of its positions. */
  lemma WalkStep(devices: set<Rom>, ld: nat, previous: Rom, i: nat)
    requires i < ROM_BITS
    ensures var path := FullWalk(devices, ld, previous);
      path[i] == Direction(devices, ld, previous, path[..i])
  {
    WalkPrefix(devices, ld, previous, i, ROM_BITS);
    WalkPrefix(devices, ld, previous, i + 1, ROM_BITS);
    var path := FullWalk(devices, ld, previous);
    assert path[i] == path[..i + 1][i];
  }

  /** LastZero, as a maximum. */
  lemma LastZeroIsLast(devices: set<Rom>, path: seq<bool>, k: nat)
    requires k <= |path|
    ensures var z := LastZero(devices, path, k);
      && (z > 0 ==> Forks(devices, path[..z - 1]) && !path[z - 1])
      && (forall i | 0 <= i < k && Forks(devices, path[..i]) && !path[i] :: i < z)
  {}

  /** A device that lies above `r` first differs from it no later than at LastZero. */
  lemma FirstDifferenceAtFork(devices: set<Rom>, r: Rom, d: Rom, i: nat)
    requires r in devices && d in devices && LessAt(r, d, i)
    ensures Forks(devices, r[..i]) && i < LastZero(devices, r, |r|)
  {
    assert r[..i + 1] == r[..i] + [false];
    assert d[..i + 1] == r[..i] + [true];
    PresentPrefix(devices, r, i + 1);
    PresentPrefix(devices, d, i + 1);
    LastZeroIsLast(devices, r, ROM_BITS);
  }

  /** LastZero is 0 exactly at the greatest device. */
  lemma LastZeroIffGreatest(devices: set<Rom>, r: Rom)
    requires r in devices
    ensures LastZero(devices, r, |r|) == 0 <==> forall d | d in devices :: !Less(r, d)
  {
    var z := LastZero(devices, r, |r|);
    LastZeroIsLast(devices, r, ROM_BITS);
    if z == 0 {
      forall d | d in devices
        ensures !Less(r, d)
      {
        if Less(r, d) {
          var i: nat :| LessAt(r, d, i);
          FirstDifferenceAtFork(devices, r, d, i);
        }
      }
    } else {
      var d :| d in devices && r[..z - 1] + [true] <= d;
      assert d[z - 1] == (r[..z - 1] + [true])[z - 1];
      assert d[..z - 1] == (r[..z - 1] + [true])[..z - 1] == r[..z - 1];
      assert LessAt(r, d, z - 1);
      assert Less(r, d);
    }
  }

  // ---------- a first search finds the least device, a next search the successor ----------

  /** Where the walk answers all later forks with 0, it stays at or below every device that shares the
      bits before. */
  lemma WalkMinimalBeyond(devices: set<Rom>, ld: nat, previous: Rom, d: Rom, i: nat)
    requires d in devices && i < ROM_BITS
    requires ld <= i
    requires var path := FullWalk(devices, ld, previous);
      path[..i] == d[..i] && path[i] != d[i]
    ensures LessAt(FullWalk(devices, ld, previous), d, i)
  {
    var path: Rom := FullWalk(devices, ld, previous);
    WalkStep(devices, ld, previous, i);
    assert d[..i + 1] == path[..i] + [d[i]];
    PresentPrefix(devices, d, i + 1);
    assert !path[i];
  }

  ghost predicate IsLeast(devices: set<Rom>, r: Rom) {
    r in devices && forall d | d in devices && d != r :: Less(r, d)
  }

  /** `n` is the least device above `r`. */
  ghost predicate IsSuccessor(devices: set<Rom>, r: Rom, n: Rom) {
    && n in devices && Less(r, n)
    && forall d | d in devices && Less(r, d) && d != n :: Less(n, d)
  }

  lemma FirstWalkIsLeast(devices: set<Rom>, previous: Rom)
    requires devices != {}
    ensures IsLeast(devices, FullWalk(devices, 0, previous))
  {
    WalkReachesDevice(devices, 0, previous);
    var path: Rom := FullWalk(devices, 0, previous);
    forall d | d in devices && d != path
      ensures Less(path, d)
    {
      var i := FirstDifference(path, d);
      WalkMinimalBeyond(devices, 0, previous, d, i);
    }
  }

  lemma ResumedDirection(devices: set<Rom>, r: Rom, z: nat, i: nat)
    requires i + 1 < z <= ROM_BITS
    requires Present(devices, r[..i] + [r[i]])
    ensures Direction(devices, z, r, r[..i]) == r[i]
  {
    var p := r[..i];
    assert r[i] == true || r[i] == false;
  }

  /** A walk resumed at the last discrepancy follows the previous ROM up to it and turns there. */
  lemma {:induction false} ResumedWalkPrefix(devices: set<Rom>, r: Rom, z: nat, k: nat)
    requires r in devices
    requires z == LastZero(devices, r, |r|) > 0
    requires k < z
    ensures Walk(devices, z, r, k) == r[..k]
  {
    if k > 0 {
      ResumedWalkPrefix(devices, r, z, k - 1);
      assert r[..k] == r[..k - 1] + [r[k - 1]];
      PresentPrefix(devices, r, k);
      ResumedDirection(devices, r, z, k - 1);
    }
  }

  lemma ResumedWalkTurns(devices: set<Rom>, r: Rom, z: nat)
    requires r in devices
    requires z == LastZero(devices, r, |r|) > 0
    ensures Walk(devices, z, r, z) == r[..z - 1] + [true]
    ensures LessAt(r, FullWalk(devices, z, r), z - 1)
  {
    ResumedWalkPrefix(devices, r, z, z - 1);
    LastZeroIsLast(devices, r, ROM_BITS);
    WalkPrefix(devices, z, r, z - 1, ROM_BITS);
    WalkStep(devices, z, r, z - 1);
  }

  lemma ResumedWalkBelow(devices: set<Rom>, r: Rom, z: nat, d: Rom)
    requires r in devices && d in devices
    requires z == LastZero(devices, r, |r|) > 0
    requires d[..z] == r[..z - 1] + [true] && d != FullWalk(devices, z, r)
    ensures Less(FullWalk(devices, z, r), d)
  {
    var path: Rom := FullWalk(devices, z, r);
    ResumedWalkTurns(devices, r, z);
    WalkPrefix(devices, z, r, z, |r|);
    PrefixAgrees(path, d, z);
    var j := FirstDifference(path, d);
    WalkMinimalBeyond(devices, z, r, d, j);
  }

  lemma ResumedWalkBelowAll(devices: set<Rom>, r: Rom, z: nat, d: Rom)
    requires r in devices && d in devices && Less(r, d)
    requires z == LastZero(devices, r, |r|) > 0
    requires d != FullWalk(devices, z, r)
    ensures Less(FullWalk(devices, z, r), d)
  {
    var i: nat :| LessAt(r, d, i);
    FirstDifferenceAtFork(devices, r, d, i);
    if i == z - 1 {
      assert d[..z] == r[..z - 1] + [true];
      ResumedWalkBelow(devices, r, z, d);
    } else {
      var path: Rom := FullWalk(devices, z, r);
      ResumedWalkTurns(devices, r, z);
      PrefixAgrees(r, path, z - 1);
      assert path[..i] == r[..i];
      assert LessAt(path, d, i);
    }
  }

  lemma ResumedWalkIsSuccessor(devices: set<Rom>, r: Rom, z: nat)
    requires r in devices
    requires z == LastZero(devices, r, |r|) > 0
    ensures IsSuccessor(devices, r, FullWalk(devices, z, r))
  {
    WalkReachesDevice(devices, z, r);
    ResumedWalkTurns(devices, r, z);
    assert Less(r, FullWalk(devices, z, r));
    forall d | d in devices && Less(r, d) && d != FullWalk(devices, z, r)
      ensures Less(FullWalk(devices, z, r), d)
    {
      ResumedWalkBelowAll(devices, r, z, d);
    }
  }

  /** The state after a search that found `s.romNo`, whichever search that was. */
  ghost predicate Resumable(devices: set<Rom>, s: SearchState) {
    && s.romNo in devices
    && s.lastDiscrepancy == LastZero(devices, s.romNo, |s.romNo|)
    && (s.lastDeviceFlag <==> s.lastDiscrepancy == 0)
  }

  /** Every successful search, from any state at all, returns a device and leaves a state from which the
      next search returns its successor; after the greatest device the next search fails and the one
      after it starts again. */
  lemma SearchContinues(devices: set<Rom>, s: SearchState)
    ensures var (found, s') := SearchOnce(devices, s);
      && (found ==> s'.romNo in devices && Resumable(devices, s'))
      && (!found ==> AtStart(s'))
  {
    if !s.lastDeviceFlag && devices != {} {
      WalkReachesDevice(devices, s.lastDiscrepancy, s.romNo);
    }
  }

  lemma NextSearch(devices: set<Rom>, s: SearchState)
    requires Resumable(devices, s)
    ensures var (found, s') := SearchOnce(devices, s);
      if forall d | d in devices :: !Less(s.romNo, d) then
        !found && AtStart(s')
      else
        IsSuccessor(devices, s.romNo, s'.romNo) && (found <==> !NoFamily(s'.romNo))
  {
    LastZeroIffGreatest(devices, s.romNo);
    if s.lastDiscrepancy > 0 {
      ResumedWalkIsSuccessor(devices, s.romNo, s.lastDiscrepancy);
    }
  }

  // ---------- whole enumerations ----------

  /** The state after `n` calls. */
  ghost function After(devices: set<Rom>, s: SearchState, n: nat): SearchState {
    if n == 0 then s else SearchOnce(devices, After(devices, s, n - 1)).1
  }

  /** Call number `n` (counting from 0) returns TRUE. */
  ghost predicate Found(devices: set<Rom>, s: SearchState, n: nat) {
    SearchOnce(devices, After(devices, s, n)).0
  }

  /** The addresses that the first `n` calls return, in the order of the calls. */
  ghost function Addresses(devices: set<Rom>, s: SearchState, n: nat): (roms: seq<Rom>)
    ensures |roms| == n
  {
    if n == 0 then [] else Addresses(devices, s, n - 1) + [After(devices, s, n).romNo]
  }

  ghost predicate Increasing(roms: seq<Rom>) {
    forall i, j | 0 <= i < j < |roms| :: Less(roms[i], roms[j])
  }

  ghost function Elements(roms: seq<Rom>): set<Rom> {
    set r | r in roms
  }

  ghost function UpTo(devices: set<Rom>, r: Rom): set<Rom> {
    set d | d in devices && !Less(r, d)
  }

  ghost predicate NoZeroFamily(devices: set<Rom>) {
    forall d | d in devices :: !NoFamily(d)
  }

  /** `s` is the state after the `n` least devices were found. */
  ghost predicate Position(devices: set<Rom>, s: SearchState, n: nat) {
    Resumable(devices, s) && |UpTo(devices, s.romNo)| == n
  }

  lemma UpToLeast(devices: set<Rom>, r: Rom)
    requires IsLeast(devices, r)
    ensures UpTo(devices, r) == {r}
  {
    LessIrreflexive(r);
    assert r in UpTo(devices, r);
  }

  lemma UpToSuccessor(devices: set<Rom>, r: Rom, n: Rom)
    requires r in devices && IsSuccessor(devices, r, n)
    ensures UpTo(devices, n) == UpTo(devices, r) + {n} && n !in UpTo(devices, r)
  {
    LessIrreflexive(n);
    forall d | d in devices
      ensures d in UpTo(devices, n) <==> d in UpTo(devices, r) + {n}
    {
      if Less(n, d) {
        LessTransitive(r, n, d);
      }
    }
  }

  lemma FirstCall(devices: set<Rom>, s: SearchState)
    requires devices != {} && NoZeroFamily(devices) && AtStart(s)
    ensures var (found, s') := SearchOnce(devices, s);
      found && Position(devices, s', 1) && UpTo(devices, s'.romNo) == {s'.romNo}
  {
    FirstWalkIsLeast(devices, s.romNo);
    UpToLeast(devices, FullWalk(devices, 0, s.romNo));
    SearchContinues(devices, s);
  }

  lemma NextCall(devices: set<Rom>, s: SearchState)
    requires NoZeroFamily(devices) && |UpTo(devices, s.romNo)| < |devices|
    requires Position(devices, s, |UpTo(devices, s.romNo)|)
    ensures var (found, s') := SearchOnce(devices, s);
      && found && Position(devices, s', |UpTo(devices, s.romNo)| + 1)
      && Less(s.romNo, s'.romNo)
      && UpTo(devices, s'.romNo) == UpTo(devices, s.romNo) + {s'.romNo}
  {
    SomeAbove(devices, s.romNo);
    NextSearch(devices, s);
    SearchContinues(devices, s);
    UpToSuccessor(devices, s.romNo, SearchOnce(devices, s).1.romNo);
  }

  lemma SomeAbove(devices: set<Rom>, r: Rom)
    requires |UpTo(devices, r)| < |devices|
    ensures exists d :: d in devices && Less(r, d)
  {
    assert |devices - UpTo(devices, r)| == |devices| - |UpTo(devices, r)|;
    var d :| d in devices - UpTo(devices, r);
  }

  lemma IncreasingAppend(devices: set<Rom>, roms: seq<Rom>, r: Rom, n: Rom)
    requires Increasing(roms) && Elements(roms) == UpTo(devices, r) && Less(r, n)
    ensures Increasing(roms + [n]) && Elements(roms + [n]) == UpTo(devices, r) + {n}
  {
    forall d | d in roms
      ensures Less(d, n)
    {
      assert d in Elements(roms);
      if d != r {
        LessTotal(d, r);
        LessTransitive(d, r, n);
      }
    }
  }

  /** What the first `n` calls do: they all succeed and return the `n` least devices in order. */
  lemma {:induction false} EnumerationPrefix(devices: set<Rom>, s: SearchState, n: nat)
    requires devices != {} && NoZeroFamily(devices) && AtStart(s)
    requires 1 <= n <= |devices|
    ensures Found(devices, s, n - 1)
    ensures Position(devices, After(devices, s, n), n)
    ensures Increasing(Addresses(devices, s, n))
    ensures Elements(Addresses(devices, s, n)) == UpTo(devices, After(devices, s, n).romNo)
  {
    if n == 1 {
      assert After(devices, s, 0) == s;
      FirstCall(devices, s);
      assert Addresses(devices, s, 0) == [];
    } else {
      EnumerationPrefix(devices, s, n - 1);
      var before := After(devices, s, n - 1);
      NextCall(devices, before);
      IncreasingAppend(devices, Addresses(devices, s, n - 1), before.romNo, After(devices, s, n).romNo);
    }
  }

  /** A whole enumeration is exact: |D| successful calls, every device once and in order, then one failing
      call that leaves the search at its start. */
  ghost predicate EnumeratesExactly(devices: set<Rom>, s: SearchState) {
    && (forall i | 0 <= i < |devices| :: Found(devices, s, i))
    && Increasing(Addresses(devices, s, |devices|))
    && Elements(Addresses(devices, s, |devices|)) == devices
    && !Found(devices, s, |devices|)
    && AtStart(After(devices, s, |devices| + 1))
  }

  lemma {:induction false} AddressAt(devices: set<Rom>, s: SearchState, n: nat, i: nat)
    requires i < n
    ensures Addresses(devices, s, n)[i] == After(devices, s, i + 1).romNo
  {
    if i < n - 1 {
      AddressAt(devices, s, n - 1, i);
    }
  }

  /** The central law of the search, with its exact condition: an enumeration is exact if and only if no
      device has a zero family byte (such a ROM is reported as "not found"). */
  lemma EnumerationExactIff(devices: set<Rom>, s: SearchState)
    requires devices != {} && AtStart(s)
    ensures EnumeratesExactly(devices, s) <==> NoZeroFamily(devices)
  {
    var n := |devices|;
    if NoZeroFamily(devices) {
      EnumerationPrefix(devices, s, n);
      forall i | 0 <= i < n
        ensures Found(devices, s, i)
      {
        EnumerationPrefix(devices, s, i + 1);
      }
      var last := After(devices, s, n);
      SubsetOfSameSize(UpTo(devices, last.romNo), devices);
      NextSearch(devices, last);
    }
    if EnumeratesExactly(devices, s) {
      forall d | d in devices
        ensures !NoFamily(d)
      {
        assert d in Elements(Addresses(devices, s, n));
        var i :| 0 <= i < n && d == Addresses(devices, s, n)[i];
        AddressAt(devices, s, n, i);
        assert Found(devices, s, i);
      }
    }
  }

  lemma SubsetOfSameSize<T>(a: set<T>, b: set<T>)
    requires a <= b && |a| == |b|
    ensures a == b
  {
    assert |b - a| == |b| - |a|;
    assert b == a + (b - a);
  }

  /** A concrete bus on which the enumeration is not exact: one device with a zero family byte. */
  lemma ZeroFamilyIsNotFound()
    ensures var rom: Rom := seq(ROM_BITS, i => i == 63);
      !EnumeratesExactly({rom}, SearchState(rom, 0, 0, false))
  {
    var rom: Rom := seq(ROM_BITS, i => i == 63);
    assert rom in {rom} && NoFamily(rom);
    EnumerationExactIff({rom}, SearchState(rom, 0, 0, false));
  }

  // ---------- searching for a family ----------

  /** The state that target_search(f) sets up: the family bits, then zeros. */
  ghost predicate Targets(s: SearchState, family: seq<bool>) {
    && |family| == FAMILY_BITS
    && s.romNo[..FAMILY_BITS] == family
    && (forall i | FAMILY_BITS <= i < ROM_BITS :: !s.romNo[i])
    && s.lastDiscrepancy == ROM_BITS
    && !s.lastDeviceFlag
  }

  lemma {:induction false} TargetedWalk(devices: set<Rom>, previous: Rom, k: nat)
    requires k <= FAMILY_BITS
    requires Present(devices, previous[..FAMILY_BITS])
    ensures Walk(devices, ROM_BITS, previous, k) == previous[..k]
  {
    if k > 0 {
      TargetedWalk(devices, previous, k - 1);
      var d :| d in devices && previous[..FAMILY_BITS] <= d;
      assert d[..k] == previous[..FAMILY_BITS][..k] == previous[..k];
      PresentPrefix(devices, d, k);
      assert previous[..k] == previous[..k - 1] + [previous[k - 1]];
    }
  }

  /** After target_search(f), f != 0, the next search returns a device of family f exactly if there is one,
      and from there the enumeration goes on upwards. */
  lemma TargetSearchFindsFamily(devices: set<Rom>, s: SearchState, family: seq<bool>)
    requires Targets(s, family) && true in family
    ensures var (found, s') := SearchOnce(devices, s);
      && (found && s'.romNo[..FAMILY_BITS] == family <==> exists d :: d in devices && d[..FAMILY_BITS] == family)
      && (found ==> Resumable(devices, s'))
  {
    SearchContinues(devices, s);
    var (found, s') := SearchOnce(devices, s);
    if exists d :: d in devices && d[..FAMILY_BITS] == family {
      var d :| d in devices && d[..FAMILY_BITS] == family;
      assert family <= d;
      TargetedWalk(devices, s.romNo, FAMILY_BITS);
      WalkPrefix(devices, ROM_BITS, s.romNo, FAMILY_BITS, ROM_BITS);
      assert s'.romNo[..FAMILY_BITS] == family;
      var i :| 0 <= i < FAMILY_BITS && family[i];
      assert s'.romNo[i] == s'.romNo[..FAMILY_BITS][i];
    }
  }
}
