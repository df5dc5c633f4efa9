/** Rebuilding the counters from storage after a restart. */
module DataLoggerBoot {
  import opened Arithmetic
  import opened Options
  import opened DataLogger

  /** Outcome of initialisation: the recovered counters, or an error code. */
  datatype Boot = BootFailed | Booted(current: int, earliest: int)

  predicate IsErased(wrap: byte) {
    wrap == 0x00 || wrap == 0xFF
  }

  /**
   * Binary search for the last physical block whose wrap count is `counter`.
   * `bad` holds the physical blocks whose read fails.
   */
  function SearchLast(f: Flash, bad: set<int>, counter: byte, low: int, high: int, res: int): (r: Option<int>)
    requires 0 <= low && high < |f|
    decreases high + 1 - low
  {
    if low > high then Some(res) else
      var mid := (low + high) / 2;
      if mid in bad then None
      else if WrapOf(f[mid]) == counter then SearchLast(f, bad, counter, mid + 1, high, mid)
      else SearchLast(f, bad, counter, low, mid - 1, res)
  }

  /** Forward scan over erased blocks, limited to `budget` reads. */
  function ScanOldest(f: Flash, bad: set<int>, res: nat, earliest: int, budget: nat): (r: Option<int>)
    requires res < |f|
    decreases budget
  {
    if budget == 0 || res in bad then None
    else if !IsErased(WrapOf(f[res])) then Some(earliest)
    else if res + 1 == |f| then Some(earliest + 1)
    else ScanOldest(f, bad, res + 1, earliest + 1, budget - 1)
  }

  function SearchCounters(g: Config, f: Flash, bad: set<int>, counter: byte): (r: Boot)
    requires UsableConfig(g) && ValidFlash(g, f)
  {
    match SearchLast(f, bad, counter, 0, g.physical - 1, 0)
    case None => BootFailed
    case Some(res) =>
      var current := (counter - 1) * g.physical + res + 1;
      if counter == 1 then Booted(current, 0) else
        var start := current - g.physical;
        match ScanOldest(f, bad, start % g.physical, start, 2 * g.unit)
        case None => BootFailed
        case Some(earliest) => Booted(current, earliest)
  }

  /** Counters that initialisation derives from the storage alone. */
  function BootCounters(g: Config, f: Flash, bad: set<int>): (r: Boot)
    requires UsableConfig(g) && ValidFlash(g, f)
  {
    var first, last := WrapOf(f[0]), WrapOf(f[g.physical - 1]);
    if 0 in bad || g.physical - 1 in bad then BootFailed
    else if first == last then
      if IsErased(first) then Booted(0, 0)
      else Booted(first * g.physical, first * g.physical - g.physical)
    else if IsErased(first) then
      Booted(last * g.physical, last * g.physical - g.physical + g.unit)
    else SearchCounters(g, f, bad, first)
  }

  // ----- What a reachable device looks like -----

  /** Block count `c` splits into `q` complete passes over the device and `r` further blocks. */
  ghost predicate Position(g: Config, c: nat, t: nat, q: nat, r: nat) {
    && ValidConfig(g)
    && c == q * g.physical + r && r < g.physical && c <= g.logical
    && t <= c <= t + g.physical
    && t <= q * g.physical
    && (q == 0 ==> t == 0)
    && (q > 0 ==> t + g.physical <= c + g.unit)
  }

  lemma PositionOf(g: Config, c: nat, ahead: bool, q: nat, r: nat)
    requires ValidConfig(g) && (ahead ==> NeedsErase(g, c)) && c <= g.logical
    requires c == q * g.physical + r && r < g.physical
    ensures Position(g, c, Oldest(g, c, ahead), q, r)
  {
    OldestBounds(g, c, ahead);
    OldestInPass(g, c, ahead, q, r);
  }

  /** The erased slots never reach past the physical end of the device. */
  lemma OldestInPass(g: Config, c: nat, ahead: bool, q: nat, r: nat)
    requires ValidConfig(g) && c == q * g.physical + r && r < g.physical
    ensures Oldest(g, c, ahead) <= q * g.physical
    ensures q == 0 ==> Oldest(g, c, ahead) == 0
    ensures q > 0 ==> Oldest(g, c, ahead) + g.physical <= c + g.unit
  {
    if q > 0 {
      MulMono(g.physical, 1, q);
    }
    var x := if ahead then c + 1 else c;
    MultipleOfMultiple(q + 1, g.physical, g.unit);
    assert (q + 1) * g.physical == q * g.physical + g.physical;
    RoundUpLeast(x, g.unit, (q + 1) * g.physical);
    RoundUpBounds(x, g.unit);
  }

  /** Below the logical limit the one-byte wrap count is exact and never looks erased. */
  lemma WrapExact(g: Config, b: nat, q: nat, j: nat)
    requires ValidConfig(g) && b < g.logical && b == q * g.physical + j && j < g.physical
    ensures WrapFor(g, b) == q + 1 && !IsErased(WrapFor(g, b)) && b % g.physical == j
  {
    if q >= 254 {
      MulMono(g.physical, 254, q);
      assert false;
    }
    DivModUnique(q, j, g.physical);
  }

  /**
   * What initialisation needs of the vacant slots: on a device that holds nothing, its first and
   * last slot look erased alike; during the first pass, none looks like a block of that pass; later,
   * the slot at the write position looks erased.
   */
  ghost predicate Clean(g: Config, f: Flash, c: nat, t: nat)
    requires 0 < g.physical == |f|
  {
    if c == 0 then WrapOf(f[0]) == WrapOf(f[g.physical - 1]) && IsErased(WrapOf(f[0]))
    else if c < g.physical then forall j :: c <= j < g.physical ==> WrapOf(f[j]) != 1
    else t + g.physical == c || IsErased(WrapOf(f[c % g.physical]))
  }

  /** Slots before the write position carry this wrap, then come vacant slots, then the previous wrap. */
  ghost predicate Layout(g: Config, f: Flash, q: nat, r: nat, gap: nat)
    requires |f| == g.physical
  {
    && r + gap <= |f|
    && (forall j :: 0 <= j < r ==> WrapOf(f[j]) == q + 1)
    && (forall j :: r <= j < r + gap ==> (r > 0 ==> WrapOf(f[j]) != q + 1) && (q > 0 ==> IsErased(WrapOf(f[j]))))
    && (forall j :: r + gap <= j < |f| ==> WrapOf(f[j]) == q)
    && (r > 0 ==> q + 1 < 255)
    && (r + gap < |f| ==> 0 < q < 255)
  }

  lemma LayoutOf(g: Config, f: Flash, hist: seq<Block>, t: nat, q: nat, r: nat)
    requires Position(g, |hist|, t, q, r) && |f| == g.physical
    requires Occupied(g, f, hist, t) && Clean(g, f, |hist|, t) && (q > 0 ==> Settled(g, f, |hist|, t))
    ensures Layout(g, f, q, r, t + g.physical - |hist|)
  {
    var gap := t + g.physical - |hist|;
    PassSlots(g, f, hist, t, q, r);
    VacantSlots(g, f, |hist|, t, q, r);
    if r > 0 { assert WrapOf(f[0]) == q + 1; }
    if r + gap < |f| { assert WrapOf(f[r + gap]) == q; }
  }

  /** The slots of this pass and of the previous one. */
  lemma PassSlots(g: Config, f: Flash, hist: seq<Block>, t: nat, q: nat, r: nat)
    requires Position(g, |hist|, t, q, r) && |f| == g.physical && Occupied(g, f, hist, t)
    ensures forall j :: 0 <= j < r ==> WrapOf(f[j]) == q + 1 < 255
    ensures forall j :: r + t + g.physical - |hist| <= j < |f| ==> WrapOf(f[j]) == q && 0 < q < 255
  {
    hide Occupied, WrapOf;
    var base := q * g.physical;
    forall j | 0 <= j < r ensures WrapOf(f[j]) == q + 1 < 255 {
      SlotWrap(g, f, hist, t, base + j, q, j);
    }
    forall j | r + t + g.physical - |hist| <= j < |f| ensures WrapOf(f[j]) == q && 0 < q < 255 {
      assert q > 0;
      assert (q - 1) * g.physical == base - g.physical;
      SlotWrap(g, f, hist, t, base - g.physical + j, q - 1, j);
    }
  }

  /** A stored block carries the wrap count of its pass. */
  lemma SlotWrap(g: Config, f: Flash, hist: seq<Block>, t: nat, b: nat, q: nat, j: nat)
    requires ValidConfig(g) && |f| == g.physical && |hist| <= g.logical && Occupied(g, f, hist, t)
    requires t <= b < |hist| && b == q * g.physical + j && j < g.physical
    ensures WrapOf(f[j]) == q + 1 < 255
  {
    WrapExact(g, b, q, j);
    assert f[b % g.physical] == hist[b];
  }

  /** The vacant slots of a clean device are not taken for blocks. */
  lemma VacantSlots(g: Config, f: Flash, c: nat, t: nat, q: nat, r: nat)
    requires Position(g, c, t, q, r) && |f| == g.physical
    requires Clean(g, f, c, t) && (q > 0 ==> Settled(g, f, c, t))
    ensures forall j :: r <= j < r + t + g.physical - c && j < |f| ==>
      (q == 0 && r > 0 ==> WrapOf(f[j]) != 1) && (q > 0 ==> IsErased(WrapOf(f[j])))
  {
    if q > 0 {
      MulMono(g.physical, 1, q);
      DivModUnique(q, r, g.physical);
      forall j | r < j < r + t + g.physical - c && j < |f| ensures WrapOf(f[j]) == g.eraseVal {
        DivModUnique(q, j, g.physical);
        assert WrapOf(f[(q * g.physical + j) % g.physical]) == g.eraseVal;
      }
    }
  }

  // ----- The search agrees with the history -----

  /** The search keeps the boundary between matching and other slots inside its range. */
  lemma {:induction false} SearchFinds(f: Flash, bad: set<int>, counter: byte, low: int, high: int, res: int, r: int)
    requires 0 <= low && high < |f| && low <= r <= high + 1 && r >= 1
    requires low > 0 ==> res == low - 1
    requires forall j :: 0 <= j < |f| ==> (WrapOf(f[j]) == counter <==> j < r)
    ensures var a := SearchLast(f, bad, counter, low, high, res);
      (bad == {} ==> a.Some?) && (a.Some? ==> a.value == r - 1)
    decreases high + 1 - low
  {
    if low <= high {
      var mid := (low + high) / 2;
      if mid !in bad {
        if mid < r {
          SearchFinds(f, bad, counter, mid + 1, high, mid, r);
        } else {
          SearchFinds(f, bad, counter, low, mid - 1, res, r);
        }
      }
    }
  }

  /** The scan steps over exactly the erased slots and ends within its limit. */
  lemma {:induction false} ScanFinds(f: Flash, bad: set<int>, res: nat, earliest: int, budget: nat, stop: nat)
    requires res <= stop <= |f| && res < |f|
    requires forall j :: res <= j < stop ==> IsErased(WrapOf(f[j]))
    requires stop < |f| ==> !IsErased(WrapOf(f[stop]))
    requires stop - res < budget || (stop == |f| && stop - res <= budget)
    ensures var a := ScanOldest(f, bad, res, earliest, budget);
      (bad == {} ==> a.Some?) && (a.Some? ==> a.value == earliest + (stop - res))
    decreases budget
  {
    if res < stop && res !in bad && res + 1 < |f| {
      ScanFinds(f, bad, res + 1, earliest + 1, budget - 1, stop);
    }
  }

  ghost predicate Recovers(r: Boot, bad: set<int>, c: nat, t: nat) {
    (bad == {} ==> r.Booted?) && (r.Booted? ==> r == Booted(c, t))
  }

  /**
   * Crash recovery: whatever was written, and wherever the last run stopped, initialisation
   * recovers the exact block count and the first block that is still stored. A storage read
   * error makes it fail rather than recover anything else.
   */
  lemma BootRecovers(g: Config, s: Log, h: Ghost, bad: set<int>)
    requires Inv(g, s, h) && Clean(g, s.flash, s.current, Oldest(g, s.current, h.ahead))
    ensures Recovers(BootCounters(g, s.flash, bad), bad, s.current, Oldest(g, s.current, h.ahead))
  {
    var q, r := DivMod(s.current, g.physical);
    PositionOf(g, s.current, h.ahead, q, r);
    if r == 0 {
      PassBoundary(g, s.current, h.ahead, q);
    }
    if q > 0 {
      MulMono(g.physical, 1, q);
    }
    BootRecoversAt(g, s.flash, h.hist, Oldest(g, s.current, h.ahead), bad, q, r);
  }

  /** At a multiple of the device size either nothing or one whole unit is erased. */
  lemma PassBoundary(g: Config, c: nat, ahead: bool, q: nat)
    requires ValidConfig(g) && (ahead ==> NeedsErase(g, c)) && c == q * g.physical
    ensures var t := Oldest(g, c, ahead); q == 0 || t + g.physical == c || t + g.physical == c + g.unit
  {
    MultipleOfMultiple(q, g.physical, g.unit);
    if q > 0 {
      MulMono(g.physical, 1, q);
    }
    OldestBounds(g, c, ahead);
  }

  lemma BootRecoversAt(g: Config, f: Flash, hist: seq<Block>, t: nat, bad: set<int>, q: nat, r: nat)
    requires Position(g, |hist|, t, q, r) && ValidFlash(g, f)
    requires Occupied(g, f, hist, t) && Clean(g, f, |hist|, t) && (q > 0 ==> Settled(g, f, |hist|, t))
    requires r == 0 ==> q == 0 || t + g.physical == |hist| || t + g.physical == |hist| + g.unit
    ensures Recovers(BootCounters(g, f, bad), bad, |hist|, t)
  {
    LayoutOf(g, f, hist, t, q, r);
    if r == 0 {
      WholePasses(g, f, bad, |hist|, t, q);
    } else {
      SearchRecovers(g, f, bad, |hist|, t, q, r);
    }
  }

  /** Block counts at a multiple of the device size need no search. */
  lemma WholePasses(g: Config, f: Flash, bad: set<int>, c: nat, t: nat, q: nat)
    requires Position(g, c, t, q, 0) && ValidFlash(g, f)
    requires Layout(g, f, q, 0, t + g.physical - c) && Clean(g, f, c, t)
    requires t + g.physical == c || t + g.physical == c + g.unit || q == 0
    ensures Recovers(BootCounters(g, f, bad), bad, c, t)
  {
    var gap := t + g.physical - c;
    if gap == 0 {
      assert WrapOf(f[0]) == q && WrapOf(f[g.physical - 1]) == q;
    } else if gap < g.physical {
      assert IsErased(WrapOf(f[0])) && WrapOf(f[g.physical - 1]) == q;
    }
  }

  lemma SearchRecovers(g: Config, f: Flash, bad: set<int>, c: nat, t: nat, q: nat, r: nat)
    requires Position(g, c, t, q, r) && ValidFlash(g, f) && r > 0
    requires Layout(g, f, q, r, t + g.physical - c)
    ensures Recovers(BootCounters(g, f, bad), bad, c, t)
  {
    hide SearchLast, ScanOldest;
    var gap, counter := t + g.physical - c, WrapOf(f[0]);
    assert counter == q + 1;
    forall j | 0 <= j < |f| ensures WrapOf(f[j]) == counter <==> j < r {
      if j >= r + gap { assert WrapOf(f[j]) == q; }
    }
    SearchFinds(f, bad, counter, 0, g.physical - 1, 0, r);
    assert (counter - 1) * g.physical == q * g.physical;
    if q > 0 {
      assert (c - g.physical) % g.physical == r by {
        assert (q - 1) * g.physical == q * g.physical - g.physical;
        DivModUnique(q - 1, r, g.physical);
      }
      ScanFinds(f, bad, r, c - g.physical, 2 * g.unit, r + gap);
    }
  }

  // ----- Torn writes -----

  /** The slot at the write position is vacant but carries the wrap count of its block. */
  ghost predicate LooksWritten(g: Config, s: Log, h: Ghost)
    requires Inv(g, s, h)
  {
    var t := Oldest(g, s.current, h.ahead);
    && s.current < t + g.physical && Settled(g, s.flash, s.current, t)
    && WrapOf(s.flash[s.current % g.physical]) == WrapFor(g, s.current)
  }

  /** What such a device is after a restart: its torn block has become part of the history. */
  ghost function WithTorn(g: Config, s: Log, h: Ghost): (Log, Ghost)
    requires Inv(g, s, h)
  {
    (Log(s.flash, s.current + 1, Oldest(g, s.current, h.ahead), 0),
     Ghost(h.hist + [s.flash[s.current % g.physical]], false, 0))
  }

  lemma WithTornInv(g: Config, s: Log, h: Ghost)
    requires Inv(g, s, h) && s.current < g.logical && LooksWritten(g, s, h)
    ensures var (n, k) := WithTorn(g, s, h); var t := Oldest(g, s.current, h.ahead);
      Inv(g, n, k) && Oldest(g, n.current, false) == t && Clean(g, n.flash, n.current, t)
  {
    var c, t := s.current, Oldest(g, s.current, h.ahead);
    OldestBounds(g, c, h.ahead);
    OldestStep(g, c, h.ahead);
    OldestBounds(g, c + 1, false);
    LaterClean(g, s.flash, c, t);
    hide Oldest, RoundUp, WrapFor;
    var n, k := WithTorn(g, s, h).0, WithTorn(g, s, h).1;
    assert Inv(g, n, k);
  }

  /** A slot at the write position that carries the wrap count of its block counts as written. */
  lemma TornAsWritten(g: Config, s: Log, h: Ghost)
    requires Inv(g, s, h) && s.current < g.logical && LooksWritten(g, s, h)
    ensures BootCounters(g, s.flash, {}) == Booted(s.current + 1, Oldest(g, s.current, h.ahead))
  {
    var (n, k) := WithTorn(g, s, h);
    hide Oldest, LooksWritten, Clean, BootCounters;
    WithTornInv(g, s, h);
    BootRecovers(g, n, k, {});
  }

  /** The logical limit plays no part in recovery. */
  lemma Roomier(g: Config, s: Log, h: Ghost)
    requires Inv(g, s, h) && s.current < 254 * g.physical && LooksWritten(g, s, h)
    ensures var k := g.(logical := s.current + 1);
      Inv(k, s, h) && LooksWritten(k, s, h) && Oldest(k, s.current, h.ahead) == Oldest(g, s.current, h.ahead)
    ensures BootCounters(g.(logical := s.current + 1), s.flash, {}) == BootCounters(g, s.flash, {})
  {
    hide SearchLast, ScanOldest, RoundUp;
  }

  /** With the slots behind it erased, the next write position is clean. */
  lemma LaterClean(g: Config, f: Flash, c: nat, t: nat)
    requires ValidConfig(g) && |f| == g.physical && Settled(g, f, c, t)
    requires c < t + g.physical && (c < g.physical ==> t == 0)
    ensures Clean(g, f, c + 1, t)
  {
    forall j | c + 1 <= j < g.physical && c + 1 < g.physical ensures WrapOf(f[j]) != 1 {
      DivModUnique(0, j, g.physical);
      assert WrapOf(f[j % g.physical]) == g.eraseVal;
    }
    if c + 1 > g.physical && c + 1 < t + g.physical {
      assert WrapOf(f[(c + 1) % g.physical]) == g.eraseVal;
    }
  }

  /** Any other programmed wrap byte at the write position, after the first pass, spoils the result. */
  lemma StrayWrap(g: Config, f: Flash, hist: seq<Block>, t: nat, q: nat, r: nat)
    requires Position(g, |hist|, t, q, r) && ValidFlash(g, f) && Occupied(g, f, hist, t) && Settled(g, f, |hist|, t)
    requires q > 0 && |hist| < t + g.physical && (r == 0 ==> t + g.physical == |hist| + g.unit)
    requires !IsErased(WrapOf(f[r])) && WrapOf(f[r]) != q + 1
    ensures BootCounters(g, f, {}) != Booted(|hist|, t)
  {
    var c, w := |hist|, WrapOf(f[r]);
    ErasedLayout(g, f, hist, t, q, r);
    StrayLayout(g, f, q, r, t + g.physical - c);
    hide Layout, SearchLast, ScanOldest, Settled, Occupied;
    if r > 0 {
      SearchFinds(f, {}, q + 1, 0, g.physical - 1, 0, r);
      ScanStops(f, r, c - g.physical, 2 * g.unit);
      assert (c - g.physical) % g.physical == r by {
        assert (q - 1) * g.physical == q * g.physical - g.physical;
        DivModUnique(q - 1, r, g.physical);
      }
    } else {
      StrayFirst(g, f, c, t, q);
    }
  }

  /** The same at the start of a pass. */
  lemma StrayFirst(g: Config, f: Flash, c: nat, t: nat, q: nat)
    requires ValidConfig(g) && ValidFlash(g, f) && c == q * g.physical && t + g.physical == c + g.unit
    requires !IsErased(WrapOf(f[0])) && WrapOf(f[g.physical - 1]) == q
    requires WrapOf(f[0]) != q ==> forall j :: 0 <= j < |f| ==> (WrapOf(f[j]) == WrapOf(f[0]) <==> j < 1)
    ensures BootCounters(g, f, {}) != Booted(c, t)
  {
    hide SearchLast, ScanOldest;
    var w := WrapOf(f[0]);
    if w != q {
      SearchFinds(f, {}, w, 0, g.physical - 1, 0, 1);
      NotMultiple(w - 1, q, g.physical);
    }
  }

  lemma ScanStops(f: Flash, res: nat, earliest: int, budget: nat)
    requires res < |f| && budget > 0 && !IsErased(WrapOf(f[res]))
    ensures ScanOldest(f, {}, res, earliest, budget) == Some(earliest)
  {
  }

  lemma NotMultiple(a: int, b: int, m: nat)
    requires m > 1
    ensures a * m + 1 != b * m
  {
    DivModUnique(a, 1, m);
    DivModUnique(b, 0, m);
  }

  /** Erasing a torn slot at the write position gives the layout of a reachable device. */
  lemma ErasedLayout(g: Config, f: Flash, hist: seq<Block>, t: nat, q: nat, r: nat)
    requires Position(g, |hist|, t, q, r) && |f| == g.physical && Occupied(g, f, hist, t) && Settled(g, f, |hist|, t)
    requires q > 0 && |hist| < t + g.physical
    ensures Layout(g, f[r := [g.eraseVal]], q, r, t + g.physical - |hist|)
  {
    hide Layout, WrapFor;
    var erased, c := f[r := [g.eraseVal]], |hist|;
    DivModUnique(q, r, g.physical);
    MulMono(g.physical, 1, q);
    forall b | t <= b < c ensures erased[b % g.physical] == hist[b] {
      OtherSlot(g, c, b);
    }
    forall b | c < b < t + g.physical ensures WrapOf(erased[b % g.physical]) == g.eraseVal {
      OtherSlot(g, b, c);
    }
    LayoutOf(g, erased, hist, t, q, r);
  }

  /** The slots of a device torn at its write position. */
  lemma StrayLayout(g: Config, f: Flash, q: nat, r: nat, gap: nat)
    requires ValidConfig(g) && |f| == g.physical && r < |f| && q > 0 && 0 < gap
    requires Layout(g, f[r := [g.eraseVal]], q, r, gap) && (r == 0 ==> gap == g.unit)
    requires !IsErased(WrapOf(f[r])) && WrapOf(f[r]) != q + 1
    ensures r > 0 ==> q < 255 && forall j :: 0 <= j < |f| ==> (WrapOf(f[j]) == q + 1 <==> j < r)
    ensures r > 0 ==> WrapOf(f[0]) == q + 1 < 255
    ensures r == 0 ==> WrapOf(f[|f| - 1]) == q
    ensures r == 0 && WrapOf(f[r]) != q ==> forall j :: 0 <= j < |f| ==> (WrapOf(f[j]) == WrapOf(f[0]) <==> j < 1)
  {
    var erased := f[r := [g.eraseVal]];
    forall j | 0 <= j < |f| && j != r
      ensures f[j] == erased[j] && (r > 0 ==> (WrapOf(f[j]) == q + 1 <==> j < r))
      ensures r == 0 ==> WrapOf(f[j]) == q || IsErased(WrapOf(f[j]))
    {
      if j >= r + gap { assert WrapOf(erased[j]) == q; }
    }
    if r > 0 { assert WrapOf(erased[0]) == q + 1; }
  }

  /**
   * Recovery is exact if and only if the device is clean, on every device whose other vacant slots
   * are erased.
   */
  lemma BootExact(g: Config, s: Log, h: Ghost)
    requires Inv(g, s, h) && Settled(g, s.flash, s.current, Oldest(g, s.current, h.ahead))
    ensures var t := Oldest(g, s.current, h.ahead);
      BootCounters(g, s.flash, {}) == Booted(s.current, t) <==> Clean(g, s.flash, s.current, t)
  {
    var c, t, f := s.current, Oldest(g, s.current, h.ahead), s.flash;
    hide BootCounters, Settled, Inv, Oldest;
    if Clean(g, f, c, t) {
      BootRecovers(g, s, h, {});
    } else {
      hide Clean;
      UncleanBoot(g, s, h);
    }
  }

  lemma UncleanBoot(g: Config, s: Log, h: Ghost)
    requires Inv(g, s, h) && Settled(g, s.flash, s.current, Oldest(g, s.current, h.ahead))
    requires !Clean(g, s.flash, s.current, Oldest(g, s.current, h.ahead))
    ensures BootCounters(g, s.flash, {}) != Booted(s.current, Oldest(g, s.current, h.ahead))
  {
    var c, f, t := s.current, s.flash, Oldest(g, s.current, h.ahead);
    OldestBounds(g, c, h.ahead);
    if c == 0 {
      BlankBoot(g, f);
    } else {
      UncleanSlot(g, f, c, t);
      hide BootCounters, Clean, Occupied, Settled, Oldest;
      var q, r := DivMod(c, g.physical);
      if WrapOf(f[r]) == q + 1 {
        PassBelow(g, c, q, r);
        Roomier(g, s, h);
        TornAsWritten(g.(logical := c + 1), s, h);
      } else {
        UncleanLater(g, s, h, q, r);
      }
    }
  }

  lemma PassBelow(g: Config, c: nat, q: nat, r: nat)
    requires c == q * g.physical + r && r < g.physical && q < 254
    ensures c < 254 * g.physical && WrapFor(g, c) == q + 1
  {
    MulMono(g.physical, q + 1, 254);
    DivModUnique(q, r, g.physical);
  }

  /** What spoils a device is its slot at the write position. */
  lemma UncleanSlot(g: Config, f: Flash, c: nat, t: nat)
    requires ValidConfig(g) && |f| == g.physical && 0 < c <= t + g.physical && (c < g.physical ==> t == 0)
    requires Settled(g, f, c, t) && !Clean(g, f, c, t)
    ensures c < t + g.physical && !IsErased(WrapOf(f[c % g.physical]))
    ensures c < g.physical ==> WrapOf(f[c % g.physical]) == WrapFor(g, c)
  {
    if c < g.physical {
      DivModUnique(0, c, g.physical);
      if WrapOf(f[c]) != 1 {
        FirstPassClean(g, f, c);
      }
    }
  }

  lemma UncleanLater(g: Config, s: Log, h: Ghost, q: nat, r: nat)
    requires Inv(g, s, h) && g.physical <= s.current == q * g.physical + r && r < g.physical
    requires s.current < Oldest(g, s.current, h.ahead) + g.physical
    requires !IsErased(WrapOf(s.flash[r])) && WrapOf(s.flash[r]) != q + 1
    ensures BootCounters(g, s.flash, {}) != Booted(s.current, Oldest(g, s.current, h.ahead))
  {
    hide BootCounters, Oldest, Settled, Occupied;
    StrayPosition(g, s.current, h.ahead, q, r);
    StrayWrap(g, s.flash, h.hist, Oldest(g, s.current, h.ahead), q, r);
  }

  lemma StrayPosition(g: Config, c: nat, ahead: bool, q: nat, r: nat)
    requires ValidConfig(g) && (ahead ==> NeedsErase(g, c)) && g.physical <= c <= g.logical
    requires c == q * g.physical + r && r < g.physical && c < Oldest(g, c, ahead) + g.physical
    ensures q > 0 && Position(g, c, Oldest(g, c, ahead), q, r)
    ensures r == 0 ==> Oldest(g, c, ahead) + g.physical == c + g.unit
  {
    PositionOf(g, c, ahead, q, r);
    if r == 0 {
      PassBoundary(g, c, ahead, q);
    }
  }

  /** During the first pass only a first wrap count is mistaken for a block. */
  lemma FirstPassClean(g: Config, f: Flash, c: nat)
    requires ValidConfig(g) && |f| == g.physical && Settled(g, f, c, 0) && 0 < c < g.physical && WrapOf(f[c]) != 1
    ensures Clean(g, f, c, 0)
  {
    forall j | c <= j < g.physical ensures WrapOf(f[j]) != 1 {
      DivModUnique(0, j, g.physical);
      if j > c {
        assert WrapOf(f[j % g.physical]) == g.eraseVal;
      }
    }
  }

  /** A device is taken for empty exactly when its first and last slot look erased alike. */
  lemma BlankBoot(g: Config, f: Flash)
    requires ValidConfig(g) && ValidFlash(g, f)
    ensures BootCounters(g, f, {}) == Booted(0, 0) <==> Clean(g, f, 0, 0)
  {
    hide SearchLast, ScanOldest;
    var first, last := WrapOf(f[0]), WrapOf(f[g.physical - 1]);
    if first == last && !IsErased(first) {
      MulMono(g.physical, 1, first);
    } else if first != last && !IsErased(first) {
      SearchInside(f, first, 0, g.physical - 1, 0);
      MulMono(g.physical, 0, first - 1);
    }
  }

  lemma {:induction false} SearchInside(f: Flash, counter: byte, low: int, high: int, res: int)
    requires 0 <= low && high < |f| && res >= 0
    ensures var a := SearchLast(f, {}, counter, low, high, res); a.Some? && a.value >= 0
    decreases high + 1 - low
  {
    if low <= high {
      var mid := (low + high) / 2;
      if WrapOf(f[mid]) == counter {
        SearchInside(f, counter, mid + 1, high, mid);
      } else {
        SearchInside(f, counter, low, mid - 1, res);
      }
    }
  }
}
