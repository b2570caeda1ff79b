/** When the requests of the block interface reach the secure window: the exact condition for every kind of request, on
    block-addressed and on byte-addressed cards (sunxi_mmc_interface.c, mmc_write.c). */
module Window {
  import opened Words
  import opened Card
  import opened Transfer
  import opened SecureStore
  import opened Purging

  /** The end of the part of the window that the device has. */
  function Top(cfg: Config): nat {
    Min(WINDOW_END, cfg.lba)
  }

  /** The blocks from `lo` to `hi` include one of the window. */
  predicate Hit(cfg: Config, lo: int, hi: int) {
    lo < hi && WINDOW_START < Top(cfg) && lo < Top(cfg) && WINDOW_START < hi
  }

  lemma HitMeaning(cfg: Config, lo: nat, hi: nat)
    ensures Hit(cfg, lo, hi) <==> exists b: nat :: lo <= b < hi && InWindow(b) && b < cfg.lba
  {
    if Hit(cfg, lo, hi) {
      var b := if lo < WINDOW_START then WINDOW_START else lo;
      assert lo <= b < hi && InWindow(b) && b < cfg.lba;
    }
  }

  /** A purge with these arguments alters a block of the window. */
  predicate AimHits(cfg: Config, aim: Option<Aim>)
    requires cfg.eraseGroup > 0
  {
    aim.Some? &&
    var e := Extent(cfg.eraseGroup, aim.value);
    Hit(cfg, e.start, e.start + e.count)
  }

  lemma AimHitsMeaning(cfg: Config, aim: Option<Aim>)
    requires cfg.eraseGroup > 0
    ensures AimHits(cfg, aim) <==> exists b: nat :: InWindow(b) && b < cfg.lba && Reaches(cfg.eraseGroup, aim, b)
  {
    if aim.Some? {
      var e := Extent(cfg.eraseGroup, aim.value);
      HitMeaning(cfg, e.start, e.start + e.count);
      if AimHits(cfg, aim) {
        var b: nat :| e.start <= b < e.start + e.count && InWindow(b) && b < cfg.lba;
        assert Reaches(cfg.eraseGroup, aim, b);
      }
    }
  }

  /** A write alters a block of the window. */
  predicate WriteHits(cfg: Config, start: nat, n: nat)
    requires cfg.Valid()
  {
    || Hit(cfg, start, PlainEnd(cfg, start, n))
    || (Crosses(cfg, start, n) &&
        var x := Cross(cfg, start, n);
        || Hit(cfg, Wire(cfg, x.at), Wire(cfg, x.at) + x.count)
        || Hit(cfg, x.next, PlainEnd(cfg, x.next, x.left)))
  }

  lemma WriteHitsMeaning(cfg: Config, start: nat, n: nat)
    requires cfg.Valid()
    ensures WriteHits(cfg, start, n) <==> exists b: nat :: InWindow(b) && b < cfg.lba && Touches(cfg, start, n, b)
  {
    HitMeaning(cfg, start, PlainEnd(cfg, start, n));
    if Crosses(cfg, start, n) {
      var x := Cross(cfg, start, n);
      HitMeaning(cfg, Wire(cfg, x.at), Wire(cfg, x.at) + x.count);
      HitMeaning(cfg, x.next, PlainEnd(cfg, x.next, x.left));
    }
  }

  /** A request the check lets through. */
  predicate Passes(start: nat, n: nat) {
    start < TWO32 && 0 < n < TWO32 && !CheckSecureArea(start, n)
  }

  /** Nothing inside a request that passes and ends within 2^32 is in the window. */
  lemma PassedOff(cfg: Config, start: nat, n: nat, lo: nat, hi: nat)
    requires Passes(start, n) && start + n <= TWO32 && start <= lo && hi <= start + n
    ensures !Hit(cfg, lo, hi)
  {
    CheckExact(start, n);
  }

  lemma PlainInside(cfg: Config, start: nat, n: nat)
    requires cfg.Valid()
    ensures start <= PlainEnd(cfg, start, n) <= start + n
  {
  }

  /** Writes that pass the check: a request that ends below 2^32 never reaches the window, on a block-addressed card
      neither does one that ends at 2^32 or wraps clear of the window, and on a byte-addressed card one that ends at
      2^32 does exactly when it is sent as one command that starts, cut to the 2^23 blocks the argument can name,
      below the end of the window. */
  lemma WriteWindow(cfg: Config, start: nat, n: nat)
    requires cfg.Valid() && Passes(start, n)
    ensures start + n < TWO32 || (cfg.highCapacity && OffWindowWrap(start, n)) ==> !WriteHits(cfg, start, n)
    ensures !cfg.highCapacity && start + n == TWO32 ==>
              (WriteHits(cfg, start, n) <==>
               n <= cfg.bMax && WINDOW_START < Top(cfg) && cfg.Space() <= start && Cut(cfg, start) < Top(cfg))
  {
    PlainInside(cfg, start, n);
    if start + n <= TWO32 {
      PassedOff(cfg, start, n, start, PlainEnd(cfg, start, n));
    }
    if Crosses(cfg, start, n) {
      var x := Cross(cfg, start, n);
      PlainInside(cfg, x.next, x.left);
      if cfg.highCapacity {
        if start + n == TWO32 {
          PassedOff(cfg, start, n, x.at, x.at + x.count);
        }
      } else if start + n == TWO32 {
        LastChunk(cfg, start, n);
      }
    } else if start + n == TWO32 && n <= cfg.bMax {
      WholeStep(cfg, start);
    }
  }

  /** The card with another transfer limit and size. */
  function Sized(cfg: Config, bMax: nat, lba: nat): Config {
    cfg.(bMax := bMax, lba := lba)
  }

  /** A write that passes the check is safe on block-addressed cards of every size and transfer limit if and only if it
      does not wrap or wraps clear of the window. */
  lemma WriteSafeEverywhere(cfg: Config, start: nat, n: nat)
    requires cfg.Valid() && cfg.highCapacity && Passes(start, n)
    ensures (forall bMax: nat, lba: nat ::
               Sized(cfg, bMax, lba).Valid() ==> !WriteHits(Sized(cfg, bMax, lba), start, n)) <==>
            OffWindowWrap(start, n)
  {
    if OffWindowWrap(start, n) {
      forall bMax: nat, lba: nat | Sized(cfg, bMax, lba).Valid()
        ensures !WriteHits(Sized(cfg, bMax, lba), start, n)
      {
        WriteWindow(Sized(cfg, bMax, lba), start, n);
      }
    } else {
      var bMax := if start < WINDOW_END then n else TWO32 - start;
      WrapUnsafe(Sized(cfg, bMax, TWO32 - 1), start, n);
    }
  }

  /** In one command from in front of the window end, or with a command that ends at 2^32 exactly. */
  lemma WrapUnsafe(c: Config, start: nat, n: nat)
    requires c.Valid() && c.highCapacity && c.lba == TWO32 - 1 && start < TWO32 && n < TWO32 < start + n
    requires if start < WINDOW_END then c.bMax == n
             else c.bMax == TWO32 - start && TWO32 + WINDOW_START < start + n
    ensures WriteHits(c, start, n)
  {
    WholeStep(c, start);
    var x := Cross(c, start, n);
    assert x.at == start && x.count == c.bMax && x.next == start + c.bMax - TWO32 && x.left == n - c.bMax;
    if start < WINDOW_END {
      assert Hit(c, Wire(c, x.at), Wire(c, x.at) + x.count);
    } else {
      assert PlainEnd(c, x.next, x.left) == x.left;
    }
  }

  /** On a byte-addressed card only a single command can end at 2^32. */
  lemma LastChunk(cfg: Config, start: nat, n: nat)
    requires cfg.Valid() && !cfg.highCapacity && Passes(start, n) && start + n == TWO32 && Crosses(cfg, start, n)
    ensures n <= cfg.bMax && Cross(cfg, start, n) == Crossing(start, n, 0, 0)
    ensures Wire(cfg, start) == Cut(cfg, start)
    ensures start < cfg.Space() ==> !(WINDOW_START < Top(cfg) && start < Top(cfg))
    ensures cfg.Space() <= Cut(cfg, start) + n
  {
    WholeStep(cfg, start);
    CheckExact(start, n);
    WireCut(cfg, start);
    CutComplement(start);
  }

  const BYTE_SPACE: nat := 0x80_0000

  /** The block number that is left of `a` in a command argument. */
  function Cut(cfg: Config, a: nat): (r: nat)
    ensures r < cfg.Space() && r <= a
    ensures a < cfg.Space() ==> r == a
  {
    if cfg.highCapacity then a % TWO32 else a % BYTE_SPACE
  }

  lemma WireCut(cfg: Config, a: nat)
    ensures Wire(cfg, a) == Cut(cfg, a)
  {
    if !cfg.highCapacity {
      var q, r := a / BYTE_SPACE, a % BYTE_SPACE;
      assert a * 512 == q * TWO32 + r * 512;
      U32Shift(q, r * 512);
    }
  }

  /** It does not matter whether the number was cut to 32 bits before. */
  lemma CutU32(cfg: Config, a: nat)
    ensures Cut(cfg, U32(a)) == Cut(cfg, a)
  {
    if !cfg.highCapacity {
      var q, r := a / TWO32, a % TWO32;
      assert a == q * 512 * BYTE_SPACE + r;
    }
  }

  lemma CutComplement(start: nat)
    requires start < TWO32
    ensures BYTE_SPACE <= start % BYTE_SPACE + (TWO32 - start)
  {
  }

  /** On a byte-addressed card: the argument for `start`, cut to 2^23 blocks, is in front of `last` and of the end of
      the window, and `last` is not in front of the window. */
  predicate ByteHit(cfg: Config, start: nat, last: int) {
    !cfg.highCapacity && cfg.Space() <= start && Hit(cfg, Cut(cfg, start), last + 1)
  }

  /** Trims, secure trims and discards that pass the check: they reach the window only on a byte-addressed card and only
      from a start of 2^23 or more, and then exactly under this condition. */
  lemma TrimWindow(cfg: Config, start: nat, nr: nat, purge: Purge)
    requires cfg.Valid() && Passes(start, nr) && !cfg.IsSd() && (purge.Trim? || purge.Discard? || purge.SecureTrim1?)
    ensures AimHits(cfg, Aimed(cfg, start, Clip(cfg, start, nr), purge)) <==>
            Clip(cfg, start, nr) > 0 &&
            ByteHit(cfg, start, if cfg.lba < U32(start + nr) then cfg.lba - 1 else Cut(cfg, start + nr - 1))
  {
    var n := Clip(cfg, start, nr);
    if n > 0 {
      TrimHit(cfg, start, n, purge);
      ClipEnd(cfg, start, nr);
      if start < cfg.Space() {
        InsideOff(cfg, start, nr);
      }
    }
  }

  lemma TrimHit(cfg: Config, start: nat, n: nat, purge: Purge)
    requires cfg.Valid() && start < TWO32 && 0 < n && !cfg.IsSd() && !Grouped(purge) && !purge.SecureTrim2?
    ensures AimHits(cfg, Aimed(cfg, start, n, purge)) <==>
            Hit(cfg, Cut(cfg, start), Cut(cfg, start + n - 1) + 1)
  {
    WireCut(cfg, start);
    WireCut(cfg, U32(start + n - 1));
    CutU32(cfg, start + n - 1);
  }

  lemma ClipEnd(cfg: Config, start: nat, nr: nat)
    requires cfg.Valid() && start < TWO32 && 0 < nr < TWO32 && Clip(cfg, start, nr) > 0
    ensures Cut(cfg, start + Clip(cfg, start, nr) - 1) ==
            if cfg.lba < U32(start + nr) then cfg.lba - 1 else Cut(cfg, start + nr - 1)
  {
    if cfg.lba < U32(start + nr) {
      CutU32(cfg, start + Clip(cfg, start, nr) - 1);
      CutEnd(cfg.lba, start);
    }
  }

  lemma CutEnd(lba: nat, start: nat)
    requires 0 < lba < TWO32 && start < TWO32
    ensures U32(start + U32(lba - start) - 1) == lba - 1
  {
    if start <= lba {
      assert U32(lba - start) == lba - start;
    } else {
      assert U32(lba - start) == TWO32 + lba - start;
    }
  }

  /** From a start the argument can express a trim that passes the check stays off the window, cut or not. */
  lemma InsideOff(cfg: Config, start: nat, nr: nat)
    requires cfg.Valid() && Passes(start, nr) && start < cfg.Space()
    ensures Cut(cfg, start) == start
    ensures cfg.lba < U32(start + nr) ==> !Hit(cfg, start, cfg.lba)
    ensures !Hit(cfg, start, Cut(cfg, start + nr - 1) + 1)
  {
    if start + nr <= TWO32 {
      if start < cfg.lba < U32(start + nr) {
        PassedOff(cfg, start, nr, start, cfg.lba);
      }
      PassedOff(cfg, start, nr, start, Cut(cfg, start + nr - 1) + 1);
    } else {
      assert U32(start + nr) == start + nr - TWO32;
      CutU32(cfg, start + nr - 1);
    }
  }

  /** The same for a wipe that trims: it is not cut to the device. */
  lemma WipeTrimWindow(cfg: Config, start: nat, nr: nat, purge: Purge)
    requires cfg.Valid() && Passes(start, nr) && !cfg.IsSd() && (purge.Trim? || purge.SecureTrim1?)
    ensures AimHits(cfg, Aimed(cfg, start, nr, purge)) <==> ByteHit(cfg, start, Cut(cfg, start + nr - 1))
  {
    TrimHit(cfg, start, nr, purge);
    if start < cfg.Space() {
      InsideOff(cfg, start, nr);
    }
  }

  /** Where an erase by groups of a request that runs past 2^32 reaches the window on a block-addressed card: its whole
      groups end at 2^32 at the latest and start in front of the end of the window, or its start is rounded up to 2^32
      and the rest reaches into the window. */
  predicate WrapHits(cfg: Config, start: nat, nr: nat)
    requires cfg.eraseGroup > 0 && TWO32 < start + nr
  {
    var g, lo := cfg.eraseGroup, RoundUp(cfg.eraseGroup, start);
    if lo < TWO32 then
      var hi := lo + RoundDown(g, start + nr - lo);
      hi <= TWO32 && Hit(cfg, lo, hi)
    else TWO32 % g == 0 && Hit(cfg, 0, RoundDown(g, start + nr - TWO32))
  }

  lemma PlanHits(cfg: Config, start: nat, n: nat, purge: Purge, lo: nat, hi: nat)
    requires cfg.Valid() && cfg.highCapacity && start < TWO32 && n < TWO32 && !cfg.IsSd() && Grouped(purge)
    requires forall b: nat :: PlanNames(cfg.eraseGroup, start, n, b) <==> lo <= b < hi
    ensures AimHits(cfg, GroupAim(cfg, start, n, purge)) <==> Hit(cfg, lo, hi)
  {
    HitMeaning(cfg, lo, hi);
    AimHitsMeaning(cfg, GroupAim(cfg, start, n, purge));
    forall b: nat
      ensures Reaches(cfg.eraseGroup, GroupAim(cfg, start, n, purge), b) <==> lo <= b < hi
    {
      PlanReach(cfg, start, n, purge, b);
    }
  }

  /** The plan of a request that runs past 2^32 with its start, rounded up, in front of it. */
  lemma WrapHere(g: nat, start: nat, nr: nat, b: nat)
    requires 0 < g < TWO32 && start < TWO32 && nr < TWO32 < start + nr && RoundUp(g, start) < TWO32
    ensures var lo := RoundUp(g, start);
            var hi := lo + RoundDown(g, start + nr - lo);
            PlanNames(g, start, nr, b) <==> lo < hi <= TWO32 && lo <= b < hi
  {
    var lo := RoundUp(g, start);
    PlanOf(g, start, nr);
    Rounding(g, start);
    Rounding(g, start + nr - lo);
    SpanNamesHere(g, start, nr, lo, RoundDown(g, start + nr - lo), b);
  }

  /** The same with its start rounded up to 2^32 or beyond. */
  lemma WrapTop(g: nat, start: nat, nr: nat, b: nat)
    requires 0 < g < TWO32 && start < TWO32 && nr < TWO32 < start + nr && TWO32 <= RoundUp(g, start)
    ensures PlanNames(g, start, nr, b) <==> TWO32 % g == 0 && b < RoundDown(g, start + nr - TWO32)
  {
    WrappedPlan(g, start, nr);
    if TWO32 % g == 0 {
      DivModUnique(g, 0, 0, 0);
      Rounding(g, start + nr - TWO32);
      SpanNamesHere(g, 0, nr, 0, RoundDown(g, start + nr - TWO32), b);
    } else {
      assert !Accepted(g, Plan(g, start, nr));
    }
  }

  lemma SpanNamesHere(g: nat, start: nat, nr: nat, lo: nat, count: nat, b: nat)
    requires g > 0 && nr < TWO32 && start <= lo < TWO32 && lo + count <= start + nr && lo % g == 0 && count % g == 0
    ensures SpanNames(g, Span(lo, count), b) <==> lo < lo + count <= TWO32 && lo <= b < lo + count
  {
    if TWO32 < lo + count {
      assert U32(lo + count - 1) == lo + count - 1 - TWO32;
    }
  }

  /** The plan of a request with something left after rounding its start up. */
  lemma PlanOf(g: nat, start: nat, nr: nat)
    requires 0 < g && RoundUp(g, start) < TWO32 && RoundUp(g, start) < start + nr
    ensures Plan(g, start, nr) == Span(RoundUp(g, start), RoundDown(g, start + nr - RoundUp(g, start)))
  {
    Rounding(g, start);
  }

  /** Wipes by groups on a block-addressed card that pass the check reach the window exactly when they run past 2^32
      and wrap onto it. */
  lemma WipeGroupWindow(cfg: Config, start: nat, nr: nat, purge: Purge)
    requires cfg.Valid() && cfg.highCapacity && Passes(start, nr) && !cfg.IsSd() && Grouped(purge)
    ensures AimHits(cfg, GroupAim(cfg, start, nr, purge)) <==> TWO32 < start + nr && WrapHits(cfg, start, nr)
  {
    var g, lo := cfg.eraseGroup, RoundUp(cfg.eraseGroup, start);
    if TWO32 < start + nr {
      Rounding(g, start);
      var from := if lo < TWO32 then lo else 0;
      var to := if lo < TWO32 then lo + RoundDown(g, start + nr - lo)
                else if TWO32 % g == 0 then RoundDown(g, start + nr - TWO32) else 0;
      var end := if to <= TWO32 then to else 0;
      forall b: nat
        ensures PlanNames(g, start, nr, b) <==> from <= b < end
      {
        if lo < TWO32 {
          WrapHere(g, start, nr, b);
        } else {
          WrapTop(g, start, nr, b);
        }
      }
      PlanHits(cfg, start, nr, purge, from, end);
    } else {
      AimHitsMeaning(cfg, GroupAim(cfg, start, nr, purge));
      PassedOff(cfg, start, nr, start, start + nr);
      HitMeaning(cfg, start, start + nr);
      forall b: nat | Reaches(cfg.eraseGroup, GroupAim(cfg, start, nr, purge), b)
        ensures start <= b < start + nr
      {
        UnclippedReach(cfg, start, nr, purge, b);
      }
    }
  }

  /** Erases by groups on a block-addressed card that pass the check reach the window exactly when they escape and the
      device has whole groups that reach into the window, or when they run past 2^32, end inside the device and wrap
      onto the window. */
  lemma EraseWindow(cfg: Config, start: nat, nr: nat, purge: Purge)
    requires cfg.Valid() && cfg.highCapacity && Passes(start, nr) && !cfg.IsSd() && Grouped(purge)
    ensures AimHits(cfg, GroupAim(cfg, start, Clip(cfg, start, nr), purge)) <==>
            || (Escapes(cfg, start, nr) && WINDOW_START < RoundDown(cfg.eraseGroup, cfg.lba))
            || (TWO32 < start + nr && U32(start + nr) <= cfg.lba && WrapHits(cfg, start, nr))
  {
    var n := Clip(cfg, start, nr);
    if U32(start + nr) <= cfg.lba {
      WipeGroupWindow(cfg, start, nr, purge);
    } else if start <= cfg.lba {
      CutErase(cfg, start, nr, purge);
    } else {
      EscapeHits(cfg, start, nr, purge);
    }
  }

  /** An erase that starts inside the device and is cut to it. */
  lemma CutErase(cfg: Config, start: nat, nr: nat, purge: Purge)
    requires cfg.Valid() && Passes(start, nr) && Grouped(purge) && start <= cfg.lba < U32(start + nr)
    ensures !AimHits(cfg, GroupAim(cfg, start, Clip(cfg, start, nr), purge))
  {
    SoundOff(cfg, start, nr, purge, GroupAim(cfg, start, Clip(cfg, start, nr), purge));
  }

  lemma SoundOff(cfg: Config, start: nat, nr: nat, purge: Purge, aim: Option<Aim>)
    requires cfg.Valid() && Passes(start, nr) && Grouped(purge) && start <= cfg.lba && start + nr < TWO32
    requires aim == GroupAim(cfg, start, Clip(cfg, start, nr), purge)
    ensures !AimHits(cfg, aim)
  {
    AimHitsMeaning(cfg, aim);
    PassedOff(cfg, start, nr, start, start + nr);
    HitMeaning(cfg, start, start + nr);
    forall b: nat | b < cfg.lba && Reaches(cfg.eraseGroup, aim, b)
      ensures start <= b < start + nr
    {
      ClippedErase(cfg, start, nr, purge, b);
    }
  }

  /** An erase that starts beyond the device and is cut to it. */
  lemma EscapeHits(cfg: Config, start: nat, nr: nat, purge: Purge)
    requires cfg.Valid() && cfg.highCapacity && !cfg.IsSd() && Grouped(purge)
    requires start < TWO32 && 0 < nr < TWO32 && cfg.lba < start && cfg.lba < U32(start + nr)
    ensures AimHits(cfg, GroupAim(cfg, start, Clip(cfg, start, nr), purge)) <==>
            Escapes(cfg, start, nr) && WINDOW_START < RoundDown(cfg.eraseGroup, cfg.lba)
  {
    var aim := GroupAim(cfg, start, Clip(cfg, start, nr), purge);
    AimHitsMeaning(cfg, aim);
    Rounding(cfg.eraseGroup, cfg.lba);
    if WINDOW_START < cfg.lba {
      BeyondDevice(cfg, start, nr, purge, WINDOW_START);
      assert InWindow(WINDOW_START);
    }
    if b: nat :| InWindow(b) && b < cfg.lba && Reaches(cfg.eraseGroup, aim, b) {
      BeyondDevice(cfg, start, nr, purge, b);
    }
  }

  /** The extent of a purge by groups whose first block starts group `q` and whose last lies in front of group `k`. */
  lemma ExtentWithin(g: nat, aim: Aim, q: nat, k: nat)
    requires g > 0 && Grouped(aim.purge) && aim.from == q * g && aim.from <= aim.to < k * g
    ensures Extent(g, aim).start == aim.from && aim.from + Extent(g, aim).count <= k * g
    ensures aim.to + 1 == k * g ==> aim.from + Extent(g, aim).count == k * g
  {
    var t := aim.to / g;
    QuotientNatural(aim.to, g);
    DivModUnique(g, aim.from, q, 0);
    assert aim.to == t * g + aim.to % g;
    Multiples(g, t, k);
    Multiples(g, k, t);
    if aim.to + 1 == k * g {
      assert (k - 1) * g == k * g - g;
      DivModUnique(g, aim.to, k - 1, g - 1);
    }
  }

  /** A multiple, by its quotient. */
  lemma Quotient(g: nat, x: nat) returns (q: nat)
    requires g > 0 && x % g == 0
    ensures x == q * g
  {
    QuotientNatural(x, g);
    q := x / g;
    assert x == x / g * g + x % g;
  }

  /** The groups of the blocks `from` to `to` include a block of the window. */
  predicate GroupsHit(cfg: Config, from: nat, to: nat)
    requires cfg.eraseGroup > 0
  {
    from <= to && Hit(cfg, from / cfg.eraseGroup * cfg.eraseGroup, (to / cfg.eraseGroup + 1) * cfg.eraseGroup)
  }

  /** Erases and wipes by groups of any size that pass the check and end within 2^32: they reach the window exactly when
      the start, rounded up to a group, is more than the argument can express, the request is not one that starts
      inside the device and is cut to it, and the groups of the plan, both ends cut by the argument, include a block of
      the window. */
  lemma ByteGroupWindow(cfg: Config, start: nat, nr: nat, purge: Purge, clipped: bool)
    requires cfg.Valid() && Passes(start, nr) && !cfg.IsSd() && Grouped(purge) && start + nr <= TWO32
    ensures var g, n := cfg.eraseGroup, if clipped then Clip(cfg, start, nr) else nr;
            var a := Plan(g, start, n);
            AimHits(cfg, GroupAim(cfg, start, n, purge)) <==>
            && cfg.Space() <= RoundUp(g, start)
            && !(clipped && start <= cfg.lba < U32(start + nr))
            && Accepted(g, a) && GroupsHit(cfg, Cut(cfg, a.start), Cut(cfg, a.start + a.count - 1))
  {
    var g, n := cfg.eraseGroup, if clipped then Clip(cfg, start, nr) else nr;
    PlanGroupsHit(cfg, Plan(g, start, n), purge);
    if clipped && start <= cfg.lba < U32(start + nr) {
      CutErase(cfg, start, nr, purge);
    } else if RoundUp(g, start) < cfg.Space() {
      if n == nr {
        PlainOff(cfg, start, nr, purge);
      } else {
        BeyondOff(cfg, start, n, purge);
      }
    }
  }

  lemma PlanGroupsHit(cfg: Config, a: Span, purge: Purge)
    requires cfg.Valid() && !cfg.IsSd() && Grouped(purge)
    ensures AimHits(cfg, Aimed(cfg, a.start, a.count, purge)) <==>
            Accepted(cfg.eraseGroup, a) && GroupsHit(cfg, Cut(cfg, a.start), Cut(cfg, a.start + a.count - 1))
  {
    if Accepted(cfg.eraseGroup, a) {
      WireCut(cfg, a.start);
      WireCut(cfg, U32(a.start + a.count - 1));
      CutU32(cfg, a.start + a.count - 1);
    }
  }

  /** A plan that starts where the argument can express it, of a request that ends within 2^32. */
  lemma PlainOff(cfg: Config, start: nat, nr: nat, purge: Purge)
    requires cfg.Valid() && Passes(start, nr) && Grouped(purge) && start + nr <= TWO32
    requires RoundUp(cfg.eraseGroup, start) < cfg.Space()
    ensures !AimHits(cfg, GroupAim(cfg, start, nr, purge))
  {
    if GroupAim(cfg, start, nr, purge).Some? {
      var a := Plan(cfg.eraseGroup, start, nr);
      StartKept(cfg.eraseGroup, start, nr);
      PlanWithin(cfg.eraseGroup, start, nr);
      AimOff(cfg, start, nr, a, purge);
    }
  }

  lemma AimOff(cfg: Config, start: nat, nr: nat, a: Span, purge: Purge)
    requires cfg.Valid() && Passes(start, nr) && Grouped(purge) && Takes(cfg, a.start, a.count, purge)
    requires start <= a.start < cfg.Space() && a.start + a.count <= start + nr <= TWO32
    ensures !AimHits(cfg, Aimed(cfg, a.start, a.count, purge))
  {
    var g := cfg.eraseGroup;
    var aim := Aimed(cfg, a.start, a.count, purge).value;
    WireCut(cfg, a.start);
    WireCut(cfg, a.start + a.count - 1);
    var q := Quotient(g, a.start);
    var k := Quotient(g, a.count);
    assert (q + k) * g == q * g + k * g;
    if aim.from <= aim.to {
      ExtentWithin(g, aim, q, q + k);
      PassedOff(cfg, start, nr, aim.from, aim.from + Extent(g, aim).count);
    }
  }

  /** A plan that starts beyond the device, where the argument can express it. */
  lemma BeyondOff(cfg: Config, start: nat, n: nat, purge: Purge)
    requires cfg.Valid() && Grouped(purge) && cfg.lba < start && RoundUp(cfg.eraseGroup, start) < cfg.Space()
    ensures !AimHits(cfg, GroupAim(cfg, start, n, purge))
  {
    if GroupAim(cfg, start, n, purge).Some? {
      var aim := GroupAim(cfg, start, n, purge).value;
      StartKept(cfg.eraseGroup, start, n);
      WireCut(cfg, RoundUp(cfg.eraseGroup, start));
      var q := Quotient(cfg.eraseGroup, aim.from);
      DivModUnique(cfg.eraseGroup, aim.from, q, 0);
    }
  }

  /** The last multiple of `g` in front of `y`, from a multiple `x` on. */
  lemma RoundDownShift(g: nat, x: nat, y: nat)
    requires g > 0 && x % g == 0 && x <= y
    ensures x + RoundDown(g, y - x) == RoundDown(g, y)
  {
    var q := Quotient(g, x);
    var k, r := (y - x) / g, (y - x) % g;
    QuotientNatural(y - x, g);
    assert y - x == k * g + r;
    assert (q + k) * g == q * g + k * g;
    DivModUnique(g, y, q + k, r);
  }

  lemma CutKeepsGroups(cfg: Config, x: nat)
    requires cfg.eraseGroup > 0 && cfg.Space() % cfg.eraseGroup == 0
    ensures Cut(cfg, x) % cfg.eraseGroup == x % cfg.eraseGroup
  {
    if cfg.highCapacity {
      ModMod(cfg.eraseGroup, TWO32, x, x / TWO32);
    } else {
      ModMod(cfg.eraseGroup, BYTE_SPACE, x, x / BYTE_SPACE);
    }
  }

  /** Taking away multiples of a multiple of `g` keeps the remainder by `g`. */
  lemma ModMod(g: nat, s: nat, x: nat, q: nat)
    requires g > 0 && s % g == 0 && q * s <= x
    ensures (x - q * s) % g == x % g
  {
    var k := Quotient(g, s);
    var r := x - q * s;
    QuotientNatural(r, g);
    var u, v := r / g, r % g;
    assert r == u * g + v;
    SumOfMultiples(g, q, k, u);
    DivModUnique(g, x, q * k + u, v);
  }

  lemma SumOfMultiples(g: nat, q: nat, k: nat, u: nat)
    ensures q * (k * g) + u * g == (q * k + u) * g
  {
    assert q * (k * g) == q * k * g;
  }

  lemma EvenSpace(cfg: Config)
    requires cfg.eraseGroup > 0 && cfg.Space() % cfg.eraseGroup == 0
    ensures TWO32 % cfg.eraseGroup == 0
  {
    CutKeepsGroups(cfg, TWO32);
  }

  /** When the group size divides the addressable blocks, an erase that starts beyond the device and is cut to it
      reaches from its start, rounded up and cut to those blocks, to the last whole group of the device. */
  lemma EvenEraseWindow(cfg: Config, start: nat, nr: nat, purge: Purge)
    requires cfg.Valid() && !cfg.IsSd() && Grouped(purge) && cfg.Space() % cfg.eraseGroup == 0
    requires start < TWO32 && 0 < nr < TWO32 && cfg.eraseGroup <= cfg.lba < start && cfg.lba < U32(start + nr)
    ensures AimHits(cfg, GroupAim(cfg, start, Clip(cfg, start, nr), purge)) <==>
            Hit(cfg, Cut(cfg, RoundUp(cfg.eraseGroup, start)), RoundDown(cfg.eraseGroup, cfg.lba))
  {
    ClipPast(cfg, start, nr);
    EvenBeyond(cfg, start, purge);
  }

  lemma ClipPast(cfg: Config, start: nat, nr: nat)
    requires cfg.lba < start < TWO32 && cfg.lba < U32(start + nr)
    ensures Clip(cfg, start, nr) == TWO32 + cfg.lba - start
  {
  }

  lemma EvenBeyond(cfg: Config, start: nat, purge: Purge)
    requires cfg.Valid() && !cfg.IsSd() && Grouped(purge) && cfg.Space() % cfg.eraseGroup == 0
    requires cfg.eraseGroup <= cfg.lba < start < TWO32
    ensures AimHits(cfg, GroupAim(cfg, start, TWO32 + cfg.lba - start, purge)) <==>
            Hit(cfg, Cut(cfg, RoundUp(cfg.eraseGroup, start)), RoundDown(cfg.eraseGroup, cfg.lba))
  {
    EvenSpace(cfg);
    EvenPlan(cfg.eraseGroup, start, cfg.lba);
    EvenHits(cfg, Plan(cfg.eraseGroup, start, TWO32 + cfg.lba - start), start, purge);
  }

  lemma EvenHits(cfg: Config, a: Span, start: nat, purge: Purge)
    requires cfg.Valid() && !cfg.IsSd() && Grouped(purge) && cfg.Space() % cfg.eraseGroup == 0
    requires EvenSpan(cfg.eraseGroup, start, cfg.lba, a)
    ensures AimHits(cfg, Aimed(cfg, a.start, a.count, purge)) <==>
            Hit(cfg, Cut(cfg, RoundUp(cfg.eraseGroup, start)), RoundDown(cfg.eraseGroup, cfg.lba))
  {
    var g, lo := cfg.eraseGroup, RoundUp(cfg.eraseGroup, start);
    Rounding(g, start);
    Rounding(g, cfg.lba);
    CutKeepsGroups(cfg, lo);
    CutU32(cfg, lo);
    EvenAim(cfg, a, Cut(cfg, lo), RoundDown(g, cfg.lba), purge);
  }

  /** A purge whose arguments are the first block of a group and the last block of another. */
  lemma EvenAim(cfg: Config, a: Span, lo: nat, end: nat, purge: Purge)
    requires cfg.Valid() && Grouped(purge) && Takes(cfg, a.start, a.count, purge)
    requires 0 < end && lo % cfg.eraseGroup == 0 && end % cfg.eraseGroup == 0
    requires Cut(cfg, a.start) == lo && Cut(cfg, U32(a.start + a.count - 1)) == end - 1
    ensures AimHits(cfg, Aimed(cfg, a.start, a.count, purge)) <==> Hit(cfg, lo, end)
  {
    WireCut(cfg, a.start);
    WireCut(cfg, U32(a.start + a.count - 1));
    var aim := Aim(lo, end - 1, purge);
    if lo < end {
      var q := Quotient(cfg.eraseGroup, lo);
      var k := Quotient(cfg.eraseGroup, end);
      ExtentWithin(cfg.eraseGroup, aim, q, k);
    }
  }

  /** Its plan: the start wraps to block 0 or stays, the end is the last whole group of the device, wrapped. */
  lemma EvenPlan(g: nat, start: nat, lba: nat)
    requires 0 < g < TWO32 && TWO32 % g == 0 && g <= lba < start < TWO32
    ensures EvenSpan(g, start, lba, Plan(g, start, TWO32 + lba - start))
  {
    var n, lo := TWO32 + lba - start, RoundUp(g, start);
    if lo < TWO32 {
      PlanOf(g, start, n);
      EvenSpanHere(g, start, lba);
    } else {
      WrappedPlan(g, start, n);
      EvenSpanWrapped(g, start, lba);
    }
  }

  predicate EvenSpan(g: nat, start: nat, lba: nat, a: Span)
    requires g > 0
  {
    a.start == U32(RoundUp(g, start)) && Accepted(g, a) && 0 < RoundDown(g, lba) &&
    U32(a.start + a.count - 1) == RoundDown(g, lba) - 1
  }

  lemma EvenSpanHere(g: nat, start: nat, lba: nat)
    requires 0 < g < TWO32 && TWO32 % g == 0 && g <= lba < start < TWO32 && RoundUp(g, start) < TWO32
    ensures var lo := RoundUp(g, start); EvenSpan(g, start, lba, Span(lo, RoundDown(g, TWO32 + lba - lo)))
  {
    var lo := RoundUp(g, start);
    Rounding(g, start);
    WholeGroup(g, lba);
    Rounding(g, TWO32 + lba - lo);
    EvenSum(g, lo, lba);
    WrappedEnd(lo, RoundDown(g, TWO32 + lba - lo), RoundDown(g, lba));
  }

  lemma WrappedEnd(lo: nat, count: nat, end: nat)
    requires lo < TWO32 && lo + count == TWO32 + end && 0 < end < TWO32
    ensures count > 0 && U32(lo) == lo && U32(lo + count - 1) == end - 1
  {
  }

  lemma WholeGroup(g: nat, lba: nat)
    requires 0 < g <= lba
    ensures 0 < RoundDown(g, lba) <= lba
  {
    Nearest(g, lba, 1);
    Rounding(g, lba);
  }

  lemma EvenSum(g: nat, lo: nat, lba: nat)
    requires 0 < g && TWO32 % g == 0 && lo % g == 0 && lo <= TWO32
    ensures lo + RoundDown(g, TWO32 + lba - lo) == TWO32 + RoundDown(g, lba) && RoundDown(g, lba) <= lba
  {
    Rounding(g, lba);
    RoundDownShift(g, lo, TWO32 + lba);
    RoundDownShift(g, TWO32, TWO32 + lba);
  }

  lemma EvenSpanWrapped(g: nat, start: nat, lba: nat)
    requires 0 < g < TWO32 && TWO32 % g == 0 && g <= lba < start < TWO32 <= RoundUp(g, start)
    ensures EvenSpan(g, start, lba, Span(0, RoundDown(g, lba)))
  {
    WholeGroup(g, lba);
    Rounding(g, lba);
    LastGroup(g, start);
  }

  /** When the group size divides the addressable blocks, a wipe by groups reaches from its start, rounded up, to its
      end, rounded down, both cut to those blocks. */
  lemma EvenWipeWindow(cfg: Config, start: nat, nr: nat, purge: Purge)
    requires cfg.Valid() && !cfg.IsSd() && Grouped(purge) && cfg.Space() % cfg.eraseGroup == 0
    requires start < TWO32 && 0 < nr < TWO32 && start + nr <= TWO32
    ensures var lo, hi := RoundUp(cfg.eraseGroup, start), RoundDown(cfg.eraseGroup, start + nr);
            AimHits(cfg, GroupAim(cfg, start, nr, purge)) <==>
            lo < hi && Hit(cfg, Cut(cfg, lo), Cut(cfg, hi - 1) + 1)
  {
    var g, lo, hi := cfg.eraseGroup, RoundUp(cfg.eraseGroup, start), RoundDown(cfg.eraseGroup, start + nr);
    Rounding(g, start + nr);
    if lo < start + nr {
      PlanOf(g, start, nr);
      Rounding(g, start);
      RoundDownShift(g, lo, start + nr);
      assert Plan(g, start, nr) == Span(lo, hi - lo);
      EvenRange(cfg, lo, hi, purge);
    } else {
      AlignInside(g, start, nr);
      assert GroupAim(cfg, start, nr, purge).None?;
    }
  }

  lemma EvenRange(cfg: Config, lo: nat, hi: nat, purge: Purge)
    requires cfg.Valid() && !cfg.IsSd() && Grouped(purge) && cfg.Space() % cfg.eraseGroup == 0
    requires lo <= hi <= TWO32 && lo % cfg.eraseGroup == 0 && hi % cfg.eraseGroup == 0
    ensures AimHits(cfg, Aimed(cfg, lo, hi - lo, purge)) <==> lo < hi && Hit(cfg, Cut(cfg, lo), Cut(cfg, hi - 1) + 1)
  {
    if lo < hi {
      var q := Quotient(cfg.eraseGroup, lo);
      var k := Quotient(cfg.eraseGroup, hi);
      Multiples(cfg.eraseGroup, k, q);
      Multiples(cfg.eraseGroup, q, k);
      DivModUnique(cfg.eraseGroup, hi - lo, k - q, 0);
      CutKeepsGroups(cfg, lo);
      CutKeepsGroups(cfg, hi - 1);
      LastOfGroup(cfg.eraseGroup, hi, Cut(cfg, hi - 1));
      EvenAim(cfg, Span(lo, hi - lo), Cut(cfg, lo), Cut(cfg, hi - 1) + 1, purge);
    }
  }

  lemma LastOfGroup(g: nat, hi: nat, to: nat)
    requires g > 0 && hi > 0 && hi % g == 0 && to % g == (hi - 1) % g
    ensures (to + 1) % g == 0
  {
    var k := Quotient(g, hi);
    var t := to / g;
    QuotientNatural(to, g);
    assert (k - 1) * g == k * g - g;
    DivModUnique(g, hi - 1, k - 1, g - 1);
    assert to == t * g + (g - 1);
    assert (t + 1) * g == t * g + g;
    DivModUnique(g, to + 1, t + 1, 0);
  }

  /** Erases that pass the check and end within 2^32, when the group size divides the addressable blocks and the device
      has a whole group.  The clip saves every request that ends below 2^32 and starts inside the device; it does not
      see one that ends at 2^32. */
  lemma EvenEraseExact(cfg: Config, start: nat, nr: nat, purge: Purge)
    requires cfg.Valid() && !cfg.IsSd() && Grouped(purge) && cfg.Space() % cfg.eraseGroup == 0
    requires Passes(start, nr) && start + nr <= TWO32 && cfg.eraseGroup <= cfg.lba
    ensures var g := cfg.eraseGroup;
            var lo, hi := RoundUp(g, start), RoundDown(g, start + nr);
            AimHits(cfg, GroupAim(cfg, start, Clip(cfg, start, nr), purge)) <==>
            if start + nr == TWO32 then lo < hi && Hit(cfg, Cut(cfg, lo), Cut(cfg, hi - 1) + 1)
            else cfg.lba < start && Hit(cfg, Cut(cfg, lo), RoundDown(g, cfg.lba))
  {
    if start + nr == TWO32 {
      EvenWipeWindow(cfg, start, nr, purge);
    } else if cfg.lba < start {
      EvenEraseWindow(cfg, start, nr, purge);
    } else {
      SoundOff(cfg, start, nr, purge, GroupAim(cfg, start, Clip(cfg, start, nr), purge));
    }
  }

  /** An erase of one block at 0xFFFFFFFE of a block-addressed device of 20000 blocks in groups of 1024 passes the check
      and erases the device from block 0. */
  lemma EscapeExists(cfg: Config, purge: Purge)
    requires cfg.Valid() && cfg.highCapacity && cfg.lba == 20000 && cfg.eraseGroup == 1024 && !cfg.IsSd()
    requires Grouped(purge)
    ensures Passes(TWO32 - 2, 1) && AimHits(cfg, GroupAim(cfg, TWO32 - 2, Clip(cfg, TWO32 - 2, 1), purge))
  {
    EscapeHits(cfg, TWO32 - 2, 1, purge);
  }

  /** On a byte-addressed device of 2^22 blocks a request for 1024 blocks at 2^23 + 12288 passes the check, and its
      trim, with the clip or in a wipe without it, reaches the window. */
  lemma ByteTrimExists(cfg: Config, purge: Purge)
    requires cfg.Valid() && !cfg.highCapacity && cfg.lba == 0x40_0000 && !cfg.IsSd()
    requires purge.Trim? || purge.SecureTrim1?
    ensures var start, nr := BYTE_SPACE + WINDOW_START, 1024;
            && Passes(start, nr)
            && AimHits(cfg, Aimed(cfg, start, Clip(cfg, start, nr), purge))
            && AimHits(cfg, Aimed(cfg, start, nr, purge))
  {
    var start, nr := BYTE_SPACE + WINDOW_START, 1024;
    assert Cut(cfg, start) == WINDOW_START && Cut(cfg, start + nr - 1) == WINDOW_START + nr - 1;
    assert Clip(cfg, start, nr) == TWO32 + cfg.lba - start;
    TrimWindow(cfg, start, nr, purge);
    WipeTrimWindow(cfg, start, nr, purge);
  }

  /** The same request reaches it by groups of 1024 blocks, with the clip or in a wipe without it. */
  lemma ByteEraseExists(cfg: Config, purge: Purge)
    requires cfg.Valid() && !cfg.highCapacity && cfg.lba == 0x40_0000 && cfg.eraseGroup == 1024 && !cfg.IsSd()
    requires Grouped(purge)
    ensures var start, nr := BYTE_SPACE + WINDOW_START, 1024;
            && Passes(start, nr)
            && AimHits(cfg, GroupAim(cfg, start, Clip(cfg, start, nr), purge))
            && AimHits(cfg, GroupAim(cfg, start, nr, purge))
  {
    var start, nr := BYTE_SPACE + WINDOW_START, 1024;
    ByteNumbers(cfg);
    EvenEraseWindow(cfg, start, nr, purge);
    EvenWipeWindow(cfg, start, nr, purge);
  }

  lemma ByteNumbers(cfg: Config)
    requires !cfg.highCapacity
    ensures cfg.Space() % 1024 == 0
    ensures var start, nr := BYTE_SPACE + WINDOW_START, 1024;
            && Passes(start, nr) && U32(start + nr) == start + nr
            && RoundUp(1024, start) == start && RoundDown(1024, start + nr) == start + nr
            && Cut(cfg, start) == WINDOW_START && Cut(cfg, start + nr - 1) == WINDOW_START + nr - 1
            && RoundDown(1024, 0x40_0000) == 0x40_0000
  {
  }

  /** A write of the blocks from 2^32 - 2^23 + 12288 to 2^32 passes the check and, sent as one command, starts at the
      window of a byte-addressed device. */
  lemma ByteWriteExists(cfg: Config)
    requires cfg.Valid() && !cfg.highCapacity && cfg.lba == 0x40_0000 && BYTE_SPACE <= cfg.bMax
    ensures var start, n := TWO32 - BYTE_SPACE + WINDOW_START, BYTE_SPACE - WINDOW_START;
            Passes(start, n) && WriteHits(cfg, start, n)
  {
    var start, n := TWO32 - BYTE_SPACE + WINDOW_START, BYTE_SPACE - WINDOW_START;
    assert Cut(cfg, start) == WINDOW_START;
    WriteWindow(cfg, start, n);
  }

  /** An erase of the blocks from 2^23 - 5 to 2^32 passes the check, starts inside a byte-addressed device of 2^23
      blocks and is not clipped; by groups of 1024 blocks it erases the device from block 0. */
  lemma ByteEraseToTop(cfg: Config, purge: Purge)
    requires cfg.Valid() && !cfg.highCapacity && cfg.lba == BYTE_SPACE && cfg.eraseGroup == 1024 && !cfg.IsSd()
    requires Grouped(purge)
    ensures var start, nr := BYTE_SPACE - 5, TWO32 - BYTE_SPACE + 5;
            Passes(start, nr) && AimHits(cfg, GroupAim(cfg, start, Clip(cfg, start, nr), purge))
  {
    TopNumbers(cfg);
    EvenEraseExact(cfg, BYTE_SPACE - 5, TWO32 - BYTE_SPACE + 5, purge);
  }

  lemma TopNumbers(cfg: Config)
    requires !cfg.highCapacity
    ensures cfg.Space() % 1024 == 0 && Passes(BYTE_SPACE - 5, TWO32 - BYTE_SPACE + 5)
    ensures RoundUp(1024, BYTE_SPACE - 5) == BYTE_SPACE && RoundDown(1024, TWO32) == TWO32
    ensures Cut(cfg, BYTE_SPACE) == 0 && Cut(cfg, TWO32 - 1) == BYTE_SPACE - 1
  {
  }
}
