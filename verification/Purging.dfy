/** Erase-group alignment, skip accounting, erase, trim, discard and the secure wipe (mmc_write.c). */
module Purging {
  import opened Words
  import opened Card
  import opened Transfer

  datatype Span = Span(start: nat, count: nat)

  predicate InSpan(b: nat, s: Span) {
    s.start <= b < s.start + s.count
  }

  /** mmc_erase_group_aligned. */
  predicate GroupAligned(g: nat, from: nat, nr: nat)
    requires g > 0
  {
    from % g == 0 && nr % g == 0
  }

  /** The first multiple of `g` at or above `x`. */
  function RoundUp(g: nat, x: nat): nat
    requires g > 0
  {
    if x % g == 0 then x else x - x % g + g
  }

  /** The last multiple of `g` at or below `x`. */
  function RoundDown(g: nat, x: nat): nat
    requires g > 0
  {
    x - x % g
  }

  /** What mmc_align_erase_group hands back.  When no block is left after rounding the start up, the count is
      returned unreduced. */
  function Align(g: nat, from: nat, nr: nat): Span
    requires g > 0
  {
    var lo := RoundUp(g, from);
    if EarlyExit(g, from, nr) then Span(U32(lo), nr) else Span(U32(lo), RoundDown(g, nr - (lo - from)))
  }

  predicate EarlyExit(g: nat, from: nat, nr: nat)
    requires g > 0
  {
    from < RoundUp(g, from) && nr <= RoundUp(g, from) - from
  }

  /** mmc_align_erase_group. */
  method AlignEraseGroup(g: nat, from: nat, nr: nat) returns (alignFrom: nat, alignNr: nat)
    requires g > 0 && from < TWO32
    ensures Span(alignFrom, alignNr) == Align(g, from, nr)
  {
    Rounding(g, from);
    var start, cnt := from, nr;
    var rem := start % g;
    if rem != 0 {
      rem := g - rem;
      start := U32(start + rem);
      if cnt > rem {
        cnt := cnt - rem;
      } else {
        return start, cnt;
      }
    }
    assert start == U32(RoundUp(g, from)) && cnt == nr - (RoundUp(g, from) - from);
    Rounding(g, cnt);
    rem := cnt % g;
    if rem != 0 {
      cnt := cnt - rem;
    }
    return start, cnt;
  }

  /** Both roundings are multiples, and nothing closer is. */
  lemma Rounding(g: nat, x: nat)
    requires g > 0
    ensures RoundDown(g, x) <= x < RoundDown(g, x) + g && RoundDown(g, x) == x / g * g && RoundDown(g, x) % g == 0
    ensures x <= RoundUp(g, x) < x + g && RoundUp(g, x) % g == 0
    ensures exists k: nat :: RoundUp(g, x) == k * g
  {
    var q := x / g;
    assert x == q * g + x % g;
    DivModUnique(g, q * g, q, 0);
    DivModUnique(g, (q + 1) * g, q + 1, 0);
    assert (q + 1) * g == q * g + g;
    if x % g == 0 {
      assert RoundUp(g, x) == q * g;
    } else {
      assert RoundUp(g, x) == (q + 1) * g;
    }
  }

  lemma Nearest(g: nat, x: nat, k: nat)
    requires g > 0
    ensures x <= k * g ==> RoundUp(g, x) <= k * g
    ensures k * g <= x ==> k * g <= RoundDown(g, x)
  {
    var q := x / g;
    assert x == q * g + x % g;
    if k <= q {
      assert k * g <= q * g;
    } else {
      assert (q + 1) * g <= k * g;
      assert (q + 1) * g == q * g + g;
    }
  }

  /** On a request that ends within the 32-bit block space, alignment either leaves by the early exit with a
      count no aligned erase accepts, or gives an aligned range inside the request. */
  lemma AlignInside(g: nat, from: nat, nr: nat)
    requires g > 0 && nr > 0 && from + nr <= TWO32
    ensures var a := Align(g, from, nr);
            if EarlyExit(g, from, nr) then a.count % g != 0
            else from <= RoundUp(g, from) && RoundUp(g, from) + a.count <= from + nr && a.count % g == 0 &&
                 (a.count > 0 ==> a.start == RoundUp(g, from) && a.start % g == 0)
  {
    Rounding(g, from);
    if EarlyExit(g, from, nr) {
      DivModUnique(g, nr, 0, nr);
    } else {
      Rounding(g, nr - (RoundUp(g, from) - from));
    }
  }

  /** Alignment gives up no whole group: every erase group inside the request is inside the aligned range. */
  lemma AlignKeepsGroups(g: nat, from: nat, nr: nat, k: nat)
    requires g > 0 && from + nr <= TWO32 && from <= k * g && (k + 1) * g <= from + nr
    ensures !EarlyExit(g, from, nr)
    ensures var a := Align(g, from, nr); a.start <= k * g && (k + 1) * g <= a.start + a.count
  {
    var lo := RoundUp(g, from);
    Rounding(g, from);
    Nearest(g, from, k);
    Multiples(g, k, k);
    var j: nat :| lo == j * g;
    Multiples(g, k, j);
    Multiples(g, j, k + 1);
    var rest := from + nr - lo;
    Nearest(g, rest, k + 1 - j);
    assert (k + 1) * g - lo <= RoundDown(g, rest);
  }

  lemma DivMonotone(g: nat, x: nat, y: nat)
    requires g > 0 && x <= y
    ensures 0 <= x / g <= y / g
  {
    QuotientNatural(x, g);
    if y / g < x / g {
      assert x == x / g * g + x % g && y == y / g * g + y % g;
      Multiples(g, y / g, x / g);
      assert false;
    }
  }

  predicate Grouped(purge: Purge) {
    purge.Erase? || purge.SecureErase?
  }

  /** Does mmc_erase act on this request at all? */
  predicate Takes(cfg: Config, from: nat, nr: nat, purge: Purge)
    requires cfg.eraseGroup > 0
  {
    nr > 0 && !cfg.IsSd() && !purge.SecureTrim2? && (Grouped(purge) ==> GroupAligned(cfg.eraseGroup, from, nr))
  }

  /** The arguments of a purge: the first and the last block the card takes them to mean, and the kind. */
  datatype Aim = Aim(from: nat, to: nat, purge: Purge)

  /** What mmc_erase aims at; None when it refuses.  The last block is computed in 32 bits. */
  function Aimed(cfg: Config, from: nat, nr: nat, purge: Purge): Option<Aim>
    requires cfg.eraseGroup > 0
  {
    if Takes(cfg, from, nr, purge) then Some(Aim(Wire(cfg, from), Wire(cfg, U32(from + nr - 1)), purge)) else None
  }

  /** A purge command with these arguments; a secure trim has two steps. */
  predicate IsPurge(c: Command, part: nat, aim: Option<Aim>) {
    aim.Some? && c.EraseCmd? && c.part == part && c.from == aim.value.from && c.to == aim.value.to &&
    (c.purge == aim.value.purge || (aim.value.purge.SecureTrim1? && c.purge.SecureTrim2?))
  }

  /** The commands of a completed purge: two steps for a secure trim, otherwise one. */
  function PurgeCommands(part: nat, aim: Aim): (cs: seq<Command>) {
    [EraseCmd(part, aim.from, aim.to, aim.purge, true)] +
    if aim.purge.SecureTrim1? then [EraseCmd(part, aim.from, aim.to, SecureTrim2, true)] else []
  }

  /** `log'` extends `log` by purge commands with these arguments; when `ok`, by exactly those of a completed purge. */
  ghost predicate PurgesAdded(log: seq<Command>, log': seq<Command>, part: nat, aim: Option<Aim>, ok: bool) {
    log <= log' &&
    (forall i :: |log| <= i < |log'| ==> IsPurge(log'[i], part, aim)) &&
    (ok ==> aim.Some? && log' == log + PurgeCommands(part, aim.value))
  }

  /** The last command of a completed purge did what the purge is for. */
  lemma LastPurges(log: seq<Command>, log': seq<Command>, part: nat, aim: Option<Aim>)
    requires PurgesAdded(log, log', part, aim, true)
    ensures |log| < |log'| && IsPurge(log'[|log'| - 1], part, aim)
    ensures var c := log'[|log'| - 1]; c.EraseCmd? && c.ok && !c.purge.SecureTrim1?
  {
  }

  /** `log'` extends `log` by purge commands with these arguments, and by sanitizes. */
  ghost predicate PurgedBy(log: seq<Command>, log': seq<Command>, part: nat, aim: Option<Aim>) {
    log <= log' && forall i :: |log| <= i < |log'| ==> log'[i].SanitizeCmd? || IsPurge(log'[i], part, aim)
  }

  /** The blocks a purge with these arguments alters. */
  function Extent(g: nat, aim: Aim): Span
    requires g > 0
  {
    if aim.to < aim.from then Span(0, 0)
    else if Grouped(aim.purge) then
      DivMonotone(g, aim.from, aim.to);
      Multiples(g, aim.from / g, aim.to / g);
      Span(aim.from / g * g, (aim.to / g + 1) * g - aim.from / g * g)
    else Span(aim.from, aim.to - aim.from + 1)
  }

  /** A purge alters exactly that extent, and one that completed covers it. */
  lemma ExtentExact(c: Command, part: nat, aim: Aim, g: nat, p: nat, b: nat)
    requires g > 0 && IsPurge(c, part, Some(aim))
    ensures Alters(c, g, p, b) <==> p == part && InSpan(b, Extent(g, aim))
    ensures c.ok && !c.purge.SecureTrim1? ==> (Purges(c, g, p, b) <==> p == part && InSpan(b, Extent(g, aim)))
  {
    if aim.from <= aim.to {
      DivMonotone(g, aim.from, aim.to);
      Multiples(g, aim.from / g, aim.to / g);
    }
  }

  /** mmc_erase, the last block computed in 32 bits. */
  method EraseRange(mmc: Mmc, from: nat, nr: nat, purge: Purge) returns (ret: int)
    requires mmc.cfg.Valid() && from < TWO32 && nr < TWO32
    modifies mmc`log, mmc`media, mmc`faults
    ensures old(mmc.faults) <= mmc.faults
    ensures ret == 0 || ret == -1
    ensures !Takes(mmc.cfg, from, nr, purge) ==>
              ret == (if nr == 0 then 0 else -1) && mmc.log == old(mmc.log) && mmc.media == old(mmc.media)
    ensures PurgesAdded(old(mmc.log), mmc.log, mmc.Part(), Aimed(mmc.cfg, from, nr, purge), ret == 0 && nr > 0)
    ensures ret == 0 && nr > 0 ==>
              var step := EraseCmd(mmc.Part(), Wire(mmc.cfg, from), Wire(mmc.cfg, U32(from + nr - 1)), purge, true);
              mmc.log == old(mmc.log) + if purge == SecureTrim1 then [step, step.(purge := SecureTrim2)] else [step]
    ensures mmc.faults == old(mmc.faults) && Takes(mmc.cfg, from, nr, purge) ==> ret == 0
    ensures ChangedBy(old(mmc.media), mmc.media, old(mmc.log), mmc.log, mmc.cfg.eraseGroup)
  {
    if nr == 0 {
      return 0;
    }
    if mmc.cfg.IsSd() {
      return -1;
    }
    if purge == SecureTrim2 {
      return -1;
    }
    if Grouped(purge) && !GroupAligned(mmc.cfg.eraseGroup, from, nr) {
      return -1;
    }
    ghost var log, media := mmc.log, mmc.media;
    var ok := SendErase(mmc, from, U32(from + nr - 1), purge);
    if !ok {
      return -1;
    }
    if purge == SecureTrim1 {
      ghost var log', media' := mmc.log, mmc.media;
      ok := SendErase(mmc, from, U32(from + nr - 1), SecureTrim2);
      ChangedTwice(media, media', mmc.media, log, log', mmc.log, mmc.cfg.eraseGroup);
      if !ok {
        return -1;
      }
    }
    return 0;
  }

  /** The blocks mmc_insecure_secure_erase tries to erase. */
  function Plan(g: nat, from: nat, nr: nat): Span
    requires g > 0
  {
    if GroupAligned(g, from, nr) then Span(from, nr) else Align(g, from, nr)
  }

  /** What mmc_insecure_secure_erase aims at. */
  function GroupAim(cfg: Config, from: nat, nr: nat, purge: Purge): Option<Aim>
    requires cfg.eraseGroup > 0
  {
    var a := Plan(cfg.eraseGroup, from, nr);
    Aimed(cfg, a.start, a.count, purge)
  }

  /** An accepted plan has blocks and consists of whole groups. */
  predicate Accepted(g: nat, a: Span)
    requires g > 0
  {
    a.count > 0 && GroupAligned(g, a.start, a.count)
  }

  /** The recorded skips around an erase of `a`, in 32-bit arithmetic. */
  function SkipsAround(from: nat, nr: nat, a: Span): seq<Span> {
    var head := U32(a.start - from);
    var tail := U32(nr - a.count - head);
    (if head != 0 then [Span(from, head)] else []) + (if tail != 0 then [Span(U32(a.start + a.count), tail)] else [])
  }

  ghost predicate InSome(b: nat, spans: seq<Span>) {
    exists i :: 0 <= i < |spans| && InSpan(b, spans[i])
  }

  /** The spans share no block, and together have exactly the blocks from `lo` to `hi`. */
  ghost predicate Partition(spans: seq<Span>, lo: nat, hi: nat) {
    (forall b: nat :: InSome(b, spans) <==> lo <= b < hi) &&
    (forall b: nat, i, j :: 0 <= i < j < |spans| ==> !(InSpan(b, spans[i]) && InSpan(b, spans[j])))
  }

  /** An accepted erase plan is a group-aligned range inside the request, and with the skips around it makes up
      the request exactly: nothing is lost, nothing is counted twice, no subtraction wraps. */
  lemma EraseAccounting(g: nat, from: nat, nr: nat)
    requires g > 0 && nr > 0 && from + nr <= TWO32 && Accepted(g, Plan(g, from, nr))
    ensures var a := Plan(g, from, nr);
            && from <= a.start && a.start + a.count <= from + nr && a.start % g == 0 && a.count % g == 0
            && U32(a.start - from) == a.start - from &&
              U32(nr - a.count - (a.start - from)) == nr - a.count - (a.start - from)
            && Partition([a] + SkipsAround(from, nr, a), from, from + nr)
  {
    AlignInside(g, from, nr);
    var a := Plan(g, from, nr);
    PartitionAround(from, nr, a);
  }

  lemma PlanWithin(g: nat, from: nat, nr: nat)
    requires g > 0 && nr > 0 && from + nr <= TWO32 && Accepted(g, Plan(g, from, nr))
    ensures var a := Plan(g, from, nr); from <= a.start && a.start + a.count <= from + nr
  {
    AlignInside(g, from, nr);
  }

  lemma PartitionAround(from: nat, nr: nat, a: Span)
    requires nr > 0 && from + nr <= TWO32 && from <= a.start && a.start + a.count <= from + nr && a.count > 0
    ensures Partition([a] + SkipsAround(from, nr, a), from, from + nr)
  {
    var head, tail := a.start - from, nr - a.count - (a.start - from);
    assert U32(head) == head && U32(tail) == tail;
    var h: seq<Span> := if head != 0 then [Span(from, head)] else [];
    var t: seq<Span> := if tail != 0 then [Span(a.start + a.count, tail)] else [];
    assert tail != 0 ==> a.start + a.count < TWO32;
    assert SkipsAround(from, nr, a) == h + t;
    var all := [a] + (h + t);
    assert all[0] == a && (head != 0 ==> all[1] == Span(from, head)) && (tail != 0 ==> all[1 + |h|] == t[0]);
  }

  predicate HasBit(w: nat, index: nat) {
    (if index == 0 then w else w / 2) % 2 == 1
  }

  /** The ranges recorded in a `skip_space` array: a bit mask and two ranges. */
  function Skips(s: seq<nat>): (r: seq<Span>)
    requires |s| >= 5
  {
    (if HasBit(s[0], 0) then [Span(s[1], s[2])] else []) + (if HasBit(s[0], 1) then [Span(s[3], s[4])] else [])
  }

  /** mmc_add_skip_space. */
  method AddSkip(skip: array<nat>, index: nat, from: nat, nr: nat)
    requires skip.Length >= 5 && index < 2
    modifies skip
    ensures HasBit(skip[0], index) && HasBit(skip[0], 1 - index) == old(HasBit(skip[0], 1 - index))
    ensures skip[1 + 2 * index] == from && skip[2 + 2 * index] == nr
    ensures skip[3 - 2 * index] == old(skip[3 - 2 * index]) && skip[4 - 2 * index] == old(skip[4 - 2 * index])
  {
    var mask := if index == 0 then 1 else 2;
    if !HasBit(skip[0], index) {
      skip[0] := skip[0] + mask;
    }
    skip[index * 2 + 1] := from;
    skip[index * 2 + 2] := nr;
  }

  /** mmc_insecure_secure_erase. */
  method InsecureSecureErase(mmc: Mmc, from: nat, nr: nat, skip: array<nat>, secure: bool) returns (ret: int)
    requires mmc.cfg.Valid() && from < TWO32 && nr < TWO32 && skip.Length >= 5
    modifies mmc`log, mmc`media, skip, mmc`faults
    ensures old(mmc.faults) <= mmc.faults
    ensures ret == 0 || ret == -1
    ensures var a := Plan(mmc.cfg.eraseGroup, from, nr);
            && PurgesAdded(old(mmc.log), mmc.log, mmc.Part(),
                           GroupAim(mmc.cfg, from, nr, if secure then SecureErase else Erase), ret == 0)
            && Skips(skip[..]) == (if ret == 0 then SkipsAround(from, nr, a) else [Span(from, nr)])
            && (mmc.faults == old(mmc.faults) && Accepted(mmc.cfg.eraseGroup, a) && !mmc.cfg.IsSd() ==> ret == 0)
    ensures ChangedBy(old(mmc.media), mmc.media, old(mmc.log), mmc.log, mmc.cfg.eraseGroup)
  {
    var alignFrom, alignNr := from, nr;
    skip[0] := 0;
    if !GroupAligned(mmc.cfg.eraseGroup, from, nr) {
      alignFrom, alignNr := AlignEraseGroup(mmc.cfg.eraseGroup, from, nr);
      AlignBounds(mmc.cfg.eraseGroup, from, nr);
    }
    if alignNr == 0 {
      AddSkip(skip, 0, from, nr);
      return -1;
    }
    var arg := if secure then SecureErase else Erase;
    ret := EraseRange(mmc, alignFrom, alignNr, arg);
    if ret != 0 {
      AddSkip(skip, 0, from, nr);
    } else {
      RecordSkips(skip, from, nr, Span(alignFrom, alignNr));
    }
  }

  /** The skips recorded after a successful erase of `a`. */
  method RecordSkips(skip: array<nat>, from: nat, nr: nat, a: Span)
    requires skip.Length >= 5 && skip[0] == 0
    modifies skip
    ensures Skips(skip[..]) == SkipsAround(from, nr, a)
  {
    var index, last := 0, 0;
    if U32(a.start - from) != 0 {
      AddSkip(skip, index, from, U32(a.start - from));
      index := index + 1;
    }
    if index != 0 {
      last := skip[2];
    }
    if U32(nr - a.count - last) != 0 {
      AddSkip(skip, index, U32(a.start + a.count), U32(nr - a.count - last));
    }
  }

  lemma AlignBounds(g: nat, from: nat, nr: nat)
    requires g > 0 && from < TWO32 && nr < TWO32
    ensures Align(g, from, nr).count <= nr && Align(g, from, nr).start < TWO32
  {
    Rounding(g, from);
    if !EarlyExit(g, from, nr) {
      Rounding(g, nr - (RoundUp(g, from) - from));
    }
  }

  /** A completed purge added to the log covers block `b`. */
  ghost predicate Covered(log: seq<Command>, log': seq<Command>, g: nat, part: nat, b: nat)
    requires g > 0
  {
    exists i :: |log| <= i < |log'| && Purges(log'[i], g, part, b)
  }

  /** The commands added to the log alter no block outside the range from `lo` to `hi`. */
  ghost predicate Confined(log: seq<Command>, log': seq<Command>, g: nat, lo: nat, hi: nat)
    requires g > 0
  {
    log <= log' && forall i, p: nat, b: nat :: |log| <= i < |log'| && Alters(log'[i], g, p, b) ==> lo <= b < hi
  }

  /** An aligned range is made of whole groups. */
  lemma WholeGroups(g: nat, from: nat, nr: nat)
    requires g > 0 && nr > 0 && GroupAligned(g, from, nr)
    ensures from / g * g == from && ((from + nr - 1) / g + 1) * g == from + nr
  {
    var q, k := from / g, nr / g;
    assert from == q * g && nr == k * g;
    assert k > 0;
    assert (q + k - 1) * g == q * g + k * g - g;
    DivModUnique(g, from + nr - 1, q + k - 1, g - 1);
    assert (q + k) * g == q * g + k * g;
  }

  /** A purge of an acceptable range alters that range and nothing else, group rounding included. */
  lemma PurgeExact(cfg: Config, from: nat, nr: nat, purge: Purge, c: Command, part: nat, p: nat, b: nat)
    requires cfg.eraseGroup > 0 && Takes(cfg, from, nr, purge) && Addressable(cfg, from, nr)
    requires IsPurge(c, part, Aimed(cfg, from, nr, purge))
    ensures Alters(c, cfg.eraseGroup, p, b) <==> p == part && from <= b < from + nr
  {
    assert from + nr - 1 < cfg.Space() <= TWO32;
    if Grouped(purge) {
      WholeGroups(cfg.eraseGroup, from, nr);
    }
  }

  lemma PurgesExact(cfg: Config, from: nat, nr: nat, purge: Purge, log: seq<Command>, log': seq<Command>,
                    part: nat, ok: bool)
    requires cfg.eraseGroup > 0 && Takes(cfg, from, nr, purge) && Addressable(cfg, from, nr)
    requires PurgesAdded(log, log', part, Aimed(cfg, from, nr, purge), ok)
    ensures Confined(log, log', cfg.eraseGroup, from, from + nr)
    ensures ok ==> forall b: nat :: from <= b < from + nr ==> Covered(log, log', cfg.eraseGroup, part, b)
  {
    forall i, p: nat, b: nat | |log| <= i < |log'|
      ensures Alters(log'[i], cfg.eraseGroup, p, b) <==> p == part && from <= b < from + nr
    {
      PurgeExact(cfg, from, nr, purge, log'[i], part, p, b);
    }
    if ok {
      forall b: nat | from <= b < from + nr
        ensures Covered(log, log', cfg.eraseGroup, part, b)
      {
        LastPurges(log, log', part, Aimed(cfg, from, nr, purge));
        assert Purges(log'[|log'| - 1], cfg.eraseGroup, part, b);
      }
    }
  }

  /** Every block of the request is covered by a completed purge or recorded as skipped. */
  ghost predicate Accounted(log: seq<Command>, log': seq<Command>, g: nat, part: nat, req: Span, skips: seq<Span>)
    requires g > 0
  {
    forall b: nat :: InSpan(b, req) && !Covered(log, log', g, part, b) ==> InSome(b, skips)
  }

  lemma InSomeSplit(b: nat, a: Span, spans: seq<Span>)
    ensures InSome(b, [a] + spans) <==> InSpan(b, a) || InSome(b, spans)
  {
    var all := [a] + spans;
    if i :| 0 <= i < |all| && InSpan(b, all[i]) {
      assert i == 0 || InSpan(b, spans[i - 1]);
    }
    if InSpan(b, a) {
      assert InSpan(b, all[0]);
    }
    if i :| 0 <= i < |spans| && InSpan(b, spans[i]) {
      assert InSpan(b, all[i + 1]);
    }
  }

  /** An erase by groups accounts for its whole request. */
  lemma EraseAccounts(cfg: Config, from: nat, nr: nat, purge: Purge, log: seq<Command>, log': seq<Command>,
                      part: nat, ok: bool)
    requires cfg.Valid() && nr > 0 && Addressable(cfg, from, nr) && Grouped(purge)
    requires PurgesAdded(log, log', part, GroupAim(cfg, from, nr, purge), ok)
    ensures Confined(log, log', cfg.eraseGroup, from, from + nr)
    ensures ok ==> Accounted(log, log', cfg.eraseGroup, part, Span(from, nr), SkipsAround(from, nr,
              Plan(cfg.eraseGroup, from, nr)))
  {
    var a := Plan(cfg.eraseGroup, from, nr);
    if Takes(cfg, a.start, a.count, purge) {
      EraseAccounting(cfg.eraseGroup, from, nr);
      PurgesExact(cfg, a.start, a.count, purge, log, log', part, ok);
      if ok {
        CoveredOrSkipped(cfg.eraseGroup, from, nr, a, log, log', part);
      }
    }
  }

  lemma CoveredOrSkipped(g: nat, from: nat, nr: nat, a: Span, log: seq<Command>, log': seq<Command>, part: nat)
    requires g > 0 && Partition([a] + SkipsAround(from, nr, a), from, from + nr)
    requires forall b: nat :: InSpan(b, a) ==> Covered(log, log', g, part, b)
    ensures Accounted(log, log', g, part, Span(from, nr), SkipsAround(from, nr, a))
  {
    var skips := SkipsAround(from, nr, a);
    forall b: nat | InSpan(b, Span(from, nr)) && !Covered(log, log', g, part, b)
      ensures InSome(b, skips)
    {
      InSomeSplit(b, a, skips);
    }
  }

  const MMC_VERSION_4_41: nat := 0x10429
  const MMC_VERSION_4_5: nat := 0x10405
  const MMC_VERSION_5_0: nat := 0x10500

  /** A trim or secure trim of the whole request, with the skip recorded when it fails. */
  method TrimOrSkip(mmc: Mmc, from: nat, nr: nat, purge: Purge, skip: array<nat>) returns (ret: int)
    requires mmc.cfg.Valid() && from < TWO32 && 0 < nr < TWO32 && skip.Length >= 5 && skip[0] == 0
    requires !mmc.cfg.IsSd() && (purge.Trim? || purge.SecureTrim1?)
    modifies mmc`log, mmc`media, skip, mmc`faults
    ensures old(mmc.faults) <= mmc.faults
    ensures ret == 0 || ret == -1
    ensures Skips(skip[..]) == if ret == 0 then [] else [Span(from, nr)]
    ensures (ret == 0) == (skip[0] == 0)
    ensures Addressable(mmc.cfg, from, nr) ==> Confined(old(mmc.log), mmc.log, mmc.cfg.eraseGroup, from, from + nr)
    ensures Addressable(mmc.cfg, from, nr) && ret == 0 ==>
              Accounted(old(mmc.log), mmc.log, mmc.cfg.eraseGroup, mmc.Part(), Span(from, nr), [])
    ensures PurgesAdded(old(mmc.log), mmc.log, mmc.Part(), Aimed(mmc.cfg, from, nr, purge), ret == 0)
    ensures ret == 0 ==>
              ReachCovered(old(mmc.log), mmc.log, mmc.cfg.eraseGroup, mmc.Part(), Aimed(mmc.cfg, from, nr, purge))
    ensures mmc.faults == old(mmc.faults) ==> ret == 0
    ensures ChangedBy(old(mmc.media), mmc.media, old(mmc.log), mmc.log, mmc.cfg.eraseGroup)
  {
    ghost var log := mmc.log;
    ret := EraseRange(mmc, from, nr, purge);
    if Addressable(mmc.cfg, from, nr) {
      PurgesExact(mmc.cfg, from, nr, purge, log, mmc.log, mmc.Part(), ret == 0);
    }
    if ret != 0 {
      AddSkip(skip, 0, from, nr);
    } else {
      AimCovered(log, mmc.log, mmc.cfg.eraseGroup, mmc.Part(), Aimed(mmc.cfg, from, nr, purge));
    }
  }

  /** mmc_insecure_secure_erase with what it accounts for. */
  method EraseOrSkip(mmc: Mmc, from: nat, nr: nat, skip: array<nat>, secure: bool) returns (ret: int)
    requires mmc.cfg.Valid() && from < TWO32 && 0 < nr < TWO32 && skip.Length >= 5
    modifies mmc`log, mmc`media, skip, mmc`faults
    ensures old(mmc.faults) <= mmc.faults
    ensures ret == 0 || ret == -1
    ensures Skips(skip[..]) ==
              if ret == 0 then SkipsAround(from, nr, Plan(mmc.cfg.eraseGroup, from, nr)) else [Span(from, nr)]
    ensures Addressable(mmc.cfg, from, nr) ==> Confined(old(mmc.log), mmc.log, mmc.cfg.eraseGroup, from, from + nr)
    ensures Addressable(mmc.cfg, from, nr) && ret == 0 ==>
              Accounted(old(mmc.log), mmc.log, mmc.cfg.eraseGroup, mmc.Part(), Span(from, nr), Skips(skip[..]))
    ensures var aim := GroupAim(mmc.cfg, from, nr, if secure then SecureErase else Erase);
            && PurgesAdded(old(mmc.log), mmc.log, mmc.Part(), aim, ret == 0)
            && (ret == 0 ==> ReachCovered(old(mmc.log), mmc.log, mmc.cfg.eraseGroup, mmc.Part(), aim))
            && (mmc.faults == old(mmc.faults) && aim.Some? ==> ret == 0)
    ensures ChangedBy(old(mmc.media), mmc.media, old(mmc.log), mmc.log, mmc.cfg.eraseGroup)
  {
    ghost var log := mmc.log;
    ret := InsecureSecureErase(mmc, from, nr, skip, secure);
    if Addressable(mmc.cfg, from, nr) {
      EraseAccounts(mmc.cfg, from, nr, if secure then SecureErase else Erase, log, mmc.log, mmc.Part(), ret == 0);
    }
    if ret == 0 {
      AimCovered(log, mmc.log, mmc.cfg.eraseGroup, mmc.Part(),
        GroupAim(mmc.cfg, from, nr, if secure then SecureErase else Erase));
    }
  }

  /** The purge a card offers for a secure wipe.  The version tests are numeric, so 4.5 counts as older than 4.41. */
  function WipeKind(cfg: Config): (r: Purge) {
    if cfg.version <= MMC_VERSION_4_41 && cfg.secErase then (if cfg.secTrim then SecureTrim1 else SecureErase)
    else if cfg.secTrim then Trim
    else Erase
  }

  /** Does the card offer any?  Above version 4.41, numerically, only with a sanitize. */
  predicate CanWipe(cfg: Config) {
    if cfg.version <= MMC_VERSION_4_41 then cfg.secErase || cfg.secTrim
    else cfg.version <= MMC_VERSION_5_0 && cfg.secSanitize
  }

  /** What a wipe aims at. */
  function WipeAim(cfg: Config, from: nat, nr: nat): Option<Aim>
    requires cfg.eraseGroup > 0
  {
    if nr == 0 || cfg.IsSd() || !CanWipe(cfg) then None
    else if Grouped(WipeKind(cfg)) then GroupAim(cfg, from, nr, WipeKind(cfg))
    else Aimed(cfg, from, nr, WipeKind(cfg))
  }

  /** Every purge command of a wipe is one the card has, and trims are preferred, which leave nothing out. */
  lemma WipeIsSupported(cfg: Config, from: nat, nr: nat, part: nat, c: Command)
    requires cfg.eraseGroup > 0 && IsPurge(c, part, WipeAim(cfg, from, nr))
    ensures !cfg.IsSd() && cfg.version <= 0x10500
    ensures c.purge.SecureErase? || c.purge.SecureTrim1? || c.purge.SecureTrim2? ==> cfg.secErase
    ensures c.purge.Trim? || c.purge.SecureTrim1? || c.purge.SecureTrim2? <==> cfg.secTrim
    ensures !c.purge.Discard?
  {
  }

  /** A card up to version 4.41, numerically, that has secure purges gets no other, and a plain trim only without them.
      Above 4.41 the purge is a plain one and the card has the sanitize that must follow. */
  lemma WipeIsSecure(cfg: Config, from: nat, nr: nat, part: nat, c: Command)
    requires cfg.eraseGroup > 0 && IsPurge(c, part, WipeAim(cfg, from, nr))
    ensures cfg.version <= 0x10429 ==>
              if cfg.secErase then c.purge.SecureErase? || c.purge.SecureTrim1? || c.purge.SecureTrim2?
              else c.purge.Trim?
    ensures cfg.version > 0x10429 ==> (c.purge.Trim? || c.purge.Erase?) && cfg.secSanitize
  {
  }

  /** Requests and cards for which a wipe sends nothing. */
  predicate WipeRefused(cfg: Config) {
    || cfg.IsSd() || cfg.version > 0x10500
    || (cfg.version <= 0x10429 && !cfg.secErase && !cfg.secTrim)
    || (cfg.version > 0x10429 && !cfg.secSanitize)
  }

  /** A wipe has something to send exactly when it is not refused and the card can trim or the request has a whole
      group. */
  lemma WipeAimExists(cfg: Config, from: nat, nr: nat)
    requires cfg.eraseGroup > 0
    ensures WipeAim(cfg, from, nr).Some? <==>
            nr > 0 && !WipeRefused(cfg) && (cfg.secTrim || Accepted(cfg.eraseGroup, Plan(cfg.eraseGroup, from, nr)))
  {
  }

  /** Above version 4.41, numerically, a wipe is completed by a sanitize. */
  predicate Sanitizes(cfg: Config) {
    cfg.version > MMC_VERSION_4_41
  }

  /** The last command of the log is a completed sanitize. */
  predicate Sanitized(log: seq<Command>) {
    log != [] && log[|log| - 1] == SanitizeCmd(true)
  }

  /** A sanitize changes nothing of what the commands before it did. */
  lemma SanitizeAppended(pre: Media, post: Media, log: seq<Command>, log': seq<Command>, g: nat, done: bool)
    requires g > 0
    ensures var l := log' + [SanitizeCmd(done)];
            && (ChangedBy(pre, post, log, log', g) ==> ChangedBy(pre, post, log, l, g))
            && (forall lo: nat, hi: nat :: Confined(log, log', g, lo, hi) ==> Confined(log, l, g, lo, hi))
            && (forall part: nat, req, skips :: log <= log' && Accounted(log, log', g, part, req, skips) ==>
                                                Accounted(log, l, g, part, req, skips))
            && (forall part: nat, b: nat ::
                  log <= log' && Covered(log, log', g, part, b) ==> Covered(log, l, g, part, b))
  {
    var l := log' + [SanitizeCmd(done)];
    assert forall i :: 0 <= i < |log'| ==> l[i] == log'[i];
    if ChangedBy(pre, post, log, log', g) {
      forall p: nat, b: nat | post(p, b) != pre(p, b)
        ensures exists c :: c in l[|log|..] && Alters(c, g, p, b)
      {
        var c :| c in log'[|log|..] && Alters(c, g, p, b);
        assert l[|log|..] == log'[|log|..] + [SanitizeCmd(done)];
      }
    }
    forall part: nat, b: nat | Covered(log, log', g, part, b)
      ensures Covered(log, l, g, part, b)
    {
      var i :| |log| <= i < |log'| && Purges(log'[i], g, part, b);
      assert Purges(l[i], g, part, b);
    }
  }

  /** mmc_do_secure_wipe. */
  method DoSecureWipe(mmc: Mmc, from: nat, nr: nat, skip: array<nat>) returns (ret: int)
    requires mmc.cfg.Valid() && from < TWO32 && nr < TWO32 && skip.Length >= 5
    modifies mmc`log, mmc`media, skip, mmc`faults
    ensures old(mmc.faults) <= mmc.faults
    ensures nr == 0 ==> ret == 0 && mmc.log == old(mmc.log) && skip[..] == old(skip[..])
    ensures nr > 0 && WipeRefused(mmc.cfg) ==> (ret == -2 || ret == -3) && mmc.log == old(mmc.log)
    ensures Addressable(mmc.cfg, from, nr) ==> Confined(old(mmc.log), mmc.log, mmc.cfg.eraseGroup, from, from + nr)
    ensures Addressable(mmc.cfg, from, nr) && nr > 0 && ret != -1 && ret != -2 && ret != -3 ==>
              Accounted(old(mmc.log), mmc.log, mmc.cfg.eraseGroup, mmc.Part(), Span(from, nr), Skips(skip[..]))
    ensures PurgedBy(old(mmc.log), mmc.log, mmc.Part(), WipeAim(mmc.cfg, from, nr))
    ensures ret == 0 && nr > 0 && Sanitizes(mmc.cfg) ==> Sanitized(mmc.log)
    ensures ret != 0 && ret != -1 && ret != -2 && ret != -3 ==> skip[0] != 0
    ensures mmc.faults == old(mmc.faults) && WipeAim(mmc.cfg, from, nr).Some? ==> ret == 0
    ensures ret == 0 ==>
              ReachCovered(old(mmc.log), mmc.log, mmc.cfg.eraseGroup, mmc.Part(), WipeAim(mmc.cfg, from, nr))
    ensures ChangedBy(old(mmc.media), mmc.media, old(mmc.log), mmc.log, mmc.cfg.eraseGroup)
  {
    if nr == 0 {
      return 0;
    }
    if mmc.cfg.IsSd() {
      return -2;
    }
    skip[0] := 0;
    if mmc.cfg.version <= MMC_VERSION_4_41 {
      if mmc.cfg.secErase || mmc.cfg.secTrim {
        ret := PurgeOnly(mmc, from, nr, skip);
      } else {
        AddSkip(skip, 0, from, nr);
        return -2;
      }
    } else if mmc.cfg.version <= MMC_VERSION_5_0 {
      if mmc.cfg.secSanitize {
        ret := PurgeAndSanitize(mmc, from, nr, skip);
      } else {
        AddSkip(skip, 0, from, nr);
        return -2;
      }
    } else {
      return -3;
    }
  }

  /** The branch of mmc_do_secure_wipe for older cards that can purge. */
  method PurgeOnly(mmc: Mmc, from: nat, nr: nat, skip: array<nat>) returns (ret: int)
    requires mmc.cfg.Valid() && from < TWO32 && 0 < nr < TWO32 && skip.Length >= 5 && skip[0] == 0
    requires !mmc.cfg.IsSd() && mmc.cfg.version <= MMC_VERSION_4_41 && CanWipe(mmc.cfg)
    modifies mmc`log, mmc`media, skip, mmc`faults
    ensures old(mmc.faults) <= mmc.faults
    ensures ret == 0 || ret == -1
    ensures Addressable(mmc.cfg, from, nr) ==> Confined(old(mmc.log), mmc.log, mmc.cfg.eraseGroup, from, from + nr)
    ensures Addressable(mmc.cfg, from, nr) && ret == 0 ==>
              Accounted(old(mmc.log), mmc.log, mmc.cfg.eraseGroup, mmc.Part(), Span(from, nr), Skips(skip[..]))
    ensures PurgedBy(old(mmc.log), mmc.log, mmc.Part(), WipeAim(mmc.cfg, from, nr))
    ensures ret == 0 ==>
              ReachCovered(old(mmc.log), mmc.log, mmc.cfg.eraseGroup, mmc.Part(), WipeAim(mmc.cfg, from, nr))
    ensures mmc.faults == old(mmc.faults) && WipeAim(mmc.cfg, from, nr).Some? ==> ret == 0
    ensures ChangedBy(old(mmc.media), mmc.media, old(mmc.log), mmc.log, mmc.cfg.eraseGroup)
  {
    if mmc.cfg.secErase {
      if mmc.cfg.secTrim {
        ret := TrimOrSkip(mmc, from, nr, SecureTrim1, skip);
      } else {
        ret := EraseOrSkip(mmc, from, nr, skip, true);
      }
    } else {
      ret := TrimOrSkip(mmc, from, nr, Trim, skip);
    }
  }

  /** The branch of mmc_do_secure_wipe for newer cards: a failed sanitize takes the whole request back. */
  method PurgeAndSanitize(mmc: Mmc, from: nat, nr: nat, skip: array<nat>) returns (ret: int)
    requires mmc.cfg.Valid() && from < TWO32 && 0 < nr < TWO32 && skip.Length >= 5 && skip[0] == 0
    requires !mmc.cfg.IsSd() && MMC_VERSION_4_41 < mmc.cfg.version && CanWipe(mmc.cfg)
    modifies mmc`log, mmc`media, skip, mmc`faults
    ensures old(mmc.faults) <= mmc.faults
    ensures Addressable(mmc.cfg, from, nr) ==> Confined(old(mmc.log), mmc.log, mmc.cfg.eraseGroup, from, from + nr)
    ensures Addressable(mmc.cfg, from, nr) && ret != -1 ==>
              Accounted(old(mmc.log), mmc.log, mmc.cfg.eraseGroup, mmc.Part(), Span(from, nr), Skips(skip[..]))
    ensures PurgedBy(old(mmc.log), mmc.log, mmc.Part(), WipeAim(mmc.cfg, from, nr))
    ensures ret == 0 ==> Sanitized(mmc.log)
    ensures ret == 0 ==>
              ReachCovered(old(mmc.log), mmc.log, mmc.cfg.eraseGroup, mmc.Part(), WipeAim(mmc.cfg, from, nr))
    ensures ret != 0 ==> skip[0] != 0
    ensures mmc.faults == old(mmc.faults) && WipeAim(mmc.cfg, from, nr).Some? ==> ret == 0
    ensures ChangedBy(old(mmc.media), mmc.media, old(mmc.log), mmc.log, mmc.cfg.eraseGroup)
  {
    if mmc.cfg.secTrim {
      ret := TrimOrSkip(mmc, from, nr, Trim, skip);
    } else {
      ret := EraseOrSkip(mmc, from, nr, skip, false);
    }
    if ret != 0 {
      return;
    }
    ghost var log' := mmc.log;
    ret := SendSanitize(mmc);
    SanitizeAppended(old(mmc.media), mmc.media, old(mmc.log), log', mmc.cfg.eraseGroup, ret == 0);
    if ret != 0 {
      skip[0] := 0;
      AddSkip(skip, 0, from, nr);
      assert Skips(skip[..])[0] == Span(from, nr);
    }
  }

  /** mmc_secure_wipe.  For a non-empty request, 0 means every block was purged and 1 means every block outside
      the recorded skips was. */
  method SecureWipe(mmc: Mmc, start: nat, nr: nat, skip: array<nat>) returns (ret: int)
    requires mmc.cfg.Valid() && start < TWO32 && nr < TWO32 && skip.Length >= 5
    modifies mmc`log, mmc`media, skip, mmc`faults
    ensures old(mmc.faults) <= mmc.faults
    ensures ret == -1 || ret == 0 || ret == 1
    ensures Addressable(mmc.cfg, start, nr) && nr > 0 && ret == 0 ==>
              forall b: nat :: start <= b < start + nr ==>
                Covered(old(mmc.log), mmc.log, mmc.cfg.eraseGroup, mmc.Part(), b)
    ensures Addressable(mmc.cfg, start, nr) && nr > 0 && ret == 1 ==>
              Accounted(old(mmc.log), mmc.log, mmc.cfg.eraseGroup, mmc.Part(), Span(start, nr), Skips(skip[..]))
    ensures nr == 0 && !mmc.cfg.noWipe ==> mmc.log == old(mmc.log) && ret == if old(skip[0]) != 0 then 1 else 0
    ensures nr > 0 && (mmc.cfg.noWipe || WipeRefused(mmc.cfg)) ==> ret == -1 && mmc.log == old(mmc.log)
    ensures nr > 0 && mmc.cfg.version > 0x10429 && ret == 0 ==>
              mmc.log != [] && mmc.log[|mmc.log| - 1] == SanitizeCmd(true)
    ensures mmc.faults == old(mmc.faults) && !mmc.cfg.noWipe ==>
              (WipeAim(mmc.cfg, start, nr).Some? ==> ret != -1) &&
              ReachCovered(old(mmc.log), mmc.log, mmc.cfg.eraseGroup, mmc.Part(), WipeAim(mmc.cfg, start, nr))
    ensures PurgedBy(old(mmc.log), mmc.log, mmc.Part(), if mmc.cfg.noWipe then None else WipeAim(mmc.cfg, start, nr))
    ensures ret == 0 && nr > 0 && Sanitizes(mmc.cfg) ==> Sanitized(mmc.log)
    ensures Addressable(mmc.cfg, start, nr) ==> Confined(old(mmc.log), mmc.log, mmc.cfg.eraseGroup, start, start + nr)
    ensures ChangedBy(old(mmc.media), mmc.media, old(mmc.log), mmc.log, mmc.cfg.eraseGroup)
  {
    if mmc.cfg.noWipe {
      return -1;
    }
    ret := DoSecureWipe(mmc, start, nr, skip);
    assert nr == 0 ==> skip[0] == old(skip[..])[0];
    if ret == -1 {
    } else if ret == -2 || ret == -3 {
      ret := -1;
    } else if skip[0] != 0 {
      ret := 1;
    } else {
      ret := 0;
      assert Skips(skip[..]) == [];
    }
  }

  /** The count the erase family goes on with: requests past the end of the device are cut, in 32 bits. */
  function Clip(cfg: Config, start: nat, nr: nat): (r: nat)
    ensures nr < TWO32 ==> r < TWO32
  {
    if U32(start + nr) > cfg.lba then U32(cfg.lba - start) else nr
  }

  /** A request that starts beyond the device in the last, incomplete erase group of the 32-bit block space.
      Clipping wraps its count and rounding wraps its start to block 0. */
  predicate Escapes(cfg: Config, start: nat, nr: nat)
    requires cfg.eraseGroup > 0
  {
    cfg.lba < start && cfg.lba < U32(start + nr) && TWO32 % cfg.eraseGroup == 0 && TWO32 - cfg.eraseGroup < start
  }

  /** Does a purge with these arguments alter block `b`? */
  predicate Reaches(g: nat, aim: Option<Aim>, b: nat)
    requires g > 0
  {
    aim.Some? && InSpan(b, Extent(g, aim.value))
  }

  /** Does the planned erase of a request name block `b`? */
  predicate PlanNames(g: nat, from: nat, nr: nat, b: nat)
    requires g > 0
  {
    SpanNames(g, Plan(g, from, nr), b)
  }

  predicate SpanNames(g: nat, a: Span, b: nat)
    requires g > 0
  {
    Accepted(g, a) && a.start <= b <= U32(a.start + a.count - 1)
  }

  /** On a block-addressed card a plan reaches exactly the blocks it names, and none when its end wraps. */
  lemma PlanReach(cfg: Config, from: nat, nr: nat, purge: Purge, b: nat)
    requires cfg.Valid() && cfg.highCapacity && from < TWO32 && nr < TWO32 && Grouped(purge)
    ensures Reaches(cfg.eraseGroup, GroupAim(cfg, from, nr, purge), b) <==>
            !cfg.IsSd() && PlanNames(cfg.eraseGroup, from, nr, b)
  {
    AlignBounds(cfg.eraseGroup, from, nr);
    SpanReach(cfg, Plan(cfg.eraseGroup, from, nr), purge, b);
  }

  lemma SpanReach(cfg: Config, a: Span, purge: Purge, b: nat)
    requires cfg.Valid() && cfg.highCapacity && a.start < TWO32 && a.count < TWO32 && Grouped(purge)
    ensures Reaches(cfg.eraseGroup, Aimed(cfg, a.start, a.count, purge), b) <==>
            !cfg.IsSd() && SpanNames(cfg.eraseGroup, a, b)
  {
    if Accepted(cfg.eraseGroup, a) {
      if a.start + a.count <= TWO32 {
        WholeGroups(cfg.eraseGroup, a.start, a.count);
      } else {
        assert U32(a.start + a.count - 1) == a.start + a.count - 1 - TWO32;
      }
    }
  }

  /** A request that starts beyond a block-addressed device erases exactly the whole groups of the device from block 0
      on when it escapes, and no block of the device otherwise. */
  lemma BeyondDevice(cfg: Config, start: nat, nr: nat, purge: Purge, b: nat)
    requires cfg.Valid() && cfg.highCapacity && !cfg.IsSd() && Grouped(purge)
    requires cfg.lba < start < TWO32 && 0 < nr < TWO32 && b < cfg.lba
    requires start + nr <= TWO32 || cfg.lba < U32(start + nr)
    ensures Reaches(cfg.eraseGroup, GroupAim(cfg, start, Clip(cfg, start, nr), purge), b) <==>
            Escapes(cfg, start, nr) && b < RoundDown(cfg.eraseGroup, cfg.lba)
  {
    ClipBeyond(cfg, start, nr);
    if start + nr == TWO32 {
      UnclippedReach(cfg, start, nr, purge, b);
    } else {
      ClippedReach(cfg, start, purge, b);
    }
  }

  /** On a block-addressed card an erase that does not wrap keeps to its request. */
  lemma UnclippedReach(cfg: Config, start: nat, nr: nat, purge: Purge, b: nat)
    requires cfg.Valid() && cfg.highCapacity && Grouped(purge)
    requires start < TWO32 && 0 < nr < TWO32 && start + nr <= TWO32
    ensures Reaches(cfg.eraseGroup, GroupAim(cfg, start, nr, purge), b) ==> start <= b < start + nr
  {
    PlanReach(cfg, start, nr, purge, b);
    if Accepted(cfg.eraseGroup, Plan(cfg.eraseGroup, start, nr)) {
      PlanWithin(cfg.eraseGroup, start, nr);
    }
  }

  lemma ClippedReach(cfg: Config, start: nat, purge: Purge, b: nat)
    requires cfg.Valid() && cfg.highCapacity && !cfg.IsSd() && Grouped(purge) && b < cfg.lba < start < TWO32
    ensures Reaches(cfg.eraseGroup, GroupAim(cfg, start, TWO32 + cfg.lba - start, purge), b) <==>
            TWO32 % cfg.eraseGroup == 0 && TWO32 - cfg.eraseGroup < start && b < RoundDown(cfg.eraseGroup, cfg.lba)
  {
    PlanReach(cfg, start, TWO32 + cfg.lba - start, purge, b);
    BeyondPlan(cfg.eraseGroup, start, cfg.lba, b);
  }

  /** Beyond the device the clip wraps, but for a request that ends at 2^32 exactly. */
  lemma ClipBeyond(cfg: Config, start: nat, nr: nat)
    requires cfg.Valid() && cfg.lba < start < TWO32 && 0 < nr < TWO32
    requires start + nr <= TWO32 || cfg.lba < U32(start + nr)
    ensures Clip(cfg, start, nr) == if start + nr == TWO32 then nr else TWO32 + cfg.lba - start
    ensures Escapes(cfg, start, nr) <==>
            start + nr != TWO32 && TWO32 % cfg.eraseGroup == 0 && TWO32 - cfg.eraseGroup < start
  {
    assert cfg.lba < U32(start + nr) <==> start + nr != TWO32;
  }

  lemma BeyondPlan(g: nat, start: nat, lba: nat, b: nat)
    requires 0 < g < TWO32 && lba < start < TWO32 && b < lba
    ensures PlanNames(g, start, TWO32 + lba - start, b) <==>
            TWO32 % g == 0 && TWO32 - g < start && b < RoundDown(g, lba)
  {
    var n := TWO32 + lba - start;
    if TWO32 <= RoundUp(g, start) {
      WrappedPlan(g, start, n);
    } else {
      StartKept(g, start, n);
    }
    BeyondSpan(g, start, lba, b, Plan(g, start, n));
  }

  lemma BeyondSpan(g: nat, start: nat, lba: nat, b: nat, a: Span)
    requires 0 < g < TWO32 && b < lba < start < TWO32
    requires if RoundUp(g, start) < TWO32 then start <= a.start
             else if TWO32 % g == 0 then a == Span(0, RoundDown(g, lba)) else a.start % g != 0
    ensures SpanNames(g, a, b) <==>
            TWO32 % g == 0 && TWO32 - g < start && b < RoundDown(g, lba)
  {
    LastGroup(g, start);
    Rounding(g, lba);
  }

  /** A plan never starts below its request unless rounding wraps. */
  lemma StartKept(g: nat, start: nat, n: nat)
    requires 0 < g && RoundUp(g, start) < TWO32
    ensures start <= Plan(g, start, n).start == RoundUp(g, start)
  {
    Rounding(g, start);
  }

  /** Only in the last, incomplete group does rounding up reach the end of the block space, and when the group
      size divides it, it reaches it exactly. */
  lemma LastGroup(g: nat, start: nat)
    requires 0 < g && start < TWO32
    ensures TWO32 % g == 0 && TWO32 - g < start ==> start % g != 0 && RoundUp(g, start) == TWO32
    ensures TWO32 % g == 0 && TWO32 <= RoundUp(g, start) ==> TWO32 - g < start && RoundUp(g, start) == TWO32
  {
    Rounding(g, start);
    if TWO32 % g == 0 && TWO32 - g < start {
      var k := TWO32 / g;
      assert TWO32 == k * g;
      assert (k - 1) * g == TWO32 - g;
      DivModUnique(g, start, k - 1, start - (TWO32 - g));
    }
  }

  /** A request from inside that group that runs past the block space is planned from block 0 on; it is accepted only
      when the group size divides the block space. */
  lemma WrappedPlan(g: nat, start: nat, n: nat)
    requires 0 < g < TWO32 && start < TWO32 <= RoundUp(g, start) && TWO32 < start + n
    ensures var a := Plan(g, start, n);
            if TWO32 % g == 0 then a == Span(0, RoundDown(g, start + n - TWO32)) else a.start % g != 0
  {
    Rounding(g, start);
    if TWO32 % g == 0 {
      LastGroup(g, start);
    } else {
      var lo := RoundUp(g, start);
      assert U32(lo) == lo - TWO32;
      if (lo - TWO32) % g == 0 {
        WrappedStart(g, start);
      }
    }
  }

  /** A start that rounding wraps is a multiple of the group size only if the block space is. */
  lemma WrappedStart(g: nat, start: nat)
    requires 0 < g && start < TWO32 <= RoundUp(g, start) && (RoundUp(g, start) - TWO32) % g == 0
    ensures TWO32 % g == 0 && RoundUp(g, start) == TWO32
  {
    var lo := RoundUp(g, start);
    Rounding(g, start);
    var k: nat :| lo == k * g;
    var j := (lo - TWO32) / g;
    QuotientNatural(lo - TWO32, g);
    assert lo - TWO32 == j * g + (lo - TWO32) % g;
    Multiples(g, j, k);
    Multiples(g, k, j);
    DivModUnique(g, TWO32, k - j, 0);
    LastGroup(g, start);
  }

  /** The blocks of the device altered by the commands added to the log lie between `lo` and `hi`. */
  ghost predicate KeptIn(cfg: Config, log: seq<Command>, log': seq<Command>, lo: nat, hi: nat)
    requires cfg.eraseGroup > 0
  {
    log <= log' &&
    forall i, p: nat, b: nat :: |log| <= i < |log'| && Alters(log'[i], cfg.eraseGroup, p, b) && b < cfg.lba ==>
      lo <= b < hi
  }

  /** Requests for which the group erases keep to their request: on any card those that start inside the device and, on
      a block-addressed card, all others that do not escape. */
  predicate Sound(cfg: Config, start: nat, nr: nat)
    requires cfg.eraseGroup > 0
  {
    Fits(cfg, start, nr) && (start <= cfg.lba || (cfg.highCapacity && !Escapes(cfg, start, nr)))
  }

  /** After the clip a request that starts inside the device is one the command argument can express. */
  lemma ClipAddressable(cfg: Config, start: nat, nr: nat)
    requires cfg.Valid() && Fits(cfg, start, nr) && start <= cfg.lba
    ensures Clip(cfg, start, nr) <= nr && Addressable(cfg, start, Clip(cfg, start, nr))
    ensures start + nr < TWO32 ==> start + Clip(cfg, start, nr) == Min(start + nr, cfg.lba)
  {
  }

  /** Sound requests keep to their request after clipping and alignment. */
  lemma ClippedErase(cfg: Config, start: nat, nr: nat, purge: Purge, b: nat)
    requires cfg.Valid() && start < TWO32 && 0 < nr < TWO32 && Sound(cfg, start, nr) && Grouped(purge) && b < cfg.lba
    requires Reaches(cfg.eraseGroup, GroupAim(cfg, start, Clip(cfg, start, nr), purge), b)
    ensures start <= b < start + nr
  {
    var g, n := cfg.eraseGroup, Clip(cfg, start, nr);
    if start <= cfg.lba {
      ClipAddressable(cfg, start, nr);
      var a := Plan(g, start, n);
      EraseAccounting(g, start, n);
      AimInside(cfg, a.start, a.count, purge, b);
    } else {
      BeyondDevice(cfg, start, nr, purge, b);
    }
  }

  /** An addressable request that mmc_erase takes reaches exactly its blocks. */
  lemma AimInside(cfg: Config, from: nat, nr: nat, purge: Purge, b: nat)
    requires cfg.Valid() && Takes(cfg, from, nr, purge) && Addressable(cfg, from, nr)
    ensures Reaches(cfg.eraseGroup, Aimed(cfg, from, nr, purge), b) <==> from <= b < from + nr
  {
    assert from + nr - 1 < cfg.Space() <= TWO32;
    if Grouped(purge) {
      WholeGroups(cfg.eraseGroup, from, nr);
    }
  }

  /** Requests for which the trims keep to their request: all but those that start beyond a byte-addressed device. */
  predicate TrimSound(cfg: Config, start: nat, nr: nat) {
    Fits(cfg, start, nr) && (start <= cfg.lba || Addressable(cfg, start, nr))
  }

  /** A trim that starts beyond the device names no block of it: the clipped end precedes the start. */
  lemma ClippedTrim(cfg: Config, start: nat, nr: nat, purge: Purge, b: nat)
    requires cfg.Valid() && start < TWO32 && 0 < nr < TWO32 && TrimSound(cfg, start, nr) && !Grouped(purge)
    requires b < cfg.lba && Reaches(cfg.eraseGroup, Aimed(cfg, start, Clip(cfg, start, nr), purge), b)
    ensures start <= b < start + nr
  {
    var n := Clip(cfg, start, nr);
    assert cfg.lba < start && start + nr < TWO32 ==> U32(start + n - 1) == cfg.lba - 1;
    if start <= cfg.lba {
      ClipAddressable(cfg, start, nr);
      AimInside(cfg, start, n, purge, b);
    } else if start + nr == TWO32 {
      AimInside(cfg, start, n, purge, b);
    }
  }

  /** From the reach of an aim to the commands. */
  lemma AimKept(cfg: Config, log: seq<Command>, log': seq<Command>, part: nat, aim: Option<Aim>, lo: nat, hi: nat)
    requires cfg.Valid() && PurgedBy(log, log', part, aim)
    requires forall b: nat :: b < cfg.lba && Reaches(cfg.eraseGroup, aim, b) ==> lo <= b < hi
    ensures KeptIn(cfg, log, log', lo, hi)
  {
    forall i, p: nat, b: nat | |log| <= i < |log'| && Alters(log'[i], cfg.eraseGroup, p, b) && b < cfg.lba
      ensures lo <= b < hi
    {
      ExtentExact(log'[i], part, aim.value, cfg.eraseGroup, p, b);
      assert Reaches(cfg.eraseGroup, aim, b);
    }
  }

  /** Every block a completed purge reaches is covered. */
  ghost predicate ReachCovered(log: seq<Command>, log': seq<Command>, g: nat, part: nat, aim: Option<Aim>)
    requires g > 0
  {
    forall b: nat :: Reaches(g, aim, b) ==> Covered(log, log', g, part, b)
  }

  lemma AimCovered(log: seq<Command>, log': seq<Command>, g: nat, part: nat, aim: Option<Aim>)
    requires g > 0 && PurgesAdded(log, log', part, aim, true)
    ensures ReachCovered(log, log', g, part, aim)
  {
    forall b: nat | Reaches(g, aim, b)
      ensures Covered(log, log', g, part, b)
    {
      LastPurges(log, log', part, aim);
      ExtentExact(log'[|log'| - 1], part, aim.value, g, part, b);
    }
  }

  /** The clip and erase shared by mmc_mmc_erase and mmc_mmc_secure_erase: whatever the outcome, every block of the
      clipped request was purged or is recorded as skipped. */
  method EraseClipped(mmc: Mmc, start: nat, nr: nat, skip: array<nat>, secure: bool) returns (ret: int)
    requires mmc.cfg.Valid() && start < TWO32 && 0 < nr < TWO32 && skip.Length >= 5
    modifies mmc`log, mmc`media, skip, mmc`faults
    ensures old(mmc.faults) <= mmc.faults
    ensures ret == 0 || ret == -1
    ensures ret == -1 ==> skip[0] != 0 && Skips(skip[..]) == [Span(start, Clip(mmc.cfg, start, nr))]
    ensures Fits(mmc.cfg, start, nr) && start <= mmc.cfg.lba ==>
              Accounted(old(mmc.log), mmc.log, mmc.cfg.eraseGroup, mmc.Part(),
                        Span(start, Clip(mmc.cfg, start, nr)), Skips(skip[..]))
    ensures Sound(mmc.cfg, start, nr) ==> KeptIn(mmc.cfg, old(mmc.log), mmc.log, start, start + nr)
    ensures var aim := GroupAim(mmc.cfg, start, Clip(mmc.cfg, start, nr), if secure then SecureErase else Erase);
            && PurgesAdded(old(mmc.log), mmc.log, mmc.Part(), aim, ret == 0)
            && (mmc.faults == old(mmc.faults) && aim.Some? ==> ret == 0)
            && (ret == 0 ==> ReachCovered(old(mmc.log), mmc.log, mmc.cfg.eraseGroup, mmc.Part(), aim))
    ensures ChangedBy(old(mmc.media), mmc.media, old(mmc.log), mmc.log, mmc.cfg.eraseGroup)
  {
    var n := nr;
    if U32(start + n) > mmc.cfg.lba {
      n := U32(mmc.cfg.lba - start);
    }
    ghost var log, purge := mmc.log, if secure then SecureErase else Erase;
    ret := InsecureSecureErase(mmc, start, n, skip, secure);
    ClippedReport(mmc.cfg, start, nr, log, mmc.log, mmc.Part(), purge, ret == 0, Skips(skip[..]));
  }

  lemma ClippedReport(cfg: Config, start: nat, nr: nat, log: seq<Command>, log': seq<Command>, part: nat, purge: Purge,
                      ok: bool, skips: seq<Span>)
    requires cfg.Valid() && start < TWO32 && 0 < nr < TWO32 && Grouped(purge)
    requires var n := Clip(cfg, start, nr);
             && PurgesAdded(log, log', part, GroupAim(cfg, start, n, purge), ok)
             && skips == if ok then SkipsAround(start, n, Plan(cfg.eraseGroup, start, n)) else [Span(start, n)]
    ensures Fits(cfg, start, nr) && start <= cfg.lba ==>
              Accounted(log, log', cfg.eraseGroup, part, Span(start, Clip(cfg, start, nr)), skips)
    ensures Sound(cfg, start, nr) ==> KeptIn(cfg, log, log', start, start + nr)
    ensures PurgedBy(log, log', part, GroupAim(cfg, start, Clip(cfg, start, nr), purge))
    ensures ok ==>
              ReachCovered(log, log', cfg.eraseGroup, part, GroupAim(cfg, start, Clip(cfg, start, nr), purge))
    ensures !ok ==> skips == [Span(start, Clip(cfg, start, nr))]
  {
    var n := Clip(cfg, start, nr);
    var aim := GroupAim(cfg, start, n, purge);
    if Sound(cfg, start, nr) {
      forall b: nat | b < cfg.lba && Reaches(cfg.eraseGroup, aim, b)
        ensures start <= b < start + nr
      {
        ClippedErase(cfg, start, nr, purge, b);
      }
      AimKept(cfg, log, log', part, aim, start, start + nr);
    }
    if ok {
      AimCovered(log, log', cfg.eraseGroup, part, aim);
    }
    if Fits(cfg, start, nr) && start <= cfg.lba && n > 0 {
      ClipAddressable(cfg, start, nr);
      EraseAccounts(cfg, start, n, purge, log, log', part, ok);
    }
    assert !ok ==> skips[0] == Span(start, n);
  }

  /** mmc_mmc_erase.  On a device that erases, 0 means every block of the clipped request was purged and 1 that
      every block outside the recorded skips was. */
  method MmcErase(mmc: Mmc, start: nat, nr: nat, skip: array<nat>) returns (ret: int)
    requires mmc.cfg.Valid() && start < TWO32 && nr < TWO32 && skip.Length >= 5
    modifies mmc`log, mmc`media, skip, mmc`faults
    ensures old(mmc.faults) <= mmc.faults
    ensures if mmc.cfg.IsSd() || mmc.cfg.noErase then ret == -1 else ret == 0 || ret == 1
    ensures Fits(mmc.cfg, start, nr) && start <= mmc.cfg.lba && ret == 0 ==>
              forall b: nat :: start <= b < start + Clip(mmc.cfg, start, nr) ==>
                Covered(old(mmc.log), mmc.log, mmc.cfg.eraseGroup, mmc.Part(), b)
    ensures Fits(mmc.cfg, start, nr) && start <= mmc.cfg.lba && ret == 1 ==>
              Accounted(old(mmc.log), mmc.log, mmc.cfg.eraseGroup, mmc.Part(),
                        Span(start, Clip(mmc.cfg, start, nr)), Skips(skip[..]))
    ensures Sound(mmc.cfg, start, nr) ==> KeptIn(mmc.cfg, old(mmc.log), mmc.log, start, start + nr)
    ensures PurgedBy(old(mmc.log), mmc.log, mmc.Part(), EraseAim(mmc.cfg, start, nr, Erase))
    ensures SanitizeAdded(old(mmc.log), mmc.log) <==>
            !mmc.cfg.IsSd() && !mmc.cfg.noErase && nr > 0 && mmc.cfg.sanitizeOnErase && mmc.cfg.secSanitize
    ensures mmc.faults == old(mmc.faults) ==>
              ReachCovered(old(mmc.log), mmc.log, mmc.cfg.eraseGroup, mmc.Part(), EraseAim(mmc.cfg, start, nr, Erase))
    ensures ChangedBy(old(mmc.media), mmc.media, old(mmc.log), mmc.log, mmc.cfg.eraseGroup)
  {
    if mmc.cfg.IsSd() {
      return -1;
    }
    if mmc.cfg.noErase {
      return -1;
    }
    if nr == 0 {
      return 0;
    }
    ret := EraseClipped(mmc, start, nr, skip, false);
    if skip[0] != 0 {
      ret := 1;
    }
    ghost var log := mmc.log;
    if mmc.cfg.sanitizeOnErase && mmc.cfg.secSanitize {
      var ignored := SendSanitize(mmc);
    }
    SanitizedAfter(mmc.cfg, old(mmc.media), mmc.media, old(mmc.log), log, mmc.log, mmc.Part(),
      EraseAim(mmc.cfg, start, nr, Erase));
  }

  /** An erase and, or not, a sanitize after it. */
  lemma SanitizedAfter(cfg: Config, pre: Media, post: Media, log: seq<Command>, log': seq<Command>,
                       log'': seq<Command>, part: nat, aim: Option<Aim>)
    requires cfg.Valid() && PurgesAdded(log, log', part, aim, false) && ChangedBy(pre, post, log, log', cfg.eraseGroup)
    requires log'' == log' || exists done :: log'' == log' + [SanitizeCmd(done)]
    ensures PurgedBy(log, log'', part, aim) && ChangedBy(pre, post, log, log'', cfg.eraseGroup)
    ensures SanitizeAdded(log, log'') <==> log'' != log'
    ensures ReachCovered(log, log', cfg.eraseGroup, part, aim) ==> ReachCovered(log, log'', cfg.eraseGroup, part, aim)
    ensures forall req, skips :: Accounted(log, log', cfg.eraseGroup, part, req, skips) ==>
              Accounted(log, log'', cfg.eraseGroup, part, req, skips)
    ensures forall lo: nat, hi: nat :: KeptIn(cfg, log, log', lo, hi) ==> KeptIn(cfg, log, log'', lo, hi)
  {
    if log'' != log' {
      var done :| log'' == log' + [SanitizeCmd(done)];
      SanitizeAppended(pre, post, log, log', cfg.eraseGroup, done);
      assert log''[|log'|].SanitizeCmd?;
    }
  }

  /** A sanitize was sent. */
  ghost predicate SanitizeAdded(log: seq<Command>, log': seq<Command>) {
    exists i :: |log| <= i < |log'| && log'[i].SanitizeCmd?
  }

  /** mmc_mmc_secure_erase. */
  method MmcSecureErase(mmc: Mmc, start: nat, nr: nat, skip: array<nat>) returns (ret: int)
    requires mmc.cfg.Valid() && start < TWO32 && nr < TWO32 && skip.Length >= 5
    modifies mmc`log, mmc`media, skip, mmc`faults
    ensures old(mmc.faults) <= mmc.faults
    ensures ret == 0 || ret == -1
    ensures Fits(mmc.cfg, start, nr) && start <= mmc.cfg.lba && nr > 0 && !mmc.cfg.IsSd() && mmc.cfg.secErase ==>
              Accounted(old(mmc.log), mmc.log, mmc.cfg.eraseGroup, mmc.Part(),
                        Span(start, Clip(mmc.cfg, start, nr)), Skips(skip[..]))
    ensures Sound(mmc.cfg, start, nr) ==> KeptIn(mmc.cfg, old(mmc.log), mmc.log, start, start + nr)
    ensures PurgedBy(old(mmc.log), mmc.log, mmc.Part(), EraseAim(mmc.cfg, start, nr, SecureErase))
    ensures ret == 0 ==> ReachCovered(old(mmc.log), mmc.log, mmc.cfg.eraseGroup, mmc.Part(),
                                      EraseAim(mmc.cfg, start, nr, SecureErase))
    ensures mmc.faults == old(mmc.faults) && EraseAim(mmc.cfg, start, nr, SecureErase).Some? ==> ret == 0
    ensures !mmc.cfg.secErase && nr > 0 ==> ret == -1 && mmc.log == old(mmc.log)
    ensures ChangedBy(old(mmc.media), mmc.media, old(mmc.log), mmc.log, mmc.cfg.eraseGroup)
  {
    if mmc.cfg.IsSd() {
      return -1;
    }
    if nr == 0 {
      return 0;
    }
    if !mmc.cfg.secErase {
      return -1;
    }
    ret := EraseClipped(mmc, start, nr, skip, true);
  }

  /** What the card and the driver must support for a purge. */
  predicate Supports(cfg: Config, purge: Purge) {
    match purge
    case Erase => !cfg.noErase
    case SecureErase => cfg.secErase
    case Trim => cfg.secTrim
    case Discard => cfg.version >= MMC_VERSION_4_5
    case SecureTrim1 => cfg.secErase && cfg.secTrim
    case SecureTrim2 => false
  }

  /** What the erases, the trims and the discard aim at. */
  function EraseAim(cfg: Config, start: nat, nr: nat, purge: Purge): Option<Aim>
    requires cfg.eraseGroup > 0
  {
    if nr == 0 || !Supports(cfg, purge) then None
    else if Grouped(purge) then GroupAim(cfg, start, Clip(cfg, start, nr), purge)
    else Aimed(cfg, start, Clip(cfg, start, nr), purge)
  }

  /** mmc_mmc_trim, mmc_mmc_discard and mmc_mmc_secure_trim differ only in the purge and in what the card must
      support. */
  method MmcTrim(mmc: Mmc, start: nat, nr: nat, purge: Purge) returns (ret: int)
    requires mmc.cfg.Valid() && start < TWO32 && nr < TWO32
    requires purge.Trim? || purge.Discard? || purge.SecureTrim1?
    modifies mmc`log, mmc`media, mmc`faults
    ensures old(mmc.faults) <= mmc.faults
    ensures ret == 0 || ret == -1
    ensures Fits(mmc.cfg, start, nr) && start <= mmc.cfg.lba && ret == 0 ==>
              forall b: nat :: start <= b < start + Clip(mmc.cfg, start, nr) ==>
                Covered(old(mmc.log), mmc.log, mmc.cfg.eraseGroup, mmc.Part(), b)
    ensures TrimSound(mmc.cfg, start, nr) ==> KeptIn(mmc.cfg, old(mmc.log), mmc.log, start, start + nr)
    ensures PurgedBy(old(mmc.log), mmc.log, mmc.Part(), EraseAim(mmc.cfg, start, nr, purge))
    ensures ret == 0 ==> ReachCovered(old(mmc.log), mmc.log, mmc.cfg.eraseGroup, mmc.Part(),
                                      EraseAim(mmc.cfg, start, nr, purge))
    ensures mmc.faults == old(mmc.faults) && EraseAim(mmc.cfg, start, nr, purge).Some? ==> ret == 0
    ensures nr > 0 && (if purge.Discard? then mmc.cfg.version < MMC_VERSION_4_5
                       else !mmc.cfg.secTrim || (purge.SecureTrim1? && !mmc.cfg.secErase)) ==>
              ret == -1 && mmc.log == old(mmc.log)
    ensures ChangedBy(old(mmc.media), mmc.media, old(mmc.log), mmc.log, mmc.cfg.eraseGroup)
  {
    if mmc.cfg.IsSd() {
      return -1;
    }
    if nr == 0 {
      return 0;
    }
    var n := nr;
    if U32(start + n) > mmc.cfg.lba {
      n := U32(mmc.cfg.lba - start);
    }
    var supported :=
      if purge.Discard? then mmc.cfg.version >= MMC_VERSION_4_5
      else if purge.SecureTrim1? then mmc.cfg.secErase && mmc.cfg.secTrim
      else mmc.cfg.secTrim;
    if !supported {
      return -1;
    }
    ghost var log := mmc.log;
    ret := EraseRange(mmc, start, n, purge);
    TrimReport(mmc.cfg, start, nr, log, mmc.log, mmc.Part(), purge, ret == 0 && n > 0);
  }

  lemma TrimReport(cfg: Config, start: nat, nr: nat, log: seq<Command>, log': seq<Command>, part: nat, purge: Purge,
                   ok: bool)
    requires cfg.Valid() && start < TWO32 && 0 < nr < TWO32 && !Grouped(purge)
    requires PurgesAdded(log, log', part, Aimed(cfg, start, Clip(cfg, start, nr), purge), ok)
    ensures Fits(cfg, start, nr) && start <= cfg.lba && ok ==>
              forall b: nat :: start <= b < start + Clip(cfg, start, nr) ==> Covered(log, log', cfg.eraseGroup, part, b)
    ensures TrimSound(cfg, start, nr) ==> KeptIn(cfg, log, log', start, start + nr)
    ensures ok ==> ReachCovered(log, log', cfg.eraseGroup, part, Aimed(cfg, start, Clip(cfg, start, nr), purge))
  {
    var n := Clip(cfg, start, nr);
    var aim := Aimed(cfg, start, n, purge);
    if TrimSound(cfg, start, nr) {
      forall b: nat | b < cfg.lba && Reaches(cfg.eraseGroup, aim, b)
        ensures start <= b < start + nr
      {
        ClippedTrim(cfg, start, nr, purge, b);
      }
      AimKept(cfg, log, log', part, aim, start, start + nr);
    }
    if ok {
      AimCovered(log, log', cfg.eraseGroup, part, aim);
      if Fits(cfg, start, nr) && start <= cfg.lba {
        ClipAddressable(cfg, start, nr);
        PurgesExact(cfg, start, n, purge, log, log', part, ok);
      }
    }
  }

  /** mmc_mmc_sanitize. */
  method MmcSanitize(mmc: Mmc) returns (ret: int)
    modifies mmc`log, mmc`faults
    ensures old(mmc.faults) <= mmc.faults
    ensures if mmc.cfg.IsSd() || !mmc.cfg.secSanitize then ret == -1 && mmc.log == old(mmc.log)
            else (ret == 0 || ret == -1) && mmc.log == old(mmc.log) + [SanitizeCmd(ret == 0)] &&
                 (ret == 0 <==> mmc.faults == old(mmc.faults))
  {
    if mmc.cfg.IsSd() {
      return -1;
    }
    if !mmc.cfg.secSanitize {
      return -1;
    }
    ret := SendSanitize(mmc);
    if ret != 0 {
      ret := -1;
    }
  }
}
