/** The operation table of a card with secure storage, and runs of its operations (sunxi_mmc_interface.c). */
module BlockOps {
  import opened Words
  import opened Card
  import opened Transfer
  import opened SecureStore
  import opened Purging
  import opened Boot
  import opened Window

  const BOOT0_SDMMC_START: nat := 256
  const BOOT0_EMMC3_START: nat := 384

  /** The entries of the operation table.  Starts of the first five are 64-bit. */
  datatype Op =
    | Read(start: nat, count: nat)
    | Write(start: nat, data: seq<Block>)
    | ZeroErase(start: nat, count: nat)
    | MassRead(start: nat, count: nat)
    | MassWrite(start: nat, data: seq<Block>)
    | ItemRead(item: nat, count: nat)
    | ItemReadBackup(item: nat, count: nat)
    | ItemWrite(item: nat, data: seq<Block>)
    | Wipe(start: nat, count: nat)
    | EraseGroups(start: nat, count: nat)
    | SecureEraseGroups(start: nat, count: nat)
    | TrimBlocks(start: nat, count: nat, purge: Purge)
    | Sanitize

  /** Mass production takes the boot image path. */
  predicate BootPath(cfg: Config, start: nat, n: nat) {
    ((cfg.devNum == 2 && start == BOOT0_SDMMC_START) || (cfg.devNum == 3 && start == BOOT0_EMMC3_START)) &&
    start + n < cfg.logicalOffset
  }

  predicate OnBootPath(cfg: Config, op: Op) {
    match op
    case MassRead(start, n) => BootPath(cfg, start, n)
    case MassWrite(start, data) => BootPath(cfg, start, |data|)
    case _ => false
  }

  /** Operations that may leave the card in another hardware partition. */
  predicate MovesPart(cfg: Config, op: Op) {
    BootOn(cfg) && OnBootPath(cfg, op)
  }

  /** Some operation does: the boot partition is enabled and the logical offset leaves room for the boot image path. */
  predicate CanMove(cfg: Config) {
    BootOn(cfg) &&
    ((cfg.devNum == 2 && BOOT0_SDMMC_START < cfg.logicalOffset) ||
     (cfg.devNum == 3 && BOOT0_EMMC3_START < cfg.logicalOffset))
  }

  /** An empty burn on the boot image path. */
  function EmptyBurn(cfg: Config): Op {
    MassWrite(if cfg.devNum == 2 then BOOT0_SDMMC_START else BOOT0_EMMC3_START, [])
  }

  lemma CanMoveMeaning(cfg: Config)
    ensures CanMove(cfg) <==> exists op :: Typed(op) && MovesPart(cfg, op)
  {
    if CanMove(cfg) {
      assert Typed(EmptyBurn(cfg)) && MovesPart(cfg, EmptyBurn(cfg));
    }
  }

  /** With the logical offset the platform headers set, 0, no operation does. */
  lemma NoBootPathAtOffsetZero(cfg: Config, op: Op)
    requires cfg.logicalOffset == 0
    ensures !CanMove(cfg) && !MovesPart(cfg, op)
  {
  }

  /** The ranges the C types can carry. */
  predicate Typed(op: Op) {
    match op
    case Read(_, n) => n < TWO32
    case Write(_, data) => |data| < TWO32
    case ZeroErase(_, n) => n < TWO32
    case MassRead(_, n) => n < TWO32
    case MassWrite(_, data) => |data| < TWO32
    case ItemRead(_, n) => n < TWO32
    case ItemReadBackup(_, n) => n < TWO32
    case ItemWrite(_, data) => |data| < TWO32
    case Wipe(start, n) => start < TWO32 && n < TWO32
    case EraseGroups(start, n) => start < TWO32 && n < TWO32
    case SecureEraseGroups(start, n) => start < TWO32 && n < TWO32
    case TrimBlocks(start, n, purge) =>
      start < TWO32 && n < TWO32 && (purge.Trim? || purge.Discard? || purge.SecureTrim1?)
    case Sanitize => true
  }

  function Unless(refused: bool, spans: seq<Span>): seq<Span> {
    if refused then [] else spans
  }

  /** The writes an operation makes of a request that the check lets through. */
  function Transfers(cfg: Config, op: Op): seq<Span> {
    match op
    case Write(start, data) => Unless(CheckSecureArea(start, |data|), [Span(U32(start), |data|)])
    case ZeroErase(start, n) => Unless(CheckSecureArea(start, n), [Span(U32(start), n)])
    case MassWrite(start, data) =>
      Unless(CheckSecureArea(start, |data|),
        if BootPath(cfg, start, |data|) then
          Unless(!UserOn(cfg), [Span(start, |data|)]) + Unless(!BootOn(cfg), [Span(BootStart(cfg), |data|)])
        else [Span(U32(start), |data|)])
    case _ => []
  }

  /** What a purge aims at that the check lets through. */
  function PurgeAim(cfg: Config, op: Op): Option<Aim>
    requires cfg.eraseGroup > 0
  {
    match op
    case Wipe(start, n) => if CheckSecureArea(start, n) || cfg.noWipe then None else WipeAim(cfg, start, n)
    case EraseGroups(start, n) => if CheckSecureArea(start, n) then None else EraseAim(cfg, start, n, Erase)
    case SecureEraseGroups(start, n) => if CheckSecureArea(start, n) then None else EraseAim(cfg, start, n, SecureErase)
    case TrimBlocks(start, n, purge) => if CheckSecureArea(start, n) then None else EraseAim(cfg, start, n, purge)
    case _ => None
  }

  /** A command of one of these writes. */
  ghost predicate SentFor(cfg: Config, ts: seq<Span>, c: Command)
    requires cfg.bMax > 0
  {
    c.WriteCmd? && exists i :: 0 <= i < |ts| && c in Sent(cfg, c.part, ts[i].start, ts[i].count)
  }

  /** The commands an operation puts on the bus of a card in partition `part`. */
  ghost predicate Issues(cfg: Config, op: Op, part: nat, c: Command)
    requires cfg.Valid()
  {
    || c.ReadCmd?
    || c.SanitizeCmd?
    || IsPurge(c, part, PurgeAim(cfg, op))
    || (SentFor(cfg, Transfers(cfg, op), c) && (c.part == part || OnBootPath(cfg, op)))
    || (op.ItemWrite? && c in ItemCommands(cfg, part, op.item, |op.data|))
  }

  /** The blocks an operation may alter. */
  ghost predicate MayAlter(cfg: Config, op: Op, b: nat)
    requires cfg.Valid()
  {
    || Reaches(cfg.eraseGroup, PurgeAim(cfg, op), b)
    || (exists i :: 0 <= i < |Transfers(cfg, op)| &&
          Touches(cfg, Transfers(cfg, op)[i].start, Transfers(cfg, op)[i].count, b))
    || (op.ItemWrite? && op.item <= MAX_ITEM && InItem(op.item, b))
  }

  /** Operations that reach the window without being an item write. */
  predicate Breaches(cfg: Config, op: Op)
    requires cfg.Valid()
  {
    || AimHits(cfg, PurgeAim(cfg, op))
    || exists i :: 0 <= i < |Transfers(cfg, op)| &&
         WriteHits(cfg, Transfers(cfg, op)[i].start, Transfers(cfg, op)[i].count)
  }

  lemma TransfersTyped(cfg: Config, op: Op)
    requires Typed(op)
    ensures forall i :: 0 <= i < |Transfers(cfg, op)| ==>
              Transfers(cfg, op)[i].start < TWO32 && Transfers(cfg, op)[i].count < TWO32
  {
  }

  /** What the commands of an operation alter is what it may alter. */
  lemma IssuedAlters(cfg: Config, op: Op, part: nat, c: Command, p: nat, b: nat)
    requires cfg.Valid() && Typed(op) && Issues(cfg, op, part, c) && Alters(c, cfg.eraseGroup, p, b)
    ensures MayAlter(cfg, op, b)
  {
    if IsPurge(c, part, PurgeAim(cfg, op)) {
      ExtentExact(c, part, PurgeAim(cfg, op).value, cfg.eraseGroup, p, b);
    } else if SentFor(cfg, Transfers(cfg, op), c) {
      var ts := Transfers(cfg, op);
      var i :| 0 <= i < |ts| && c in Sent(cfg, c.part, ts[i].start, ts[i].count);
      TransfersTyped(cfg, op);
      SentTouches(cfg, c.part, ts[i].start, ts[i].count, c, p, b);
    } else {
      ItemCommandsInside(cfg, part, op.item, |op.data|, c, p, b);
    }
  }

  lemma SentTouches(cfg: Config, part: nat, start: nat, n: nat, c: Command, p: nat, b: nat)
    requires cfg.Valid() && start < TWO32 && n < TWO32
    requires c in Sent(cfg, part, start, n) && Alters(c, cfg.eraseGroup, p, b)
    ensures Touches(cfg, start, n, b)
  {
    SentPart(cfg, part, start, n, c);
    WriteReach(cfg, part, start, n, b);
    var i :| 0 <= i < |Sent(cfg, part, start, n)| && Sent(cfg, part, start, n)[i] == c;
    assert WritesBlock(Sent(cfg, part, start, n)[i], part, b);
  }

  lemma TouchesSent(cfg: Config, part: nat, start: nat, n: nat, b: nat) returns (c: Command)
    requires cfg.Valid() && start < TWO32 && n < TWO32 && Touches(cfg, start, n, b)
    ensures c in Sent(cfg, part, start, n) && c.WriteCmd? && c.part == part && Alters(c, cfg.eraseGroup, part, b)
  {
    WriteReach(cfg, part, start, n, b);
    var i :| 0 <= i < |Sent(cfg, part, start, n)| && WritesBlock(Sent(cfg, part, start, n)[i], part, b);
    c := Sent(cfg, part, start, n)[i];
    SentPart(cfg, part, start, n, c);
  }

  /** Isolation of one operation, exactly: on any card in any partition, some command of an operation other than an item
      write alters a block of the window if and only if the operation breaches it. */
  lemma BreachExact(cfg: Config, op: Op, part: nat)
    requires cfg.Valid() && Typed(op) && !op.ItemWrite?
    ensures Breaches(cfg, op) <==>
            exists c: Command, p: nat, b: nat ::
              Issues(cfg, op, part, c) && Alters(c, cfg.eraseGroup, p, b) && InWindow(b) && b < cfg.lba
  {
    var aim, ts := PurgeAim(cfg, op), Transfers(cfg, op);
    TransfersTyped(cfg, op);
    if AimHits(cfg, aim) {
      AimHitsMeaning(cfg, aim);
      var b: nat :| InWindow(b) && b < cfg.lba && Reaches(cfg.eraseGroup, aim, b);
      var c := EraseCmd(part, aim.value.from, aim.value.to, aim.value.purge, true);
      ExtentExact(c, part, aim.value, cfg.eraseGroup, part, b);
      assert Issues(cfg, op, part, c) && Alters(c, cfg.eraseGroup, part, b);
    } else if i :| 0 <= i < |ts| && WriteHits(cfg, ts[i].start, ts[i].count) {
      WriteHitsMeaning(cfg, ts[i].start, ts[i].count);
      var b: nat :| InWindow(b) && b < cfg.lba && Touches(cfg, ts[i].start, ts[i].count, b);
      var c := TouchesSent(cfg, part, ts[i].start, ts[i].count, b);
      assert Issues(cfg, op, part, c) && Alters(c, cfg.eraseGroup, part, b);
    }
    if c: Command, p: nat, b: nat :|
      Issues(cfg, op, part, c) && Alters(c, cfg.eraseGroup, p, b) && InWindow(b) && b < cfg.lba
    {
      IssuedAlters(cfg, op, part, c, p, b);
      GuardSparesWindow(cfg, op, b);
    }
  }

  /** No operation that does not breach the window may alter a block of it, but for an item write. */
  lemma GuardSparesWindow(cfg: Config, op: Op, b: nat)
    requires cfg.Valid() && Typed(op) && !op.ItemWrite? && MayAlter(cfg, op, b) && InWindow(b) && b < cfg.lba
    ensures Breaches(cfg, op)
  {
    var ts := Transfers(cfg, op);
    if Reaches(cfg.eraseGroup, PurgeAim(cfg, op), b) {
      AimHitsMeaning(cfg, PurgeAim(cfg, op));
    } else {
      var i :| 0 <= i < |ts| && Touches(cfg, ts[i].start, ts[i].count, b);
      WriteHitsMeaning(cfg, ts[i].start, ts[i].count);
    }
  }

  /** Card and bus at one moment. */
  datatype Snapshot = Snapshot(media: Media, bytes: PartBytes, log: seq<Command>)

  ghost function Snap(mmc: Mmc): Snapshot
    reads mmc
  {
    Snapshot(mmc.media, Bytes(mmc), mmc.log)
  }

  /** What an operation can do to the partition bytes. */
  ghost predicate PartMoves(cfg: Config, op: Op, s: PartBytes, t: PartBytes) {
    || t == s
    || (op.MassRead? && OnBootPath(cfg, op) && GetMoves(cfg, s, t))
    || (op.MassWrite? && OnBootPath(cfg, op) && BurnMoves(cfg, s, t))
  }

  /** What one operation may do: it puts only its own commands on the bus, the contents change only by them, and the
      partition bytes only by its switches. */
  ghost predicate Step(cfg: Config, op: Op, s: Snapshot, t: Snapshot)
    requires cfg.Valid()
  {
    && s.log <= t.log
    && (forall i :: |s.log| <= i < |t.log| ==> Issues(cfg, op, s.bytes.Part(), t.log[i]))
    && ChangedBy(s.media, t.media, s.log, t.log, cfg.eraseGroup)
    && PartMoves(cfg, op, s.bytes, t.bytes)
  }

  /** The check sees no more of a 64-bit start than the transfer does. */
  lemma CheckTruncates(start: nat, n: nat)
    ensures CheckSecureArea(start, n) == CheckSecureArea(U32(start), n)
  {
    var q, low := start / TWO32, start % TWO32;
    assert start == q * TWO32 + low;
    U32Shift(q, low);
    U32Shift(q, low + n - 1);
  }

  /** Requests that keep to their blocks: transfers and trims that do not wrap, erases that do not escape, wipes that
      the argument can express. */
  predicate Proper(cfg: Config, op: Op)
    requires cfg.eraseGroup > 0
  {
    match op
    case Write(start, data) => Fits(cfg, U32(start), |data|)
    case ZeroErase(start, n) => Fits(cfg, U32(start), n)
    case MassWrite(start, data) => Fits(cfg, U32(start), |data|) && !BootPath(cfg, start, |data|)
    case Wipe(start, n) => Addressable(cfg, start, n)
    case EraseGroups(start, n) => Sound(cfg, start, n)
    case SecureEraseGroups(start, n) => Sound(cfg, start, n)
    case TrimBlocks(start, n, _) => TrimSound(cfg, start, n)
    case _ => true
  }

  function Count(op: Op): nat {
    match op
    case Write(_, data) => |data|
    case MassWrite(_, data) => |data|
    case ItemWrite(_, data) => |data|
    case Sanitize => 0
    case _ => op.count
  }

  /** Such a request alters no block of the device outside it. */
  lemma AltersInside(cfg: Config, op: Op, b: nat)
    requires cfg.Valid() && Typed(op) && Proper(cfg, op) && MayAlter(cfg, op, b) && b < cfg.lba
    requires !op.ItemWrite? && !op.ItemRead? && !op.ItemReadBackup? && !op.Sanitize?
    ensures !CheckSecureArea(op.start, Count(op)) && U32(op.start) <= b < U32(op.start) + Count(op)
  {
    var start, n := op.start, Count(op);
    match op
    case Wipe(_, _) => WipeInside(cfg, start, n, b);
    case EraseGroups(_, _) => ClippedErase(cfg, start, n, Erase, b);
    case SecureEraseGroups(_, _) => ClippedErase(cfg, start, n, SecureErase, b);
    case TrimBlocks(_, _, purge) => ClippedTrim(cfg, start, n, purge, b);
    case _ => TouchesInside(cfg, U32(start), n, b);
  }

  lemma TouchesInside(cfg: Config, start: nat, n: nat, b: nat)
    requires cfg.Valid() && start < TWO32 && n < TWO32 && Fits(cfg, start, n) && Touches(cfg, start, n, b)
    ensures start <= b < start + n
  {
    var c := TouchesSent(cfg, 0, start, n, b);
    SentInside(cfg, 0, start, n, c, 0, b);
  }

  lemma WipeInside(cfg: Config, start: nat, n: nat, b: nat)
    requires cfg.Valid() && start < TWO32 && n < TWO32 && Addressable(cfg, start, n)
    requires Reaches(cfg.eraseGroup, WipeAim(cfg, start, n), b)
    ensures start <= b < start + n
  {
    var g, purge := cfg.eraseGroup, WipeKind(cfg);
    if Grouped(purge) {
      var a := Plan(g, start, n);
      PlanWithin(g, start, n);
      AimInside(cfg, a.start, a.count, purge, b);
    } else {
      AimInside(cfg, start, n, purge, b);
    }
  }

  /** A write as a step. */
  lemma WriteStep(cfg: Config, op: Op, s: Snapshot, t: Snapshot, i: nat)
    requires cfg.Valid() && i < |Transfers(cfg, op)| && t.bytes == s.bytes
    requires var span := Transfers(cfg, op)[i];
             AllFrom(s.log, t.log, Sent(cfg, s.bytes.Part(), span.start, span.count))
    requires ChangedBy(s.media, t.media, s.log, t.log, cfg.eraseGroup)
    ensures Step(cfg, op, s, t)
  {
    var span := Transfers(cfg, op)[i];
    forall j | |s.log| <= j < |t.log|
      ensures Issues(cfg, op, s.bytes.Part(), t.log[j])
    {
      SentPart(cfg, s.bytes.Part(), span.start, span.count, t.log[j]);
    }
  }

  /** A burn as a step. */
  lemma BurnStep(cfg: Config, start: nat, data: seq<Block>, s: Snapshot, t: Snapshot)
    requires cfg.Valid() && BootPath(cfg, start, |data|) && !CheckSecureArea(start, |data|)
    requires BurnLogged(cfg, start, |data|, s.log, t.log)
    requires ChangedBy(s.media, t.media, s.log, t.log, cfg.eraseGroup) && BurnMoves(cfg, s.bytes, t.bytes)
    ensures Step(cfg, MassWrite(start, data), s, t)
  {
    var op, ts := MassWrite(start, data), Transfers(cfg, MassWrite(start, data));
    forall j | |s.log| <= j < |t.log|
      ensures Issues(cfg, op, s.bytes.Part(), t.log[j])
    {
      var c := t.log[j];
      if BootOn(cfg) && c in Sent(cfg, BOOT1_PART, BootStart(cfg), |data|) {
        SentPart(cfg, BOOT1_PART, BootStart(cfg), |data|, c);
        assert ts[|ts| - 1] == Span(BootStart(cfg), |data|);
      } else if !c.ReadCmd? {
        assert ts[0] == Span(start, |data|);
      }
    }
  }

  /** A purge as a step. */
  lemma PurgeStep(cfg: Config, op: Op, s: Snapshot, t: Snapshot)
    requires cfg.Valid() && PurgedBy(s.log, t.log, s.bytes.Part(), PurgeAim(cfg, op)) && t.bytes == s.bytes
    requires ChangedBy(s.media, t.media, s.log, t.log, cfg.eraseGroup)
    ensures Step(cfg, op, s, t)
  {
  }

  /** A read leaves the card alone. */
  lemma ReadStep(cfg: Config, op: Op, s: Snapshot, t: Snapshot)
    requires cfg.Valid() && ReadsAdded(s.log, t.log) && t.media == s.media && PartMoves(cfg, op, s.bytes, t.bytes)
    ensures Step(cfg, op, s, t)
  {
  }

  /** mmc_bread_secure. */
  method ReadGuarded(mmc: Mmc, start: nat, n: nat) returns (r: int, dst: seq<Block>)
    requires mmc.cfg.Valid() && n < TWO32
    modifies mmc`log, mmc`faults
    ensures old(mmc.faults) <= mmc.faults
    ensures CheckSecureArea(start, n) ==> r == -1 && mmc.log == old(mmc.log)
    ensures !CheckSecureArea(start, n) ==> r == 0 || r == n
    ensures r == n > 0 && Fits(mmc.cfg, U32(start), n) ==> dst == Blocks(mmc.media, mmc.Part(), U32(start), n)
    ensures mmc.faults == old(mmc.faults) && !CheckSecureArea(start, n) && U32(start) + n <= mmc.cfg.lba ==> r == n
    ensures r == n ==> mmc.log == old(mmc.log) + Chunked(mmc.cfg, mmc.Part(), false, U32(start), n)
    ensures Step(mmc.cfg, Read(start, n), old(Snap(mmc)), Snap(mmc))
  {
    if CheckSecureArea(start, n) {
      return -1, [];
    }
    r, dst := ReadRange(mmc, U32(start), n);
    ReadStep(mmc.cfg, Read(start, n), old(Snap(mmc)), Snap(mmc));
  }

  /** mmc_bwrite_secure. */
  method WriteGuarded(mmc: Mmc, start: nat, data: seq<Block>) returns (r: int)
    requires mmc.cfg.Valid() && |data| < TWO32
    modifies mmc`log, mmc`media, mmc`faults
    ensures old(mmc.faults) <= mmc.faults
    ensures CheckSecureArea(start, |data|) ==> r == -1 && mmc.log == old(mmc.log) && mmc.media == old(mmc.media)
    ensures !CheckSecureArea(start, |data|) ==> r == 0 || r == |data|
    ensures r == |data| && Fits(mmc.cfg, U32(start), |data|) ==>
              Wrote(old(mmc.media), mmc.media, mmc.Part(), U32(start), data)
    ensures mmc.faults == old(mmc.faults) && !CheckSecureArea(start, |data|) && U32(start) + |data| <= mmc.cfg.lba ==>
              r == |data|
    ensures Step(mmc.cfg, Write(start, data), old(Snap(mmc)), Snap(mmc))
  {
    if CheckSecureArea(start, |data|) {
      return -1;
    }
    r := WriteRange(mmc, U32(start), data);
    WriteStep(mmc.cfg, Write(start, data), old(Snap(mmc)), Snap(mmc), 0);
  }

  function Zeros(n: nat): seq<Block> {
    seq(n, _ => Plain(0))
  }

  lemma ZerosRead(m: Media, part: nat, start: nat, n: nat)
    requires Blocks(m, part, start, n) == Zeros(n)
    ensures forall b: nat, k: nat :: start <= b < start + n && k < 512 ==> m(part, b)[k] == 0
  {
    forall b: nat, k: nat | start <= b < start + n && k < 512
      ensures m(part, b)[k] == 0
    {
      assert m(part, start + (b - start)) == Blocks(m, part, start, n)[b - start] == Zeros(n)[b - start];
    }
  }

  /** mmc_berase_secure and mmc_berase: erase by writing zeros. */
  method ZeroEraseGuarded(mmc: Mmc, start: nat, n: nat) returns (r: int)
    requires mmc.cfg.Valid() && n < TWO32
    modifies mmc`log, mmc`media, mmc`faults
    ensures old(mmc.faults) <= mmc.faults
    ensures CheckSecureArea(start, n) ==> r == -1 && mmc.log == old(mmc.log) && mmc.media == old(mmc.media)
    ensures r == n && Fits(mmc.cfg, U32(start), n) ==>
              Wrote(old(mmc.media), mmc.media, mmc.Part(), U32(start), Zeros(n))
    ensures r == n && Fits(mmc.cfg, U32(start), n) ==>
              forall b: nat, k: nat :: U32(start) <= b < U32(start) + n && k < 512 ==>
                mmc.media(mmc.Part(), b)[k] == 0
    ensures mmc.faults == old(mmc.faults) && !CheckSecureArea(start, n) && U32(start) + n <= mmc.cfg.lba ==> r == n
    ensures Step(mmc.cfg, ZeroErase(start, n), old(Snap(mmc)), Snap(mmc))
  {
    if CheckSecureArea(start, n) {
      return -1;
    }
    var gotMemory := Allocate(mmc);
    if !gotMemory {
      return -1;
    }
    r := WriteRange(mmc, U32(start), Zeros(n));
    if r == n && Fits(mmc.cfg, U32(start), n) {
      ZerosRead(mmc.media, mmc.Part(), U32(start), n);
    }
    WriteStep(mmc.cfg, ZeroErase(start, n), old(Snap(mmc)), Snap(mmc), 0);
  }

  /** A card known to be in the user area stays there. */
  predicate StaysHome(s: PartBytes, t: PartBytes) {
    s.Part() == USER_PART && s.Coherent() ==> t.Part() == USER_PART && t.Coherent()
  }

  /** mmc_bread_mass_pro_secure. */
  method MassReadGuarded(mmc: Mmc, start: nat, n: nat) returns (r: int, dst: seq<Block>)
    requires mmc.cfg.Valid() && n < TWO32
    modifies mmc`log, mmc`extCsdPart, mmc`partConfig, mmc`faults
    ensures old(mmc.faults) <= mmc.faults
    ensures CheckSecureArea(start, n) ==> r == -1 && mmc.log == old(mmc.log)
    ensures r == n > 0 && Fits(mmc.cfg, U32(start), n) ==>
              if BootPath(mmc.cfg, start, n) then Fetched(mmc.cfg, mmc.media, old(mmc.Part()), start, n, dst)
              else dst == Blocks(mmc.media, old(mmc.Part()), U32(start), n)
    ensures mmc.faults == old(mmc.faults) && !CheckSecureArea(start, n) && 0 < n && U32(start) + n <= mmc.cfg.lba ==>
              r == n || (BootPath(mmc.cfg, start, n) && !UserOn(mmc.cfg) && !BootOn(mmc.cfg))
    ensures mmc.faults == old(mmc.faults) ==> StaysHome(old(Bytes(mmc)), Bytes(mmc))
    ensures r == n && !BootPath(mmc.cfg, start, n) ==>
              mmc.log == old(mmc.log) + Chunked(mmc.cfg, old(mmc.Part()), false, U32(start), n)
    ensures Step(mmc.cfg, MassRead(start, n), old(Snap(mmc)), Snap(mmc))
  {
    if CheckSecureArea(start, n) {
      return -1, [];
    }
    if BootPath(mmc.cfg, start, n) {
      r, dst := GetBoot(mmc, start, n);
    } else {
      r, dst := ReadRange(mmc, U32(start), n);
    }
    ReadStep(mmc.cfg, MassRead(start, n), old(Snap(mmc)), Snap(mmc));
  }

  /** mmc_bwrite_mass_pro_secure. */
  method MassWriteGuarded(mmc: Mmc, start: nat, data: seq<Block>) returns (r: int)
    requires mmc.cfg.Valid() && |data| < TWO32
    modifies mmc`log, mmc`media, mmc`extCsdPart, mmc`partConfig, mmc`faults
    ensures old(mmc.faults) <= mmc.faults
    ensures CheckSecureArea(start, |data|) ==> r == -1 && mmc.log == old(mmc.log) && mmc.media == old(mmc.media)
    ensures r == |data| > 0 && Fits(mmc.cfg, U32(start), |data|) ==>
              if BootPath(mmc.cfg, start, |data|) then Burned(mmc.cfg, mmc.media, mmc.Part(), start, data)
              else Wrote(old(mmc.media), mmc.media, mmc.Part(), U32(start), data)
    ensures !CheckSecureArea(start, |data|) && 0 < |data| && mmc.faults == old(mmc.faults) ==>
              || r == |data| || U32(start) + |data| > mmc.cfg.lba
              || (BootPath(mmc.cfg, start, |data|) && !UserOn(mmc.cfg) && !BootOn(mmc.cfg))
    ensures mmc.faults == old(mmc.faults) ==> StaysHome(old(Bytes(mmc)), Bytes(mmc))
    ensures Step(mmc.cfg, MassWrite(start, data), old(Snap(mmc)), Snap(mmc))
  {
    if CheckSecureArea(start, |data|) {
      return -1;
    }
    if BootPath(mmc.cfg, start, |data|) {
      r := BurnBoot(mmc, start, data);
      BurnStep(mmc.cfg, start, data, old(Snap(mmc)), Snap(mmc));
    } else {
      r := WriteRange(mmc, U32(start), data);
      WriteStep(mmc.cfg, MassWrite(start, data), old(Snap(mmc)), Snap(mmc), 0);
    }
  }

  /** block_write_secure, through the table. */
  method WriteItemStep(mmc: Mmc, item: nat, data: seq<Block>) returns (r: int, ghost how: Progressed)
    requires mmc.cfg.Valid() && |data| < TWO32
    modifies mmc`log, mmc`media, mmc`faults
    ensures old(mmc.faults) <= mmc.faults
    ensures r == |data| <==> how == Both
    ensures ItemWritten(old(mmc.media), mmc.media, mmc.Part(), item, data, how)
    ensures mmc.faults == old(mmc.faults) && OnDevice(mmc.cfg, item, |data|) ==> r == |data|
    ensures Step(mmc.cfg, ItemWrite(item, data), old(Snap(mmc)), Snap(mmc))
  {
    r, how := WriteItem(mmc, item, data);
  }

  /** mmc_secure_wipe_secure. */
  method WipeGuarded(mmc: Mmc, start: nat, n: nat, skip: array<nat>) returns (r: int)
    requires mmc.cfg.Valid() && start < TWO32 && n < TWO32 && skip.Length >= 5
    modifies mmc`log, mmc`media, skip, mmc`faults
    ensures old(mmc.faults) <= mmc.faults
    ensures CheckSecureArea(start, n) ==> r == -1 && mmc.log == old(mmc.log) && mmc.media == old(mmc.media)
    ensures r == -1 || r == 0 || r == 1
    ensures !CheckSecureArea(start, n) && Addressable(mmc.cfg, start, n) && n > 0 && r == 0 ==>
              forall b: nat :: start <= b < start + n ==>
                Covered(old(mmc.log), mmc.log, mmc.cfg.eraseGroup, mmc.Part(), b)
    ensures !CheckSecureArea(start, n) && Addressable(mmc.cfg, start, n) && n > 0 && r == 1 ==>
              Accounted(old(mmc.log), mmc.log, mmc.cfg.eraseGroup, mmc.Part(), Span(start, n), Skips(skip[..]))
    ensures !CheckSecureArea(start, n) && n > 0 && mmc.cfg.version > 0x10429 && r == 0 ==>
              mmc.log != [] && mmc.log[|mmc.log| - 1] == SanitizeCmd(true)
    ensures !CheckSecureArea(start, n) && n > 0 && (mmc.cfg.noWipe || WipeRefused(mmc.cfg)) ==>
              r == -1 && mmc.log == old(mmc.log)
    ensures mmc.faults == old(mmc.faults) ==>
              (PurgeAim(mmc.cfg, Wipe(start, n)).Some? ==> r != -1) &&
              ReachCovered(old(mmc.log), mmc.log, mmc.cfg.eraseGroup, mmc.Part(), PurgeAim(mmc.cfg, Wipe(start, n)))
    ensures Step(mmc.cfg, Wipe(start, n), old(Snap(mmc)), Snap(mmc))
  {
    if CheckSecureArea(start, n) {
      return -1;
    }
    r := SecureWipe(mmc, start, n, skip);
    PurgeStep(mmc.cfg, Wipe(start, n), old(Snap(mmc)), Snap(mmc));
  }

  /** mmc_mmc_erase_secure and mmc_mmc_secure_erase_secure. */
  method EraseGuarded(mmc: Mmc, start: nat, n: nat, skip: array<nat>, secure: bool) returns (r: int)
    requires mmc.cfg.Valid() && start < TWO32 && n < TWO32 && skip.Length >= 5
    modifies mmc`log, mmc`media, skip, mmc`faults
    ensures old(mmc.faults) <= mmc.faults
    ensures CheckSecureArea(start, n) ==> r == -1 && mmc.log == old(mmc.log) && mmc.media == old(mmc.media)
    ensures !CheckSecureArea(start, n) ==>
              if secure then r == 0 || r == -1
              else if mmc.cfg.IsSd() || mmc.cfg.noErase then r == -1 else r == 0 || r == 1
    ensures !CheckSecureArea(start, n) && Fits(mmc.cfg, start, n) && start <= mmc.cfg.lba && !secure && r == 0 ==>
              forall b: nat :: start <= b < start + Clip(mmc.cfg, start, n) ==>
                Covered(old(mmc.log), mmc.log, mmc.cfg.eraseGroup, mmc.Part(), b)
    ensures !CheckSecureArea(start, n) && Fits(mmc.cfg, start, n) && start <= mmc.cfg.lba && n > 0 &&
            (if secure then !mmc.cfg.IsSd() && mmc.cfg.secErase else r == 1) ==>
              Accounted(old(mmc.log), mmc.log, mmc.cfg.eraseGroup, mmc.Part(),
                        Span(start, Clip(mmc.cfg, start, n)), Skips(skip[..]))
    ensures var op := if secure then SecureEraseGroups(start, n) else EraseGroups(start, n);
            mmc.faults == old(mmc.faults) && PurgeAim(mmc.cfg, op).Some? ==>
              r != -1 && ReachCovered(old(mmc.log), mmc.log, mmc.cfg.eraseGroup, mmc.Part(), PurgeAim(mmc.cfg, op))
    ensures var op := if secure then SecureEraseGroups(start, n) else EraseGroups(start, n);
            Step(mmc.cfg, op, old(Snap(mmc)), Snap(mmc))
  {
    if CheckSecureArea(start, n) {
      return -1;
    }
    if secure {
      r := MmcSecureErase(mmc, start, n, skip);
    } else {
      r := MmcErase(mmc, start, n, skip);
    }
    ghost var op := if secure then SecureEraseGroups(start, n) else EraseGroups(start, n);
    PurgeStep(mmc.cfg, op, old(Snap(mmc)), Snap(mmc));
  }

  /** mmc_mmc_trim_secure, mmc_mmc_discard_secure and mmc_mmc_secure_trim_secure. */
  method TrimGuarded(mmc: Mmc, start: nat, n: nat, purge: Purge) returns (r: int)
    requires mmc.cfg.Valid() && Typed(TrimBlocks(start, n, purge))
    modifies mmc`log, mmc`media, mmc`faults
    ensures old(mmc.faults) <= mmc.faults
    ensures CheckSecureArea(start, n) ==> r == -1 && mmc.log == old(mmc.log) && mmc.media == old(mmc.media)
    ensures !CheckSecureArea(start, n) && r == 0 ==>
              ReachCovered(old(mmc.log), mmc.log, mmc.cfg.eraseGroup, mmc.Part(), EraseAim(mmc.cfg, start, n, purge))
    ensures !CheckSecureArea(start, n) && Fits(mmc.cfg, start, n) && start <= mmc.cfg.lba && r == 0 ==>
              forall b: nat :: start <= b < start + Clip(mmc.cfg, start, n) ==>
                Covered(old(mmc.log), mmc.log, mmc.cfg.eraseGroup, mmc.Part(), b)
    ensures mmc.faults == old(mmc.faults) && PurgeAim(mmc.cfg, TrimBlocks(start, n, purge)).Some? ==> r == 0
    ensures Step(mmc.cfg, TrimBlocks(start, n, purge), old(Snap(mmc)), Snap(mmc))
  {
    if CheckSecureArea(start, n) {
      return -1;
    }
    r := MmcTrim(mmc, start, n, purge);
    PurgeStep(mmc.cfg, TrimBlocks(start, n, purge), old(Snap(mmc)), Snap(mmc));
  }

  /** What an operation achieves when no command fails: reads inside the device were made in full, writes inside it are
      on the card, and purges covered all they reach. */
  ghost predicate Achieves(cfg: Config, op: Op, s: Snapshot, t: Snapshot)
    requires cfg.Valid()
  {
    var part := s.bytes.Part();
    StaysHome(s.bytes, t.bytes) &&
    match op
    case Read(start, n) =>
      !CheckSecureArea(start, n) && U32(start) + n <= cfg.lba ==>
        t.log == s.log + Chunked(cfg, part, false, U32(start), n)
    case MassRead(start, n) =>
      !CheckSecureArea(start, n) && 0 < n && U32(start) + n <= cfg.lba && !BootPath(cfg, start, n) ==>
        t.log == s.log + Chunked(cfg, part, false, U32(start), n)
    case ItemRead(item, n) =>
      OnDevice(cfg, item, n) && Copy1(s.media, part, item, n) == Copy2(s.media, part, item, n) ==>
        t.log == s.log + Chunked(cfg, part, false, First(item), n) + Chunked(cfg, part, false, Second(item), n)
    case ItemReadBackup(item, n) =>
      OnDevice(cfg, item, n) ==> t.log == s.log + Chunked(cfg, part, false, Second(item), n)
    case Write(start, data) =>
      !CheckSecureArea(start, |data|) && U32(start) + |data| <= cfg.lba ==>
        Wrote(s.media, t.media, part, U32(start), data)
    case ZeroErase(start, n) =>
      !CheckSecureArea(start, n) && U32(start) + n <= cfg.lba ==> Wrote(s.media, t.media, part, U32(start), Zeros(n))
    case MassWrite(start, data) =>
      !CheckSecureArea(start, |data|) && 0 < |data| && U32(start) + |data| <= cfg.lba ==>
        if BootPath(cfg, start, |data|) then
          UserOn(cfg) || BootOn(cfg) ==> Burned(cfg, t.media, t.bytes.Part(), start, data)
        else Wrote(s.media, t.media, part, U32(start), data)
    case ItemWrite(item, data) =>
      OnDevice(cfg, item, |data|) ==> ItemWritten(s.media, t.media, part, item, data, Both)
    case EraseGroups(_, _) => ReachCovered(s.log, t.log, cfg.eraseGroup, part, PurgeAim(cfg, op))
    case SecureEraseGroups(_, _) => ReachCovered(s.log, t.log, cfg.eraseGroup, part, PurgeAim(cfg, op))
    case TrimBlocks(_, _, _) => ReachCovered(s.log, t.log, cfg.eraseGroup, part, PurgeAim(cfg, op))
    case Wipe(_, _) => ReachCovered(s.log, t.log, cfg.eraseGroup, part, PurgeAim(cfg, op))
    case Sanitize => !cfg.IsSd() && cfg.secSanitize ==> t.log == s.log + [SanitizeCmd(true)]
  }

  /** One operation of the table; reads go to a scratch buffer and skips to a scratch list. */
  method Perform(mmc: Mmc, op: Op)
    requires mmc.cfg.Valid() && Typed(op)
    modifies mmc
    ensures old(mmc.faults) <= mmc.faults
    ensures Step(mmc.cfg, op, old(Snap(mmc)), Snap(mmc))
    ensures mmc.faults == old(mmc.faults) ==> Achieves(mmc.cfg, op, old(Snap(mmc)), Snap(mmc))
  {
    var r, dst := 0, [];
    match op
    case Read(start, n) => r, dst := ReadGuarded(mmc, start, n);
    case Write(start, data) => r := WriteGuarded(mmc, start, data);
    case ZeroErase(start, n) => r := ZeroEraseGuarded(mmc, start, n);
    case MassRead(start, n) => r, dst := MassReadGuarded(mmc, start, n);
    case MassWrite(start, data) => r := MassWriteGuarded(mmc, start, data);
    case ItemRead(item, n) =>
      r, dst := SecureStore.ReadItem(mmc, item, n, []);
      ReadStep(mmc.cfg, op, old(Snap(mmc)), Snap(mmc));
    case ItemReadBackup(item, n) =>
      r, dst := SecureStore.ReadItemBackup(mmc, item, n, []);
      ReadStep(mmc.cfg, op, old(Snap(mmc)), Snap(mmc));
    case ItemWrite(item, data) =>
      ghost var how;
      r, how := WriteItemStep(mmc, item, data);
    case _ => PerformPurge(mmc, op);
  }

  method PerformPurge(mmc: Mmc, op: Op)
    requires mmc.cfg.Valid() && Typed(op)
    requires op.Wipe? || op.EraseGroups? || op.SecureEraseGroups? || op.TrimBlocks? || op.Sanitize?
    modifies mmc
    ensures old(mmc.faults) <= mmc.faults
    ensures Step(mmc.cfg, op, old(Snap(mmc)), Snap(mmc))
    ensures mmc.faults == old(mmc.faults) ==> Achieves(mmc.cfg, op, old(Snap(mmc)), Snap(mmc))
  {
    var r, skip := 0, new nat[5](_ => 0);
    match op
    case Wipe(start, n) => r := WipeGuarded(mmc, start, n, skip);
    case EraseGroups(start, n) => r := EraseGuarded(mmc, start, n, skip, false);
    case SecureEraseGroups(start, n) => r := EraseGuarded(mmc, start, n, skip, true);
    case TrimBlocks(start, n, purge) => r := TrimGuarded(mmc, start, n, purge);
    case Sanitize => r := MmcSanitize(mmc);
  }
}
