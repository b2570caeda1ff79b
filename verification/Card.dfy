/** The card behind the host controller, the driver's `struct mmc`, and the commands the host can send.
    Every command may succeed or fail; a failing command leaves arbitrary contents in what it names. */
module Card {
  import opened Words

  const BLOCK_BYTES: nat := 512

  type Block = b: seq<byte> | |b| == BLOCK_BYTES witness seq(BLOCK_BYTES, _ => 0)

  /** A block of equal bytes. */
  function Plain(x: byte): Block {
    seq(BLOCK_BYTES, _ => x)
  }

  /** Contents by hardware partition (PARTITION_ACCESS value) and block number. */
  type Media = (nat, nat) -> Block

  const USER_PART: nat := 0
  const BOOT1_PART: nat := 1

  /** The argument of CMD38. */
  datatype Purge = Erase | SecureErase | Trim | Discard | SecureTrim1 | SecureTrim2

  /** What was put on the bus, with the partition selected at that moment.  `ok` tells whether the
      driver saw an erase sequence through to a ready card. */
  datatype Command =
    | ReadCmd(part: nat, start: nat, count: nat)
    | WriteCmd(part: nat, start: nat, count: nat)
    | EraseCmd(part: nat, from: nat, to: nat, purge: Purge, ok: bool)
    | SanitizeCmd(done: bool)

  /** The fixed part of `struct mmc` and its configuration. */
  datatype Config = Config(
    devNum: nat,
    highCapacity: bool,        // block addressing; otherwise the argument is a byte address
    lba: nat,                  // block_dev.lba
    bMax: nat,                 // cfg->b_max
    eraseGroup: nat,           // erase_grp_size, in blocks
    version: nat,
    secErase: bool,            // EXT_CSD_SEC_ER_EN
    secTrim: bool,             // EXT_CSD_SEC_GB_CL_EN
    secSanitize: bool,         // EXT_CSD_SEC_SANITIZE
    noWipe: bool,              // DRV_PARA_DISABLE_SECURE_WIPE
    noErase: bool,             // DRV_PARA_DISABLE_EMMC_ERASE
    sanitizeOnErase: bool,     // DRV_PARA_ENABLE_EMMC_SANITIZE_WHEN_ERASE
    noUserBurn: bool,          // DRV_PARA_NOT_BURN_USER_PART
    bootBurn: bool,            // DRV_PARA_BURN_EMMC_BOOT_PART
    bootSupport: bool,         // boot_support
    logicalOffset: nat)        // CONFIG_MMC_LOGICAL_OFFSET
  {
    /** What `mmc_create` and card start-up guarantee: a positive transfer limit and erase group, and a device whose
        blocks the command argument can name. */
    ghost predicate Valid() {
      0 < bMax && 0 < eraseGroup < TWO32 && 0 < lba < TWO32 && lba <= Space()
    }

    predicate IsSd() {
      version / 0x20000 % 2 == 1
    }

    /** Number of blocks the 32-bit command argument can name. */
    function Space(): nat {
      if highCapacity then TWO32 else TWO32 / 512
    }
  }

  /** The block a card takes the argument built for block `a` to mean. */
  function Wire(cfg: Config, a: nat): (r: nat)
    ensures a < cfg.Space() ==> r == a
  {
    if cfg.highCapacity then U32(a) else U32(a * 512) / 512
  }

  /** Does command `c` alter block `b` of partition `p`?  An erase acts on whole groups of `g` blocks, a trim
      or discard on single blocks; an erase whose end precedes its start names nothing. */
  predicate Alters(c: Command, g: nat, p: nat, b: nat)
    requires g > 0
  {
    match c
    case ReadCmd(_, _, _) => false
    case SanitizeCmd(_) => false
    case WriteCmd(part, start, count) => p == part && start <= b < start + count
    case EraseCmd(part, from, to, purge, _) =>
      p == part && from <= to &&
      if purge.Erase? || purge.SecureErase? then from / g * g <= b < (to / g + 1) * g else from <= b <= to
  }

  /** A purge the driver completed.  The first step of a secure trim only marks blocks for the second. */
  predicate Purges(c: Command, g: nat, p: nat, b: nat)
    requires g > 0
  {
    c.EraseCmd? && c.ok && !c.purge.SecureTrim1? && Alters(c, g, p, b)
  }

  class Mmc {
    const cfg: Config
    var media: Media
    var extCsdPart: byte      // EXT_CSD[179] in the card
    var partConfig: byte      // the driver's copy of it
    ghost var log: seq<Command>
    ghost var faults: nat     // commands and allocations that failed so far

    constructor (cfg: Config, media: Media, part: byte)
      ensures this.cfg == cfg && this.media == media && extCsdPart == part && partConfig == part && log == []
      ensures faults == 0
    {
      this.cfg, this.media, extCsdPart, partConfig, log, faults := cfg, media, part, part, [], 0;
    }

    /** The hardware partition that data commands reach. */
    function Part(): nat
      reads this
    {
      extCsdPart % 8
    }
  }

  /** `count` blocks of partition `p` from `start`. */
  function Blocks(m: Media, p: nat, start: nat, count: nat): (r: seq<Block>)
    ensures |r| == count
    ensures forall i :: 0 <= i < count ==> r[i] == m(p, start + i)
  {
    seq(count, i requires 0 <= i < count => m(p, start + i))
  }

  /** `post` differs from `pre` at most in the given range of partition `part`. */
  ghost predicate OnlyIn(pre: Media, post: Media, part: nat, start: nat, count: nat) {
    forall p: nat, b: nat :: post(p, b) != pre(p, b) ==> p == part && start <= b < start + count
  }

  /** `post` differs from `pre` only where one of the commands alters the card. */
  ghost predicate OnlyBy(pre: Media, post: Media, cmds: seq<Command>, g: nat)
    requires g > 0
  {
    forall p: nat, b: nat :: post(p, b) != pre(p, b) ==> exists c :: c in cmds && Alters(c, g, p, b)
  }

  /** `log'` extends `log`, and the card changed only by the commands added. */
  ghost predicate ChangedBy(pre: Media, post: Media, log: seq<Command>, log': seq<Command>, g: nat)
    requires g > 0
  {
    log <= log' && OnlyBy(pre, post, log'[|log|..], g)
  }

  /** Record a failure. */
  ghost method Note(mmc: Mmc, ok: bool)
    modifies mmc`faults
    ensures mmc.faults == old(mmc.faults) + if ok then 0 else 1
  {
    if !ok {
      mmc.faults := mmc.faults + 1;
    }
  }

  /** CMD17/CMD18 with its data phase. */
  method SendRead(mmc: Mmc, start: nat, count: nat) returns (ok: bool, data: seq<Block>)
    modifies mmc`log, mmc`faults
    ensures old(mmc.faults) <= mmc.faults
    ensures mmc.log == old(mmc.log) + [ReadCmd(mmc.Part(), Wire(mmc.cfg, start), count)]
    ensures |data| == count
    ensures ok ==> data == Blocks(mmc.media, mmc.Part(), Wire(mmc.cfg, start), count)
    ensures ok <==> mmc.faults == old(mmc.faults)
  {
    ok := *;
    Note(mmc, ok);
    mmc.log := mmc.log + [ReadCmd(mmc.Part(), Wire(mmc.cfg, start), count)];
    if ok {
      data := Blocks(mmc.media, mmc.Part(), Wire(mmc.cfg, start), count);
    } else {
      var noise: Media := *;
      data := Blocks(noise, 0, 0, count);
    }
  }

  /** CMD24/CMD25 with its data phase, stop and status. */
  method SendWrite(mmc: Mmc, start: nat, data: seq<Block>) returns (ok: bool)
    modifies mmc`log, mmc`media, mmc`faults
    ensures old(mmc.faults) <= mmc.faults
    ensures mmc.log == old(mmc.log) + [WriteCmd(mmc.Part(), Wire(mmc.cfg, start), |data|)]
    ensures OnlyIn(old(mmc.media), mmc.media, mmc.Part(), Wire(mmc.cfg, start), |data|)
    ensures ok ==> Blocks(mmc.media, mmc.Part(), Wire(mmc.cfg, start), |data|) == data
    ensures ok <==> mmc.faults == old(mmc.faults)
  {
    ok := *;
    Note(mmc, ok);
    var part, first, was := mmc.Part(), Wire(mmc.cfg, start), mmc.media;
    var noise: Media := *;
    mmc.log := mmc.log + [WriteCmd(part, first, |data|)];
    mmc.media := (p: nat, b: nat) =>
      var block: Block :=
        if p == part && first <= b < first + |data| then (if ok then data[b - first] else noise(p, b)) else was(p, b);
      block;
  }

  /** CMD35, CMD36, CMD38 and the wait for a ready card.  The sequence can break off before the launch. */
  method SendErase(mmc: Mmc, from: nat, to: nat, purge: Purge) returns (ok: bool)
    requires mmc.cfg.eraseGroup > 0
    modifies mmc`log, mmc`media, mmc`faults
    ensures old(mmc.faults) <= mmc.faults
    ensures (!ok && mmc.log == old(mmc.log)) ||
            mmc.log == old(mmc.log) + [EraseCmd(mmc.Part(), Wire(mmc.cfg, from), Wire(mmc.cfg, to), purge, ok)]
    ensures ChangedBy(old(mmc.media), mmc.media, old(mmc.log), mmc.log, mmc.cfg.eraseGroup)
    ensures ok <==> mmc.faults == old(mmc.faults)
  {
    var addressed: bool := *;
    if !addressed {
      Note(mmc, false);
      return false;
    }
    ok := *;
    Note(mmc, ok);
    var g, was := mmc.cfg.eraseGroup, mmc.media;
    var c := EraseCmd(mmc.Part(), Wire(mmc.cfg, from), Wire(mmc.cfg, to), purge, ok);
    var noise: Media := *;
    mmc.log := mmc.log + [c];
    mmc.media := (p: nat, b: nat) => var block: Block := if Alters(c, g, p, b) then noise(p, b) else was(p, b); block;
    assert mmc.log[|old(mmc.log)|..] == [c];
  }

  /** mmc_do_sanitize: purges what the card no longer maps, so no block a reader can name. */
  method SendSanitize(mmc: Mmc) returns (err: int)
    modifies mmc`log, mmc`faults
    ensures old(mmc.faults) <= mmc.faults
    ensures mmc.log == old(mmc.log) + [SanitizeCmd(err == 0)]
    ensures err == 0 <==> mmc.faults == old(mmc.faults)
  {
    err := *;
    Note(mmc, err == 0);
    mmc.log := mmc.log + [SanitizeCmd(err == 0)];
  }

  /** A command whose only effect here is that it may fail: SET_BLOCKLEN, SEND_EXT_CSD, a register write. */
  method SendPlain(mmc: Mmc) returns (err: int)
    modifies mmc`faults
    ensures old(mmc.faults) <= mmc.faults
    ensures err == 0 <==> mmc.faults == old(mmc.faults)
  {
    err := *;
    Note(mmc, err == 0);
  }

  /** A temporary buffer. */
  method Allocate(mmc: Mmc) returns (ok: bool)
    modifies mmc`faults
    ensures old(mmc.faults) <= mmc.faults
    ensures ok <==> mmc.faults == old(mmc.faults)
  {
    ok := *;
    Note(mmc, ok);
  }
}
