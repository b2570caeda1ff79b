/** Hardware partition switching and the boot image (mmc.c, sunxi_mmc_interface.c). */
module Boot {
  import opened Words
  import opened Card
  import opened Transfer
  import opened Purging

  /** EXT_CSD[179] in the card and the driver's copy of it. */
  datatype PartBytes = PartBytes(card: byte, cached: byte)
  {
    function Part(): nat {
      card % 8
    }

    /** The driver knows which partition the card is in. */
    predicate Coherent() {
      cached % 8 == card % 8
    }
  }

  function Bytes(mmc: Mmc): PartBytes
    reads mmc
  {
    PartBytes(mmc.extCsdPart, mmc.partConfig)
  }

  /** All that a switch to `value` can do: both bytes hold it, or the switch failed and only the card may. */
  predicate Asks(s: PartBytes, value: byte, t: PartBytes, ok: bool) {
    if ok then t == PartBytes(value, value) else t.cached == s.cached && (t.card == s.card || t.card == value)
  }

  /** mmc_do_switch on EXT_CSD[179].  A failed SWITCH command is only reported; whatever is returned, the byte
      is the old one or the requested one. */
  method SwitchPartByte(mmc: Mmc, value: byte) returns (err: int)
    modifies mmc`extCsdPart, mmc`faults
    ensures old(mmc.faults) <= mmc.faults
    ensures mmc.extCsdPart == old(mmc.extCsdPart) || mmc.extCsdPart == value
    ensures mmc.faults == old(mmc.faults) ==> err == 0 && mmc.extCsdPart == value
  {
    var taken: bool := *;
    if taken {
      mmc.extCsdPart := value;
    }
    err := *;
    Note(mmc, taken && err == 0);
  }

  method ReadPartByte(mmc: Mmc) returns (err: int, value: byte)
    modifies mmc`faults
    ensures old(mmc.faults) <= mmc.faults
    ensures err == 0 ==> value == mmc.extCsdPart
    ensures err == 0 <==> mmc.faults == old(mmc.faults)
  {
    err := SendPlain(mmc);
    value := *;
    if err == 0 {
      value := mmc.extCsdPart;
    }
  }

  /** PARTITION_ACCESS replaced, the rest of the byte kept. */
  function WithAccess(config: byte, part: nat): byte {
    config / 8 * 8 + part % 8
  }

  /** BOOT_PARTITION_ENABLE and BOOT_ACK replaced.  The acknowledge value is not masked: its second bit is or-ed
      into bit 7. */
  function WithBoot(config: byte, ack: nat, part: nat): byte {
    config % 8 + part % 8 * 8 + ack % 2 * 64 + (if config / 128 == 1 || ack / 2 % 2 == 1 then 128 else 0)
  }

  /** The fields a switch does not mean to change survive it; bit 7 survives a boot switch exactly when it was
      already set or the acknowledge value has no second bit. */
  lemma SwitchKeepsOtherBits(config: byte, ack: nat, part: nat)
    ensures WithAccess(config, part) % 8 == part % 8 && WithAccess(config, part) / 8 == config / 8
    ensures WithBoot(config, ack, part) % 8 == config % 8
    ensures WithBoot(config, ack, part) / 8 % 8 == part % 8 && WithBoot(config, ack, part) / 64 % 2 == ack % 2
    ensures WithBoot(config, ack, part) / 128 == config / 128 <==> config / 128 == 1 || ack / 2 % 2 == 0
  {
  }

  /** mmc_switch_part. */
  method SwitchPart(mmc: Mmc, part: nat) returns (ret: int)
    modifies mmc`extCsdPart, mmc`partConfig, mmc`faults
    ensures old(mmc.faults) <= mmc.faults
    ensures ret == 0 || ret == -1
    ensures ret == 0 ==>
              mmc.partConfig == mmc.extCsdPart == WithAccess(old(mmc.partConfig), part) && mmc.Part() == part % 8
    ensures ret == -1 ==>
              mmc.partConfig == old(mmc.partConfig) &&
              (mmc.extCsdPart == old(mmc.extCsdPart) || mmc.extCsdPart == WithAccess(old(mmc.partConfig), part))
    ensures Asks(old(Bytes(mmc)), WithAccess(old(mmc.partConfig), part), Bytes(mmc), ret == 0)
    ensures mmc.faults == old(mmc.faults) ==> ret == 0
  {
    var config := WithAccess(mmc.partConfig, part);
    SwitchKeepsOtherBits(mmc.partConfig, 0, part);
    var err := SwitchPartByte(mmc, config);
    if err != 0 {
      return -1;
    }
    var value;
    err, value := ReadPartByte(mmc);
    if err != 0 {
      return -1;
    }
    if config != value {
      return -1;
    }
    mmc.partConfig := config;
    return 0;
  }

  /** mmc_switch_boot_part. */
  method SwitchBootPart(mmc: Mmc, ack: nat, part: nat) returns (ret: int)
    modifies mmc`extCsdPart, mmc`partConfig, mmc`faults
    ensures old(mmc.faults) <= mmc.faults
    ensures ret == 0 || ret == -1
    ensures ret == 0 ==> mmc.partConfig == mmc.extCsdPart == WithBoot(old(mmc.partConfig), ack, part)
    ensures ret == -1 ==>
              mmc.partConfig == old(mmc.partConfig) &&
              (mmc.extCsdPart == old(mmc.extCsdPart) || mmc.extCsdPart == WithBoot(old(mmc.partConfig), ack, part))
    ensures Asks(old(Bytes(mmc)), WithBoot(old(mmc.partConfig), ack, part), Bytes(mmc), ret == 0)
    ensures mmc.faults == old(mmc.faults) ==> ret == 0
  {
    var config := WithBoot(mmc.partConfig, ack, part);
    var err := SwitchPartByte(mmc, config);
    if err != 0 {
      return -1;
    }
    var value;
    err, value := ReadPartByte(mmc);
    if err != 0 {
      return -1;
    }
    if config != value {
      return -1;
    }
    mmc.partConfig := config;
    return 0;
  }

  /** `post` differs from `pre` only in blocks from `lo` to `hi`, of any partition. */
  ghost predicate ChangedIn(pre: Media, post: Media, lo: nat, hi: nat) {
    forall p: nat, b: nat :: post(p, b) != pre(p, b) ==> lo <= b < hi
  }

  lemma WritesConfined(log: seq<Command>, log': seq<Command>, g: nat, lo: nat, hi: nat)
    requires g > 0 && (WritesAdded(log, log', lo, hi) || ReadsAdded(log, log'))
    ensures Confined(log, log', g, lo, hi)
  {
  }

  lemma ConfinedTwice(a: seq<Command>, b: seq<Command>, c: seq<Command>, g: nat, lo: nat, hi: nat)
    requires g > 0 && Confined(a, b, g, lo, hi) && Confined(b, c, g, lo, hi)
    ensures Confined(a, c, g, lo, hi)
  {
    forall i, p: nat, x: nat | |a| <= i < |c| && Alters(c[i], g, p, x)
      ensures lo <= x < hi
    {
      if i < |b| {
        assert c[i] == b[i];
      }
    }
  }

  /** `log'` extends `log` by reads and by commands out of `cs`. */
  ghost predicate ReadsOr(log: seq<Command>, log': seq<Command>, cs: seq<Command>) {
    log <= log' && forall i :: |log| <= i < |log'| ==> log'[i].ReadCmd? || log'[i] in cs
  }

  /** mmc_do_burn_boot: write, read back, compare. */
  method DoBurnBoot(mmc: Mmc, start: nat, src: seq<Block>) returns (r: nat)
    requires mmc.cfg.Valid() && start < TWO32 && |src| < TWO32
    modifies mmc`log, mmc`media, mmc`faults
    ensures old(mmc.faults) <= mmc.faults
    ensures r == 0 || r == |src|
    ensures ReadsOr(old(mmc.log), mmc.log, Sent(mmc.cfg, mmc.Part(), start, |src|))
    ensures ChangedBy(old(mmc.media), mmc.media, old(mmc.log), mmc.log, mmc.cfg.eraseGroup)
    ensures Fits(mmc.cfg, start, |src|) ==>
              && Confined(old(mmc.log), mmc.log, mmc.cfg.eraseGroup, start, start + |src|)
              && OnlyIn(old(mmc.media), mmc.media, mmc.Part(), start, |src|)
              && (r == |src| > 0 ==> Blocks(mmc.media, mmc.Part(), start, |src|) == src)
    ensures mmc.faults == old(mmc.faults) && start + |src| <= mmc.cfg.lba ==> r == |src|
    ensures r == |src| > 0 ==> mmc.log == old(mmc.log) + Chunked(mmc.cfg, mmc.Part(), true, start, |src|) +
                                         Chunked(mmc.cfg, mmc.Part(), false, start, |src|)
  {
    var gotMemory := Allocate(mmc);
    if !gotMemory {
      return 0;
    }
    ghost var part, log, g, was := mmc.Part(), mmc.log, mmc.cfg.eraseGroup, mmc.media;
    r := WriteRange(mmc, start, src);
    ghost var log' := mmc.log;
    if Fits(mmc.cfg, start, |src|) {
      WritesConfined(log, log', g, start, start + |src|);
    }
    if r != |src| {
      return 0;
    }
    var got, dst := ReadRange(mmc, start, |src|);
    ReadBack(was, mmc.media, log, log', mmc.log, g, Sent(mmc.cfg, part, start, |src|));
    WritesConfined(log', mmc.log, g, start, start + |src|);
    if Fits(mmc.cfg, start, |src|) {
      ConfinedTwice(log, log', mmc.log, g, start, start + |src|);
    }
    if got < |src| || dst != src {
      return 0;
    }
  }

  lemma ReadBack(was: Media, now: Media, log: seq<Command>, log': seq<Command>, log'': seq<Command>, g: nat,
                 cs: seq<Command>)
    requires g > 0 && AllFrom(log, log', cs) && ReadsAdded(log', log'') && ChangedBy(was, now, log, log', g)
    ensures ReadsOr(log, log'', cs) && ChangedBy(was, now, log, log'', g)
  {
    assert forall i :: |log| <= i < |log'| ==> log''[i] == log'[i];
    assert OnlyBy(now, now, log''[|log'|..], g);
    ChangedTwice(was, now, now, log, log', log'', g);
  }

  /** Where the boot image goes: the user area, the first boot partition, or both. */
  predicate UserOn(cfg: Config) {
    !cfg.noUserBurn
  }

  predicate BootOn(cfg: Config) {
    cfg.bootBurn && cfg.bootSupport
  }

  function BootStart(cfg: Config): nat {
    if cfg.devNum == 3 then 1 else 0
  }

  /** One of the enabled locations holds the image; the user copy is in the partition `part`. */
  ghost predicate Burned(cfg: Config, m: Media, part: nat, start: nat, src: seq<Block>) {
    (BootOn(cfg) && Blocks(m, BOOT1_PART, BootStart(cfg), |src|) == src) ||
    (UserOn(cfg) && Blocks(m, part, start, |src|) == src)
  }

  /** The image was read from one of the enabled locations. */
  ghost predicate Fetched(cfg: Config, m: Media, part: nat, start: nat, n: nat, dst: seq<Block>) {
    (BootOn(cfg) && dst == Blocks(m, BOOT1_PART, BootStart(cfg), n)) ||
    (UserOn(cfg) && dst == Blocks(m, part, start, n))
  }

  /** What the burn into the boot partition can do to the bytes: one of its steps fails, or it gets as far as the
      switch back, which succeeds or not. */
  predicate BurnPath(s: PartBytes, t: PartBytes, failed: bool, back: bool) {
    var enabled := WithBoot(s.cached, 1, 1);
    var inside := WithAccess(enabled, BOOT1_PART);
    || (failed && back && t == s)
    || (failed && back && Asks(s, enabled, t, false))
    || (failed && back && Asks(PartBytes(enabled, enabled), inside, t, false))
    || (failed == !back && Asks(PartBytes(inside, inside), WithAccess(inside, USER_PART), t, back))
  }

  /** What mmc_burn_boot can do to the bytes. */
  ghost predicate BurnMoves(cfg: Config, s: PartBytes, t: PartBytes) {
    if BootOn(cfg) then
      exists m: PartBytes, failed: bool, back: bool ::
        && BurnPath(s, m, failed, back)
        && if back && failed then exists ok :: Asks(m, WithBoot(m.cached, 0, 0), t, ok) else t == m
    else if cfg.bootSupport then exists ok :: Asks(s, WithBoot(s.cached, 0, 0), t, ok)
    else t == s
  }

  /** What mmc_get_boot can do to the bytes. */
  ghost predicate GetMoves(cfg: Config, s: PartBytes, t: PartBytes) {
    var inside := WithAccess(s.cached, BOOT1_PART);
    || t == s
    || (BootOn(cfg) && Asks(s, inside, t, false))
    || (BootOn(cfg) && exists ok :: Asks(PartBytes(inside, inside), WithAccess(inside, USER_PART), t, ok))
  }

  /** Without an enabled boot partition neither moves a card whose partition the driver knows. */
  lemma NoMove(cfg: Config, s: PartBytes, t: PartBytes)
    requires !BootOn(cfg) && s.Coherent() && (BurnMoves(cfg, s, t) || GetMoves(cfg, s, t))
    ensures t.Coherent() && t.Part() == s.Part()
  {
    SwitchKeepsOtherBits(s.cached, 0, 0);
  }

  /** With one, a burn whose switch back fails leaves the card in it, from any state. */
  lemma BurnCanMove(cfg: Config, s: PartBytes) returns (t: PartBytes)
    requires BootOn(cfg)
    ensures BurnMoves(cfg, s, t) && t.Part() == BOOT1_PART
  {
    var inside := WithAccess(WithBoot(s.cached, 1, 1), BOOT1_PART);
    SwitchKeepsOtherBits(WithBoot(s.cached, 1, 1), 0, BOOT1_PART);
    t := PartBytes(inside, inside);
    assert BurnPath(s, t, true, false);
  }

  /** Switching into the boot partition and back leaves boot mode enabled. */
  lemma AccessKeepsBoot(config: byte, enabled: byte, inside: byte)
    requires enabled == WithBoot(config, 1, 1) && inside == WithAccess(enabled, BOOT1_PART)
    ensures var back := WithAccess(inside, USER_PART); back / 8 % 8 == 1 && back / 64 % 2 == 1
  {
    var back := WithAccess(inside, USER_PART);
    SwitchKeepsOtherBits(config, 1, 1);
    KeptHigh(enabled, BOOT1_PART);
    KeptHigh(inside, USER_PART);
    assert back / 64 == back / 8 / 8 && enabled / 64 == enabled / 8 / 8;
  }

  lemma KeptHigh(config: byte, part: nat)
    ensures WithAccess(config, part) / 8 == config / 8
  {
    SwitchKeepsOtherBits(config, 0, part);
  }

  /** Boot mode enabled and the card switched into the first boot partition. */
  method EnterBoot(mmc: Mmc) returns (err: int)
    modifies mmc`extCsdPart, mmc`partConfig, mmc`faults
    ensures old(mmc.faults) <= mmc.faults
    ensures err == 0 ==>
              var inside := WithAccess(WithBoot(old(mmc.partConfig), 1, 1), BOOT1_PART);
              Bytes(mmc) == PartBytes(inside, inside) && mmc.Part() == BOOT1_PART
    ensures err != 0 ==> BurnPath(old(Bytes(mmc)), Bytes(mmc), true, true)
    ensures mmc.faults == old(mmc.faults) ==> err == 0
  {
    err := SendPlain(mmc);  // boot bus condition
    if err != 0 {
      return;
    }
    err := SwitchBootPart(mmc, 1, 1);
    if err != 0 {
      return;
    }
    err := SwitchPart(mmc, BOOT1_PART);
  }

  /** The burn into the first boot partition, up to the switch back to the user area. */
  method BurnBootPart(mmc: Mmc, src: seq<Block>) returns (err: int, done: nat, back: bool)
    requires mmc.cfg.Valid() && |src| < TWO32
    modifies mmc`log, mmc`media, mmc`extCsdPart, mmc`partConfig, mmc`faults
    ensures old(mmc.faults) <= mmc.faults
    ensures err == 0 && back ==> mmc.Part() == USER_PART
    ensures err != 0 && back ==> done == 0
    ensures done == 0 || done == |src|
    ensures BurnPath(old(Bytes(mmc)), Bytes(mmc), err != 0, back)
    ensures ReadsOr(old(mmc.log), mmc.log, Sent(mmc.cfg, BOOT1_PART, BootStart(mmc.cfg), |src|))
    ensures ChangedBy(old(mmc.media), mmc.media, old(mmc.log), mmc.log, mmc.cfg.eraseGroup)
    ensures Fits(mmc.cfg, BootStart(mmc.cfg), |src|) ==>
              && Confined(old(mmc.log), mmc.log, mmc.cfg.eraseGroup, BootStart(mmc.cfg), BootStart(mmc.cfg) + |src|)
              && OnlyIn(old(mmc.media), mmc.media, BOOT1_PART, BootStart(mmc.cfg), |src|)
              && (done == |src| > 0 ==> Blocks(mmc.media, BOOT1_PART, BootStart(mmc.cfg), |src|) == src)
    ensures mmc.faults == old(mmc.faults) ==>
              err == 0 && back && mmc.extCsdPart / 8 % 8 == 1 && mmc.extCsdPart / 64 % 2 == 1
    ensures mmc.faults == old(mmc.faults) && BootStart(mmc.cfg) + |src| <= mmc.cfg.lba ==> done == |src|
  {
    done, back := 0, true;
    err := EnterBoot(mmc);
    if err != 0 {
      return;
    }
    done := DoBurnBoot(mmc, BootStart(mmc.cfg), src);
    ghost var enabled, inside := WithBoot(old(mmc.partConfig), 1, 1), mmc.partConfig;
    err := SwitchPart(mmc, USER_PART);
    back := err == 0;
    AccessKeepsBoot(old(mmc.partConfig), enabled, inside);
  }

  /** The commands of a burn: reads, and writes of the image to the enabled locations. */
  predicate Burns(cfg: Config, start: nat, n: nat, c: Command)
    requires cfg.bMax > 0
  {
    || c.ReadCmd?
    || (BootOn(cfg) && c in Sent(cfg, BOOT1_PART, BootStart(cfg), n))
    || (UserOn(cfg) && c.WriteCmd? && c in Sent(cfg, c.part, start, n))
  }

  ghost predicate BurnLogged(cfg: Config, start: nat, n: nat, log: seq<Command>, log': seq<Command>)
    requires cfg.bMax > 0
  {
    log <= log' && forall i :: |log| <= i < |log'| ==> Burns(cfg, start, n, log'[i])
  }

  lemma BurnLoggedTwice(cfg: Config, start: nat, n: nat, part: nat, a: seq<Command>, b: seq<Command>, c: seq<Command>)
    requires cfg.bMax > 0 && UserOn(cfg) && BurnLogged(cfg, start, n, a, b)
    requires ReadsOr(b, c, Sent(cfg, part, start, n))
    ensures BurnLogged(cfg, start, n, a, c)
  {
    forall i | |a| <= i < |c|
      ensures Burns(cfg, start, n, c[i])
    {
      if i < |b| {
        assert c[i] == b[i];
      } else if !c[i].ReadCmd? {
        SentPart(cfg, part, start, n, c[i]);
      }
    }
  }

  /** mmc_burn_boot up to the user area: the boot partition if it is enabled, and boot mode switched off otherwise or
      when that failed. */
  method BurnEnabled(mmc: Mmc, src: seq<Block>, ghost start: nat) returns (boot: nat, back: bool)
    requires mmc.cfg.Valid() && |src| < TWO32
    modifies mmc`log, mmc`media, mmc`extCsdPart, mmc`partConfig, mmc`faults
    ensures old(mmc.faults) <= mmc.faults
    ensures boot == 0 || boot == |src|
    ensures boot == |src| > 0 && back ==> mmc.Part() == USER_PART
    ensures BurnMoves(mmc.cfg, old(Bytes(mmc)), Bytes(mmc))
    ensures BurnLogged(mmc.cfg, start, |src|, old(mmc.log), mmc.log)
    ensures ChangedBy(old(mmc.media), mmc.media, old(mmc.log), mmc.log, mmc.cfg.eraseGroup)
    ensures Fits(mmc.cfg, start, |src|) && BootStart(mmc.cfg) <= start ==>
              && Confined(old(mmc.log), mmc.log, mmc.cfg.eraseGroup, 0, start + |src|)
              && ChangedIn(old(mmc.media), mmc.media, 0, start + |src|)
              && (boot == |src| > 0 ==>
                    BootOn(mmc.cfg) && Blocks(mmc.media, BOOT1_PART, BootStart(mmc.cfg), |src|) == src)
    ensures mmc.faults == old(mmc.faults) ==>
              && back
              && (BootOn(mmc.cfg) ==> mmc.Part() == USER_PART && Bytes(mmc).Coherent())
              && (BootOn(mmc.cfg) && BootStart(mmc.cfg) + |src| <= mmc.cfg.lba ==> boot == |src|)
              && (old(mmc.Part()) == USER_PART && old(Bytes(mmc).Coherent()) ==>
                    mmc.Part() == USER_PART && Bytes(mmc).Coherent())
              && (mmc.cfg.bootSupport ==>
                    if mmc.cfg.bootBurn then mmc.extCsdPart / 8 % 8 == 1 && mmc.extCsdPart / 64 % 2 == 1
                    else mmc.extCsdPart / 8 % 8 == 0 && mmc.extCsdPart / 64 % 2 == 0)
  {
    var err := 0;
    boot, back := 0, true;
    if mmc.cfg.bootBurn && mmc.cfg.bootSupport {
      err, boot, back := BurnBootPart(mmc, src);
      if !back {
        return;
      }
    }
    if (err != 0 || !mmc.cfg.bootBurn) && mmc.cfg.bootSupport {
      SwitchKeepsOtherBits(mmc.partConfig, 0, 0);
      err := SwitchBootPart(mmc, 0, 0);
    }
  }

  /** mmc_burn_boot. */
  method BurnBoot(mmc: Mmc, start: nat, src: seq<Block>) returns (r: nat)
    requires mmc.cfg.Valid() && start < TWO32 && |src| < TWO32
    modifies mmc`log, mmc`media, mmc`extCsdPart, mmc`partConfig, mmc`faults
    ensures old(mmc.faults) <= mmc.faults
    ensures r == 0 || r == |src|
    ensures BurnMoves(mmc.cfg, old(Bytes(mmc)), Bytes(mmc))
    ensures BurnLogged(mmc.cfg, start, |src|, old(mmc.log), mmc.log)
    ensures ChangedBy(old(mmc.media), mmc.media, old(mmc.log), mmc.log, mmc.cfg.eraseGroup)
    ensures Fits(mmc.cfg, start, |src|) && BootStart(mmc.cfg) <= start ==>
              && Confined(old(mmc.log), mmc.log, mmc.cfg.eraseGroup, 0, start + |src|)
              && ChangedIn(old(mmc.media), mmc.media, 0, start + |src|)
              && (r == |src| > 0 ==> Burned(mmc.cfg, mmc.media, mmc.Part(), start, src))
    ensures mmc.faults == old(mmc.faults) && start + |src| <= mmc.cfg.lba && BootStart(mmc.cfg) <= start &&
            |src| > 0 ==>
              && (UserOn(mmc.cfg) || BootOn(mmc.cfg) ==> r == |src|)
              && (BootOn(mmc.cfg) ==>
                    Blocks(mmc.media, 1, if mmc.cfg.devNum == 3 then 1 else 0, |src|) == src && mmc.Part() == 0)
              && (UserOn(mmc.cfg) ==> Blocks(mmc.media, mmc.Part(), start, |src|) == src)
    ensures mmc.faults == old(mmc.faults) && old(mmc.Part()) == USER_PART && old(Bytes(mmc).Coherent()) ==>
              mmc.Part() == USER_PART && Bytes(mmc).Coherent()
    ensures mmc.faults == old(mmc.faults) && mmc.cfg.bootSupport ==>
              if mmc.cfg.bootBurn then mmc.extCsdPart / 8 % 8 == 1 && mmc.extCsdPart / 64 % 2 == 1
              else mmc.extCsdPart / 8 % 8 == 0 && mmc.extCsdPart / 64 % 2 == 0
  {
    ghost var log, was, g, hi := mmc.log, mmc.media, mmc.cfg.eraseGroup, start + |src|;
    ghost var tame := Fits(mmc.cfg, start, |src|) && BootStart(mmc.cfg) <= start;
    var boot, back := BurnEnabled(mmc, src, start);
    if !back {
      return 0;
    }
    var user := 0;
    ghost var log', mid := mmc.log, mmc.media;
    if !mmc.cfg.noUserBurn {
      user := DoBurnBoot(mmc, start, src);
      BurnLoggedTwice(mmc.cfg, start, |src|, mmc.Part(), log, log', mmc.log);
      ChangedTwice(was, mid, mmc.media, log, log', mmc.log, g);
      if tame {
        ConfinedTwice(log, log', mmc.log, g, 0, hi);
      }
    }
    if user == |src| || boot == |src| {
      if tame && |src| > 0 && user != |src| {
        assert Blocks(mmc.media, BOOT1_PART, BootStart(mmc.cfg), |src|) == src;
      }
      return |src|;
    }
    return 0;
  }

  /** The fetch from the first boot partition; a failed switch back is only reported. */
  method FetchBootPart(mmc: Mmc, n: nat) returns (r: nat, dst: seq<Block>)
    requires mmc.cfg.Valid() && n < TWO32
    modifies mmc`log, mmc`extCsdPart, mmc`partConfig, mmc`faults
    ensures old(mmc.faults) <= mmc.faults
    ensures r == 0 || r == n
    ensures ReadsAdded(old(mmc.log), mmc.log)
    ensures BootOn(mmc.cfg) ==> GetMoves(mmc.cfg, old(Bytes(mmc)), Bytes(mmc))
    ensures mmc.faults == old(mmc.faults) && BootStart(mmc.cfg) + n <= mmc.cfg.lba ==> r == n
    ensures mmc.faults == old(mmc.faults) ==> mmc.Part() == USER_PART && Bytes(mmc).Coherent()
    ensures Fits(mmc.cfg, BootStart(mmc.cfg), n) && r == n > 0 ==>
              dst == Blocks(mmc.media, BOOT1_PART, BootStart(mmc.cfg), n)
  {
    r, dst := 0, [];
    var err := SwitchPart(mmc, BOOT1_PART);
    if err == 0 {
      r, dst := ReadRange(mmc, BootStart(mmc.cfg), n);
      err := SwitchPart(mmc, USER_PART);
    }
  }

  /** mmc_get_boot: the user copy first, the boot partition when that fails. */
  method GetBoot(mmc: Mmc, start: nat, n: nat) returns (r: nat, dst: seq<Block>)
    requires mmc.cfg.Valid() && start < TWO32 && n < TWO32
    modifies mmc`log, mmc`extCsdPart, mmc`partConfig, mmc`faults
    ensures old(mmc.faults) <= mmc.faults
    ensures r == 0 || r == n
    ensures ReadsAdded(old(mmc.log), mmc.log)
    ensures GetMoves(mmc.cfg, old(Bytes(mmc)), Bytes(mmc))
    ensures mmc.faults == old(mmc.faults) ==>
              Bytes(mmc) == old(Bytes(mmc)) || (mmc.Part() == USER_PART && Bytes(mmc).Coherent())
    ensures mmc.faults == old(mmc.faults) && n > 0 ==>
              if UserOn(mmc.cfg) && start + n <= mmc.cfg.lba then
                r == n && dst == Blocks(mmc.media, old(mmc.Part()), start, n) && Bytes(mmc) == old(Bytes(mmc))
              else if !UserOn(mmc.cfg) && BootOn(mmc.cfg) && BootStart(mmc.cfg) + n <= mmc.cfg.lba then
                r == n && dst == Blocks(mmc.media, 1, if mmc.cfg.devNum == 3 then 1 else 0, n)
              else true
    ensures Fits(mmc.cfg, start, n) && Fits(mmc.cfg, BootStart(mmc.cfg), n) && r == n > 0 ==>
              Fetched(mmc.cfg, mmc.media, old(mmc.Part()), start, n, dst)
  {
    r, dst := 0, [];
    ghost var log := mmc.log;
    if !mmc.cfg.noUserBurn {
      r, dst := ReadRange(mmc, start, n);
      if r == n {
        return;
      }
    }
    ghost var log' := mmc.log;
    if mmc.cfg.bootBurn && mmc.cfg.bootSupport {
      r, dst := FetchBootPart(mmc, n);
      ReadsAddedTwice(log, log', mmc.log);
    }
  }

  /** Unless both locations are enabled, an image burned and left alone is the image fetched.  With only the user
      area enabled the card must still be in the partition of the burn. */
  lemma BootRoundTrip(cfg: Config, m: Media, part: nat, m': Media, part': nat, start: nat, src: seq<Block>,
                      dst: seq<Block>)
    requires !(UserOn(cfg) && BootOn(cfg))
    requires Burned(cfg, m, part, start, src) && Fetched(cfg, m', part', start, |src|, dst)
    requires BootOn(cfg) ==> OnBlocks(m, m', BOOT1_PART, BootStart(cfg), |src|)
    requires UserOn(cfg) ==> part' == part && OnBlocks(m, m', part, start, |src|)
    ensures dst == src
  {
  }

  /** The two contents agree on a range. */
  ghost predicate OnBlocks(m: Media, m': Media, part: nat, start: nat, n: nat) {
    forall b: nat :: start <= b < start + n ==> m'(part, b) == m(part, b)
  }

  /** With both locations enabled it does not hold: a good boot copy and a torn user copy make a successful burn,
      and the torn copy is fetched.  So the round trip holds for all contents exactly when not both are enabled. */
  lemma BootRoundTripExact(cfg: Config, part: nat, start: nat, src: seq<Block>)
    requires |src| > 0 && (part != BOOT1_PART || BootStart(cfg) + |src| <= start)
    ensures (forall m: Media, dst: seq<Block> ::
               Burned(cfg, m, part, start, src) && Fetched(cfg, m, part, start, |src|, dst) ==> dst == src) <==>
            !(UserOn(cfg) && BootOn(cfg))
  {
    if UserOn(cfg) && BootOn(cfg) {
      var other: byte := if src[0][0] == 0 then 1 else 0;
      var torn: Block := src[0][0 := other];
      assert torn[0] != src[0][0];
      var m: Media := (p: nat, b: nat) =>
        if p == BOOT1_PART && BootStart(cfg) <= b < BootStart(cfg) + |src| then src[b - BootStart(cfg)] else torn;
      assert Burned(cfg, m, part, start, src);
      var dst := Blocks(m, part, start, |src|);
      assert Fetched(cfg, m, part, start, |src|, dst) && dst[0] == m(part, start + 0) == torn;
    }
  }

  /** Burn and fetch, one after the other on the same card. */
  method BurnThenGet(mmc: Mmc, start: nat, src: seq<Block>) returns (burned: nat, got: nat, dst: seq<Block>)
    requires mmc.cfg.Valid() && start < TWO32 && 0 < |src| < TWO32
    requires Fits(mmc.cfg, start, |src|) && BootStart(mmc.cfg) <= start && UserOn(mmc.cfg) != BootOn(mmc.cfg)
    modifies mmc`log, mmc`media, mmc`extCsdPart, mmc`partConfig, mmc`faults
    ensures old(mmc.faults) <= mmc.faults
    ensures burned == got == |src| ==> dst == src
  {
    burned := BurnBoot(mmc, start, src);
    ghost var m, part := mmc.media, mmc.Part();
    got, dst := GetBoot(mmc, start, |src|);
    if burned == got == |src| {
      BootRoundTrip(mmc.cfg, m, part, mmc.media, part, start, src, dst);
    }
  }
}
