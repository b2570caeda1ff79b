/** Safety over whole runs of block operations: isolation of the secure window, and items that last. */
module Runs {
  import opened Words
  import opened Card
  import opened Transfer
  import opened SecureStore
  import opened Purging
  import opened Boot
  import opened Window
  import opened BlockOps

  /** A run: `ss[i]` and `ss[i + 1]` are the card before and after operation `ops[i]`. */
  ghost predicate Run(cfg: Config, ops: seq<Op>, ss: seq<Snapshot>)
    requires cfg.Valid()
  {
    |ss| == |ops| + 1 && forall i :: 0 <= i < |ops| ==> Step(cfg, ops[i], ss[i], ss[i + 1])
  }

  ghost predicate AllTyped(ops: seq<Op>) {
    forall i :: 0 <= i < |ops| ==> Typed(ops[i])
  }

  ghost predicate NoneBreaches(cfg: Config, ops: seq<Op>)
    requires cfg.Valid()
  {
    forall i :: 0 <= i < |ops| ==> !Breaches(cfg, ops[i])
  }

  /** Any sequence of operations, carried out on the card, is a run. */
  method PerformAll(mmc: Mmc, ops: seq<Op>) returns (ghost ss: seq<Snapshot>)
    requires mmc.cfg.Valid() && AllTyped(ops)
    modifies mmc
    ensures Run(mmc.cfg, ops, ss) && ss[0] == old(Snap(mmc)) && ss[|ops|] == Snap(mmc)
    ensures mmc.faults == old(mmc.faults) ==>
              forall i :: 0 <= i < |ops| ==> Achieves(mmc.cfg, ops[i], ss[i], ss[i + 1])
  {
    ss := [Snap(mmc)];
    for i := 0 to |ops|
      invariant |ss| == i + 1 && ss[0] == old(Snap(mmc)) && ss[i] == Snap(mmc)
      invariant forall k :: 0 <= k < i ==> Step(mmc.cfg, ops[k], ss[k], ss[k + 1])
      invariant old(mmc.faults) <= mmc.faults
      invariant mmc.faults == old(mmc.faults) ==>
                  forall k :: 0 <= k < i ==> Achieves(mmc.cfg, ops[k], ss[k], ss[k + 1])
    {
      Perform(mmc, ops[i]);
      ss := ss + [Snap(mmc)];
    }
  }

  /** Command `j` of the final log was issued by operation `i`. */
  ghost predicate IssuedBy(ss: seq<Snapshot>, i: nat, j: nat) {
    i + 1 < |ss| && |ss[i].log| <= j < |ss[i + 1].log|
  }

  lemma {:induction false} LogGrows(cfg: Config, ops: seq<Op>, ss: seq<Snapshot>, i: nat, k: nat)
    requires cfg.Valid() && Run(cfg, ops, ss) && i <= k <= |ops|
    ensures ss[i].log <= ss[k].log
    decreases k - i
  {
    if i < k {
      assert Step(cfg, ops[k - 1], ss[k - 1], ss[k]);
      LogGrows(cfg, ops, ss, i, k - 1);
    }
  }

  lemma {:induction false} SomebodyIssued(cfg: Config, ops: seq<Op>, ss: seq<Snapshot>, k: nat, j: nat) returns (i: nat)
    requires cfg.Valid() && Run(cfg, ops, ss) && k <= |ops| && |ss[0].log| <= j < |ss[k].log|
    ensures i < k && IssuedBy(ss, i, j)
  {
    if j < |ss[k - 1].log| {
      i := SomebodyIssued(cfg, ops, ss, k - 1, j);
    } else {
      i := k - 1;
    }
  }

  /** Isolation: through every run of operations that do not breach the window, whatever fails, a command that alters a
      block of the window was issued by an item write. */
  lemma WindowIsolation(cfg: Config, ops: seq<Op>, ss: seq<Snapshot>, j: nat, p: nat, b: nat)
    requires cfg.Valid() && Run(cfg, ops, ss) && AllTyped(ops) && NoneBreaches(cfg, ops)
    requires |ss[0].log| <= j < |ss[|ops|].log|
    requires InWindow(b) && b < cfg.lba && Alters(ss[|ops|].log[j], cfg.eraseGroup, p, b)
    ensures exists i: nat :: IssuedBy(ss, i, j) && ops[i].ItemWrite? && InItem(ops[i].item, b)
  {
    var i := SomebodyIssued(cfg, ops, ss, |ops|, j);
    LogGrows(cfg, ops, ss, i + 1, |ops|);
    assert ss[|ops|].log[j] == ss[i + 1].log[j];
    assert Step(cfg, ops[i], ss[i], ss[i + 1]);
    IssuedAlters(cfg, ops[i], ss[i].bytes.Part(), ss[i + 1].log[j], p, b);
    if !ops[i].ItemWrite? {
      GuardSparesWindow(cfg, ops[i], b);
    }
  }

  /** Every command of every run of these operations that alters a block of the window comes from an item write. */
  ghost predicate Isolates(cfg: Config, ops: seq<Op>)
    requires cfg.Valid()
  {
    forall ss: seq<Snapshot>, j: nat, p: nat, b: nat ::
      (Run(cfg, ops, ss) && |ss[0].log| <= j < |ss[|ops|].log| && InWindow(b) && b < cfg.lba &&
       Alters(ss[|ops|].log[j], cfg.eraseGroup, p, b)) ==>
        exists i: nat :: IssuedBy(ss, i, j) && ops[i].ItemWrite? && InItem(ops[i].item, b)
  }

  /** Isolation exactly: a sequence of operations isolates the window in all its runs if and only if none of them
      breaches it. */
  lemma IsolationExact(cfg: Config, ops: seq<Op>)
    requires cfg.Valid() && AllTyped(ops)
    ensures Isolates(cfg, ops) <==> NoneBreaches(cfg, ops)
  {
    if NoneBreaches(cfg, ops) {
      forall ss: seq<Snapshot>, j: nat, p: nat, b: nat |
        Run(cfg, ops, ss) && |ss[0].log| <= j < |ss[|ops|].log| && InWindow(b) && b < cfg.lba &&
        Alters(ss[|ops|].log[j], cfg.eraseGroup, p, b)
        ensures exists i: nat :: IssuedBy(ss, i, j) && ops[i].ItemWrite? && InItem(ops[i].item, b)
      {
        WindowIsolation(cfg, ops, ss, j, p, b);
      }
    } else {
      var k :| 0 <= k < |ops| && Breaches(cfg, ops[k]);
      BreachExact(cfg, ops[k], USER_PART);
      var c: Command, p: nat, b: nat :| Issues(cfg, ops[k], USER_PART, c) && Alters(c, cfg.eraseGroup, p, b) &&
                                        InWindow(b) && b < cfg.lba;
      var ss := OneCommandRun(cfg, ops, k, c);
      assert Alters(ss[|ops|].log[0], cfg.eraseGroup, p, b);
      assert forall i: nat :: IssuedBy(ss, i, 0) ==> i == k;
    }
  }

  /** A run in which a single operation gets a single command through. */
  lemma OneCommandRun(cfg: Config, ops: seq<Op>, k: nat, c: Command) returns (ss: seq<Snapshot>)
    requires cfg.Valid() && k < |ops| && Issues(cfg, ops[k], USER_PART, c)
    ensures Run(cfg, ops, ss)
    ensures forall i :: 0 <= i < |ss| ==> ss[i].log == if i <= k then [] else [c]
  {
    var m: Media := (p: nat, b: nat) => Plain(0);
    ss := seq(|ops| + 1, i => Snapshot(m, PartBytes(0, 0), if i <= k then [] else [c]));
    forall i | 0 <= i < |ops|
      ensures Step(cfg, ops[i], ss[i], ss[i + 1])
    {
      OneCommandStep(cfg, ops[i], m, ss[i].log, ss[i + 1].log);
    }
  }

  /** A command can get through and change nothing. */
  lemma OneCommandStep(cfg: Config, op: Op, m: Media, log: seq<Command>, log': seq<Command>)
    requires cfg.Valid() && log <= log'
    requires forall i :: |log| <= i < |log'| ==> Issues(cfg, op, USER_PART, log'[i])
    ensures Step(cfg, op, Snapshot(m, PartBytes(0, 0), log), Snapshot(m, PartBytes(0, 0), log'))
  {
  }

  /** Requests a caller can see to be safe before making them: they end within 2^32, on a byte-addressed card below it;
      erases start inside the device or, on a block-addressed card, do not escape; on a byte-addressed card trims start
      inside the device and wipes have their start rounded up to less than 2^23. */
  predicate Careful(cfg: Config, op: Op)
    requires cfg.eraseGroup > 0
  {
    && EndsWithin(op, if cfg.highCapacity then TWO32 else TWO32 - 1)
    && (op.EraseGroups? || op.SecureEraseGroups? ==>
          op.start <= cfg.lba || (cfg.highCapacity && !Escapes(cfg, op.start, op.count)))
    && (op.TrimBlocks? ==> cfg.highCapacity || op.start <= cfg.lba)
    && (op.Wipe? ==> cfg.highCapacity || RoundUp(cfg.eraseGroup, op.start) < cfg.Space())
  }

  ghost predicate AllCareful(cfg: Config, ops: seq<Op>)
    requires cfg.eraseGroup > 0
  {
    forall i :: 0 <= i < |ops| ==> Typed(ops[i]) && Careful(cfg, ops[i])
  }

  lemma CarefulSpares(cfg: Config, op: Op)
    requires cfg.Valid() && Typed(op) && Careful(cfg, op)
    ensures !Breaches(cfg, op)
  {
    if cfg.IsSd() {
      WritesSpare(cfg, op);
    } else if cfg.highCapacity {
      BlockAddressedBreach(cfg, op);
    } else {
      ByteAddressedSafe(cfg, op);
    }
  }

  /** Every run of careful requests, on any card and whatever fails, isolates the window. */
  lemma CarefulIsolates(cfg: Config, ops: seq<Op>)
    requires cfg.Valid() && AllCareful(cfg, ops)
    ensures NoneBreaches(cfg, ops) && Isolates(cfg, ops)
  {
    forall i | 0 <= i < |ops|
      ensures !Breaches(cfg, ops[i])
    {
      CarefulSpares(cfg, ops[i]);
    }
    IsolationExact(cfg, ops);
  }

  /** A block changes only when some operation may alter it. */
  lemma {:induction false} BlockUntouched(cfg: Config, ops: seq<Op>, ss: seq<Snapshot>, k: nat, p: nat, b: nat)
    requires cfg.Valid() && Run(cfg, ops, ss) && AllTyped(ops) && k <= |ops|
    requires forall i :: 0 <= i < k ==> !MayAlter(cfg, ops[i], b)
    ensures ss[k].media(p, b) == ss[0].media(p, b)
  {
    if k > 0 {
      BlockUntouched(cfg, ops, ss, k - 1, p, b);
      StepUntouched(cfg, ops[k - 1], ss[k - 1], ss[k], p, b);
    }
  }

  lemma StepUntouched(cfg: Config, op: Op, s: Snapshot, t: Snapshot, p: nat, b: nat)
    requires cfg.Valid() && Typed(op) && Step(cfg, op, s, t) && !MayAlter(cfg, op, b)
    ensures t.media(p, b) == s.media(p, b)
  {
    if t.media(p, b) != s.media(p, b) {
      var added := t.log[|s.log|..];
      var c :| c in added && Alters(c, cfg.eraseGroup, p, b);
      var i :| 0 <= i < |added| && added[i] == c;
      assert t.log[|s.log| + i] == c;
      IssuedAlters(cfg, op, s.bytes.Part(), c, p, b);
    }
  }

  /** Over runs that do not breach the window the contents of an item change only when that item is written. */
  lemma ItemUntouched(cfg: Config, ops: seq<Op>, ss: seq<Snapshot>, item: nat, p: nat, b: nat)
    requires cfg.Valid() && Run(cfg, ops, ss) && AllTyped(ops) && NoneBreaches(cfg, ops)
    requires item < MAX_ITEM && InItem(item, b) && b < cfg.lba
    requires forall i :: 0 <= i < |ops| && ops[i].ItemWrite? ==> ops[i].item != item
    ensures ss[|ops|].media(p, b) == ss[0].media(p, b)
  {
    ItemPlaces(item, item, b);
    forall i | 0 <= i < |ops|
      ensures !MayAlter(cfg, ops[i], b)
    {
      if ops[i].ItemWrite? {
        ItemPlaces(item, ops[i].item, b);
      } else if MayAlter(cfg, ops[i], b) {
        GuardSparesWindow(cfg, ops[i], b);
      }
    }
    BlockUntouched(cfg, ops, ss, |ops|, p, b);
  }

  /** Read after write: blocks that no operation of a run may alter still hold what was written before it, as long
      as no operation of it can move the partition. */
  lemma WriteLasts(cfg: Config, before: Media, ops: seq<Op>, ss: seq<Snapshot>, start: nat, data: seq<Block>)
    requires cfg.Valid() && Run(cfg, ops, ss) && AllTyped(ops) && Stays(cfg, ops, ss[0].bytes)
    requires Wrote(before, ss[0].media, ss[0].bytes.Part(), start, data)
    requires forall i, b: nat :: 0 <= i < |ops| && start <= b < start + |data| ==> !MayAlter(cfg, ops[i], b)
    ensures Blocks(ss[|ops|].media, ss[|ops|].bytes.Part(), start, |data|) == data
  {
    var part := ss[0].bytes.Part();
    PartStays(cfg, ops, ss, |ops|);
    forall k | 0 <= k < |data|
      ensures ss[|ops|].media(part, start + k) == data[k]
    {
      BlockUntouched(cfg, ops, ss, |ops|, part, start + k);
      assert Blocks(ss[0].media, part, start, |data|)[k] == data[k];
    }
  }

  /** Nothing moves the partition: the driver knows it at the start and no operation can leave it. */
  ghost predicate Stays(cfg: Config, ops: seq<Op>, bytes: PartBytes) {
    bytes.Coherent() && forall i :: 0 <= i < |ops| ==> !MovesPart(cfg, ops[i])
  }

  lemma {:induction false} PartStays(cfg: Config, ops: seq<Op>, ss: seq<Snapshot>, k: nat)
    requires cfg.Valid() && Run(cfg, ops, ss) && k <= |ops| && Stays(cfg, ops, ss[0].bytes)
    ensures ss[k].bytes.Part() == ss[0].bytes.Part() && ss[k].bytes.Coherent()
  {
    if k > 0 {
      PartStays(cfg, ops, ss, k - 1);
      assert Step(cfg, ops[k - 1], ss[k - 1], ss[k]);
      if ss[k].bytes != ss[k - 1].bytes {
        NoMove(cfg, ss[k - 1].bytes, ss[k].bytes);
      }
    }
  }

  /** A write of `data` to an item, complete or torn, from two copies of `was`, and then a run that writes no blocks of
      that item and does not breach the window. */
  ghost predicate ItemThenRun(cfg: Config, before: Media, ops: seq<Op>, ss: seq<Snapshot>, item: nat, was: seq<Block>,
                              data: seq<Block>, how: Progressed)
    requires cfg.Valid()
  {
    && Run(cfg, ops, ss) && AllTyped(ops) && NoneBreaches(cfg, ops)
    && (forall i :: 0 <= i < |ops| && ops[i].ItemWrite? ==> ops[i].item != item)
    && item < MAX_ITEM && |was| == |data| <= ITEM_BLOCKS
    && ss[0].bytes.Coherent() && Agreed(before, ss[0].bytes.Part(), item, |data|, was)
    && ItemWritten(before, ss[0].media, ss[0].bytes.Part(), item, data, how)
  }

  /** What a successful read of the item may then return. */
  predicate OldOrNew(was: seq<Block>, data: seq<Block>, how: Progressed, out: seq<Block>) {
    out == data || (how == BrokeFirst && out == was)
  }

  /** After one write of an item, complete or torn, and any run that does not write that item or breach the window and
      whose operations cannot move the partition, a successful read returns the new value, or the old one if the write
      broke off in its first copy. */
  lemma ItemLasts(cfg: Config, before: Media, ops: seq<Op>, ss: seq<Snapshot>, item: nat, was: seq<Block>,
                  data: seq<Block>, how: Progressed, out: seq<Block>)
    requires cfg.Valid() && WINDOW_END <= cfg.lba && ItemThenRun(cfg, before, ops, ss, item, was, data, how)
    requires forall i :: 0 <= i < |ops| ==> !MovesPart(cfg, ops[i])
    requires Agreed(ss[|ops|].media, ss[|ops|].bytes.Part(), item, |data|, out)
    ensures OldOrNew(was, data, how, out)
  {
    PartStays(cfg, ops, ss, |ops|);
    ItemLastsInPart(cfg, before, ops, ss, item, was, data, how, out);
  }

  /** The same whenever the card ends up in the partition it started in. */
  lemma ItemLastsInPart(cfg: Config, before: Media, ops: seq<Op>, ss: seq<Snapshot>, item: nat, was: seq<Block>,
                        data: seq<Block>, how: Progressed, out: seq<Block>)
    requires cfg.Valid() && WINDOW_END <= cfg.lba && ItemThenRun(cfg, before, ops, ss, item, was, data, how)
    requires ss[|ops|].bytes.Part() == ss[0].bytes.Part()
    requires Agreed(ss[|ops|].media, ss[|ops|].bytes.Part(), item, |data|, out)
    ensures OldOrNew(was, data, how, out)
  {
    var now, part := ss[|ops|].media, ss[0].bytes.Part();
    forall b: nat | InItem(item, b)
      ensures now(part, b) == ss[0].media(part, b)
    {
      ItemPlaces(item, item, b);
      ItemUntouched(cfg, ops, ss, item, part, b);
    }
    TornWriteAtomic(before, ss[0].media, now, part, item, was, data, how, out);
  }

  /** The same for runs of careful requests. */
  lemma CarefulItemLasts(cfg: Config, before: Media, ops: seq<Op>, ss: seq<Snapshot>, item: nat, was: seq<Block>,
                         data: seq<Block>, how: Progressed, out: seq<Block>)
    requires cfg.Valid() && WINDOW_END <= cfg.lba && Run(cfg, ops, ss) && AllCareful(cfg, ops)
    requires forall i :: 0 <= i < |ops| ==> !MovesPart(cfg, ops[i])
    requires forall i :: 0 <= i < |ops| && ops[i].ItemWrite? ==> ops[i].item != item
    requires item < MAX_ITEM && |was| == |data| <= ITEM_BLOCKS
    requires ss[0].bytes.Coherent() && Agreed(before, ss[0].bytes.Part(), item, |data|, was)
    requires ItemWritten(before, ss[0].media, ss[0].bytes.Part(), item, data, how)
    requires Agreed(ss[|ops|].media, ss[|ops|].bytes.Part(), item, |data|, out)
    ensures OldOrNew(was, data, how, out)
  {
    CarefulIsolates(cfg, ops);
    ItemLasts(cfg, before, ops, ss, item, was, data, how, out);
  }

  /** Without a failure the card stays in the user area. */
  lemma {:induction false} CleanStays(cfg: Config, ops: seq<Op>, ss: seq<Snapshot>, k: nat)
    requires cfg.Valid() && |ss| == |ops| + 1 && k <= |ops|
    requires forall i :: 0 <= i < |ops| ==> Achieves(cfg, ops[i], ss[i], ss[i + 1])
    requires ss[0].bytes.Part() == USER_PART && ss[0].bytes.Coherent()
    ensures ss[k].bytes.Part() == USER_PART && ss[k].bytes.Coherent()
  {
    if k > 0 {
      CleanStays(cfg, ops, ss, k - 1);
      assert Achieves(cfg, ops[k - 1], ss[k - 1], ss[k]);
    }
  }

  /** Items of the user area last on every configuration through runs without a failure, boot image operations
      included. */
  lemma CleanItemLasts(cfg: Config, before: Media, ops: seq<Op>, ss: seq<Snapshot>, item: nat, was: seq<Block>,
                       data: seq<Block>, how: Progressed, out: seq<Block>)
    requires cfg.Valid() && WINDOW_END <= cfg.lba && ItemThenRun(cfg, before, ops, ss, item, was, data, how)
    requires forall i :: 0 <= i < |ops| ==> Achieves(cfg, ops[i], ss[i], ss[i + 1])
    requires ss[0].bytes.Part() == USER_PART
    requires Agreed(ss[|ops|].media, ss[|ops|].bytes.Part(), item, |data|, out)
    ensures OldOrNew(was, data, how, out)
  {
    CleanStays(cfg, ops, ss, |ops|);
    ItemLastsInPart(cfg, before, ops, ss, item, was, data, how, out);
  }

  /** Items last on this configuration, through every run that does not breach the window or, if `careful`, through
      every run of careful requests. */
  ghost predicate ItemsLast(cfg: Config, careful: bool)
    requires cfg.Valid()
  {
    forall before: Media, ops: seq<Op>, ss: seq<Snapshot>, item: nat, was: seq<Block>, data: seq<Block>,
           how: Progressed, out: seq<Block> ::
      (ItemThenRun(cfg, before, ops, ss, item, was, data, how) && (careful ==> AllCareful(cfg, ops)) &&
       Agreed(ss[|ops|].media, ss[|ops|].bytes.Part(), item, |data|, out)) ==>
        OldOrNew(was, data, how, out)
  }

  /** They do, in either sense, if and only if the boot partition is disabled or the logical offset leaves no room for
      the boot image path, as on the platform as configured, where it is 0. */
  lemma ItemsLastExactly(cfg: Config, careful: bool)
    requires cfg.Valid() && WINDOW_END <= cfg.lba
    ensures ItemsLast(cfg, careful) <==> !CanMove(cfg)
    ensures cfg.logicalOffset == 0 ==> ItemsLast(cfg, careful)
  {
    if CanMove(cfg) {
      var v, w := Plain(0), Plain(1);
      assert v[0] != w[0];
      var s, t := MovedPartitionHidesItem(cfg, 0, v, w);
      var ops, ss, data := [EmptyBurn(cfg)], [s, t], [v];
      assert AllCareful(cfg, ops);
      assert Agreed(ss[|ops|].media, ss[|ops|].bytes.Part(), 0, |data|, [w]);
    } else {
      CanMoveMeaning(cfg);
      forall before: Media, ops: seq<Op>, ss: seq<Snapshot>, item: nat, was: seq<Block>, data: seq<Block>,
             how: Progressed, out: seq<Block> |
        ItemThenRun(cfg, before, ops, ss, item, was, data, how) &&
        Agreed(ss[|ops|].media, ss[|ops|].bytes.Part(), item, |data|, out)
        ensures OldOrNew(was, data, how, out)
      {
        ItemLasts(cfg, before, ops, ss, item, was, data, how, out);
      }
    }
  }

  /** Where the partition can move, one empty burn whose switch back fails leaves the card in the boot partition, and a
      complete write of any item before it reads differently after it. */
  lemma MovedPartitionHidesItem(cfg: Config, item: nat, v: Block, w: Block) returns (s: Snapshot, t: Snapshot)
    requires cfg.Valid() && CanMove(cfg) && item < MAX_ITEM && v != w
    ensures ItemThenRun(cfg, s.media, [EmptyBurn(cfg)], [s, t], item, [v], [v], Both)
    ensures Agreed(t.media, t.bytes.Part(), item, 1, [w]) && !OldOrNew([v], [v], Both, [w])
  {
    var m := TwoValues(item, v, w);
    s, t := EmptyBurnRun(cfg, m, item, [v]);
    assert [v][0] != [w][0];
  }

  /** A card whose item holds different values in the user area and in the boot partition. */
  lemma TwoValues(item: nat, v: Block, w: Block) returns (m: Media)
    ensures Agreed(m, USER_PART, item, 1, [v]) && Agreed(m, BOOT1_PART, item, 1, [w])
  {
    m := (p: nat, b: nat) => if p == USER_PART then v else w;
  }

  lemma EmptyBurnRun(cfg: Config, m: Media, item: nat, v: seq<Block>) returns (s: Snapshot, t: Snapshot)
    requires cfg.Valid() && CanMove(cfg) && item < MAX_ITEM && |v| <= ITEM_BLOCKS && Agreed(m, USER_PART, item, |v|, v)
    ensures s.media == t.media == m && t.bytes.Part() == BOOT1_PART
    ensures ItemThenRun(cfg, s.media, [EmptyBurn(cfg)], [s, t], item, v, v, Both)
  {
    var bytes := PartBytes(0, 0);
    var bytes' := BurnCanMove(cfg, bytes);
    s, t := Snapshot(m, bytes, []), Snapshot(m, bytes', []);
    EmptyBurnStep(cfg, m, bytes, bytes');
    OneStepRun(cfg, EmptyBurn(cfg), s, t, item, v);
  }

  /** A run of one operation after a complete write that changed nothing. */
  lemma OneStepRun(cfg: Config, op: Op, s: Snapshot, t: Snapshot, item: nat, v: seq<Block>)
    requires cfg.Valid() && Typed(op) && !Breaches(cfg, op) && !op.ItemWrite? && Step(cfg, op, s, t)
    requires item < MAX_ITEM && |v| <= ITEM_BLOCKS && s.bytes.Coherent()
    requires Agreed(s.media, s.bytes.Part(), item, |v|, v)
    ensures ItemThenRun(cfg, s.media, [op], [s, t], item, v, v, Both)
  {
  }

  lemma EmptyBurnStep(cfg: Config, m: Media, s: PartBytes, t: PartBytes)
    requires cfg.Valid() && CanMove(cfg) && BurnMoves(cfg, s, t)
    ensures Typed(EmptyBurn(cfg)) && !Breaches(cfg, EmptyBurn(cfg))
    ensures Step(cfg, EmptyBurn(cfg), Snapshot(m, s, []), Snapshot(m, t, []))
  {
    WritesSpare(cfg, EmptyBurn(cfg));
  }

  /** A request whose blocks end within `limit`. */
  predicate EndsWithin(op: Op, limit: nat) {
    op.ItemRead? || op.ItemReadBackup? || op.ItemWrite? || op.Sanitize? || U32(op.start) + Count(op) <= limit
  }

  /** On a block-addressed card, of all requests that end within 2^32 exactly the escaping erases breach the window, and
      those only if the whole groups of the device reach into it. */
  lemma BlockAddressedBreach(cfg: Config, op: Op)
    requires cfg.Valid() && cfg.highCapacity && !cfg.IsSd() && Typed(op) && EndsWithin(op, TWO32)
    ensures Breaches(cfg, op) <==>
            && (op.EraseGroups? || op.SecureEraseGroups?) && op.count > 0
            && Supports(cfg, if op.EraseGroups? then Erase else SecureErase)
            && Escapes(cfg, op.start, op.count) && WINDOW_START < RoundDown(cfg.eraseGroup, cfg.lba)
            && !CheckSecureArea(op.start, op.count)
  {
    match op
    case Wipe(start, n) =>
      if Passes(start, n) {
        if Grouped(WipeKind(cfg)) {
          WipeGroupWindow(cfg, start, n, WipeKind(cfg));
        } else {
          WipeTrimWindow(cfg, start, n, WipeKind(cfg));
        }
      }
    case EraseGroups(start, n) =>
      if Passes(start, n) {
        EraseWindow(cfg, start, n, Erase);
      }
    case SecureEraseGroups(start, n) =>
      if Passes(start, n) {
        EraseWindow(cfg, start, n, SecureErase);
      }
    case TrimBlocks(start, n, purge) =>
      if Passes(start, n) {
        TrimWindow(cfg, start, n, purge);
      }
    case _ => WritesSpare(cfg, op);
  }

  /** On a byte-addressed card no request breaches the window that ends below 2^32 and starts inside the device or, for
      a wipe, has its start rounded up to less than 2^23. */
  lemma ByteAddressedSafe(cfg: Config, op: Op)
    requires cfg.Valid() && !cfg.highCapacity && Typed(op) && EndsWithin(op, TWO32 - 1)
    requires op.Wipe? ==> RoundUp(cfg.eraseGroup, op.start) < cfg.Space()
    requires op.EraseGroups? || op.SecureEraseGroups? || op.TrimBlocks? ==> op.start <= cfg.lba
    ensures !Breaches(cfg, op)
  {
    if PurgeAim(cfg, op).None? {
      WritesSpare(cfg, op);
    } else {
      match op
      case Wipe(start, n) =>
        if Grouped(WipeKind(cfg)) {
          PlainOff(cfg, start, n, WipeKind(cfg));
        } else {
          Rounding(cfg.eraseGroup, start);
          WipeTrimWindow(cfg, start, n, WipeKind(cfg));
        }
      case EraseGroups(start, n) => SoundOff(cfg, start, n, Erase, PurgeAim(cfg, op));
      case SecureEraseGroups(start, n) => SoundOff(cfg, start, n, SecureErase, PurgeAim(cfg, op));
      case TrimBlocks(start, n, purge) => TrimWindow(cfg, start, n, purge);
    }
  }

  /** On any card writes that end below 2^32, and on a block-addressed card those that end at it, spare the window. */
  lemma WritesSpare(cfg: Config, op: Op)
    requires cfg.Valid() && Typed(op) && PurgeAim(cfg, op).None?
    requires EndsWithin(op, if cfg.highCapacity then TWO32 else TWO32 - 1)
    ensures !Breaches(cfg, op)
  {
    var ts := Transfers(cfg, op);
    forall i | 0 <= i < |ts|
      ensures !WriteHits(cfg, ts[i].start, ts[i].count)
    {
      if ts[i].count > 0 {
        CheckTruncates(op.start, Count(op));
        assert Passes(U32(op.start), Count(op));
        if ts[i].start == U32(op.start) {
          WriteWindow(cfg, ts[i].start, ts[i].count);
        } else {
          BootCopySpares(cfg, op.start, Count(op));
        }
      }
    }
  }

  /** The copy of a boot image in the boot partition lies below the request. */
  lemma BootCopySpares(cfg: Config, start: nat, n: nat)
    requires cfg.Valid() && BootPath(cfg, start, n) && Passes(start, n) && start + n <= TWO32
    ensures !WriteHits(cfg, BootStart(cfg), n)
  {
    CheckExact(start, n);
    PlainInside(cfg, BootStart(cfg), n);
  }
}
