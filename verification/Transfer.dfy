/** Block reads and writes split into chunks of at most `bMax` blocks (mmc.c, mmc_write.c). */
module Transfer {
  import opened Words
  import opened Card

  /** The data command for one chunk. */
  function Chunk(cfg: Config, part: nat, write: bool, start: nat, count: nat): Command {
    if write then WriteCmd(part, Wire(cfg, start), count) else ReadCmd(part, Wire(cfg, start), count)
  }

  /** The commands of a complete transfer, with the 32-bit cursor of the source. */
  function Chunked(cfg: Config, part: nat, write: bool, start: nat, n: nat): (cs: seq<Command>)
    requires cfg.bMax > 0
    decreases n
  {
    if n == 0 then [] else
      var cur := Min(n, cfg.bMax);
      [Chunk(cfg, part, write, start, cur)] + Chunked(cfg, part, write, U32(start + cur), n - cur)
  }

  /** The commands run from `start` to `end` without gap or overlap, none empty or above `bMax`. */
  ghost predicate Tiles(cs: seq<Command>, part: nat, write: bool, start: nat, end: nat, bMax: nat) {
    if cs == [] then start == end
    else
      (if write then cs[0].WriteCmd? else cs[0].ReadCmd?) &&
      cs[0].part == part && cs[0].start == start && 0 < cs[0].count <= bMax &&
      Tiles(cs[1..], part, write, start + cs[0].count, end, bMax)
  }

  /** A request the command argument can express throughout. */
  predicate Addressable(cfg: Config, start: nat, n: nat) {
    start + n <= cfg.Space()
  }

  /** A request that the command argument can express, or that the test against the device size keeps inside. */
  predicate Fits(cfg: Config, start: nat, n: nat) {
    Addressable(cfg, start, n) || start + n < TWO32
  }

  /** The commands of a complete transfer tile the requested range in order. */
  lemma {:induction false} ChunkedTiles(cfg: Config, part: nat, write: bool, start: nat, n: nat)
    requires cfg.bMax > 0 && Addressable(cfg, start, n)
    ensures Tiles(Chunked(cfg, part, write, start, n), part, write, start, start + n, cfg.bMax)
    decreases n
  {
    if n > 0 {
      var cur := Min(n, cfg.bMax);
      if n == cur {
        assert Chunked(cfg, part, write, U32(start + cur), 0) == [];
      } else {
        ChunkedTiles(cfg, part, write, start + cur, n - cur);
      }
    }
  }

  /** A write command confined to the blocks from `lo` to `hi`. */
  predicate Writes(c: Command, lo: nat, hi: nat) {
    c.WriteCmd? && lo <= c.start && c.start + c.count <= hi
  }

  /** The commands of a write when none fails: the chunks up to the first that the 32-bit test against the device
      size refuses. */
  function Sent(cfg: Config, part: nat, start: nat, n: nat): (cs: seq<Command>)
    requires cfg.bMax > 0
    decreases n
  {
    var cur := Min(n, cfg.bMax);
    if n == 0 || U32(start + cur) > cfg.lba then []
    else [Chunk(cfg, part, true, start, cur)] + Sent(cfg, part, U32(start + cur), n - cur)
  }

  lemma {:induction false} SentPrefix(cfg: Config, part: nat, start: nat, n: nat)
    requires cfg.bMax > 0
    ensures Sent(cfg, part, start, n) <= Chunked(cfg, part, true, start, n)
    decreases n
  {
    var cur := Min(n, cfg.bMax);
    if n > 0 && U32(start + cur) <= cfg.lba {
      SentPrefix(cfg, part, U32(start + cur), n - cur);
    }
  }

  /** A write that does not wrap is sent completely exactly when it ends inside the device. */
  lemma {:induction false} SentComplete(cfg: Config, part: nat, start: nat, n: nat)
    requires cfg.bMax > 0 && start + n < TWO32
    ensures Sent(cfg, part, start, n) == Chunked(cfg, part, true, start, n) <==> n == 0 || start + n <= cfg.lba
    decreases n
  {
    var cur := Min(n, cfg.bMax);
    if n > 0 && start + cur <= cfg.lba {
      SentComplete(cfg, part, start + cur, n - cur);
      var c, s, t := Chunk(cfg, part, true, start, cur), Sent(cfg, part, start + cur, n - cur),
                     Chunked(cfg, part, true, start + cur, n - cur);
      assert ([c] + s)[1..] == s && ([c] + t)[1..] == t;
    }
  }

  /** Every command of a write stays inside the request. */
  lemma {:induction false} SentWrites(cfg: Config, part: nat, start: nat, n: nat)
    requires cfg.Valid() && Fits(cfg, start, n)
    ensures forall c :: c in Sent(cfg, part, start, n) ==> Writes(c, start, start + n) && c.part == part
    decreases n
  {
    var cur := Min(n, cfg.bMax);
    if n > 0 && U32(start + cur) <= cfg.lba {
      if n == cur {
        assert Sent(cfg, part, U32(start + cur), 0) == [];
      } else {
        SentWrites(cfg, part, start + cur, n - cur);
      }
    }
  }

  lemma {:induction false} SentPart(cfg: Config, part: nat, start: nat, n: nat, c: Command)
    requires cfg.bMax > 0 && c in Sent(cfg, part, start, n)
    ensures c.WriteCmd? && c.part == part
    decreases n
  {
    var cur := Min(n, cfg.bMax);
    if c != Chunk(cfg, part, true, start, cur) {
      SentPart(cfg, part, U32(start + cur), n - cur, c);
    }
  }

  lemma SentInside(cfg: Config, part: nat, start: nat, n: nat, c: Command, p: nat, b: nat)
    requires cfg.Valid() && Fits(cfg, start, n) && c in Sent(cfg, part, start, n) && Alters(c, cfg.eraseGroup, p, b)
    ensures p == part && start <= b < start + n
  {
    SentWrites(cfg, part, start, n);
  }

  /** The blocks in front of the end of the device that whole chunks from `start` fill. */
  function Whole(cfg: Config, start: nat): (r: nat)
    requires cfg.bMax > 0
    ensures start <= cfg.lba ==> start + r <= cfg.lba
    ensures cfg.lba < start ==> r == 0
  {
    if start <= cfg.lba then
      QuotientNatural(cfg.lba - start, cfg.bMax);
      (cfg.lba - start) / cfg.bMax * cfg.bMax
    else 0
  }

  lemma WholeStep(cfg: Config, start: nat)
    requires cfg.bMax > 0
    ensures start + cfg.bMax <= cfg.lba ==> Whole(cfg, start) == cfg.bMax + Whole(cfg, start + cfg.bMax)
    ensures cfg.lba < start + cfg.bMax ==> Whole(cfg, start) == 0
  {
    var b := cfg.bMax;
    if start <= cfg.lba {
      var left := cfg.lba - start;
      if left < b {
        DivModUnique(b, left, 0, left);
      } else {
        var q := (left - b) / b;
        QuotientNatural(left - b, b);
        assert left - b == q * b + (left - b) % b;
        assert (q + 1) * b == q * b + b;
        DivModUnique(b, left, q + 1, (left - b) % b);
      }
    }
  }

  /** Where a write stops that does not run past the 32-bit block space. */
  function PlainEnd(cfg: Config, start: nat, n: nat): (r: nat)
    requires cfg.bMax > 0
  {
    start + if start + n <= cfg.lba then n else Whole(cfg, start)
  }

  /** The chunk that would take a write across the end of the 32-bit block space, and what is left after it. */
  datatype Crossing = Crossing(at: nat, count: nat, next: int, left: nat)

  function Cross(cfg: Config, start: nat, n: nat): Crossing
    requires cfg.bMax > 0 && cfg.lba < start + n
  {
    var at, left := start + Whole(cfg, start), n - Whole(cfg, start);
    var cur := Min(left, cfg.bMax);
    Crossing(at, cur, at + cur - TWO32, left - cur)
  }

  /** The write goes on behind that end: the chunk reaches it and, wrapped, stops inside the device. */
  predicate Crosses(cfg: Config, start: nat, n: nat)
    requires cfg.Valid()
  {
    TWO32 <= start + n && 0 <= Cross(cfg, start, n).next <= cfg.lba
  }

  /** The blocks a write alters: up to its plain end, in the crossing chunk, and in the wrapped rest. */
  predicate Touches(cfg: Config, start: nat, n: nat, b: nat)
    requires cfg.Valid()
  {
    start <= b < PlainEnd(cfg, start, n) ||
    (Crosses(cfg, start, n) &&
     var x := Cross(cfg, start, n);
     Wire(cfg, x.at) <= b < Wire(cfg, x.at) + x.count || x.next <= b < PlainEnd(cfg, x.next, x.left))
  }

  /** A write command that alters block `b` of partition `part`. */
  predicate WritesBlock(c: Command, part: nat, b: nat) {
    c.WriteCmd? && c.part == part && c.start <= b < c.start + c.count
  }

  /** One of the commands is. */
  ghost predicate Names(cs: seq<Command>, part: nat, b: nat) {
    exists i :: 0 <= i < |cs| && WritesBlock(cs[i], part, b)
  }

  lemma NamesFirst(c: Command, cs: seq<Command>, part: nat, b: nat)
    ensures Names([c] + cs, part, b) <==> WritesBlock(c, part, b) || Names(cs, part, b)
  {
    var all := [c] + cs;
    if i :| 0 <= i < |all| && WritesBlock(all[i], part, b) {
      assert i > 0 ==> cs[i - 1] == all[i];
    }
    if WritesBlock(c, part, b) {
      assert all[0] == c;
    }
    if i :| 0 <= i < |cs| && WritesBlock(cs[i], part, b) {
      assert all[i + 1] == cs[i];
    }
  }

  lemma {:induction false} PlainExact(cfg: Config, part: nat, start: nat, n: nat, b: nat)
    requires cfg.Valid() && start + n < TWO32
    ensures Names(Sent(cfg, part, start, n), part, b) <==> start <= b < PlainEnd(cfg, start, n)
    decreases n
  {
    var cur := Min(n, cfg.bMax);
    WholeStep(cfg, start);
    if n > 0 && start + cur <= cfg.lba {
      PlainExact(cfg, part, start + cur, n - cur, b);
      NamesFirst(Chunk(cfg, part, true, start, cur), Sent(cfg, part, start + cur, n - cur), part, b);
    }
  }

  /** What a write alters, for every request and every device: exactly the blocks it touches. */
  lemma WriteReach(cfg: Config, part: nat, start: nat, n: nat, b: nat)
    requires cfg.Valid() && start < TWO32 && n < TWO32
    ensures Names(Sent(cfg, part, start, n), part, b) <==> Touches(cfg, start, n, b)
  {
    ReachedAll(cfg, part, start, n, b);
  }

  ghost predicate Reached(cfg: Config, part: nat, start: nat, n: nat, b: nat)
    requires cfg.Valid()
  {
    Names(Sent(cfg, part, start, n), part, b) <==> Touches(cfg, start, n, b)
  }

  lemma {:induction false} ReachedAll(cfg: Config, part: nat, start: nat, n: nat, b: nat)
    requires cfg.Valid() && start < TWO32 && n < TWO32
    ensures Reached(cfg, part, start, n, b)
    decreases n
  {
    if start + n < TWO32 {
      PlainReach(cfg, part, start, n, b);
    } else if start + cfg.bMax <= cfg.lba {
      ReachedAll(cfg, part, start + cfg.bMax, n - cfg.bMax, b);
      NextReach(cfg, part, start, n, b);
    } else {
      CrossReach(cfg, part, start, n, b);
    }
  }

  lemma PlainReach(cfg: Config, part: nat, start: nat, n: nat, b: nat)
    requires cfg.Valid() && start + n < TWO32
    ensures Reached(cfg, part, start, n, b)
  {
    PlainExact(cfg, part, start, n, b);
    assert !Crosses(cfg, start, n);
  }

  lemma NextReach(cfg: Config, part: nat, start: nat, n: nat, b: nat)
    requires cfg.Valid() && TWO32 <= start + n && start + cfg.bMax <= cfg.lba
    requires Reached(cfg, part, start + cfg.bMax, n - cfg.bMax, b)
    ensures Reached(cfg, part, start, n, b)
  {
    TouchesNext(cfg, start, n, b);
    NamesNext(cfg, part, start, n, b);
  }

  lemma NamesNext(cfg: Config, part: nat, start: nat, n: nat, b: nat)
    requires cfg.Valid() && cfg.bMax <= n && start + cfg.bMax <= cfg.lba
    ensures Names(Sent(cfg, part, start, n), part, b) <==>
            start <= b < start + cfg.bMax || Names(Sent(cfg, part, start + cfg.bMax, n - cfg.bMax), part, b)
  {
    NamesFirst(Chunk(cfg, part, true, start, cfg.bMax), Sent(cfg, part, start + cfg.bMax, n - cfg.bMax), part, b);
  }

  /** A whole chunk in front of the end of the device. */
  lemma TouchesNext(cfg: Config, start: nat, n: nat, b: nat)
    requires cfg.Valid() && TWO32 <= start + n && start + cfg.bMax <= cfg.lba
    ensures Touches(cfg, start, n, b) <==>
            start <= b < start + cfg.bMax || Touches(cfg, start + cfg.bMax, n - cfg.bMax, b)
  {
    WholeStep(cfg, start);
    assert Cross(cfg, start, n) == Cross(cfg, start + cfg.bMax, n - cfg.bMax);
  }

  /** The chunk that would cross the end of the 32-bit block space. */
  lemma CrossReach(cfg: Config, part: nat, start: nat, n: nat, b: nat)
    requires cfg.Valid() && start < TWO32 && n < TWO32 && TWO32 <= start + n && cfg.lba < start + cfg.bMax
    ensures Reached(cfg, part, start, n, b)
  {
    TouchesLast(cfg, start, n, b);
    NamesLast(cfg, part, start, n, b);
  }

  lemma NamesLast(cfg: Config, part: nat, start: nat, n: nat, b: nat)
    requires cfg.Valid() && start < TWO32 && n < TWO32 && TWO32 <= start + n && cfg.lba < start + cfg.bMax
    ensures Names(Sent(cfg, part, start, n), part, b) <==> LastTouches(cfg, start, n, b)
  {
    SentLast(cfg, part, start, n);
    var cur := Min(n, cfg.bMax);
    if 0 <= start + cur - TWO32 <= cfg.lba {
      NamesOnward(cfg, part, start, n, b, cur, start + cur - TWO32);
    }
  }

  lemma NamesOnward(cfg: Config, part: nat, start: nat, n: nat, b: nat, cur: nat, next: nat)
    requires cfg.Valid() && n < TWO32 && cur == Min(n, cfg.bMax) && start + cur == TWO32 + next && next <= cfg.lba
    requires start < TWO32
    ensures Names([WriteCmd(part, Wire(cfg, start), cur)] + Sent(cfg, part, next, n - cur), part, b) <==>
            LastTouches(cfg, start, n, b)
  {
    PlainExact(cfg, part, next, n - cur, b);
    NamesCross(part, Wire(cfg, start), cur, Sent(cfg, part, next, n - cur), b, next, PlainEnd(cfg, next, n - cur));
  }

  lemma NamesCross(part: nat, first: nat, count: nat, rest: seq<Command>, b: nat, next: nat, end: nat)
    requires Names(rest, part, b) <==> next <= b < end
    ensures Names([WriteCmd(part, first, count)] + rest, part, b) <==> first <= b < first + count || next <= b < end
  {
    NamesFirst(WriteCmd(part, first, count), rest, part, b);
  }

  /** The blocks altered from the crossing chunk on. */
  predicate LastTouches(cfg: Config, start: nat, n: nat, b: nat)
    requires cfg.bMax > 0
  {
    var cur := Min(n, cfg.bMax);
    var next := start + cur - TWO32;
    0 <= next <= cfg.lba &&
    (Wire(cfg, start) <= b < Wire(cfg, start) + cur || next <= b < PlainEnd(cfg, next, n - cur))
  }

  lemma SentLast(cfg: Config, part: nat, start: nat, n: nat)
    requires cfg.Valid() && start < TWO32 && n < TWO32 && TWO32 <= start + n && cfg.lba < start + cfg.bMax
    ensures var cur := Min(n, cfg.bMax);
            var next := start + cur - TWO32;
            Sent(cfg, part, start, n) ==
            if 0 <= next <= cfg.lba then [WriteCmd(part, Wire(cfg, start), cur)] + Sent(cfg, part, next, n - cur)
            else []
  {
    var cur := Min(n, cfg.bMax);
    assert TWO32 <= start + cur ==> U32(start + cur) == start + cur - TWO32;
  }

  lemma TouchesLast(cfg: Config, start: nat, n: nat, b: nat)
    requires cfg.Valid() && n < TWO32 && TWO32 <= start + n && cfg.lba < start + cfg.bMax
    ensures Touches(cfg, start, n, b) <==> LastTouches(cfg, start, n, b)
  {
    WholeStep(cfg, start);
    assert PlainEnd(cfg, start, n) == start;
  }

  /** `log'` extends `log` by write commands confined to the blocks from `lo` to `hi`. */
  ghost predicate WritesAdded(log: seq<Command>, log': seq<Command>, lo: nat, hi: nat) {
    log <= log' && forall i :: |log| <= i < |log'| ==> Writes(log'[i], lo, hi)
  }

  /** What a write request, complete or broken off, put on the bus stays inside the request. */
  lemma RequestLogged(cfg: Config, part: nat, start: nat, n: nat, log: seq<Command>, log': seq<Command>)
    requires cfg.Valid() && Fits(cfg, start, n) && AllFrom(log, log', Sent(cfg, part, start, n))
    ensures WritesAdded(log, log', start, start + n)
  {
    SentWrites(cfg, part, start, n);
  }

  /** `log'` extends `log` by commands out of `cs`. */
  ghost predicate AllFrom(log: seq<Command>, log': seq<Command>, cs: seq<Command>) {
    log <= log' && forall i :: |log| <= i < |log'| ==> log'[i] in cs
  }

  lemma PrefixFrom(log: seq<Command>, log': seq<Command>, cs: seq<Command>)
    requires log <= log' <= log + cs
    ensures AllFrom(log, log', cs)
  {
    forall i | |log| <= i < |log'|
      ensures log'[i] in cs
    {
      assert log'[i] == (log + cs)[i] == cs[i - |log|];
    }
  }

  /** A read request puts only read commands on the bus. */
  lemma {:induction false} ChunkedReads(cfg: Config, part: nat, start: nat, n: nat)
    requires cfg.bMax > 0
    ensures forall c :: c in Chunked(cfg, part, false, start, n) ==> c.ReadCmd?
    decreases n
  {
    if n > 0 {
      var cur := Min(n, cfg.bMax);
      ChunkedReads(cfg, part, U32(start + cur), n - cur);
    }
  }

  /** `log'` extends `log` by read commands only. */
  ghost predicate ReadsAdded(log: seq<Command>, log': seq<Command>) {
    log <= log' && forall i :: |log| <= i < |log'| ==> log'[i].ReadCmd?
  }

  lemma ReadLogged(cfg: Config, part: nat, start: nat, n: nat, log: seq<Command>, log': seq<Command>)
    requires cfg.bMax > 0 && log <= log' <= log + Chunked(cfg, part, false, start, n)
    ensures ReadsAdded(log, log')
  {
    ChunkedReads(cfg, part, start, n);
    var full := Chunked(cfg, part, false, start, n);
    forall i | |log| <= i < |log'|
      ensures log'[i].ReadCmd?
    {
      var c := full[i - |log|];
      assert c in full && log'[i] == (log + full)[i] == c;
    }
  }

  lemma ReadsAddedTwice(a: seq<Command>, b: seq<Command>, c: seq<Command>)
    requires ReadsAdded(a, b) && ReadsAdded(b, c)
    ensures ReadsAdded(a, c)
  {
    assert forall i :: |a| <= i < |b| ==> c[i] == b[i];
  }

  lemma FromTwice(a: seq<Command>, b: seq<Command>, c: seq<Command>, cs: seq<Command>, ds: seq<Command>)
    requires AllFrom(a, b, cs) && AllFrom(b, c, ds)
    ensures AllFrom(a, c, cs + ds)
  {
    assert forall i :: |a| <= i < |b| ==> c[i] == b[i];
  }

  lemma ChangedTwice(m: Media, m': Media, m'': Media, a: seq<Command>, b: seq<Command>, c: seq<Command>, g: nat)
    requires g > 0 && ChangedBy(m, m', a, b, g) && ChangedBy(m', m'', b, c, g)
    ensures ChangedBy(m, m'', a, c, g)
  {
    assert c[|a|..] == b[|a|..] + c[|b|..];
    forall p: nat, x: nat | m''(p, x) != m(p, x)
      ensures exists d :: d in c[|a|..] && Alters(d, g, p, x)
    {
      if m'(p, x) != m(p, x) {
        var d :| d in b[|a|..] && Alters(d, g, p, x);
        assert d in c[|a|..];
      } else {
        var d :| d in c[|b|..] && Alters(d, g, p, x);
        assert d in c[|a|..];
      }
    }
  }

  /** Every block of a tiled range is named by exactly one of the commands, and no other block by any. */
  lemma {:induction false} TilesNameOnce(cs: seq<Command>, part: nat, write: bool, start: nat, end: nat, bMax: nat,
                                         b: nat)
    requires Tiles(cs, part, write, start, end, bMax)
    ensures forall i :: 0 <= i < |cs| ==>
              (cs[i].ReadCmd? || cs[i].WriteCmd?) && cs[i].part == part && start <= cs[i].start
    ensures start <= end
    ensures start <= b < end <==> exists i :: 0 <= i < |cs| && cs[i].start <= b < cs[i].start + cs[i].count
    ensures forall i, j :: 0 <= i < j < |cs| ==> cs[i].start + cs[i].count <= cs[j].start
  {
    if cs != [] {
      var rest, next := cs[1..], start + cs[0].count;
      TilesNameOnce(rest, part, write, next, end, bMax, b);
      assert forall i :: 1 <= i < |cs| ==> cs[i] == rest[i - 1];
      if next <= b < end {
        var i :| 0 <= i < |rest| && rest[i].start <= b < rest[i].start + rest[i].count;
        assert cs[i + 1] == rest[i];
      }
    }
  }

  /** One write of `data` at `start`: the range holds the data, everything else is untouched. */
  ghost predicate Wrote(pre: Media, post: Media, part: nat, start: nat, data: seq<Block>) {
    OnlyIn(pre, post, part, start, |data|) && Blocks(post, part, start, |data|) == data
  }

  /** A write that broke off in chunk `k`: the chunks before it hold the data, that chunk holds anything,
      everything else is untouched. */
  ghost predicate BrokeOff(pre: Media, post: Media, part: nat, start: nat, data: seq<Block>, bMax: nat, k: nat) {
    k * bMax < |data| &&
    Blocks(post, part, start, k * bMax) == data[..k * bMax] &&
    OnlyIn(pre, post, part, start, Min((k + 1) * bMax, |data|))
  }

  /** Everything a write request can do to the card. */
  ghost predicate WriteOutcome(pre: Media, post: Media, part: nat, start: nat, data: seq<Block>, bMax: nat, r: nat) {
    if r == |data| then Wrote(pre, post, part, start, data)
    else r == 0 && exists k :: BrokeOff(pre, post, part, start, data, bMax, k)
  }

  /** The log and the chunks still to be sent make up the log aimed for. */
  ghost predicate Pending(cfg: Config, part: nat, write: bool, cursor: nat, todo: nat, log: seq<Command>,
                          goal: seq<Command>)
    requires cfg.bMax > 0
  {
    log + Chunked(cfg, part, write, cursor, todo) == goal
  }

  /** Sending the next chunk moves one command from the pending ones to the log. */
  lemma NextChunk(cfg: Config, part: nat, write: bool, cursor: nat, todo: nat, log: seq<Command>, goal: seq<Command>)
    requires cfg.bMax > 0 && todo > 0 && Pending(cfg, part, write, cursor, todo, log, goal)
    ensures var cur := Min(todo, cfg.bMax);
            var sent := log + [Chunk(cfg, part, write, cursor, cur)];
            log <= sent <= goal && Pending(cfg, part, write, U32(cursor + cur), todo - cur, sent, goal)
  {
    var cur := Min(todo, cfg.bMax);
    var c, rest := Chunk(cfg, part, write, cursor, cur), Chunked(cfg, part, write, U32(cursor + cur), todo - cur);
    assert log + [c] + rest == log + ([c] + rest);
  }

  /** mmc_read_blocks.  A status failure after the data phase is ignored. */
  method ReadBlocks(mmc: Mmc, start: nat, cnt: nat) returns (r: nat, dst: seq<Block>)
    modifies mmc`log, mmc`faults
    ensures old(mmc.faults) <= mmc.faults
    ensures r == 0 || r == cnt
    ensures mmc.log == old(mmc.log) + [Chunk(mmc.cfg, mmc.Part(), false, start, cnt)]
    ensures |dst| == cnt
    ensures cnt > 0 && r == cnt ==> dst == Blocks(mmc.media, mmc.Part(), Wire(mmc.cfg, start), cnt)
    ensures mmc.faults == old(mmc.faults) ==> r == cnt
  {
    var ok, data := SendRead(mmc, start, cnt);
    dst := data;
    if !ok {
      return 0, dst;
    }
    if cnt > 1 {
      var stop := SendPlain(mmc);
      if stop != 0 {
        return 0, dst;
      }
    }
    r := cnt;
  }

  /** Where the read loop stands with `todo` blocks left and the blocks of `dst` filled. */
  ghost predicate Reading(cfg: Config, part: nat, start: nat, cnt: nat, media: Media, goal: seq<Command>,
                          dst: seq<Block>, log: seq<Command>, cursor: nat, todo: nat)
    requires cfg.bMax > 0
  {
    && |dst| + todo == cnt
    && Pending(cfg, part, false, cursor, todo, log, goal)
    && (Addressable(cfg, start, cnt) ==>
          dst == Blocks(media, part, start, |dst|) && (todo > 0 ==> cursor == start + |dst|))
  }

  lemma ReadingNext(cfg: Config, part: nat, start: nat, cnt: nat, media: Media, goal: seq<Command>,
                    dst: seq<Block>, log: seq<Command>, cursor: nat, todo: nat, more: seq<Block>, log': seq<Command>)
    requires cfg.bMax > 0 && todo > 0 && Reading(cfg, part, start, cnt, media, goal, dst, log, cursor, todo)
    requires |more| == Min(todo, cfg.bMax)
    requires log' == log + [Chunk(cfg, part, false, cursor, |more|)]
    ensures log <= log' <= goal
    ensures more == Blocks(media, part, Wire(cfg, cursor), |more|) ==>
            Reading(cfg, part, start, cnt, media, goal, dst + more, log', U32(cursor + |more|), todo - |more|)
  {
    NextChunk(cfg, part, false, cursor, todo, log, goal);
  }

  lemma ReadingStart(cfg: Config, part: nat, start: nat, cnt: nat, media: Media, log: seq<Command>)
    requires cfg.bMax > 0
    ensures Reading(cfg, part, start, cnt, media, log + Chunked(cfg, part, false, start, cnt), [], log, start, cnt)
  {
    assert Blocks(media, part, start, 0) == [];
  }

  /** mmc_bread. */
  method Bread(mmc: Mmc, start: nat, cnt: nat) returns (r: nat, dst: seq<Block>)
    requires mmc.cfg.Valid() && start < TWO32 && cnt < TWO32
    modifies mmc`log, mmc`faults
    ensures old(mmc.faults) <= mmc.faults
    ensures r == 0 || r == cnt
    ensures old(mmc.log) <= mmc.log <= old(mmc.log) + Chunked(mmc.cfg, mmc.Part(), false, start, cnt)
    ensures r == cnt ==> mmc.log == old(mmc.log) + Chunked(mmc.cfg, mmc.Part(), false, start, cnt)
    ensures r == cnt && Fits(mmc.cfg, start, cnt) ==> dst == Blocks(mmc.media, mmc.Part(), start, cnt)
    ensures cnt > 0 && U32(start + cnt) > mmc.cfg.lba ==> r == 0 && mmc.log == old(mmc.log)
    ensures mmc.faults == old(mmc.faults) && U32(start + cnt) <= mmc.cfg.lba ==> r == cnt
  {
    dst := [];
    if cnt == 0 {
      return 0, dst;
    }
    if U32(start + cnt) > mmc.cfg.lba {
      return 0, dst;
    }
    var err := SendPlain(mmc);  // SET_BLOCKLEN
    if err != 0 {
      return 0, dst;
    }
    r, dst := ReadChunks(mmc, start, cnt);
  }

  /** What a read request put on the bus and returned. */
  ghost predicate ReadReport(cfg: Config, part: nat, start: nat, cnt: nat, media: Media, log0: seq<Command>,
                             log: seq<Command>, r: nat, dst: seq<Block>)
    requires cfg.bMax > 0
  {
    && (r == 0 || r == cnt)
    && log0 <= log <= log0 + Chunked(cfg, part, false, start, cnt)
    && (r == cnt ==> log == log0 + Chunked(cfg, part, false, start, cnt))
    && (r == cnt && Addressable(cfg, start, cnt) ==> dst == Blocks(media, part, start, cnt))
  }

  lemma ReadingDone(cfg: Config, part: nat, start: nat, cnt: nat, media: Media, log0: seq<Command>,
                    dst: seq<Block>, log: seq<Command>, cursor: nat)
    requires cfg.bMax > 0 && log0 <= log
    requires Reading(cfg, part, start, cnt, media, log0 + Chunked(cfg, part, false, start, cnt), dst, log, cursor, 0)
    ensures ReadReport(cfg, part, start, cnt, media, log0, log, cnt, dst)
  {
  }

  /** The read loop. */
  method ReadChunks(mmc: Mmc, start: nat, cnt: nat) returns (r: nat, dst: seq<Block>)
    requires mmc.cfg.Valid() && start < TWO32 && 0 < cnt < TWO32
    modifies mmc`log, mmc`faults
    ensures old(mmc.faults) <= mmc.faults
    ensures ReadReport(mmc.cfg, mmc.Part(), start, cnt, mmc.media, old(mmc.log), mmc.log, r, dst)
    ensures mmc.faults == old(mmc.faults) ==> r == cnt
  {
    ghost var part, log0 := mmc.Part(), mmc.log;
    ghost var goal := log0 + Chunked(mmc.cfg, part, false, start, cnt);
    dst := [];
    ReadingStart(mmc.cfg, part, start, cnt, mmc.media, mmc.log);
    var todo: nat, cursor: nat := cnt, start;
    while todo > 0
      invariant log0 <= mmc.log && old(mmc.faults) <= mmc.faults
      invariant Reading(mmc.cfg, part, start, cnt, mmc.media, goal, dst, mmc.log, cursor, todo)
    {
      var cur := if todo > mmc.cfg.bMax then mmc.cfg.bMax else todo;
      ghost var log := mmc.log;
      var got, more := ReadBlocks(mmc, cursor, cur);
      ReadingNext(mmc.cfg, part, start, cnt, mmc.media, goal, dst, log, cursor, todo, more, mmc.log);
      dst := dst + more;
      if got != cur {
        return 0, dst;
      }
      todo, cursor := todo - cur, U32(cursor + cur);
    }
    ReadingDone(mmc.cfg, part, start, cnt, mmc.media, log0, dst, mmc.log, cursor);
    r := cnt;
  }

  /** mmc_bread as callers rely on it: only reads reach the card, and a complete read returns the range. */
  method ReadRange(mmc: Mmc, start: nat, cnt: nat) returns (r: nat, dst: seq<Block>)
    requires mmc.cfg.Valid() && start < TWO32 && cnt < TWO32
    modifies mmc`log, mmc`faults
    ensures old(mmc.faults) <= mmc.faults
    ensures r == 0 || r == cnt
    ensures ReadsAdded(old(mmc.log), mmc.log)
    ensures r == cnt && Fits(mmc.cfg, start, cnt) ==> dst == Blocks(mmc.media, mmc.Part(), start, cnt)
    ensures mmc.faults == old(mmc.faults) && U32(start + cnt) <= mmc.cfg.lba ==> r == cnt
    ensures r == cnt ==> mmc.log == old(mmc.log) + Chunked(mmc.cfg, mmc.Part(), false, start, cnt)
  {
    ghost var log := mmc.log;
    r, dst := Bread(mmc, start, cnt);
    ReadLogged(mmc.cfg, mmc.Part(), start, cnt, log, mmc.log);
  }

  /** mmc_write_blocks: the bounds test uses the 32-bit sum. */
  method WriteBlocks(mmc: Mmc, start: nat, data: seq<Block>) returns (r: nat)
    modifies mmc`log, mmc`media, mmc`faults
    ensures old(mmc.faults) <= mmc.faults
    ensures r == 0 || r == |data|
    ensures U32(start + |data|) <= mmc.cfg.lba && |data| > 0 ==>
              mmc.log == old(mmc.log) + [Chunk(mmc.cfg, mmc.Part(), true, start, |data|)]
    ensures |data| == 0 ==> mmc.log == old(mmc.log)
    ensures U32(start + |data|) > mmc.cfg.lba ==> r == 0 && mmc.log == old(mmc.log) && mmc.media == old(mmc.media)
    ensures OnlyIn(old(mmc.media), mmc.media, mmc.Part(), Wire(mmc.cfg, start), |data|)
    ensures |data| > 0 && r == |data| ==>
              Blocks(mmc.media, mmc.Part(), Wire(mmc.cfg, start), |data|) == data
    ensures mmc.faults == old(mmc.faults) && U32(start + |data|) <= mmc.cfg.lba ==> r == |data|
  {
    if U32(start + |data|) > mmc.cfg.lba {
      return 0;
    }
    if |data| == 0 {
      return 0;
    }
    var ok := SendWrite(mmc, start, data);
    return if ok then |data| else 0;
  }

  /** What a run of chunk writes has achieved after `done` blocks. */
  ghost predicate Progress(was: Media, now: Media, part: nat, start: nat, data: seq<Block>, done: nat)
    requires done <= |data|
  {
    OnlyIn(was, now, part, start, done) && Blocks(now, part, start, done) == data[..done]
  }

  /** Where the write loop stands with `todo` blocks left: what it has put on the card and on the bus. */
  ghost predicate Writing(cfg: Config, part: nat, start: nat, data: seq<Block>, was: Media, log0: seq<Command>,
                          now: Media, log: seq<Command>, cursor: nat, todo: nat, k: nat)
    requires cfg.Valid()
  {
    && todo <= |data|
    && (todo > 0 ==> |data| - todo == k * cfg.bMax)
    && Pending(cfg, part, true, cursor, todo, log, log0 + Chunked(cfg, part, true, start, |data|))
    && log + Sent(cfg, part, cursor, todo) == log0 + Sent(cfg, part, start, |data|)
    && ChangedBy(was, now, log0, log, cfg.eraseGroup)
    && Filling(cfg, part, start, data, was, now, cursor, todo)
  }

  /** What the write loop has put on the card, for a request that does not wrap. */
  ghost predicate Filling(cfg: Config, part: nat, start: nat, data: seq<Block>, was: Media, now: Media, cursor: nat,
                          todo: nat)
    requires todo <= |data|
  {
    Fits(cfg, start, |data|) ==>
      Progress(was, now, part, start, data, |data| - todo) && (todo > 0 ==> cursor == start + (|data| - todo))
  }

  lemma FillingNext(cfg: Config, part: nat, start: nat, data: seq<Block>, was: Media, now: Media, log: seq<Command>,
                    cursor: nat, todo: nat, k: nat, now': Media, log': seq<Command>, ok: bool)
    requires cfg.Valid() && 0 < todo <= |data| && |data| - todo == k * cfg.bMax
    requires Filling(cfg, part, start, data, was, now, cursor, todo)
    requires ChunkSent(cfg, part, data, now, log, cursor, todo, now', log', ok)
    ensures var cur := Min(todo, cfg.bMax);
            ok ==> Filling(cfg, part, start, data, was, now', U32(cursor + cur), todo - cur)
    ensures !ok && Fits(cfg, start, |data|) ==> WriteOutcome(was, now', part, start, data, cfg.bMax, 0)
  {
    if Fits(cfg, start, |data|) {
      var cur := Min(todo, cfg.bMax);
      assert U32(cursor + cur) <= cfg.lba ==> Wire(cfg, cursor) == cursor;
      ChunkWritten(was, now, now', part, start, data, k, cur, cfg.bMax, ok);
    }
  }

  /** One more chunk: on success the loop has moved on, on failure the write has broken off there. */
  lemma WritingNext(cfg: Config, part: nat, start: nat, data: seq<Block>, was: Media, log0: seq<Command>,
                    now: Media, log: seq<Command>, cursor: nat, todo: nat, k: nat, now': Media, log': seq<Command>,
                    ok: bool)
    requires cfg.Valid() && todo > 0 && Writing(cfg, part, start, data, was, log0, now, log, cursor, todo, k)
    requires log0 <= log && ChunkSent(cfg, part, data, now, log, cursor, todo, now', log', ok)
    ensures log <= log'
    ensures U32(cursor + Min(todo, cfg.bMax)) > cfg.lba ==> AllSent(cfg, part, start, |data|, log0, log', 0)
    ensures var cur := Min(todo, cfg.bMax);
            ok ==> Writing(cfg, part, start, data, was, log0, now', log', U32(cursor + cur), todo - cur, k + 1)
    ensures !ok ==> WriteReport(cfg, part, start, data, was, log0, now', log', 0)
  {
    var cur := Min(todo, cfg.bMax);
    NextChunk(cfg, part, true, cursor, todo, log, log0 + Chunked(cfg, part, true, start, |data|));
    NextSent(cfg, part, cursor, todo, log, log0 + Sent(cfg, part, start, |data|));
    ChunkLogged(cfg, part, was, now, now', log0, log, log', Wire(cfg, cursor), cur);
    assert (k + 1) * cfg.bMax == k * cfg.bMax + cfg.bMax;
    if U32(cursor + cur) > cfg.lba {
      RefusedNext(cfg, part, cursor, todo, log, log0 + Sent(cfg, part, start, |data|),
        log0 + Chunked(cfg, part, true, start, |data|));
    }
    FillingNext(cfg, part, start, data, was, now, log, cursor, todo, k, now', log', ok);
  }

  /** What one chunk of the write loop does: refused without effect, or one command with its effect. */
  ghost predicate ChunkSent(cfg: Config, part: nat, data: seq<Block>, now: Media, log: seq<Command>, cursor: nat,
                            todo: nat, now': Media, log': seq<Command>, ok: bool)
    requires todo <= |data|
  {
    var cur := Min(todo, cfg.bMax);
    if U32(cursor + cur) > cfg.lba then !ok && now' == now && log' == log
    else
      && OnlyIn(now, now', part, Wire(cfg, cursor), cur)
      && log' == log + [Chunk(cfg, part, true, cursor, cur)]
      && (ok ==> Blocks(now', part, Wire(cfg, cursor), cur) == data[|data| - todo..|data| - todo + cur])
  }

  lemma NextSent(cfg: Config, part: nat, cursor: nat, todo: nat, log: seq<Command>, goal: seq<Command>)
    requires cfg.bMax > 0 && todo > 0 && log + Sent(cfg, part, cursor, todo) == goal
    ensures log <= goal
    ensures var cur := Min(todo, cfg.bMax);
            var sent := log + [Chunk(cfg, part, true, cursor, cur)];
            U32(cursor + cur) <= cfg.lba ==>
              sent <= goal && sent + Sent(cfg, part, U32(cursor + cur), todo - cur) == goal
  {
    var cur := Min(todo, cfg.bMax);
    var c, rest := Chunk(cfg, part, true, cursor, cur), Sent(cfg, part, U32(cursor + cur), todo - cur);
    assert log + [c] + rest == log + ([c] + rest);
  }

  lemma RefusedNext(cfg: Config, part: nat, cursor: nat, todo: nat, log: seq<Command>, sent: seq<Command>,
                    goal: seq<Command>)
    requires cfg.bMax > 0 && todo > 0 && U32(cursor + Min(todo, cfg.bMax)) > cfg.lba
    requires log + Sent(cfg, part, cursor, todo) == sent && Pending(cfg, part, true, cursor, todo, log, goal)
    ensures log == sent && |sent| < |goal|
  {
    assert Sent(cfg, part, cursor, todo) == [] && |Chunked(cfg, part, true, cursor, todo)| > 0;
  }

  lemma ChunkLogged(cfg: Config, part: nat, was: Media, now: Media, now': Media, log0: seq<Command>, log: seq<Command>,
                    log': seq<Command>, first: nat, cur: nat)
    requires cfg.eraseGroup > 0 && ChangedBy(was, now, log0, log, cfg.eraseGroup)
    requires (log' == log && now' == now) ||
             (log' == log + [WriteCmd(part, first, cur)] && OnlyIn(now, now', part, first, cur))
    ensures ChangedBy(was, now', log0, log', cfg.eraseGroup)
  {
    if log' != log {
      var c := WriteCmd(part, first, cur);
      assert log'[|log0|..] == log[|log0|..] + [c];
      forall p: nat, b: nat | now'(p, b) != was(p, b)
        ensures exists c :: c in log'[|log0|..] && Alters(c, cfg.eraseGroup, p, b)
      {
        if now(p, b) != was(p, b) {
          var d :| d in log[|log0|..] && Alters(d, cfg.eraseGroup, p, b);
          assert d in log'[|log0|..];
        } else {
          assert c in log'[|log0|..] && Alters(c, cfg.eraseGroup, p, b);
        }
      }
    }
  }

  lemma NothingWritten(was: Media, part: nat, start: nat, data: seq<Block>, bMax: nat)
    requires |data| > 0
    ensures WriteOutcome(was, was, part, start, data, bMax, 0)
  {
    assert BrokeOff(was, was, part, start, data, bMax, 0);
  }

  lemma WritingStart(cfg: Config, part: nat, start: nat, data: seq<Block>, was: Media, log: seq<Command>)
    requires cfg.Valid()
    ensures Writing(cfg, part, start, data, was, log, was, log, start, |data|, 0)
  {
    assert Blocks(was, part, start, 0) == data[..0];
  }

  lemma WritingDone(cfg: Config, part: nat, start: nat, data: seq<Block>, was: Media, log0: seq<Command>,
                    now: Media, log: seq<Command>, cursor: nat, k: nat)
    requires cfg.Valid() && Writing(cfg, part, start, data, was, log0, now, log, cursor, 0, k) && log0 <= log
    ensures WriteReport(cfg, part, start, data, was, log0, now, log, |data|)
    ensures AllSent(cfg, part, start, |data|, log0, log, |data|)
  {
    assert data[..|data|] == data;
  }

  /** When no command failed: everything up to a refused chunk was sent, and the answer tells whether that is all. */
  ghost predicate AllSent(cfg: Config, part: nat, start: nat, n: nat, log0: seq<Command>, log: seq<Command>, r: nat)
    requires cfg.bMax > 0
  {
    log == log0 + Sent(cfg, part, start, n) &&
    (r == n <==> Sent(cfg, part, start, n) == Chunked(cfg, part, true, start, n))
  }

  /** What a write request did to card and bus. */
  ghost predicate WriteReport(cfg: Config, part: nat, start: nat, data: seq<Block>, was: Media, log0: seq<Command>,
                              now: Media, log: seq<Command>, r: nat)
    requires cfg.Valid()
  {
    && (r == 0 || r == |data|)
    && log0 <= log <= log0 + Sent(cfg, part, start, |data|)
    && (r == |data| > 0 ==>
          log == log0 + Chunked(cfg, part, true, start, |data|) == log0 + Sent(cfg, part, start, |data|))
    && ChangedBy(was, now, log0, log, cfg.eraseGroup)
    && (Fits(cfg, start, |data|) ==> WriteOutcome(was, now, part, start, data, cfg.bMax, r))
  }

  /** One pass of the write loop. */
  method WriteChunk(mmc: Mmc, cursor: nat, data: seq<Block>, todo: nat, cur: nat) returns (put: nat)
    requires 0 < todo <= |data| && mmc.cfg.bMax > 0 && cur == Min(todo, mmc.cfg.bMax)
    modifies mmc`log, mmc`media, mmc`faults
    ensures old(mmc.faults) <= mmc.faults
    ensures ChunkSent(mmc.cfg, mmc.Part(), data, old(mmc.media), old(mmc.log), cursor, todo, mmc.media, mmc.log,
              put == cur)
    ensures mmc.faults == old(mmc.faults) && U32(cursor + cur) <= mmc.cfg.lba ==> put == cur
  {
    var done := |data| - todo;
    put := WriteBlocks(mmc, cursor, data[done..done + cur]);
  }

  /** mmc_bwrite. */
  method Bwrite(mmc: Mmc, start: nat, data: seq<Block>) returns (r: nat)
    requires mmc.cfg.Valid() && start < TWO32 && |data| < TWO32
    modifies mmc`log, mmc`media, mmc`faults
    ensures old(mmc.faults) <= mmc.faults
    ensures r == 0 || r == |data|
    ensures old(mmc.log) <= mmc.log <= old(mmc.log) + Sent(mmc.cfg, mmc.Part(), start, |data|)
    ensures r == |data| ==> mmc.log == old(mmc.log) + Chunked(mmc.cfg, mmc.Part(), true, start, |data|)
                                    == old(mmc.log) + Sent(mmc.cfg, mmc.Part(), start, |data|)
    ensures ChangedBy(old(mmc.media), mmc.media, old(mmc.log), mmc.log, mmc.cfg.eraseGroup)
    ensures Fits(mmc.cfg, start, |data|) ==>
              WriteOutcome(old(mmc.media), mmc.media, mmc.Part(), start, data, mmc.cfg.bMax, r)
    ensures mmc.faults == old(mmc.faults) ==>
              AllSent(mmc.cfg, mmc.Part(), start, |data|, old(mmc.log), mmc.log, r)
  {
    ghost var was, part := mmc.media, mmc.Part();
    if |data| == 0 {
      return 0;
    }
    var err := SendPlain(mmc);  // SET_BLOCKLEN
    if err != 0 {
      NothingWritten(was, part, start, data, mmc.cfg.bMax);
      return 0;
    }
    r := WriteChunks(mmc, start, data);
  }

  /** The same with where it leaves the loop. */
  method WriteNext(mmc: Mmc, start: nat, data: seq<Block>, ghost was: Media, ghost log0: seq<Command>, cursor: nat,
                   todo: nat, ghost k: nat, cur: nat) returns (put: nat)
    requires mmc.cfg.Valid() && 0 < todo && cur == Min(todo, mmc.cfg.bMax) && log0 <= mmc.log
    requires Writing(mmc.cfg, mmc.Part(), start, data, was, log0, mmc.media, mmc.log, cursor, todo, k)
    modifies mmc`log, mmc`media, mmc`faults
    ensures old(mmc.faults) <= mmc.faults && log0 <= mmc.log
    ensures put == cur ==> Writing(mmc.cfg, mmc.Part(), start, data, was, log0, mmc.media, mmc.log, U32(cursor + cur),
                                   todo - cur, k + 1)
    ensures put != cur ==> WriteReport(mmc.cfg, mmc.Part(), start, data, was, log0, mmc.media, mmc.log, 0)
    ensures put != cur && mmc.faults == old(mmc.faults) ==>
              AllSent(mmc.cfg, mmc.Part(), start, |data|, log0, mmc.log, 0)
  {
    ghost var now, log := mmc.media, mmc.log;
    put := WriteChunk(mmc, cursor, data, todo, cur);
    WritingNext(mmc.cfg, mmc.Part(), start, data, was, log0, now, log, cursor, todo, k, mmc.media, mmc.log, put == cur);
  }

  /** The write loop. */
  method WriteChunks(mmc: Mmc, start: nat, data: seq<Block>) returns (r: nat)
    requires mmc.cfg.Valid() && start < TWO32 && 0 < |data| < TWO32
    modifies mmc`log, mmc`media, mmc`faults
    ensures old(mmc.faults) <= mmc.faults
    ensures WriteReport(mmc.cfg, mmc.Part(), start, data, old(mmc.media), old(mmc.log), mmc.media, mmc.log, r)
    ensures mmc.faults == old(mmc.faults) ==>
              AllSent(mmc.cfg, mmc.Part(), start, |data|, old(mmc.log), mmc.log, r)
  {
    ghost var was, part, k, log0 := mmc.media, mmc.Part(), 0, mmc.log;
    WritingStart(mmc.cfg, part, start, data, was, mmc.log);
    var todo: nat, cursor: nat := |data|, start;
    while todo > 0
      invariant log0 <= mmc.log && old(mmc.faults) <= mmc.faults
      invariant Writing(mmc.cfg, part, start, data, was, log0, mmc.media, mmc.log, cursor, todo, k)
    {
      var cur := if todo > mmc.cfg.bMax then mmc.cfg.bMax else todo;
      var put := WriteNext(mmc, start, data, was, log0, cursor, todo, k, cur);
      if put != cur {
        return 0;
      }
      todo, cursor, k := todo - cur, U32(cursor + cur), k + 1;
    }
    WritingDone(mmc.cfg, part, start, data, was, log0, mmc.media, mmc.log, cursor, k);
    return |data|;
  }

  /** One more chunk: the blocks before it keep their data, nothing beyond it changes. */
  lemma ChunkWritten(was: Media, before: Media, after: Media, part: nat, start: nat, data: seq<Block>,
                     k: nat, cur: nat, bMax: nat, ok: bool)
    requires k * bMax < |data| && cur == Min(bMax, |data| - k * bMax)
    requires Progress(was, before, part, start, data, k * bMax)
    requires OnlyIn(before, after, part, start + k * bMax, cur)
    requires ok ==> Blocks(after, part, start + k * bMax, cur) == data[k * bMax..k * bMax + cur]
    ensures ok ==> Progress(was, after, part, start, data, k * bMax + cur)
    ensures BrokeOff(was, after, part, start, data, bMax, k)
  {
    var done := k * bMax;
    assert (k + 1) * bMax == done + bMax;
    forall i | 0 <= i < done
      ensures after(part, start + i) == data[i]
    {
      assert after(part, start + i) == before(part, start + i) == Blocks(before, part, start, done)[i];
      assert data[..done][i] == data[i];
    }
    assert Blocks(after, part, start, done) == data[..done];
    assert Min((k + 1) * bMax, |data|) == done + cur;
    if ok {
      forall i | done <= i < done + cur
        ensures after(part, start + i) == data[i]
      {
        assert start + done + (i - done) == start + i;
        assert after(part, start + i) == Blocks(after, part, start + done, cur)[i - done];
      }
      assert Blocks(after, part, start, done + cur) == data[..done + cur];
    }
  }

  /** mmc_bwrite as callers rely on it: the writes that reach the card stay inside the request. */
  method WriteRange(mmc: Mmc, start: nat, data: seq<Block>) returns (r: nat)
    requires mmc.cfg.Valid() && start < TWO32 && |data| < TWO32
    modifies mmc`log, mmc`media, mmc`faults
    ensures old(mmc.faults) <= mmc.faults
    ensures r == 0 || r == |data|
    ensures AllFrom(old(mmc.log), mmc.log, Sent(mmc.cfg, mmc.Part(), start, |data|))
    ensures ChangedBy(old(mmc.media), mmc.media, old(mmc.log), mmc.log, mmc.cfg.eraseGroup)
    ensures Fits(mmc.cfg, start, |data|) ==>
              WritesAdded(old(mmc.log), mmc.log, start, start + |data|) &&
              WriteOutcome(old(mmc.media), mmc.media, mmc.Part(), start, data, mmc.cfg.bMax, r)
    ensures mmc.faults == old(mmc.faults) && start + |data| < TWO32 ==>
              (r == |data| <==> |data| == 0 || start + |data| <= mmc.cfg.lba)
    ensures r == |data| ==> mmc.log == old(mmc.log) + Chunked(mmc.cfg, mmc.Part(), true, start, |data|)
  {
    ghost var log := mmc.log;
    r := Bwrite(mmc, start, data);
    PrefixFrom(log, mmc.log, Sent(mmc.cfg, mmc.Part(), start, |data|));
    if start + |data| < TWO32 {
      SentComplete(mmc.cfg, mmc.Part(), start, |data|);
    }
    if Fits(mmc.cfg, start, |data|) {
      RequestLogged(mmc.cfg, mmc.Part(), start, |data|, log, mmc.log);
    }
  }
}
