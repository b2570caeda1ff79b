/** The protected window of the card and the two-copy item store inside it (sunxi_mmc_interface.c). */
module SecureStore {
  import opened Words
  import opened Card
  import opened Transfer

  const MAX_ITEM: nat := 32
  const ITEM_BLOCKS: nat := 8
  const WINDOW_START: nat := 12288
  const WINDOW_END: nat := WINDOW_START + ITEM_BLOCKS * 2 * MAX_ITEM

  predicate InWindow(b: nat) {
    WINDOW_START <= b < WINDOW_END
  }

  predicate Overlaps(start: nat, n: nat) {
    n > 0 && start < WINDOW_END && WINDOW_START < start + n
  }

  /** check_secure_area: both ends are cut to 32 bits. */
  predicate CheckSecureArea(start: nat, n: nat) {
    var sta, end := U32(start), U32(start + n - 1);
    if n <= ITEM_BLOCKS * 2 * MAX_ITEM then
      WINDOW_START <= sta < WINDOW_END || WINDOW_START <= end < WINDOW_END
    else
      sta <= WINDOW_START <= end || sta <= WINDOW_END - 1 <= end
  }

  /** Overlap on plain numbers is sharing a block with the window. */
  lemma OverlapsMeaning(start: nat, n: nat)
    ensures Overlaps(start, n) <==> exists b :: start <= b < start + n && InWindow(b)
  {
    if Overlaps(start, n) {
      var b := if start < WINDOW_START then WINDOW_START else start;
      assert start <= b < start + n && InWindow(b);
    }
  }

  /** Overlap as the transfers see it: their cursor goes on from block 0 after 2^32. */
  ghost predicate Meets(start: nat, n: nat) {
    exists i: nat :: i < n && InWindow(Nth(start, i))
  }

  function Nth(start: nat, i: nat): nat {
    U32(start + i)
  }

  /** A request that ends within 2^32, or wraps but starts behind the window and ends before it. */
  predicate OffWindowWrap(start: nat, n: nat) {
    start + n <= TWO32 || (WINDOW_END <= start && start + n <= TWO32 + WINDOW_START)
  }

  lemma MeetsMeaning(start: nat, n: nat)
    requires start < TWO32 && n < TWO32
    ensures Meets(start, n) <==> Overlaps(start, n) || TWO32 + WINDOW_START < start + n
  {
    if Overlaps(start, n) {
      var i := if start < WINDOW_START then WINDOW_START - start else 0;
      assert InWindow(Nth(start, i));
    } else if TWO32 + WINDOW_START < start + n {
      assert InWindow(Nth(start, TWO32 + WINDOW_START - start));
    }
  }

  /** The check never refuses a request that runs past 2^32, so it decides overlap for exactly those requests that
      do not wrap or that stay off the window when they do. */
  lemma CheckExact(start: nat, n: nat)
    requires start < TWO32 && 0 < n < TWO32
    ensures (CheckSecureArea(start, n) <==> Meets(start, n)) <==> OffWindowWrap(start, n)
    ensures start + n <= TWO32 ==> (CheckSecureArea(start, n) <==> Overlaps(start, n))
    ensures start + n > TWO32 ==> !CheckSecureArea(start, n)
  {
    MeetsMeaning(start, n);
    if start + n > TWO32 {
      assert U32(start + n - 1) == start + n - 1 - TWO32;
    }
  }

  /** Two requests that meet the window and pass the check: four billion blocks from block 100, and 32768 blocks that
      start 16384 below 2^32.  With chunks of 16384 blocks the second command of the latter writes from block 0. */
  lemma CheckMissesWrappingRequest(cfg: Config, part: nat)
    requires cfg.Valid() && cfg.bMax == 16384 <= cfg.lba && cfg.highCapacity
    ensures !CheckSecureArea(100, TWO32 - 50) && Meets(100, TWO32 - 50)
    ensures !CheckSecureArea(TWO32 - 16384, 32768) && Meets(TWO32 - 16384, 32768)
    ensures Sent(cfg, part, TWO32 - 16384, 32768) == [WriteCmd(part, TWO32 - 16384, 16384), WriteCmd(part, 0, 16384)]
  {
    MeetsMeaning(100, TWO32 - 50);
    MeetsMeaning(TWO32 - 16384, 32768);
    assert U32(100 + (TWO32 - 50) - 1) == 49;
    assert Sent(cfg, part, 16384, 0) == [];
    assert Sent(cfg, part, 0, 16384) == [WriteCmd(part, 0, 16384)];
  }

  /** The commands of a write of an item when none fails. */
  function ItemCommands(cfg: Config, part: nat, item: nat, n: nat): seq<Command>
    requires cfg.bMax > 0
  {
    if item > MAX_ITEM || n > ITEM_BLOCKS then []
    else Sent(cfg, part, First(item), n) + Sent(cfg, part, Second(item), n)
  }

  /** They stay inside the item. */
  lemma ItemCommandsInside(cfg: Config, part: nat, item: nat, n: nat, c: Command, p: nat, b: nat)
    requires cfg.Valid() && c in ItemCommands(cfg, part, item, n) && Alters(c, cfg.eraseGroup, p, b)
    ensures item <= MAX_ITEM && InItem(item, b)
  {
    ItemFits(cfg, item, n);
    if c in Sent(cfg, part, First(item), n) {
      SentInside(cfg, part, First(item), n, c, p, b);
    } else {
      SentInside(cfg, part, Second(item), n, c, p, b);
    }
  }

  lemma ItemFits(cfg: Config, item: nat, n: nat)
    requires item <= MAX_ITEM && n <= ITEM_BLOCKS
    ensures First(item) == 12288 + 16 * item && Second(item) == First(item) + 8
    ensures Second(item) + n < TWO32 && Fits(cfg, First(item), n) && Fits(cfg, Second(item), n)
  {
  }

  function First(item: nat): nat {
    WINDOW_START + ITEM_BLOCKS * 2 * item
  }

  function Second(item: nat): nat {
    First(item) + ITEM_BLOCKS
  }

  predicate InItem(item: nat, b: nat) {
    First(item) <= b < Second(item) + ITEM_BLOCKS
  }

  /** The first `n` blocks of both copies of an item that the interface accepts lie on the device. */
  predicate OnDevice(cfg: Config, item: nat, n: nat) {
    item <= MAX_ITEM && n <= ITEM_BLOCKS && Second(item) + n <= cfg.lba
  }

  /** Items have separate places, and an item the interface accepts is inside the window exactly when it is
      not the one the `>` test lets through. */
  lemma ItemPlaces(i: nat, j: nat, b: nat)
    requires i <= MAX_ITEM && InItem(i, b)
    ensures InWindow(b) <==> i < MAX_ITEM
    ensures i != j ==> !InItem(j, b)
  {
  }

  function Copy1(m: Media, part: nat, item: nat, n: nat): (r: seq<Block>) {
    Blocks(m, part, First(item), n)
  }

  function Copy2(m: Media, part: nat, item: nat, n: nat): (r: seq<Block>) {
    Blocks(m, part, Second(item), n)
  }

  ghost predicate WithinItem(pre: Media, post: Media, part: nat, item: nat) {
    forall p: nat, b: nat :: post(p, b) != pre(p, b) ==> p == part && InItem(item, b)
  }

  /** How far a write of an item got. */
  datatype Progressed = Both | BrokeFirst | BrokeSecond

  /** All that a write of `data` to an item can leave behind. */
  ghost predicate ItemWritten(pre: Media, post: Media, part: nat, item: nat, data: seq<Block>, how: Progressed) {
    && WithinItem(pre, post, part, item)
    && match how
       case Both => Copy1(post, part, item, |data|) == Copy2(post, part, item, |data|) == data
       case BrokeFirst => Copy2(post, part, item, ITEM_BLOCKS) == Copy2(pre, part, item, ITEM_BLOCKS)
       case BrokeSecond => Copy1(post, part, item, |data|) == data
  }

  /** The same in terms of the two writes that make it up, each with its chunks. */
  ghost predicate ItemOutcome(pre: Media, post: Media, part: nat, item: nat, data: seq<Block>, bMax: nat,
                              how: Progressed) {
    if how == BrokeFirst then WriteOutcome(pre, post, part, First(item), data, bMax, 0)
    else
      exists mid: Media ::
        && Wrote(pre, mid, part, First(item), data)
        && WriteOutcome(mid, post, part, Second(item), data, bMax, if how == Both then |data| else 0)
  }

  /** Two writes one after the other. */
  lemma TwoWrites(pre: Media, mid: Media, post: Media, part: nat, item: nat, data: seq<Block>, bMax: nat, r: nat)
    requires |data| <= ITEM_BLOCKS && bMax > 0
    requires Wrote(pre, mid, part, First(item), data)
    requires WriteOutcome(mid, post, part, Second(item), data, bMax, r)
    ensures ItemWritten(pre, post, part, item, data, if r == |data| then Both else BrokeSecond)
  {
    assert OnlyIn(mid, post, part, Second(item), |data|);
    assert Copy1(post, part, item, |data|) == Copy1(mid, part, item, |data|);
  }

  /** A first write that broke off leaves the second copy alone. */
  lemma FirstBroke(pre: Media, post: Media, part: nat, item: nat, data: seq<Block>, bMax: nat)
    requires |data| <= ITEM_BLOCKS
    requires WriteOutcome(pre, post, part, First(item), data, bMax, 0) && |data| > 0
    ensures ItemWritten(pre, post, part, item, data, BrokeFirst)
  {
    assert OnlyIn(pre, post, part, First(item), |data|);
    assert Copy2(post, part, item, ITEM_BLOCKS) == Copy2(pre, part, item, ITEM_BLOCKS);
  }

  lemma OutcomeWritten(pre: Media, post: Media, part: nat, item: nat, data: seq<Block>, bMax: nat, how: Progressed)
    requires 0 < |data| <= ITEM_BLOCKS && bMax > 0 && ItemOutcome(pre, post, part, item, data, bMax, how)
    ensures ItemWritten(pre, post, part, item, data, how)
  {
    if how == BrokeFirst {
      FirstBroke(pre, post, part, item, data, bMax);
    } else {
      var r := if how == Both then |data| else 0;
      var mid: Media :| Wrote(pre, mid, part, First(item), data) &&
                        WriteOutcome(mid, post, part, Second(item), data, bMax, r);
      TwoWrites(pre, mid, post, part, item, data, bMax, r);
    }
  }

  /** sdmmc_secure_storage_write.  `how` reports how far the write got; a refused request counts as broken off
      before the first copy. */
  method WriteItem(mmc: Mmc, item: nat, data: seq<Block>) returns (r: int, ghost how: Progressed)
    requires mmc.cfg.Valid() && |data| < TWO32
    modifies mmc`log, mmc`media, mmc`faults
    ensures old(mmc.faults) <= mmc.faults
    ensures r == -1 || r == |data|
    ensures r == |data| <==> how == Both
    ensures item > MAX_ITEM || |data| > ITEM_BLOCKS ==>
              r == -1 && mmc.log == old(mmc.log) && mmc.media == old(mmc.media)
    ensures ItemWritten(old(mmc.media), mmc.media, mmc.Part(), item, data, how)
    ensures item <= MAX_ITEM && 0 < |data| <= ITEM_BLOCKS ==>
              ItemOutcome(old(mmc.media), mmc.media, mmc.Part(), item, data, mmc.cfg.bMax, how)
    ensures r == |data| ==> Blocks(mmc.media, mmc.Part(), 12288 + 16 * item, |data|) == data &&
                            Blocks(mmc.media, mmc.Part(), 12288 + 16 * item + 8, |data|) == data
    ensures mmc.faults == old(mmc.faults) && OnDevice(mmc.cfg, item, |data|) ==> r == |data|
    ensures AllFrom(old(mmc.log), mmc.log, ItemCommands(mmc.cfg, mmc.Part(), item, |data|))
    ensures ChangedBy(old(mmc.media), mmc.media, old(mmc.log), mmc.log, mmc.cfg.eraseGroup)
  {
    if item > MAX_ITEM {
      return -1, BrokeFirst;
    }
    if |data| > ITEM_BLOCKS {
      return -1, BrokeFirst;
    }
    ghost var was, part, log, bMax := mmc.media, mmc.Part(), mmc.log, mmc.cfg.bMax;
    ItemFits(mmc.cfg, item, |data|);
    ghost var fst, snd := Sent(mmc.cfg, part, First(item), |data|), Sent(mmc.cfg, part, Second(item), |data|);
    var ret := WriteRange(mmc, First(item), data);
    if ret != |data| {
      FirstBroke(was, mmc.media, part, item, data, bMax);
      return -1, BrokeFirst;
    }
    ghost var mid, log' := mmc.media, mmc.log;
    ret := WriteRange(mmc, Second(item), data);
    FromTwice(log, log', mmc.log, fst, snd);
    ChangedTwice(was, mid, mmc.media, log, log', mmc.log, mmc.cfg.eraseGroup);
    TwoWrites(was, mid, mmc.media, part, item, data, bMax, ret);
    if ret != |data| {
      return -1, BrokeSecond;
    }
    return |data|, Both;
  }

  /** sdmmc_secure_storage_read: the caller's buffer `buf` is written only after both copies agreed. */
  method ReadItem(mmc: Mmc, item: nat, n: nat, buf: seq<Block>) returns (r: int, out: seq<Block>)
    requires mmc.cfg.Valid() && n < TWO32
    modifies mmc`log, mmc`faults
    ensures old(mmc.faults) <= mmc.faults
    ensures r == -1 || r == n
    ensures r == n ==> item <= MAX_ITEM && n <= ITEM_BLOCKS &&
                       out == Copy1(mmc.media, mmc.Part(), item, n) == Copy2(mmc.media, mmc.Part(), item, n)
    ensures r == n ==> mmc.log == old(mmc.log) + Chunked(mmc.cfg, mmc.Part(), false, First(item), n) +
                                  Chunked(mmc.cfg, mmc.Part(), false, Second(item), n)
    ensures r == -1 ==> out == buf
    ensures mmc.faults == old(mmc.faults) && OnDevice(mmc.cfg, item, n) ==>
              (r == n <==> Copy1(mmc.media, mmc.Part(), item, n) == Copy2(mmc.media, mmc.Part(), item, n))
    ensures ReadsAdded(old(mmc.log), mmc.log)
  {
    out := buf;
    if item > MAX_ITEM {
      return -1, out;
    }
    if n > ITEM_BLOCKS {
      return -1, out;
    }
    var gotMemory := Allocate(mmc);
    if !gotMemory {
      return -1, out;
    }
    ItemFits(mmc.cfg, item, n);
    ghost var log := mmc.log;
    var ret, fst := ReadRange(mmc, First(item), n);
    if ret != n {
      return -1, out;
    }
    ghost var log' := mmc.log;
    var snd;
    ret, snd := ReadRange(mmc, Second(item), n);
    ReadsAddedTwice(log, log', mmc.log);
    if ret != n {
      return -1, out;
    }
    if fst != snd {
      return -1, out;
    }
    return n, fst;
  }

  /** sdmmc_secure_storage_read_backup: the second copy alone, straight into the caller's buffer. */
  method ReadItemBackup(mmc: Mmc, item: nat, n: nat, buf: seq<Block>) returns (r: int, out: seq<Block>)
    requires mmc.cfg.Valid() && n < TWO32
    modifies mmc`log, mmc`faults
    ensures old(mmc.faults) <= mmc.faults
    ensures r == -1 || r == n
    ensures r == n ==> item <= MAX_ITEM && n <= ITEM_BLOCKS && out == Copy2(mmc.media, mmc.Part(), item, n)
    ensures r == n ==> mmc.log == old(mmc.log) + Chunked(mmc.cfg, mmc.Part(), false, Second(item), n)
    ensures mmc.faults == old(mmc.faults) && OnDevice(mmc.cfg, item, n) ==> r == n
    ensures ReadsAdded(old(mmc.log), mmc.log)
  {
    if item > MAX_ITEM || n > ITEM_BLOCKS {
      return -1, buf;
    }
    ItemFits(mmc.cfg, item, n);
    r, out := ReadRange(mmc, Second(item), n);
    if r != n {
      r := -1;
    }
  }

  /** What a read of `n` blocks of an item may report: nothing, or a value on which both copies agree. */
  ghost predicate Agreed(m: Media, part: nat, item: nat, n: nat, out: seq<Block>) {
    out == Copy1(m, part, item, n) == Copy2(m, part, item, n)
  }

  /** One torn write is atomic: from two equal copies, whatever the write left behind and whatever happened
      outside the item since, a successful read of that many blocks returns the old or the new value. */
  lemma TornWriteAtomic(pre: Media, post: Media, now: Media, part: nat, item: nat, old': seq<Block>, data: seq<Block>,
                        how: Progressed, out: seq<Block>)
    requires |old'| == |data| <= ITEM_BLOCKS && Agreed(pre, part, item, |data|, old')
    requires ItemWritten(pre, post, part, item, data, how)
    requires forall b: nat :: InItem(item, b) ==> now(part, b) == post(part, b)
    requires Agreed(now, part, item, |data|, out)
    ensures out == data || (how == BrokeFirst && out == old')
  {
    assert Copy1(now, part, item, |data|) == Copy1(post, part, item, |data|);
    assert Copy2(now, part, item, |data|) == Copy2(post, part, item, |data|);
    if how == BrokeFirst {
      assert Copy2(post, part, item, |data|) == Copy2(post, part, item, ITEM_BLOCKS)[..|data|];
      assert Copy2(pre, part, item, |data|) == Copy2(pre, part, item, ITEM_BLOCKS)[..|data|];
    }
  }

  /** A write attempt and how far it got. */
  datatype Attempt = Attempt(data: seq<Block>, how: Progressed)

  /** What is known of the two copies: a whole value, or nothing. */
  datatype Known = Known(a: Option<seq<Block>>, b: Option<seq<Block>>)

  function After(k: Known, t: Attempt): Known {
    match t.how
    case Both => Known(Some(t.data), Some(t.data))
    case BrokeFirst => Known(None, k.b)
    case BrokeSecond => Known(Some(t.data), None)
  }

  function AfterAll(k: Known, ts: seq<Attempt>): Known {
    if ts == [] then k else After(AfterAll(k, ts[..|ts| - 1]), ts[|ts| - 1])
  }

  ghost predicate Holds(m: Media, part: nat, item: nat, n: nat, k: Known) {
    (k.a.Some? ==> Copy1(m, part, item, n) == k.a.value) && (k.b.Some? ==> Copy2(m, part, item, n) == k.b.value)
  }

  /** A history of write attempts of `n` blocks to one item; `ms[i + 1]` is the card after attempt `i`, and
      between attempts only blocks outside the item may have changed. */
  ghost predicate History(ms: seq<Media>, starts: seq<Media>, ts: seq<Attempt>, part: nat, item: nat, n: nat,
                          bMax: nat) {
    && |ms| == |ts| + 1 && |starts| == |ts|
    && forall i :: 0 <= i < |ts| ==>
         |ts[i].data| == n &&
         (forall b: nat :: InItem(item, b) ==> starts[i](part, b) == ms[i](part, b)) &&
         ItemOutcome(starts[i], ms[i + 1], part, item, ts[i].data, bMax, ts[i].how)
  }

  lemma AttemptTracked(m: Media, start: Media, m': Media, part: nat, item: nat, n: nat, k: Known, t: Attempt)
    requires |t.data| == n <= ITEM_BLOCKS && Holds(m, part, item, n, k)
    requires forall b: nat :: InItem(item, b) ==> start(part, b) == m(part, b)
    requires ItemWritten(start, m', part, item, t.data, t.how)
    ensures Holds(m', part, item, n, After(k, t))
  {
    if t.how == BrokeFirst && k.b.Some? {
      assert Copy2(m', part, item, n) == Copy2(m', part, item, ITEM_BLOCKS)[..n];
      assert Copy2(start, part, item, n) == Copy2(start, part, item, ITEM_BLOCKS)[..n];
      assert Copy2(start, part, item, n) == Copy2(m, part, item, n);
    }
  }

  /** Through every history of write attempts the copies hold what the tracking says. */
  lemma {:induction false} HistoryTracked(ms: seq<Media>, starts: seq<Media>, ts: seq<Attempt>, part: nat, item: nat,
                                          n: nat, bMax: nat, old': seq<Block>)
    requires 0 < n <= ITEM_BLOCKS && bMax > 0
    requires History(ms, starts, ts, part, item, n, bMax) && Agreed(ms[0], part, item, n, old')
    ensures Holds(ms[|ts|], part, item, n, AfterAll(Known(Some(old'), Some(old')), ts))
  {
    if ts != [] {
      var l := |ts| - 1;
      HistoryTracked(ms[..l + 1], starts[..l], ts[..l], part, item, n, bMax, old');
      OutcomeWritten(starts[l], ms[l + 1], part, item, ts[l].data, bMax, ts[l].how);
      AttemptTracked(ms[l], starts[l], ms[l + 1], part, item, n, AfterAll(Known(Some(old'), Some(old')), ts[..l]),
        ts[l]);
    }
  }

  /** The values a reader may legitimately see: the one stored at first and those handed to a write. */
  ghost predicate Candidate(old': seq<Block>, ts: seq<Attempt>, v: seq<Block>) {
    v == old' || exists i :: 0 <= i < |ts| && ts[i].data == v
  }

  /** Both copies are lost: after some attempt that broke off in the second copy there were only attempts,
      and at least one, that broke off in the first. */
  ghost predicate BothTorn(ts: seq<Attempt>) {
    exists i :: 0 <= i < |ts| - 1 && ts[i].how == BrokeSecond && forall j :: i < j < |ts| ==> ts[j].how == BrokeFirst
  }

  lemma {:induction false} KnownValues(old': seq<Block>, ts: seq<Attempt>)
    ensures var k := AfterAll(Known(Some(old'), Some(old')), ts);
            && (k.a.Some? ==> Candidate(old', ts, k.a.value)) && (k.b.Some? ==> Candidate(old', ts, k.b.value))
            && (k.b.None? <==> exists i :: 0 <= i < |ts| && ts[i].how == BrokeSecond &&
                                           forall j :: i < j < |ts| ==> ts[j].how == BrokeFirst)
            && (k.a.None? <==> ts != [] && ts[|ts| - 1].how == BrokeFirst)
            && (k.a.None? && k.b.None? <==> BothTorn(ts))
  {
    if ts != [] {
      var l := |ts| - 1;
      var before := ts[..l];
      KnownValues(old', before);
      assert forall i :: 0 <= i < l ==> before[i] == ts[i];
      var k, k' := AfterAll(Known(Some(old'), Some(old')), before), AfterAll(Known(Some(old'), Some(old')), ts);
      assert ts[l].data == ts[l].data && 0 <= l < |ts|;
      assert k.b.Some? ==> Candidate(old', ts, k.b.value);
      if ts[l].how == BrokeFirst && k.b.None? {
        var i :| 0 <= i < |before| && before[i].how == BrokeSecond && forall j :: i < j < |before| ==>
          before[j].how == BrokeFirst;
        assert ts[i].how == BrokeSecond && forall j :: i < j < |ts| ==> ts[j].how == BrokeFirst;
      }
      if i :| 0 <= i < |ts| && ts[i].how == BrokeSecond && forall j :: i < j < |ts| ==> ts[j].how == BrokeFirst {
        if i < l {
          assert before[i].how == BrokeSecond && forall j :: i < j < |before| ==> before[j].how == BrokeFirst;
        }
      }
    }
  }

  /** Atomicity through any number of torn writes: unless both copies were lost, every successful read returns
      a value that some write stored. */
  lemma ManyTornWritesAtomic(ms: seq<Media>, starts: seq<Media>, ts: seq<Attempt>, now: Media, part: nat, item: nat,
                             n: nat, bMax: nat, old': seq<Block>, out: seq<Block>)
    requires 0 < n <= ITEM_BLOCKS && bMax > 0
    requires History(ms, starts, ts, part, item, n, bMax) && Agreed(ms[0], part, item, n, old')
    requires forall b: nat :: InItem(item, b) ==> now(part, b) == ms[|ts|](part, b)
    requires Agreed(now, part, item, n, out)
    requires !BothTorn(ts)
    ensures Candidate(old', ts, out)
  {
    HistoryTracked(ms, starts, ts, part, item, n, bMax, old');
    KnownValues(old', ts);
    assert Copy1(now, part, item, n) == Copy1(ms[|ts|], part, item, n);
    assert Copy2(now, part, item, n) == Copy2(ms[|ts|], part, item, n);
  }

  /** The noise where a torn write left it, otherwise the data. */
  function Torn(data: seq<Block>, noise: seq<Block>, torn: bool): (r: seq<Block>) {
    if torn then noise else data
  }

  /** The card after one attempt in which the failing copy was filled with noise. */
  function Left(m: Media, part: nat, item: nat, t: Attempt, noise: seq<Block>): Media
    requires |noise| == |t.data|
  {
    var n := |t.data|;
    (p: nat, b: nat) =>
      var block: Block :=
        if p == part && First(item) <= b < First(item) + n then
          Torn(t.data, noise, t.how == BrokeFirst)[b - First(item)]
        else if p == part && t.how != BrokeFirst && Second(item) <= b < Second(item) + n then
          Torn(t.data, noise, t.how == BrokeSecond)[b - Second(item)]
        else m(p, b);
      block
  }

  /** Such an attempt is one the write can make, whatever fits into a single chunk. */
  lemma LeftIsOutcome(m: Media, part: nat, item: nat, t: Attempt, noise: seq<Block>, bMax: nat)
    requires |noise| == |t.data| && 0 < |t.data| <= bMax && |t.data| <= ITEM_BLOCKS
    ensures ItemOutcome(m, Left(m, part, item, t, noise), part, item, t.data, bMax, t.how)
    ensures var m', n := Left(m, part, item, t, noise), |t.data|;
            && Copy1(m', part, item, n) == Torn(t.data, noise, t.how == BrokeFirst)
            && Copy2(m', part, item, n) ==
               if t.how == BrokeFirst then Copy2(m, part, item, n) else Torn(t.data, noise, t.how == BrokeSecond)
  {
    var m' := Left(m, part, item, t, noise);
    if t.how == BrokeFirst {
      assert BrokeOff(m, m', part, First(item), t.data, bMax, 0);
    } else {
      var whole: Media := (p: nat, b: nat) =>
        if p == part && First(item) <= b < First(item) + |t.data| then t.data[b - First(item)] else m(p, b);
      assert Wrote(m, whole, part, First(item), t.data);
      if t.how == BrokeSecond {
        assert BrokeOff(whole, m', part, Second(item), t.data, bMax, 0);
      } else {
        assert Wrote(whole, m', part, Second(item), t.data);
      }
    }
  }

  /** What is known of a copy, and noise where nothing is. */
  function Shown(k: Option<seq<Block>>, noise: seq<Block>): seq<Block> {
    if k.Some? then k.value else noise
  }

  /** A history of such attempts: its last card shows what is known, and the noise where nothing is. */
  lemma {:induction false} NoisyHistory(m: Media, part: nat, item: nat, ts: seq<Attempt>, noise: seq<Block>, bMax: nat,
                                        n: nat, old': seq<Block>) returns (ms: seq<Media>)
    requires 0 < n <= ITEM_BLOCKS && n <= bMax && |noise| == n && Agreed(m, part, item, n, old') && AllSized(ts, n)
    ensures |ms| == |ts| + 1 && ms[0] == m && History(ms, ms[..|ts|], ts, part, item, n, bMax)
    ensures var k := AfterAll(Known(Some(old'), Some(old')), ts);
            Copy1(ms[|ts|], part, item, n) == Shown(k.a, noise) && Copy2(ms[|ts|], part, item, n) == Shown(k.b, noise)
  {
    if ts == [] {
      ms := [m];
    } else {
      var t, init := ts[|ts| - 1], ts[..|ts| - 1];
      var before := NoisyHistory(m, part, item, init, noise, bMax, n, old');
      var m' := Left(before[|init|], part, item, t, noise);
      ms := before + [m'];
      NoisyOneMore(before, init, part, item, n, bMax, t, noise);
      LeftShows(before[|init|], part, item, AfterAll(Known(Some(old'), Some(old')), init), t, noise, bMax);
      assert init + [t] == ts;
    }
  }

  lemma NoisyOneMore(ms: seq<Media>, ts: seq<Attempt>, part: nat, item: nat, n: nat, bMax: nat, t: Attempt,
                     noise: seq<Block>)
    requires 0 < n <= ITEM_BLOCKS && n <= bMax && |noise| == |t.data| == n
    requires |ms| == |ts| + 1 && History(ms, ms[..|ts|], ts, part, item, n, bMax)
    ensures var ms' := ms + [Left(ms[|ts|], part, item, t, noise)];
            History(ms', ms'[..|ts| + 1], ts + [t], part, item, n, bMax)
  {
    LeftIsOutcome(ms[|ts|], part, item, t, noise, bMax);
    HistoryOneMore(ms, ts, part, item, n, bMax, Left(ms[|ts|], part, item, t, noise), t);
  }

  lemma LeftShows(m: Media, part: nat, item: nat, k: Known, t: Attempt, noise: seq<Block>, bMax: nat)
    requires |noise| == |t.data| && 0 < |t.data| <= bMax && |t.data| <= ITEM_BLOCKS
    requires Copy2(m, part, item, |t.data|) == Shown(k.b, noise)
    ensures var m', n := Left(m, part, item, t, noise), |t.data|;
            && Copy1(m', part, item, n) == Shown(After(k, t).a, noise)
            && Copy2(m', part, item, n) == Shown(After(k, t).b, noise)
  {
    LeftIsOutcome(m, part, item, t, noise, bMax);
    ShownAfter(m, Left(m, part, item, t, noise), part, item, k, t, noise);
  }

  lemma HistoryOneMore(ms: seq<Media>, ts: seq<Attempt>, part: nat, item: nat, n: nat, bMax: nat, m': Media, t: Attempt)
    requires |ms| == |ts| + 1 && History(ms, ms[..|ts|], ts, part, item, n, bMax) && |t.data| == n
    requires ItemOutcome(ms[|ts|], m', part, item, t.data, bMax, t.how)
    ensures History(ms + [m'], (ms + [m'])[..|ts| + 1], ts + [t], part, item, n, bMax)
  {
    HistoryGrows(ms, ms[..|ts|], ts, part, item, n, bMax, m', t);
    assert ms[..|ts|] + [ms[|ts|]] == (ms + [m'])[..|ts| + 1];
  }

  lemma ShownAfter(m: Media, m': Media, part: nat, item: nat, k: Known, t: Attempt, noise: seq<Block>)
    requires var n := |t.data|;
             && Copy1(m', part, item, n) == Torn(t.data, noise, t.how == BrokeFirst)
             && Copy2(m', part, item, n) ==
                (if t.how == BrokeFirst then Copy2(m, part, item, n) else Torn(t.data, noise, t.how == BrokeSecond))
             && Copy2(m, part, item, n) == Shown(k.b, noise)
    ensures Copy1(m', part, item, |t.data|) == Shown(After(k, t).a, noise)
    ensures Copy2(m', part, item, |t.data|) == Shown(After(k, t).b, noise)
  {
  }

  lemma HistoryGrows(ms: seq<Media>, starts: seq<Media>, ts: seq<Attempt>, part: nat, item: nat, n: nat, bMax: nat,
                     m': Media, t: Attempt)
    requires History(ms, starts, ts, part, item, n, bMax) && |t.data| == n
    requires ItemOutcome(ms[|ts|], m', part, item, t.data, bMax, t.how)
    ensures History(ms + [m'], starts + [ms[|ts|]], ts + [t], part, item, n, bMax)
  {
    var ms', ts' := ms + [m'], ts + [t];
    assert forall i :: 0 <= i < |ms| ==> ms'[i] == ms[i];
    assert forall i :: 0 <= i < |ts| ==> ts'[i] == ts[i];
  }

  ghost predicate AllSized(ts: seq<Attempt>, n: nat) {
    forall i :: 0 <= i < |ts| ==> |ts[i].data| == n
  }

  /** Every history that loses both copies can do any harm: its attempts, made on any card with the old value in both
      copies, can leave both copies agreeing on any value whatever. */
  lemma BothTornLosesValue(m: Media, ts: seq<Attempt>, part: nat, item: nat, n: nat, bMax: nat, old': seq<Block>,
                           v: seq<Block>)
    requires 0 < n <= ITEM_BLOCKS && n <= bMax && AllSized(ts, n) && Agreed(m, part, item, n, old') && BothTorn(ts)
    requires |v| == n
    ensures exists ms: seq<Media> ::
              && |ms| == |ts| + 1 && ms[0] == m && History(ms, ms[..|ts|], ts, part, item, n, bMax)
              && Agreed(ms[|ts|], part, item, n, v)
  {
    var ms := NoisyHistory(m, part, item, ts, v, bMax, n, old');
    KnownValues(old', ts);
    assert Agreed(ms[|ts|], part, item, n, v);
  }

  /** Every successful read after these attempts, made on a card with the old value in both copies, returns a value
      that was stored at first or handed to a write. */
  ghost predicate Atomic(ts: seq<Attempt>, part: nat, item: nat, n: nat, bMax: nat, old': seq<Block>) {
    forall ms: seq<Media>, starts: seq<Media>, out: seq<Block> ::
      (History(ms, starts, ts, part, item, n, bMax) && Agreed(ms[0], part, item, n, old') &&
       Agreed(ms[|ts|], part, item, n, out)) ==>
        Candidate(old', ts, out)
  }

  /** Every value of `n` blocks was stored at first or handed to a write. */
  ghost predicate Exhausted(old': seq<Block>, ts: seq<Attempt>, n: nat) {
    forall v: seq<Block> :: |v| == n ==> Candidate(old', ts, v)
  }

  /** Atomicity exactly: a series of attempts is atomic if and only if it does not lose both copies or there is no value
      left that nobody wrote, which takes 255 attempts at least. */
  lemma AtomicExactly(ts: seq<Attempt>, part: nat, item: nat, n: nat, bMax: nat, old': seq<Block>)
    requires 0 < n <= ITEM_BLOCKS && n <= bMax && |old'| == n && AllSized(ts, n)
    ensures Atomic(ts, part, item, n, bMax, old') <==> !BothTorn(ts) || Exhausted(old', ts, n)
    ensures |ts| < 255 ==> !Exhausted(old', ts, n)
  {
    if |ts| < 255 {
      FreshValue(old', ts, n);
    }
    if BothTorn(ts) && !Exhausted(old', ts, n) {
      var v: seq<Block> :| |v| == n && !Candidate(old', ts, v);
      var m: Media := (p: nat, b: nat) =>
        var block: Block :=
          if First(item) <= b < First(item) + n then old'[b - First(item)]
          else if Second(item) <= b < Second(item) + n then old'[b - Second(item)]
          else Plain(0);
        block;
      assert Agreed(m, part, item, n, old');
      BothTornLosesValue(m, ts, part, item, n, bMax, old', v);
    } else if BothTorn(ts) {
      assert Exhausted(old', ts, n);
    } else {
      forall ms: seq<Media>, starts: seq<Media>, out: seq<Block> |
        History(ms, starts, ts, part, item, n, bMax) && Agreed(ms[0], part, item, n, old') &&
        Agreed(ms[|ts|], part, item, n, out)
        ensures Candidate(old', ts, out)
      {
        ManyTornWritesAtomic(ms, starts, ts, ms[|ts|], part, item, n, bMax, old', out);
      }
    }
  }

  /** Fewer numbers than `k` miss one below `k`. */
  lemma {:induction false} FreshNumber(used: seq<nat>, k: nat) returns (x: nat)
    requires |used| < k
    ensures x < k && x !in used
    decreases k
  {
    if i :| 0 <= i < |used| && used[i] == k - 1 {
      x := FreshNumber(used[..i] + used[i + 1..], k - 1);
    } else {
      x := k - 1;
    }
  }

  lemma FreshValue(old': seq<Block>, ts: seq<Attempt>, n: nat)
    requires n > 0 && |old'| == n && AllSized(ts, n) && |ts| < 255
    ensures !Exhausted(old', ts, n)
  {
    var used: seq<nat> := [old'[0][0]] + seq(|ts|, i requires 0 <= i < |ts| => ts[i].data[0][0]);
    var x := FreshNumber(used, 256);
    var v: seq<Block> := seq(n, _ => Plain(x));
    assert v[0][0] == x;
    assert used[0] == old'[0][0] && forall i :: 0 <= i < |ts| ==> used[i + 1] == ts[i].data[0][0];
    assert !Candidate(old', ts, v);
  }
}
