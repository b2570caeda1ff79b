/** The DMA descriptor chain of a data command (sunxi_host0_2_v4p1.c). */
module DmaChain {
  import opened Words

  const MAX_LEN: nat := 4096      // SDXC_DES_BUFFER_MAX_LEN
  const DES_BYTES: nat := 16      // sizeof(struct mmc_des_v4p1)

  /** struct mmc_des_v4p1.  Addresses are 32-bit. */
  datatype Des = Des(dic: bool, last: bool, first: bool, chain: bool, endOfRing: bool, own: bool,
                     size: nat, buf: nat, next: nat)

  const ZERO_DES := Des(false, false, false, false, false, false, 0, 0, 0)

  /** Number of fragments of a buffer of `n` bytes. */
  function Frags(n: nat): nat {
    n / MAX_LEN + if n % MAX_LEN != 0 then 1 else 0
  }

  function FragSize(n: nat, i: nat): int {
    if i + 1 < Frags(n) then MAX_LEN else n - i * MAX_LEN
  }

  /** mmc_trans_data_by_dma, up to the register writes.  `base` and `buff` are the addresses of the descriptors
      and of the data. */
  method FillChain(pdes: array<Des>, base: nat, buff: nat, n: nat) returns (frags: nat)
    requires n > 0 && Frags(n) <= pdes.Length
    modifies pdes
    ensures frags == Frags(n)
    ensures forall i :: frags <= i < pdes.Length ==> pdes[i] == old(pdes[i])
    ensures base + DES_BYTES * pdes.Length <= TWO32 && buff + n <= TWO32 ==> Chained(pdes[..], base, buff, n)
  {
    frags := n / MAX_LEN;
    var remain := n % MAX_LEN;
    if remain != 0 {
      frags := frags + 1;
    } else {
      remain := MAX_LEN;
    }
    for i := 0 to frags
      invariant forall j :: frags <= j < pdes.Length ==> pdes[j] == old(pdes[j])
      invariant base + DES_BYTES * pdes.Length <= TWO32 && buff + n <= TWO32 ==>
                  forall j :: 0 <= j < i ==> InPlace(pdes[j], j, base, buff, n)
    {
      var d := ZERO_DES.(chain := true, own := true, dic := true);
      if frags > 1 && i != frags - 1 {
        d := d.(size := MAX_LEN);
      } else {
        d := d.(size := remain);
      }
      d := d.(buf := U32(buff + i * MAX_LEN));
      if i == 0 {
        d := d.(first := true);
      }
      if i == frags - 1 {
        d := d.(dic := false, last := true, endOfRing := true, next := 0);
      } else {
        d := d.(next := U32(base + DES_BYTES * (i + 1)));
      }
      pdes[i] := d;
    }
  }

  /** Descriptor `i` of the chain. */
  predicate InPlace(d: Des, i: nat, base: nat, buff: nat, n: nat) {
    && d.own && d.chain
    && d.first == (i == 0)
    && d.last == d.endOfRing == (i + 1 == Frags(n)) && d.dic == !d.last
    && d.size == FragSize(n, i) && 0 < d.size <= MAX_LEN
    && d.buf == buff + i * MAX_LEN
    && (!d.last ==> d.next == base + DES_BYTES * (i + 1))
  }

  ghost predicate Chained(d: seq<Des>, base: nat, buff: nat, n: nat) {
    0 < Frags(n) <= |d| && forall i :: 0 <= i < Frags(n) ==> InPlace(d[i], i, base, buff, n)
  }

  /** The descriptors the DMA engine visits from address `at`: it stops at a last descriptor and gives up on an
      address that is not a descriptor of the pool, or when out of `fuel`. */
  function Visit(d: seq<Des>, base: nat, at: nat, fuel: nat): Option<seq<nat>>
    decreases fuel
  {
    var i := if at < base then |d| else (at - base) / DES_BYTES;
    if fuel == 0 || i >= |d| || at != base + DES_BYTES * i then None
    else if d[i].last then Some([i])
    else
      var rest := Visit(d, base, d[i].next, fuel - 1);
      if rest.None? then None else Some([i] + rest.value)
  }

  /** The bytes of memory `mem` that the visited descriptors move, in order. */
  function Moved(mem: nat -> byte, d: seq<Des>, visited: seq<nat>): seq<byte>
    requires forall k :: 0 <= k < |visited| ==> visited[k] < |d|
  {
    if visited == [] then [] else Bytes(mem, d[visited[0]].buf, d[visited[0]].size) + Moved(mem, d, visited[1..])
  }

  function Bytes(mem: nat -> byte, a: nat, n: nat): (r: seq<byte>)
    ensures |r| == n
  {
    seq(n, i requires 0 <= i < n => mem(a + i))
  }

  function From(i: nat, k: nat): (r: seq<nat>)
    ensures |r| == (if i < k then k - i else 0) && forall j :: 0 <= j < |r| ==> r[j] == i + j
    decreases k - i
  {
    if i < k then [i] + From(i + 1, k) else []
  }

  lemma VisitStep(d: seq<Des>, base: nat, i: nat, fuel: nat)
    requires i < |d| && fuel > 0
    ensures Visit(d, base, base + DES_BYTES * i, fuel) ==
            if d[i].last then Some([i])
            else
              var rest := Visit(d, base, d[i].next, fuel - 1);
              if rest.None? then None else Some([i] + rest.value)
  {
    assert DES_BYTES * i / DES_BYTES == i;
  }

  lemma {:induction false} WalkFrom(d: seq<Des>, base: nat, buff: nat, n: nat, i: nat, fuel: nat)
    requires Chained(d, base, buff, n) && i < Frags(n) <= i + fuel
    ensures Visit(d, base, base + DES_BYTES * i, fuel) == Some(From(i, Frags(n)))
    decreases Frags(n) - i
  {
    assert InPlace(d[i], i, base, buff, n);
    VisitStep(d, base, i, fuel);
    if i + 1 < Frags(n) {
      WalkFrom(d, base, buff, n, i + 1, fuel - 1);
      assert !d[i].last && d[i].next == base + DES_BYTES * (i + 1);
      assert From(i, Frags(n)) == [i] + From(i + 1, Frags(n));
    } else {
      assert d[i].last && From(i, Frags(n)) == [i];
    }
  }

  lemma {:induction false} MovedFrom(mem: nat -> byte, d: seq<Des>, base: nat, buff: nat, n: nat, i: nat)
    requires Chained(d, base, buff, n) && i < Frags(n)
    ensures i * MAX_LEN < n && Moved(mem, d, From(i, Frags(n))) == Bytes(mem, buff + i * MAX_LEN, n - i * MAX_LEN)
    decreases Frags(n) - i
  {
    assert InPlace(d[i], i, base, buff, n);
    var visited := From(i, Frags(n));
    if i + 1 < Frags(n) {
      MovedFrom(mem, d, base, buff, n, i + 1);
      assert visited[1..] == From(i + 1, Frags(n));
      assert Bytes(mem, buff + i * MAX_LEN, MAX_LEN) + Bytes(mem, buff + (i + 1) * MAX_LEN, n - (i + 1) * MAX_LEN)
          == Bytes(mem, buff + i * MAX_LEN, n - i * MAX_LEN);
    } else {
      assert visited[1..] == [];
    }
  }

  /** The engine, started at descriptor 0, visits every descriptor of the chain once and in order, stops at the
      only last one, and moves exactly the bytes of the buffer; only descriptor 0 is marked first, and no
      fragment is empty or above the limit. */
  lemma ChainTransfersBuffer(mem: nat -> byte, d: seq<Des>, base: nat, buff: nat, n: nat, fuel: nat)
    requires Chained(d, base, buff, n) && fuel >= Frags(n)
    ensures Visit(d, base, base, fuel) == Some(From(0, Frags(n)))
    ensures Moved(mem, d, From(0, Frags(n))) == Bytes(mem, buff, n)
    ensures forall i :: 0 <= i < Frags(n) ==>
              0 < d[i].size <= MAX_LEN && (d[i].first <==> i == 0) && (d[i].last <==> i == Frags(n) - 1) &&
              d[i].own && d[i].chain && (d[i].endOfRing <==> d[i].last) && (d[i].dic <==> !d[i].last)
  {
    WalkFrom(d, base, buff, n, 0, fuel);
    MovedFrom(mem, d, base, buff, n, 0);
    assert forall i :: 0 <= i < Frags(n) ==> InPlace(d[i], i, base, buff, n);
  }
}
