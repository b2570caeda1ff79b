/** Declaring system memory and keeping the firmware out of it (MemoryInitPeiLib.c, MemoryInitPeim.c). */
module MemoryMap {
  import opened Words

  /** Resource attributes: the PRESENT bit and the others. */
  datatype Attr = Attr(present: bool, rest: nat)

  /** A resource descriptor HOB; `system` marks EFI_RESOURCE_SYSTEM_MEMORY. */
  datatype Hob = Hob(system: bool, attr: Attr, start: nat, len: nat)

  /** The fixed platform numbers, and the attributes given to all of system memory. */
  datatype Layout = Layout(memBase: nat, memSize: nat, fdBase: nat, fdSize: nat, uefiSize: nat, rest: nat)
  {
    function MemTop(): nat { memBase + memSize }
    function FdTop(): nat { fdBase + fdSize }
    predicate FdInMemory() { memBase <= fdBase && FdTop() <= MemTop() }
    predicate InFd(a: nat) { fdBase <= a < FdTop() }
  }

  class HobList {
    var hobs: seq<Hob>

    constructor (hobs: seq<Hob>)
      ensures this.hobs == hobs
    {
      this.hobs := hobs;
    }

    /** BuildResourceDescriptorHob for system memory. */
    method Build(attr: Attr, start: nat, len: nat)
      modifies this
      ensures hobs == old(hobs) + [Hob(true, attr, start, len)]
    {
      hobs := hobs + [Hob(true, attr, start, len)];
    }
  }

  predicate Covers(h: Hob, a: nat) {
    h.system && h.start <= a < h.start + h.len
  }

  /** Some system memory HOB gives address `a` the attributes `attr`. */
  ghost predicate Has(hobs: seq<Hob>, a: nat, attr: Attr) {
    exists i :: 0 <= i < |hobs| && Covers(hobs[i], a) && hobs[i].attr == attr
  }

  /** No address is covered twice. */
  ghost predicate Disjoint(hobs: seq<Hob>) {
    forall i, j, a: nat :: 0 <= i < j < |hobs| ==> !(Covers(hobs[i], a) && Covers(hobs[j], a))
  }

  /** HOB `h` holds the whole firmware. */
  predicate Holds(h: Hob, l: Layout) {
    h.system && h.start <= l.fdBase && l.FdTop() <= h.start + h.len
  }

  function Absent(attr: Attr): Attr {
    attr.(present := false)
  }

  /** The map is as before, except that exactly the firmware has lost PRESENT. */
  ghost predicate Carved(pre: seq<Hob>, post: seq<Hob>, l: Layout) {
    && Disjoint(post)
    && (forall a: nat, attr :: !l.InFd(a) ==> (Has(post, a, attr) <==> Has(pre, a, attr)))
    && (forall a: nat, attr :: l.InFd(a) ==>
          (Has(post, a, attr) <==> exists was :: Has(pre, a, was) && attr == Absent(was)))
  }

  /** `ps` is `h` cut into pieces that share no address. */
  ghost predicate CutInto(h: Hob, ps: seq<Hob>) {
    && |ps| > 0 && Disjoint(ps)
    && forall a: nat :: Covers(h, a) <==> exists k :: 0 <= k < |ps| && Covers(ps[k], a)
  }

  /** HOB `i` replaced by the first piece, the others appended. */
  function Replaced(hobs: seq<Hob>, i: nat, ps: seq<Hob>): (r: seq<Hob>)
    requires i < |hobs| && |ps| > 0
  {
    hobs[i := ps[0]] + ps[1..]
  }

  lemma ReplacedDisjoint(hobs: seq<Hob>, i: nat, ps: seq<Hob>)
    requires Disjoint(hobs) && i < |hobs| && CutInto(hobs[i], ps)
    ensures Disjoint(Replaced(hobs, i, ps))
  {
    var r := Replaced(hobs, i, ps);
    forall j, k, a: nat | 0 <= j < k < |r|
      ensures !(Covers(r[j], a) && Covers(r[k], a))
    {
      var j' := if j == i then 0 else if j >= |hobs| then j - |hobs| + 1 else -1;
      var k' := if k == i then 0 else if k >= |hobs| then k - |hobs| + 1 else -1;
      assert j' >= 0 ==> r[j] == ps[j'];
      assert k' >= 0 ==> r[k] == ps[k'];
      if j' >= 0 && Covers(r[j], a) {
        assert Covers(hobs[i], a);
      }
      if k' >= 0 && Covers(r[k], a) {
        assert Covers(hobs[i], a);
      }
    }
  }

  lemma ReplacedHas(hobs: seq<Hob>, i: nat, ps: seq<Hob>, a: nat, attr: Attr)
    requires Disjoint(hobs) && i < |hobs| && CutInto(hobs[i], ps)
    ensures Has(Replaced(hobs, i, ps), a, attr) <==> if Covers(hobs[i], a) then Has(ps, a, attr) else Has(hobs, a, attr)
  {
    var r := Replaced(hobs, i, ps);
    if Has(r, a, attr) {
      var j :| 0 <= j < |r| && Covers(r[j], a) && r[j].attr == attr;
      if j == i || j >= |hobs| {
        var k := if j == i then 0 else j - |hobs| + 1;
        assert r[j] == ps[k];
      } else {
        assert r[j] == hobs[j];
      }
    }
    if Covers(hobs[i], a) {
      if k :| 0 <= k < |ps| && Covers(ps[k], a) && ps[k].attr == attr {
        var j := if k == 0 then i else |hobs| + k - 1;
        assert r[j] == ps[k];
      }
    } else if j :| 0 <= j < |hobs| && Covers(hobs[j], a) && hobs[j].attr == attr {
      assert r[j] == hobs[j];
    }
  }

  /** How MemoryPeim cuts the HOB that holds the firmware.  The test for firmware at the very top compares with
      the top of system memory, not with the top of this HOB. */
  function Pieces(h: Hob, l: Layout): (ps: seq<Hob>)
    requires Holds(h, l)
    ensures |ps| > 0
  {
    var fd := Hob(true, Absent(h.attr), l.fdBase, l.fdSize);
    if l.fdBase == h.start then
      if l.MemTop() == l.FdTop() then [h.(attr := Absent(h.attr))]
      else [h.(start := h.start + l.fdSize, len := h.len - l.fdSize), fd]
    else
      [h.(len := l.fdBase - h.start), fd] +
      if l.FdTop() < h.start + h.len then [Hob(true, h.attr, l.FdTop(), h.start + h.len - l.FdTop())] else []
  }

  /** The case that test gets wrong: the HOB starts with the firmware, which ends at the top of system memory,
      and goes on beyond it. */
  predicate Spills(h: Hob, l: Layout) {
    l.fdBase == h.start && l.MemTop() == l.FdTop() && l.FdTop() < h.start + h.len
  }

  lemma PiecesCut(h: Hob, l: Layout)
    requires Holds(h, l)
    ensures CutInto(h, Pieces(h, l))
  {
    var ps := Pieces(h, l);
    forall a: nat | Covers(h, a)
      ensures exists k :: 0 <= k < |ps| && Covers(ps[k], a)
    {
      var k := if l.fdBase == h.start then (if l.MemTop() == l.FdTop() || a >= l.FdTop() then 0 else 1)
               else if a < l.fdBase then 0 else if a < l.FdTop() then 1 else 2;
      assert Covers(ps[k], a);
    }
  }

  lemma PiecesHas(h: Hob, l: Layout, a: nat, attr: Attr)
    requires Holds(h, l) && Covers(h, a) && !Spills(h, l)
    ensures Has(Pieces(h, l), a, attr) <==> attr == if l.InFd(a) then Absent(h.attr) else h.attr
  {
    var ps := Pieces(h, l);
    var k := if l.fdBase == h.start then (if l.MemTop() == l.FdTop() || a >= l.FdTop() then 0 else 1)
             else if a < l.fdBase then 0 else if a < l.FdTop() then 1 else 2;
    assert Covers(ps[k], a);
    assert ps[k].attr == if l.InFd(a) then Absent(h.attr) else h.attr;
    PiecesCut(h, l);
  }

  lemma OnlyAttr(hobs: seq<Hob>, i: nat, a: nat, attr: Attr)
    requires Disjoint(hobs) && i < |hobs| && Covers(hobs[i], a)
    ensures Has(hobs, a, attr) <==> attr == hobs[i].attr
  {
  }

  /** On a list without overlap, cutting a present HOB carves out exactly the firmware, unless the HOB spills. */
  lemma CarveExact(hobs: seq<Hob>, i: nat, l: Layout)
    requires Disjoint(hobs) && i < |hobs| && Holds(hobs[i], l)
    ensures Carved(hobs, Replaced(hobs, i, Pieces(hobs[i], l)), l) <==> !(Spills(hobs[i], l) && hobs[i].attr.present)
  {
    var h := hobs[i];
    var ps := Pieces(h, l);
    var r := Replaced(hobs, i, ps);
    PiecesCut(h, l);
    ReplacedDisjoint(hobs, i, ps);
    if Spills(h, l) {
      var a := l.FdTop();
      assert ps == [h.(attr := Absent(h.attr))];
      ReplacedHas(hobs, i, ps, a, h.attr);
      OnlyAttr(hobs, i, a, h.attr);
    }
    if !(Spills(h, l) && h.attr.present) {
      forall a: nat, attr
        ensures Has(r, a, attr) <==>
                if l.InFd(a) then exists was :: Has(hobs, a, was) && attr == Absent(was) else Has(hobs, a, attr)
      {
        CarvedAt(hobs, i, l, a, attr);
      }
    }
  }

  lemma CarvedAt(hobs: seq<Hob>, i: nat, l: Layout, a: nat, attr: Attr)
    requires Disjoint(hobs) && i < |hobs| && Holds(hobs[i], l) && !(Spills(hobs[i], l) && hobs[i].attr.present)
    ensures Has(Replaced(hobs, i, Pieces(hobs[i], l)), a, attr) <==>
            if l.InFd(a) then exists was :: Has(hobs, a, was) && attr == Absent(was) else Has(hobs, a, attr)
  {
    var h := hobs[i];
    var ps := Pieces(h, l);
    PiecesCut(h, l);
    ReplacedHas(hobs, i, ps, a, attr);
    if Covers(h, a) {
      OnlyAttr(hobs, i, a, h.attr);
      if Spills(h, l) {
        assert ps == [h] && Absent(h.attr) == h.attr;
        OnlyAttr(ps, 0, a, attr);
      } else {
        PiecesHas(h, l, a, attr);
      }
      OnlyAttr(hobs, i, a, attr);
      forall was | Has(hobs, a, was)
        ensures was == h.attr
      {
        OnlyAttr(hobs, i, a, was);
      }
    }
  }

  /** Some present system memory HOB covers address `a`. */
  ghost predicate Present(hobs: seq<Hob>, a: nat) {
    exists i :: 0 <= i < |hobs| && Covers(hobs[i], a) && hobs[i].attr.present
  }

  /** One other than HOB `i` does. */
  ghost predicate PresentElse(hobs: seq<Hob>, i: nat, a: nat) {
    exists j :: 0 <= j < |hobs| && j != i && Covers(hobs[j], a) && hobs[j].attr.present
  }

  lemma PresentPieces(h: Hob, l: Layout, a: nat)
    requires Holds(h, l)
    ensures Present(Pieces(h, l), a) <==> Covers(h, a) && h.attr.present && !l.InFd(a) && !Spills(h, l)
  {
    var ps := Pieces(h, l);
    if Covers(h, a) && h.attr.present && !l.InFd(a) && !Spills(h, l) {
      var k := if l.fdBase == h.start || a < l.fdBase then 0 else 2;
      assert Covers(ps[k], a) && ps[k].attr.present;
    }
  }

  /** What is present after a cut, in lists of any kind: what other HOBs cover, and what the HOB that was cut covered
      outside the firmware, unless it spills. */
  lemma PresentAfterCut(hobs: seq<Hob>, i: nat, l: Layout, a: nat)
    requires i < |hobs| && Holds(hobs[i], l)
    ensures Present(Replaced(hobs, i, Pieces(hobs[i], l)), a) <==>
            || PresentElse(hobs, i, a)
            || (Covers(hobs[i], a) && hobs[i].attr.present && !l.InFd(a) && !Spills(hobs[i], l))
  {
    var ps := Pieces(hobs[i], l);
    var r := Replaced(hobs, i, ps);
    PresentPieces(hobs[i], l, a);
    if j :| 0 <= j < |r| && Covers(r[j], a) && r[j].attr.present {
      if j == i || j >= |hobs| {
        var k := if j == i then 0 else j - |hobs| + 1;
        assert r[j] == ps[k];
      } else {
        assert r[j] == hobs[j];
      }
    }
    if j :| 0 <= j < |hobs| && j != i && Covers(hobs[j], a) && hobs[j].attr.present {
      assert r[j] == hobs[j];
    }
    if k :| 0 <= k < |ps| && Covers(ps[k], a) && ps[k].attr.present {
      var j := if k == 0 then i else |hobs| + k - 1;
      assert r[j] == ps[k];
    }
  }

  /** The HOB for all of system memory. */
  function WholeMemory(l: Layout): Hob {
    Hob(true, Attr(true, l.rest), l.memBase, l.memSize)
  }

  /** On lists without overlap, as MemoryPeim searches them after appending all of system memory, the wrong comparison
      is harmless: the HOB that holds the firmware is that one, it does not spill, and exactly the firmware is
      carved. */
  lemma DisjointCarved(pre: seq<Hob>, l: Layout, i: nat)
    requires l.FdInMemory() && l.fdSize > 0 && Disjoint(pre + [WholeMemory(l)])
    requires i <= |pre| && Holds((pre + [WholeMemory(l)])[i], l)
    ensures var mid := pre + [WholeMemory(l)];
            i == |pre| && !Spills(mid[i], l) && Carved(mid, Replaced(mid, i, Pieces(mid[i], l)), l)
  {
    var mid := pre + [WholeMemory(l)];
    assert Covers(mid[|pre|], l.fdBase) && Covers(mid[i], l.fdBase);
    CarveExact(mid, i, l);
  }

  /** No firmware address is present. */
  ghost predicate FdAbsent(hobs: seq<Hob>, l: Layout) {
    forall a: nat :: l.InFd(a) ==> !Present(hobs, a)
  }

  /** An earlier HOB that holds the firmware, or a present one that reaches into it. */
  predicate Claims(h: Hob, l: Layout) {
    Holds(h, l) || (h.system && h.attr.present && 0 < h.len && h.start < l.FdTop() && l.fdBase < h.start + h.len)
  }

  lemma ClaimsMeaning(h: Hob, l: Layout)
    requires l.fdSize > 0
    ensures Claims(h, l) <==> Holds(h, l) || (h.attr.present && exists a: nat :: l.InFd(a) && Covers(h, a))
  {
    if Claims(h, l) && !Holds(h, l) {
      var a := if h.start < l.fdBase then l.fdBase else h.start;
      assert l.InFd(a) && Covers(h, a);
    }
  }

  /** With overlap allowed: the firmware ends up absent if and only if no earlier HOB claims it. */
  lemma FdAbsentExactly(pre: seq<Hob>, l: Layout, at: nat)
    requires l.FdInMemory() && l.fdSize > 0 && at <= |pre|
    requires var mid := pre + [WholeMemory(l)]; Holds(mid[at], l) && forall i :: 0 <= i < at ==> !Holds(mid[i], l)
    ensures var mid := pre + [WholeMemory(l)];
            FdAbsent(Replaced(mid, at, Pieces(mid[at], l)), l) <==> forall i :: 0 <= i < |pre| ==> !Claims(pre[i], l)
  {
    var mid := pre + [WholeMemory(l)];
    var post := Replaced(mid, at, Pieces(mid[at], l));
    forall a: nat | l.InFd(a)
      ensures Present(post, a) <==> PresentElse(mid, at, a)
    {
      PresentAfterCut(mid, at, l, a);
    }
    forall i | 0 <= i < |pre|
      ensures mid[i] == pre[i]
      ensures Claims(pre[i], l) <==>
              Holds(pre[i], l) || (pre[i].attr.present && exists a: nat :: l.InFd(a) && Covers(pre[i], a))
    {
      ClaimsMeaning(pre[i], l);
    }
    if at < |pre| {
      assert Covers(mid[|pre|], l.fdBase) && l.InFd(l.fdBase) && PresentElse(mid, at, l.fdBase);
      assert Claims(pre[at], l);
    } else if i :| 0 <= i < |pre| && Claims(pre[i], l) {
      var a: nat :| l.InFd(a) && Covers(pre[i], a);
      assert Covers(mid[i], a) && PresentElse(mid, at, a);
    }
  }

  /** With overlap allowed: presence outside the firmware is kept if and only if the HOB that is cut is not a present
      one that spills, or other present HOBs cover what it spills. */
  lemma OutsideKeptExactly(hobs: seq<Hob>, i: nat, l: Layout)
    requires i < |hobs| && Holds(hobs[i], l)
    ensures (forall a: nat ::
               !l.InFd(a) ==> (Present(Replaced(hobs, i, Pieces(hobs[i], l)), a) <==> Present(hobs, a))) <==>
            !(Spills(hobs[i], l) && hobs[i].attr.present) ||
            forall a: nat :: l.FdTop() <= a < hobs[i].start + hobs[i].len ==> PresentElse(hobs, i, a)
  {
    var post := Replaced(hobs, i, Pieces(hobs[i], l));
    forall a: nat
      ensures Present(hobs, a) <==> PresentElse(hobs, i, a) || (Covers(hobs[i], a) && hobs[i].attr.present)
      ensures Present(post, a) <==>
              || PresentElse(hobs, i, a)
              || (Covers(hobs[i], a) && hobs[i].attr.present && !l.InFd(a) && !Spills(hobs[i], l))
    {
      PresentAfterCut(hobs, i, l, a);
    }
  }

  /** An overlapping list on which both go wrong: memory from 0 to 100 with the firmware from 60 on, and an earlier HOB
      from 60 to 260.  Address 150 loses PRESENT and the firmware at 70 keeps it. */
  lemma OverlapMisleads(rest: nat, uefiSize: nat)
    ensures var l := Layout(0, 100, 60, 40, uefiSize, rest);
            var mid := [Hob(true, Attr(true, rest), 60, 200), WholeMemory(l)];
            var post := Replaced(mid, 0, Pieces(mid[0], l));
            && Holds(mid[0], l) && Spills(mid[0], l) && Claims(mid[0], l)
            && Present(mid, 150) && !Present(post, 150) && Present(post, 70) && l.InFd(70)
  {
    var l := Layout(0, 100, 60, 40, uefiSize, rest);
    var mid := [Hob(true, Attr(true, rest), 60, 200), WholeMemory(l)];
    PresentAfterCut(mid, 0, l, 150);
    PresentAfterCut(mid, 0, l, 70);
    assert Covers(mid[0], 150) && Covers(mid[1], 70);
  }

  /** The search of MemoryPeim for the HOB that holds the firmware, and the cut. */
  method CarveFirmware(list: HobList, l: Layout) returns (found: bool, ghost at: nat)
    modifies list
    ensures !found ==> list.hobs == old(list.hobs) && forall i :: 0 <= i < |list.hobs| ==> !Holds(list.hobs[i], l)
    ensures found ==> at < |old(list.hobs)| && Holds(old(list.hobs)[at], l) &&
                      (forall i :: 0 <= i < at ==> !Holds(old(list.hobs)[i], l)) &&
                      list.hobs == Replaced(old(list.hobs), at, Pieces(old(list.hobs)[at], l))
  {
    found, at := false, 0;
    var i := 0;
    while i < |list.hobs|
      invariant 0 <= i <= |list.hobs| && list.hobs == old(list.hobs)
      invariant forall k :: 0 <= k < i ==> !Holds(list.hobs[k], l)
    {
      var h := list.hobs[i];
      if Holds(h, l) {
        var top := h.start + h.len;
        if l.fdBase == h.start {
          if l.MemTop() == l.FdTop() {
            list.hobs := list.hobs[i := h.(attr := Absent(h.attr))];
          } else {
            list.Build(Absent(h.attr), l.fdBase, l.fdSize);
            list.hobs := list.hobs[i := h.(start := h.start + l.fdSize, len := h.len - l.fdSize)];
          }
        } else {
          list.Build(Absent(h.attr), l.fdBase, l.fdSize);
          list.hobs := list.hobs[i := h.(len := l.fdBase - h.start)];
          if l.FdTop() < top {
            list.Build(h.attr, l.FdTop(), top - l.FdTop());
          }
        }
        return true, i;
      }
      i := i + 1;
    }
  }

  /** The addresses of system memory. */
  predicate InMemory(l: Layout, a: nat) {
    l.memBase <= a < l.MemTop()
  }

  /** No HOB of the list describes system memory yet. */
  ghost predicate Clear(hobs: seq<Hob>, l: Layout) {
    Disjoint(hobs) && forall i, a: nat :: 0 <= i < |hobs| && Covers(hobs[i], a) ==> !InMemory(l, a)
  }

  /** The final map: system memory present but for the firmware inside it, everything else as it was. */
  ghost predicate Declared(pre: seq<Hob>, post: seq<Hob>, l: Layout) {
    && Disjoint(post)
    && forall a: nat, attr :: Has(post, a, attr) <==>
         if InMemory(l, a) then attr == Attr(!(l.FdInMemory() && l.InFd(a)), l.rest) else Has(pre, a, attr)
  }

  lemma Appended(hobs: seq<Hob>, l: Layout)
    requires Clear(hobs, l)
    ensures Declared(hobs, hobs + [WholeMemory(l)], l.(fdSize := 0))
  {
    var h := WholeMemory(l);
    var r := hobs + [h];
    assert r[|hobs|] == h;
    forall j, k, a: nat | 0 <= j < k < |r|
      ensures !(Covers(r[j], a) && Covers(r[k], a))
    {
      assert r[j] == hobs[j];
      assert if k < |hobs| then r[k] == hobs[k] else r[k] == h;
      assert Covers(hobs[j], a) ==> !InMemory(l, a);
    }
    forall a: nat, attr
      ensures Has(r, a, attr) <==> if InMemory(l, a) then attr == h.attr else Has(hobs, a, attr)
    {
      if InMemory(l, a) {
        OnlyAttr(r, |hobs|, a, attr);
      }
      if j :| 0 <= j < |hobs| && Covers(hobs[j], a) && hobs[j].attr == attr {
        assert r[j] == hobs[j];
      }
    }
  }

  /** MemoryPeim up to the MMU. */
  method MemoryPeim(list: HobList, l: Layout) returns (found: bool)
    requires l.memSize != 0
    modifies list
    ensures Clear(old(list.hobs), l) && l.fdSize > 0 ==>
              Declared(old(list.hobs), list.hobs, l) && found == l.FdInMemory()
    ensures found ==> l.FdInMemory()
    ensures l.FdInMemory() && l.fdSize > 0 ==>
              found && (FdAbsent(list.hobs, l) <==> forall h :: h in old(list.hobs) ==> !Claims(h, l))
  {
    found := false;
    ghost var pre := list.hobs;
    list.Build(Attr(true, l.rest), l.memBase, l.memSize);
    ghost var mid := list.hobs;
    if Clear(pre, l) {
      Appended(pre, l);
    }
    if l.memBase <= l.fdBase && l.FdTop() <= l.MemTop() {
      ghost var at;
      found, at := CarveFirmware(list, l);
      assert Holds(mid[|pre|], l);
      if l.fdSize > 0 {
        FdAbsentExactly(pre, l, at);
      }
      if Clear(pre, l) && l.fdSize > 0 {
        CarvedMemory(pre, mid, list.hobs, l, found, at);
      }
    }
  }

  lemma CarvedMemory(pre: seq<Hob>, mid: seq<Hob>, post: seq<Hob>, l: Layout, found: bool, at: nat)
    requires Clear(pre, l) && l.FdInMemory() && l.fdSize > 0
    requires mid == pre + [WholeMemory(l)]
    requires !found ==> forall i :: 0 <= i < |mid| ==> !Holds(mid[i], l)
    requires found ==> at < |mid| && Holds(mid[at], l) && post == Replaced(mid, at, Pieces(mid[at], l))
    ensures found && Declared(pre, post, l)
  {
    Appended(pre, l);
    assert Holds(mid[|pre|], l);
    assert InMemory(l, l.fdBase);
    forall i | 0 <= i < |pre|
      ensures !Holds(mid[i], l)
    {
      assert mid[i] == pre[i];
      assert Holds(pre[i], l) ==> Covers(pre[i], l.fdBase);
    }
    assert at == |pre|;
    CarveExact(mid, at, l);
    forall a: nat, attr
      ensures Has(post, a, attr) <==>
              if InMemory(l, a) then attr == Attr(!l.InFd(a), l.rest) else Has(pre, a, attr)
    {
      if l.InFd(a) {
        OnlyAttr(mid, at, a, attr);
        OnlyAttr(mid, at, a, mid[at].attr);
        forall was | Has(mid, a, was)
          ensures was == mid[at].attr
        {
          OnlyAttr(mid, at, a, was);
        }
      }
    }
  }

  /** InitializeMemory: where the UEFI region goes; None when one of the assertions fails.  The firmware is
      declared afterwards.  Firmware outside system memory passes the assertions also when it surrounds it. */
  method InitializeMemory(list: HobList, l: Layout) returns (r: Option<nat>)
    modifies list
    ensures r.None? ==> list.hobs == old(list.hobs)
    ensures r.Some? && Clear(old(list.hobs), l) && l.fdSize > 0 ==> Declared(old(list.hobs), list.hobs, l)
    ensures r.Some? && l.FdInMemory() ==> SafeRegion(r.value, l)
    ensures r.Some? ==> forall b: nat :: SafeRegion(b, l) ==> b <= r.value
    ensures r.Some? ==>
              (SafeRegion(r.value, l) <==> l.FdInMemory() || (l.uefiSize <= l.memSize && !Surrounds(l)))
    ensures l.memSize > 0 && !l.FdInMemory() ==>
              (r.None? <==> InMemory(l, l.fdBase) || l.memBase < l.FdTop() <= l.MemTop())
    ensures r.Some? && !l.FdInMemory() ==> ((exists a: nat :: InMemory(l, a) && l.InFd(a)) <==> Surrounds(l))
    ensures r.Some? && l.FdInMemory() && Clear(old(list.hobs), l) && l.fdSize > 0 ==>
              forall a: nat, attr :: r.value <= a < r.value + l.uefiSize ==>
                (Has(list.hobs, a, attr) <==> attr == Attr(true, l.rest))
    ensures l.memSize > 0 && l.FdInMemory() ==>
              (r.None? <==> l.MemTop() - l.FdTop() < l.uefiSize && l.fdBase - l.memBase < l.uefiSize)
  {
    if l.memSize == 0 {
      return None;
    }
    var base: int;
    if l.fdBase >= l.memBase && l.FdTop() <= l.MemTop() {
      if l.MemTop() - l.FdTop() >= l.uefiSize {
        base := l.MemTop() - l.uefiSize;
      } else {
        if !(l.memBase + l.uefiSize <= l.fdBase) {
          return None;
        }
        base := l.fdBase - l.uefiSize;
      }
    } else {
      if !(l.fdBase < l.memBase || l.fdBase >= l.MemTop()) || !(l.FdTop() <= l.memBase || l.FdTop() > l.MemTop()) {
        return None;
      }
      base := l.MemTop() - l.uefiSize;
      if base < 0 {
        base := base % 0x1_0000_0000_0000_0000;
      }
    }
    assert Surrounds(l) ==> InMemory(l, l.memBase) && l.InFd(l.memBase);
    var found := MemoryPeim(list, l);
    return Some(base);
  }

  /** The overlap that the assertions let through: firmware that starts below system memory and ends above it. */
  predicate Surrounds(l: Layout) {
    l.fdBase < l.memBase && l.MemTop() < l.FdTop()
  }

  /** The region lies in system memory and off the firmware. */
  predicate SafeRegion(base: nat, l: Layout) {
    l.memBase <= base && base + l.uefiSize <= l.MemTop() && (base + l.uefiSize <= l.fdBase || l.FdTop() <= base)
  }
}
