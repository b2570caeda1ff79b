/** Packets through the USB endpoint FIFO (usbc.c, usb_base_sun50iw1p1.c). */
module UsbFifo {
  import opened Words

  /** The FIFO port: bytes in the order the controller takes or gives them. */
  class Fifo {
    var bytes: seq<byte>

    constructor ()
      ensures bytes == []
    {
      bytes := [];
    }

    /** USBC_Writeb */
    method PushByte(b: byte)
      modifies this
      ensures bytes == old(bytes) + [b]
    {
      bytes := bytes + [b];
    }

    /** USBC_Writel: the controller takes a word low byte first. */
    method PushWord(w: nat)
      modifies this
      ensures bytes == old(bytes) + Le32(w)
    {
      bytes := bytes + Le32(w);
    }

    /** USBC_Readb */
    method PopByte() returns (b: byte)
      requires |bytes| >= 1
      modifies this
      ensures b == old(bytes)[0] && bytes == old(bytes)[1..]
    {
      b := bytes[0];
      bytes := bytes[1..];
    }

    /** USBC_Readl */
    method PopWord() returns (w: nat)
      requires |bytes| >= 4
      modifies this
      ensures w == FromLe32(old(bytes)[..4]) && bytes == old(bytes)[4..]
    {
      w := FromLe32(bytes[..4]);
      bytes := bytes[4..];
    }
  }

  /** USBC_WritePacket for `data` at address `addr`: whatever the alignment, the FIFO gets the bytes in order. */
  method WritePacket(fifo: Fifo, data: seq<byte>, addr: nat) returns (len: nat)
    modifies fifo
    ensures len == |data| && fifo.bytes == old(fifo.bytes) + data
  {
    len := |data|;
    var i32: nat, i8: nat, at: nat := len / 4, len % 4, 0;
    if addr % 4 != 0 {
      i8 := len;
      while i8 > 0
        invariant at + i8 == len && fifo.bytes == old(fifo.bytes) + data[..at]
      {
        fifo.PushByte(data[at]);
        assert data[..at + 1] == data[..at] + [data[at]];
        at, i8 := at + 1, i8 - 1;
      }
      assert data[..at] == data;
      return;
    }
    while i32 > 0
      invariant at + 4 * i32 + i8 == len && fifo.bytes == old(fifo.bytes) + data[..at]
    {
      FromLe32RoundTrip(data[at..at + 4]);
      fifo.PushWord(FromLe32(data[at..at + 4]));
      assert data[..at + 4] == data[..at] + data[at..at + 4];
      at, i32 := at + 4, i32 - 1;
    }
    while i8 > 0
      invariant at + i8 == len && fifo.bytes == old(fifo.bytes) + data[..at]
    {
      fifo.PushByte(data[at]);
      assert data[..at + 1] == data[..at] + [data[at]];
      at, i8 := at + 1, i8 - 1;
    }
    assert data[..at] == data;
  }

  /** USBC_ReadPacket: the next `cnt` bytes of the FIFO, in order. */
  method ReadPacket(fifo: Fifo, cnt: nat) returns (data: seq<byte>)
    requires cnt <= |fifo.bytes|
    modifies fifo
    ensures data == old(fifo.bytes)[..cnt] && fifo.bytes == old(fifo.bytes)[cnt..]
  {
    var i32: nat, i8: nat := cnt / 4, cnt % 4;
    data := [];
    ghost var was := fifo.bytes;
    while i32 > 0
      invariant |data| + 4 * i32 + i8 == cnt && data == was[..|data|] && fifo.bytes == was[|data|..]
    {
      var w := fifo.PopWord();
      FromLe32RoundTrip(was[|data|..|data| + 4]);
      assert was[|data|..][..4] == was[|data|..|data| + 4];
      assert was[..|data| + 4] == was[..|data|] + was[|data|..|data| + 4];
      data := data + Le32(w);
      i32 := i32 - 1;
    }
    while i8 > 0
      invariant |data| + i8 == cnt && data == was[..|data|] && fifo.bytes == was[|data|..]
    {
      var b := fifo.PopByte();
      assert was[..|data| + 1] == was[..|data|] + [was[|data|]];
      data := data + [b];
      i8 := i8 - 1;
    }
  }

  /** Reading inverts writing, for every length and wherever the data lie. */
  method Loopback(fifo: Fifo, data: seq<byte>, addr: nat) returns (back: seq<byte>)
    requires fifo.bytes == []
    modifies fifo
    ensures back == data && fifo.bytes == []
  {
    var len := WritePacket(fifo, data, addr);
    assert fifo.bytes == data;
    back := ReadPacket(fifo, len);
  }

  /** The endpoint: packets handed to the host, and the flag that the last one is on its way. */
  class Endpoint {
    const fifo: Fifo
    var packets: seq<seq<byte>>
    var finished: bool

    constructor ()
      ensures fresh(fifo) && fifo.bytes == [] && packets == [] && !finished
    {
      fifo := new Fifo();
      packets, finished := [], false;
    }

    /** __usb_writecomplete: what is in the FIFO becomes a packet. */
    method Complete()
      modifies this`packets, fifo
      ensures packets == old(packets) + [old(fifo.bytes)] && fifo.bytes == []
    {
      packets := packets + [fifo.bytes];
      fifo.bytes := [];
    }
  }

  /** The packets a buffer is cut into. */
  function Packets(buffer: seq<byte>, size: nat): (ps: seq<seq<byte>>)
    requires size > 0
  {
    if buffer == [] then [] else
      var n := Min(size, |buffer|);
      [buffer[..n]] + Packets(buffer[n..], size)
  }

  function Joined(ps: seq<seq<byte>>): seq<byte> {
    if ps == [] then [] else ps[0] + Joined(ps[1..])
  }

  /** The packets join to the buffer; all but the last are full, and the last is not empty. */
  lemma {:induction false} PacketsJoin(buffer: seq<byte>, size: nat)
    requires size > 0
    ensures Joined(Packets(buffer, size)) == buffer
    ensures var ps := Packets(buffer, size);
            (forall i :: 0 <= i < |ps| - 1 ==> |ps[i]| == size) && (ps != [] ==> 0 < |ps[|ps| - 1]| <= size)
    decreases |buffer|
  {
    if buffer != [] {
      var n := Min(size, |buffer|);
      var ps, rest := Packets(buffer, size), Packets(buffer[n..], size);
      PacketsJoin(buffer[n..], size);
      assert ps[1..] == rest && buffer[..n] + buffer[n..] == buffer;
      if rest == [] {
        assert Joined(rest) == [];
      } else {
        assert Joined(rest) != [];
        assert n == size;
        assert ps[|ps| - 1] == rest[|rest| - 1];
        assert forall i :: 1 <= i < |ps| ==> ps[i] == rest[i - 1];
      }
    }
  }

  lemma NextPacket(sent: seq<seq<byte>>, buffer: seq<byte>, at: nat, size: nat)
    requires size > 0 && at < |buffer|
    ensures var n := Min(size, |buffer| - at);
            sent + Packets(buffer[at..], size) == sent + [buffer[at..at + n]] + Packets(buffer[at + n..], size)
  {
    var n, rest := Min(size, |buffer| - at), buffer[at..];
    assert rest[..n] == buffer[at..at + n] && rest[n..] == buffer[at + n..];
  }

  /** __usb_write_fifo.  The flag stays down for an empty buffer. */
  method WriteFifo(ep: Endpoint, buffer: seq<byte>, addr: nat, fifoSize: nat)
    requires fifoSize > 0 && ep.fifo.bytes == []
    modifies ep, ep.fifo
    ensures ep.packets == old(ep.packets) + Packets(buffer, fifoSize)
    ensures Joined(Packets(buffer, fifoSize)) == buffer
    ensures ep.finished == (buffer != []) && ep.fifo.bytes == []
  {
    ep.finished := false;
    var transferred: nat, left: nat := 0, |buffer|;
    assert buffer[0..] == buffer;
    ghost var was, goal := ep.packets, ep.packets + Packets(buffer, fifoSize);
    while left > 0
      invariant transferred + left == |buffer| && ep.fifo.bytes == []
      invariant ep.packets + Packets(buffer[transferred..], fifoSize) == goal
      invariant ep.finished == (left == 0 && buffer != [])
    {
      var n := Min(fifoSize, left);
      NextPacket(ep.packets, buffer, transferred, fifoSize);
      var piece := buffer[transferred..transferred + n];
      n := WritePacket(ep.fifo, piece, addr + transferred);
      assert ep.fifo.bytes == piece;
      transferred, left := transferred + n, left - n;
      if left == 0 {
        ep.finished := true;
      }
      ep.Complete();
    }
    assert buffer[transferred..] == [];
    PacketsJoin(buffer, fifoSize);
  }
}
