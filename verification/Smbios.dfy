/** SMBIOS records: a fixed structure followed by its strings (SunxiSmbiosDxe.c). */
module Smbios {
  import opened Words

  /** A fixed structure: byte 1 is its length. */
  predicate IsTemplate(t: seq<byte>) {
    4 <= |t| < 256 && t[1] == |t|
  }

  /** A C string without its terminator. */
  predicate IsString(s: seq<byte>) {
    forall i :: 0 <= i < |s| ==> s[i] != 0
  }

  ghost predicate AreStrings(ss: seq<seq<byte>>) {
    forall i :: 0 <= i < |ss| ==> IsString(ss[i])
  }

  /** The strings, each with its terminator. */
  function Packed(ss: seq<seq<byte>>): seq<byte> {
    if ss == [] then [] else ss[0] + [0] + Packed(ss[1..])
  }

  /** The record: structure, strings, and one more terminator, two if there is no string. */
  function Record(t: seq<byte>, ss: seq<seq<byte>>): seq<byte> {
    t + Packed(ss) + if ss == [] then [0, 0] else [0]
  }

  lemma {:induction false} PackedAppend(ss: seq<seq<byte>>, s: seq<byte>)
    ensures Packed(ss + [s]) == Packed(ss) + s + [0]
  {
    if ss == [] {
      assert ss + [s] == [s] && Packed([s][1..]) == [];
    } else {
      PackedAppend(ss[1..], s);
      assert (ss + [s])[1..] == ss[1..] + [s];
    }
  }

  lemma {:induction false} PackedGrows(ss: seq<seq<byte>>, k: nat)
    requires k <= |ss|
    ensures |Packed(ss[..k])| <= |Packed(ss)|
    ensures k < |ss| ==> |Packed(ss[..k])| + |ss[k]| + 1 <= |Packed(ss)|
    decreases |ss| - k
  {
    if k < |ss| {
      PackedGrows(ss, k + 1);
      assert ss[..k + 1] == ss[..k] + [ss[k]];
      PackedAppend(ss[..k], ss[k]);
    } else {
      assert ss[..k] == ss;
    }
  }

  /** The first pass of LogSmbiosData: bytes to allocate. */
  method Measure(t: seq<byte>, ss: seq<seq<byte>>) returns (size: nat)
    ensures size == |Record(t, ss)|
  {
    size := |t|;
    for i := 0 to |ss|
      invariant size == |t| + |Packed(ss[..i])|
    {
      size := size + |ss[i]| + 1;
      assert ss[..i + 1] == ss[..i] + [ss[i]];
      PackedAppend(ss[..i], ss[i]);
    }
    assert ss[..|ss|] == ss;
    if ss == [] {
      size := size + 1;
    }
    size := size + 1;
  }

  method CopyMem(rec: array<byte>, at: nat, s: seq<byte>)
    requires at + |s| <= rec.Length
    modifies rec
    ensures rec[..at + |s|] == old(rec[..at]) + s
    ensures forall p :: at + |s| <= p < rec.Length ==> rec[p] == old(rec[p])
  {
    forall i | 0 <= i < |s| {
      rec[at + i] := s[i];
    }
  }

  /** LogSmbiosData up to handing the record over: measure, allocate zeroed, copy structure and strings through
      a moving pointer, terminate.  The writing pass stays inside what the first pass measured. */
  method BuildRecord(t: seq<byte>, ss: seq<seq<byte>>) returns (rec: array<byte>)
    requires IsTemplate(t)
    ensures fresh(rec) && rec[..] == Record(t, ss)
  {
    var size := Measure(t, ss);
    rec := new byte[size](_ => 0);
    CopyMem(rec, 0, t);
    assert rec[..|t|] == t + Packed(ss[..0]);
    var at := rec[1] as nat;
    for i := 0 to |ss|
      invariant at == |t| + |Packed(ss[..i])| && at < size && rec[..at] == t + Packed(ss[..i])
      invariant forall p :: at <= p < size ==> rec[p] == 0
    {
      PackedGrows(ss, i);
      var was := rec[..at];
      CopyMem(rec, at, ss[i] + [0]);
      assert ss[..i + 1] == ss[..i] + [ss[i]];
      PackedAppend(ss[..i], ss[i]);
      PackedGrows(ss, i + 1);
      assert t + Packed(ss[..i + 1]) == was + (ss[i] + [0]);
      at := at + |ss[i]| + 1;
    }
    assert ss[..|ss|] == ss;
    rec[at] := 0;
    assert rec[..] == rec[..at] + rec[at..];
    assert rec[at..] == if ss == [] then [0, 0] else [0];
  }

  /** The string that starts at offset `at`. */
  function StringAt(rec: seq<byte>, at: nat): seq<byte>
    decreases |rec| - at
  {
    if at >= |rec| || rec[at] == 0 then [] else [rec[at]] + StringAt(rec, at + 1)
  }

  /** A reader: string number `k`, counting from 1 after the structure; an empty string ends the list. */
  function GetString(rec: seq<byte>, at: nat, k: nat): seq<byte>
    requires k > 0
    decreases k
  {
    var s := StringAt(rec, at);
    if k == 1 || s == [] then s else GetString(rec, at + |s| + 1, k - 1)
  }

  /** All strings up to the first empty one. */
  function AllStrings(rec: seq<byte>, at: nat): seq<seq<byte>>
    decreases |rec| - at
  {
    var s := StringAt(rec, at);
    if s == [] || at + |s| + 1 > |rec| then [] else [s] + AllStrings(rec, at + |s| + 1)
  }

  lemma {:induction false} StringFound(rec: seq<byte>, at: nat, s: seq<byte>)
    requires IsString(s) && at + |s| < |rec| && rec[at..at + |s|] == s && rec[at + |s|] == 0
    ensures StringAt(rec, at) == s
    decreases |s|
  {
    if s != [] {
      assert rec[at] == rec[at..at + |s|][0] == s[0];
      assert rec[at + 1..at + 1 + |s[1..]|] == s[1..];
      StringFound(rec, at + 1, s[1..]);
    }
  }

  /** What stands at offset `at` of a record: the remaining strings and the last terminator. */
  ghost predicate Rest(rec: seq<byte>, at: nat, ss: seq<seq<byte>>) {
    at + |Packed(ss)| < |rec| && rec[at..at + |Packed(ss)|] == Packed(ss) && rec[at + |Packed(ss)|] == 0
  }

  lemma RestStep(rec: seq<byte>, at: nat, ss: seq<seq<byte>>)
    requires Rest(rec, at, ss) && ss != [] && AreStrings(ss)
    ensures StringAt(rec, at) == ss[0] && Rest(rec, at + |ss[0]| + 1, ss[1..])
  {
    var s, tail := ss[0], Packed(ss[1..]);
    var whole := rec[at..at + |Packed(ss)|];
    assert whole == s + [0] + tail;
    assert whole[..|s|] == s && whole[|s|] == 0 && whole[|s| + 1..] == tail;
    assert rec[at..at + |s|] == whole[..|s|];
    assert rec[at + |s|] == whole[|s|];
    StringFound(rec, at, s);
    var next := at + |s| + 1;
    assert rec[next..next + |tail|] == whole[|s| + 1..];
  }

  lemma {:induction false} StringsRead(rec: seq<byte>, at: nat, ss: seq<seq<byte>>, k: nat)
    requires Rest(rec, at, ss) && AreStrings(ss) && (forall i :: 0 <= i < |ss| ==> ss[i] != []) && 0 < k <= |ss|
    ensures GetString(rec, at, k) == ss[k - 1]
    decreases |ss|
  {
    RestStep(rec, at, ss);
    if k > 1 {
      StringsRead(rec, at + |ss[0]| + 1, ss[1..], k - 1);
    }
  }

  /** Strings before the first empty one. */
  function UpToEmpty(ss: seq<seq<byte>>): seq<seq<byte>> {
    if ss == [] || ss[0] == [] then [] else [ss[0]] + UpToEmpty(ss[1..])
  }

  lemma {:induction false} AllRead(rec: seq<byte>, at: nat, ss: seq<seq<byte>>)
    requires Rest(rec, at, ss) && AreStrings(ss)
    ensures AllStrings(rec, at) == UpToEmpty(ss)
    decreases |ss|
  {
    if ss == [] {
      assert rec[at] == 0;
    } else {
      RestStep(rec, at, ss);
      var next := at + |ss[0]| + 1;
      assert next <= |rec|;
      if ss[0] != [] {
        AllRead(rec, next, ss[1..]);
        assert AllStrings(rec, at) == [ss[0]] + AllStrings(rec, next);
      }
    }
  }

  lemma {:induction false} UpToEmptyIsAll(ss: seq<seq<byte>>)
    ensures UpToEmpty(ss) == ss <==> forall i :: 0 <= i < |ss| ==> ss[i] != []
  {
    if ss != [] && ss[0] != [] {
      var rest := ss[1..];
      UpToEmptyIsAll(rest);
      assert UpToEmpty(ss)[1..] == UpToEmpty(rest) && ss == [ss[0]] + rest;
      assert (forall i :: 0 <= i < |ss| ==> ss[i] != []) ==> forall i :: 0 <= i < |rest| ==> rest[i] != [];
    }
  }

  lemma RecordRest(t: seq<byte>, ss: seq<seq<byte>>)
    ensures Rest(Record(t, ss), |t|, ss)
    ensures var r := Record(t, ss); |r| >= |t| + 2 && r[|r| - 1] == 0 && (ss != [] || r[|r| - 2] == 0)
  {
    var r, p := Record(t, ss), Packed(ss);
    assert r[|t|..|t| + |p|] == p;
    if ss != [] {
      assert |p| > 0;
    }
  }

  lemma {:induction false} PackedEnds(ss: seq<seq<byte>>)
    requires ss != []
    ensures Packed(ss) != [] && Packed(ss)[|Packed(ss)| - 1] == 0
  {
    if |ss| > 1 {
      PackedEnds(ss[1..]);
    } else {
      assert Packed(ss[1..]) == [];
    }
  }

  lemma {:induction false} PackedLast(ss: seq<seq<byte>>)
    requires ss != [] && AreStrings(ss) && forall i :: 0 <= i < |ss| ==> ss[i] != []
    ensures |Packed(ss)| >= 2 && Packed(ss)[|Packed(ss)| - 2] != 0
  {
    if |ss| > 1 {
      PackedLast(ss[1..]);
    } else {
      assert Packed(ss[1..]) == [];
      assert Packed(ss)[|Packed(ss)| - 2] == ss[0][|ss[0]| - 1];
    }
  }

  /** Every record ends in two zero bytes and no more, and string number `k` of it is entry `k - 1` of a list of
      non-empty strings. */
  lemma RecordRoundTrip(t: seq<byte>, ss: seq<seq<byte>>, k: nat)
    requires AreStrings(ss) && (forall i :: 0 <= i < |ss| ==> ss[i] != [])
    ensures var r := Record(t, ss); |r| >= |t| + 2 && r[..|t|] == t && r[|r| - 2..] == [0, 0]
    ensures 0 < k <= |ss| ==> GetString(Record(t, ss), |t|, k) == ss[k - 1]
    ensures var r := Record(t, ss); if ss == [] then |r| == |t| + 2 else |r| > |t| + 2 && r[|r| - 3] != 0
  {
    RecordRest(t, ss);
    var r := Record(t, ss);
    if ss != [] {
      PackedEnds(ss);
      PackedLast(ss);
      assert r[|r| - 3] == Packed(ss)[|Packed(ss)| - 2];
    }
    assert r[|r| - 2..] == [r[|r| - 2], r[|r| - 1]];
    if 0 < k <= |ss| {
      StringsRead(r, |t|, ss, k);
    }
  }

  /** A reader gets the whole list back exactly when no entry is empty. */
  lemma ListRoundTripExact(t: seq<byte>, ss: seq<seq<byte>>)
    requires AreStrings(ss)
    ensures AllStrings(Record(t, ss), |t|) == ss <==> forall i :: 0 <= i < |ss| ==> ss[i] != []
  {
    RecordRest(t, ss);
    AllRead(Record(t, ss), |t|, ss);
    UpToEmptyIsAll(ss);
  }
}
