/**
 An open binary file: its bytes and a cursor, with the stdio calls the index
 code uses.  Seeking past the end is allowed; a later write fills the hole
 with zeros.
 */
module IndexFile {
  import opened Common

  function Zeros(n: nat): (z: seq<Byte>)
    ensures |z| == n
    ensures forall i :: 0 <= i < n ==> z[i] == 0
  {
    seq(n, _ => 0)
  }

  // What becomes of one byte of a file: it is written, or left alone.
  type Cell = c: int | -1 <= c < 0x100

  predicate IsHole(c: Cell)
  {
    c < 0
  }

  function Holes(n: nat): (cs: seq<Cell>)
    ensures |cs| == n && forall i :: 0 <= i < n ==> IsHole(cs[i])
  {
    seq(n, _ => -1)
  }

  // The cells up to the last one that is written.
  function Extent(cs: seq<Cell>): (n: nat)
    ensures n <= |cs| && (n > 0 ==> !IsHole(cs[n - 1])) && forall i :: n <= i < |cs| ==> IsHole(cs[i])
  {
    if cs == [] then 0 else if IsHole(Last(cs)) then Extent(Init(cs)) else |cs|
  }

  // The cells as bytes, with zeros in the holes.
  function Filled(cs: seq<Cell>): (bs: seq<Byte>)
    ensures |bs| == |cs| && forall i :: 0 <= i < |cs| ==> bs[i] == if IsHole(cs[i]) then 0 else cs[i]
  {
    seq(|cs|, i requires 0 <= i < |cs| => if IsHole(cs[i]) then 0 else cs[i])
  }

  lemma FilledConcat(a: seq<Cell>, b: seq<Cell>)
    ensures Filled(a + b) == Filled(a) + Filled(b)
  {
  }

  lemma FilledBytes(bs: seq<Byte>)
    ensures Filled(bs) == bs
  {
  }

  // Byte i of the file after writing cs at offset off.
  function ByteAt(s: seq<Byte>, off: nat, cs: seq<Cell>, i: nat): Byte
  {
    if off <= i < off + |cs| && !IsHole(cs[i - off]) then cs[i - off] else if i < |s| then s[i] else 0
  }

  // The file after writing cs at offset off.  Holes change nothing, and at the end they
  // do not even make the file longer.
  function Patch(s: seq<Byte>, off: nat, cs: seq<Cell>): (r: seq<Byte>)
    ensures Extent(cs) == 0 ==> r == s
    ensures Extent(cs) > 0 ==> |r| == if |s| < off + Extent(cs) then off + Extent(cs) else |s|
  {
    var n := if Extent(cs) > 0 && |s| < off + Extent(cs) then off + Extent(cs) else |s|;
    var r := seq(n, i requires 0 <= i < n => ByteAt(s, off, cs, i));
    assert Extent(cs) == 0 ==> r == s;
    r
  }

  lemma NoHoleExtent(cs: seq<Cell>)
    requires cs != [] ==> !IsHole(Last(cs))
    ensures Extent(cs) == |cs|
  {
  }

  // The region of s that starts at off holds bs.
  predicate Holds(s: seq<Byte>, off: int, bs: seq<Cell>)
  {
    0 <= off && off + |bs| <= |s| && s[off..off + |bs|] == bs
  }

  lemma PatchAt(s: seq<Byte>, off: nat, cs: seq<Cell>, i: nat)
    requires i < |Patch(s, off, cs)|
    ensures Patch(s, off, cs)[i] == ByteAt(s, off, cs, i)
  {
  }

  lemma ExtentConcat(a: seq<Cell>, b: seq<Cell>)
    ensures Extent(a + b) == if Extent(b) > 0 then |a| + Extent(b) else Extent(a)
  {
    var ab := a + b;
    assert forall i :: 0 <= i < |b| ==> ab[|a| + i] == b[i];
    assert forall i :: 0 <= i < |a| ==> ab[i] == a[i];
  }

  // Writes that touch end to end are one write.
  lemma PatchAdjacent(s: seq<Byte>, off: nat, a: seq<Cell>, b: seq<Cell>)
    ensures Patch(Patch(s, off, a), off + |a|, b) == Patch(s, off, a + b)
  {
    hide *;
    ExtentConcat(a, b);
    var l, r := Patch(Patch(s, off, a), off + |a|, b), Patch(s, off, a + b);
    assert |l| == |r|;
    forall i | 0 <= i < |l|
      ensures l[i] == r[i]
    {
      PatchAt(s, off, a + b, i);
      PatchAt(Patch(s, off, a), off + |a|, b, i);
      if i < |Patch(s, off, a)| {
        PatchAt(s, off, a, i);
      }
      BytesAdjacent(s, off, a, b, i);
    }
  }

  lemma BytesAdjacent(s: seq<Byte>, off: nat, a: seq<Cell>, b: seq<Cell>, i: nat)
    ensures ByteAt(Patch(s, off, a), off + |a|, b, i) == ByteAt(s, off, a + b, i)
  {
    BeyondPatch(s, off, a, i);
    hide Patch;
    if off + |a| <= i < off + |a| + |b| {
      assert (a + b)[i - off] == b[i - off - |a|];
    } else if off <= i < off + |a| {
      assert (a + b)[i - off] == a[i - off];
    }
  }

  // A patched file, continued with zeros.
  lemma BeyondPatch(s: seq<Byte>, off: nat, a: seq<Cell>, i: nat)
    ensures (if i < |Patch(s, off, a)| then Patch(s, off, a)[i] else 0) == ByteAt(s, off, a, i)
  {
  }

  // Writes to disjoint regions commute.
  lemma PatchCommute(s: seq<Byte>, o1: nat, a: seq<Cell>, o2: nat, b: seq<Cell>)
    requires o1 + |a| <= o2
    ensures Patch(Patch(s, o1, a), o2, b) == Patch(Patch(s, o2, b), o1, a)
  {
    hide *;
    var l, r := Patch(Patch(s, o1, a), o2, b), Patch(Patch(s, o2, b), o1, a);
    assert |l| == |r|;
    forall i | 0 <= i < |l|
      ensures l[i] == r[i]
    {
      PatchAt(Patch(s, o1, a), o2, b, i);
      PatchAt(Patch(s, o2, b), o1, a, i);
      BytesCommute(s, o1, a, o2, b, i);
    }
  }

  lemma BytesCommute(s: seq<Byte>, o1: nat, a: seq<Cell>, o2: nat, b: seq<Cell>, i: nat)
    requires o1 + |a| <= o2
    ensures ByteAt(Patch(s, o1, a), o2, b, i) == ByteAt(Patch(s, o2, b), o1, a, i)
  {
    BeyondPatch(s, o1, a, i);
    BeyondPatch(s, o2, b, i);
    hide Patch;
  }

  // Bytes without holes are there after they were written.
  lemma PatchHolds(s: seq<Byte>, off: nat, bs: seq<Byte>)
    requires off <= |s| || bs != []
    ensures Holds(Patch(s, off, bs), off, bs)
  {
    NoHoleExtent(bs);
    var r := Patch(s, off, bs);
    forall i | 0 <= i < |bs|
      ensures r[off + i] == bs[i]
    {
      PatchAt(s, off, bs, off + i);
    }
  }

  // A part of a held region is held at its own offset.
  lemma HoldsPart(s: seq<Byte>, off: int, bs: seq<Cell>, i: int, j: int)
    requires Holds(s, off, bs) && 0 <= i <= j <= |bs|
    ensures Holds(s, off + i, bs[i..j])
  {
    var region := s[off..off + |bs|];
    forall k | 0 <= k < j - i
      ensures s[off + i..off + j][k] == bs[i..j][k]
    {
      assert region[i + k] == bs[i + k];
    }
  }

  lemma HoldsConcat(s: seq<Byte>, off: int, a: seq<Cell>, b: seq<Cell>)
    ensures Holds(s, off, a + b) <==> Holds(s, off, a) && Holds(s, off + |a|, b)
  {
    var ab := a + b;
    if Holds(s, off, ab) {
      HoldsPart(s, off, ab, 0, |a|);
      HoldsPart(s, off, ab, |a|, |ab|);
      assert ab[0..|a|] == a && ab[|a|..|ab|] == b;
    }
    if Holds(s, off, a) && Holds(s, off + |a|, b) {
      assert s[off..off + |ab|] == s[off..off + |a|] + s[off + |a|..off + |ab|];
    }
  }

  // Written behind the end of the file, with a last byte that is no hole, the cells are
  // there with zeros in the holes.
  lemma PatchEnd(s: seq<Byte>, off: nat, cs: seq<Cell>)
    requires |s| <= off && cs != [] && !IsHole(Last(cs))
    ensures Patch(s, off, cs) == s + Zeros(off - |s|) + Filled(cs)
  {
    NoHoleExtent(cs);
    hide Extent;
    var l, r := Patch(s, off, cs), s + Zeros(off - |s|) + Filled(cs);
    forall i | 0 <= i < |l|
      ensures l[i] == r[i]
    {
      PatchAt(s, off, cs, i);
    }
  }

  // ----- the sequence of writes -----

  datatype WriteOp = WriteOp(off: nat, bs: seq<Byte>)

  // The contents s after a sequence of writes.
  function Replay(s: seq<Byte>, log: seq<WriteOp>): seq<Byte>
  {
    if log == [] then s else Patch(Replay(s, Init(log)), Last(log).off, Last(log).bs)
  }

  lemma {:induction false} ReplayConcat(s: seq<Byte>, a: seq<WriteOp>, b: seq<WriteOp>)
    ensures Replay(s, a + b) == Replay(Replay(s, a), b)
  {
    hide Patch;
    if b == [] {
      assert a + b == a;
    } else {
      assert Init(a + b) == a + Init(b);
      ReplayConcat(s, a, Init(b));
    }
  }

  // How many of the writes touch byte i.
  function WriteCount(log: seq<WriteOp>, i: int): nat
  {
    if log == [] then 0
    else WriteCount(Init(log), i) + Touches(i, Last(log).off, Last(log).bs)
  }

  function Touches(i: int, off: int, cs: seq<Cell>): nat
  {
    if off <= i < off + |cs| && !IsHole(cs[i - off]) then 1 else 0
  }

  // A file as it is seen by the writer: contents and the writes that made it.
  datatype Disk = Disk(bytes: seq<Byte>, log: seq<WriteOp>)

  // d1 is d0 after some more writes, all at or after offset off.
  ghost predicate ContinuesFrom(d0: Disk, d1: Disk, off: int)
  {
    && |d0.log| <= |d1.log| && d1.log[..|d0.log|] == d0.log
    && d1.bytes == Replay(d0.bytes, d1.log[|d0.log|..])
    && forall k :: |d0.log| <= k < |d1.log| ==> off <= d1.log[k].off
  }

  lemma ContinuesRefl(d: Disk, off: int)
    ensures ContinuesFrom(d, d, off)
  {
    assert d.log[..|d.log|] == d.log;
  }

  lemma ContinuesTrans(d0: Disk, d1: Disk, d2: Disk, o1: int, o2: int)
    requires ContinuesFrom(d0, d1, o1) && ContinuesFrom(d1, d2, o2) && o1 <= o2
    ensures ContinuesFrom(d0, d2, o1)
  {
    hide Patch;
    var l0, l1, l2 := d0.log, d1.log, d2.log;
    assert l2[..|l0|] == l2[..|l1|][..|l0|];
    assert l2[|l0|..] == l1[|l0|..] + l2[|l1|..];
    ReplayConcat(d0.bytes, l1[|l0|..], l2[|l1|..]);
    forall k | |l0| <= k < |l2|
      ensures o1 <= l2[k].off
    {
      if k < |l1| {
        assert l2[k] == l2[..|l1|][k] == l1[k];
      }
    }
  }

  lemma ContinuesOne(d: Disk, op: WriteOp, off: int)
    requires off <= op.off
    ensures ContinuesFrom(d, Disk(Patch(d.bytes, op.off, op.bs), d.log + [op]), off)
  {
    hide Patch;
    var l := d.log + [op];
    assert l[..|d.log|] == d.log && l[|d.log|..] == [op];
    assert Init([op]) == [];
    assert Replay(d.bytes, [op]) == Patch(d.bytes, op.off, op.bs);
    assert forall k :: |d.log| <= k < |l| ==> off <= l[k].off;
  }

  // Going from d0 to d1 wrote exactly the cells bs at off, each but the holes once.
  ghost predicate Wrote(d0: Disk, d1: Disk, off: nat, bs: seq<Cell>)
  {
    && d1.bytes == Patch(d0.bytes, off, bs)
    && forall i {:trigger WriteCount(d1.log, i)} :: WriteCount(d1.log, i) == WriteCount(d0.log, i) + Touches(i, off, bs)
  }

  // Going from d0 to d1 wrote exactly a at o1 and b at o2, each but the holes once.
  ghost predicate WroteTwo(d0: Disk, d1: Disk, o1: nat, a: seq<Cell>, o2: nat, b: seq<Cell>)
  {
    && o1 + |a| <= o2
    && d1.bytes == Patch(Patch(d0.bytes, o1, a), o2, b)
    && forall i {:trigger WriteCount(d1.log, i)} ::
       WriteCount(d1.log, i) == WriteCount(d0.log, i) + Touches(i, o1, a) + Touches(i, o2, b)
  }

  lemma WroteBytes(d0: Disk, d1: Disk, off: nat, bs: seq<Cell>)
    requires Wrote(d0, d1, off, bs)
    ensures d1.bytes == Patch(d0.bytes, off, bs)
  {
  }

  lemma WroteNothing(d: Disk, off: nat)
    ensures Wrote(d, d, off, [])
  {
    assert d.bytes == Patch(d.bytes, off, []);
    assert forall i :: WriteCount(d.log, i) == WriteCount(d.log, i) + Touches(i, off, []);
  }

  lemma TouchesConcat(off: int, a: seq<Cell>, b: seq<Cell>)
    ensures forall i :: Touches(i, off, a + b) == Touches(i, off, a) + Touches(i, off + |a|, b)
  {
  }

  // Holes at the end are as good as nothing.
  lemma WroteHoles(d0: Disk, d1: Disk, off: nat, a: seq<Cell>, n: nat)
    requires Wrote(d0, d1, off, a)
    ensures Wrote(d0, d1, off, a + Holes(n))
  {
    var cs := Holes(n);
    assert Patch(d1.bytes, off + |a|, cs) == d1.bytes;
    PatchAdjacent(d0.bytes, off, a, cs);
    TouchesConcat(off, a, cs);
    hide Patch;
  }

  lemma WroteThen(d0: Disk, d1: Disk, d2: Disk, off: nat, a: seq<Cell>, b: seq<Cell>)
    requires Wrote(d0, d1, off, a) && Wrote(d1, d2, off + |a|, b)
    ensures Wrote(d0, d2, off, a + b)
  {
    hide Patch, Touches;
    TouchesConcat(off, a, b);
    PatchAdjacent(d0.bytes, off, a, b);
  }

  lemma WroteOne(d0: Disk, d1: Disk, o1: nat, a: seq<Cell>, o2: nat)
    requires Wrote(d0, d1, o1, a) && o1 + |a| <= o2
    ensures WroteTwo(d0, d1, o1, a, o2, [])
  {
  }

  lemma WroteLater(d0: Disk, d1: Disk, o1: nat, o2: nat, b: seq<Cell>)
    requires Wrote(d0, d1, o2, b) && o1 <= o2
    ensures WroteTwo(d0, d1, o1, [], o2, b)
  {
  }

  lemma WroteFirst(d0: Disk, d1: Disk, d2: Disk, o1: nat, a: seq<Cell>, o2: nat, b: seq<Cell>, c: seq<Cell>)
    requires WroteTwo(d0, d1, o1, a, o2, b) && Wrote(d1, d2, o1 + |a|, c) && o1 + |a| + |c| <= o2
    ensures WroteTwo(d0, d2, o1, a + c, o2, b)
  {
    hide Patch, Touches;
    TouchesConcat(o1, a, c);
    PatchCommute(Patch(d0.bytes, o1, a), o1 + |a|, c, o2, b);
    PatchAdjacent(d0.bytes, o1, a, c);
  }

  lemma WroteSecond(d0: Disk, d1: Disk, d2: Disk, o1: nat, a: seq<Cell>, o2: nat, b: seq<Cell>, c: seq<Cell>)
    requires WroteTwo(d0, d1, o1, a, o2, b) && Wrote(d1, d2, o2 + |b|, c)
    ensures WroteTwo(d0, d2, o1, a, o2, b + c)
  {
    hide Patch, Touches;
    TouchesConcat(o2, b, c);
    PatchAdjacent(Patch(d0.bytes, o1, a), o2, b, c);
  }

  lemma WroteMerge(d0: Disk, d1: Disk, o1: nat, a: seq<Cell>, o2: nat, b: seq<Cell>)
    requires WroteTwo(d0, d1, o1, a, o2, b) && o1 + |a| == o2
    ensures Wrote(d0, d1, o1, a + b)
  {
    hide Patch, Touches;
    TouchesConcat(o1, a, b);
    PatchAdjacent(d0.bytes, o1, a, b);
  }

  class File {
    var bytes: seq<Byte>
    var pos: nat
    ghost var log: seq<WriteOp>  // the writes made through this handle

    ghost function Snapshot(): (d: Disk)
      reads this
      ensures d == Disk(bytes, log)
    {
      Disk(bytes, log)
    }

    // fopen with mode "wb+": the file is created or truncated.
    constructor Create()
      ensures bytes == [] && pos == 0 && log == []
    {
      bytes, pos, log := [], 0, [];
    }

    // fopen with mode "rb": a handle on an existing file.
    constructor Open(contents: seq<Byte>)
      ensures bytes == contents && pos == 0 && log == []
    {
      bytes, pos, log := contents, 0, [];
    }

    // fseek from the start; it fails on a negative offset.
    method Seek(offset: int) returns (ok: bool)
      modifies this`pos
      ensures ok <==> 0 <= offset
      ensures pos == if 0 <= offset then offset else old(pos)
    {
      ok := 0 <= offset;
      if ok {
        pos := offset;
      }
    }

    // fwrite of one item; it reports success by the number of items written,
    // so an item of size zero counts as a failure.
    method Write(bs: seq<Byte>) returns (ok: bool)
      modifies this
      ensures ok <==> bs != []
      ensures Wrote(old(Snapshot()), Snapshot(), old(pos), bs)
      ensures log == if ok then old(log) + [WriteOp(old(pos), bs)] else old(log)
      ensures ContinuesFrom(old(Snapshot()), Snapshot(), old(pos))
      ensures pos == old(pos) + |bs|
    {
      ok := bs != [];
      if ok {
        ContinuesOne(Snapshot(), WriteOp(pos, bs), pos);
        log := log + [WriteOp(pos, bs)];
        assert Init(log) == old(log);
      } else {
        ContinuesRefl(Snapshot(), pos);
      }
      bytes := Patch(bytes, pos, bs);
      pos := pos + |bs|;
    }

    // fread of one item of n bytes; None when the file ends first.
    method ReadItem(n: nat) returns (r: Option<seq<Byte>>)
      modifies this`pos
      ensures r == ReadAt(bytes, old(pos), n)
      ensures r.Some? ==> pos == old(pos) + n
    {
      if pos + n <= |bytes| {
        r := Some(bytes[pos..pos + n]);
        pos := pos + n;
      } else {
        r := None;
      }
    }

    // fread of up to n bytes.
    method ReadUpTo(n: nat) returns (bs: seq<Byte>)
      requires n > 0
      modifies this`pos
      ensures old(pos) >= |bytes| ==> bs == [] && pos == old(pos)
      ensures old(pos) < |bytes| ==>
                0 < |bs| <= n && old(pos) + |bs| <= |bytes| &&
                bs == bytes[old(pos)..old(pos) + |bs|] && pos == old(pos) + |bs|
      ensures |bs| == n || pos >= |bytes|
    {
      if pos >= |bytes| {
        bs := [];
      } else {
        var end := if pos + n <= |bytes| then pos + n else |bytes|;
        bs := bytes[pos..end];
        pos := end;
      }
    }
  }

  function ReadAt(s: seq<Byte>, off: int, n: nat): Option<seq<Byte>>
  {
    if 0 <= off && off + n <= |s| then Some(s[off..off + n]) else None
  }
}
