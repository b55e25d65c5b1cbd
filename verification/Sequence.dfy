/** SequenceImpl: an array-backed byte vector that is stuffed and unstuffed in place. */
module Sequence {
  import opened Bytes
  import opened Stuffing
  import Crc

  class Sequence {
    var data: array<byte>
    var size: nat
    var extended: bool

    ghost predicate Valid()
      reads this
    {
      size <= data.Length
    }

    function Contents(): seq<byte>
      reads this, data
      requires Valid()
    {
      data[..size]
    }

    /** The logical bytes the sequence stands for. */
    function Logical(): seq<byte>
      reads this, data
      requires Valid()
    {
      if extended then Unstuff(Contents()) else Contents()
    }

    constructor ()
      ensures Valid() && fresh(data) && data.Length == 64
      ensures size == 0 && !extended
    {
      data := new byte[64];
      size, extended := 0, false;
    }

    method Clear()
      requires Valid()
      modifies this`size, this`extended
      ensures Valid() && Contents() == [] && !extended
    {
      size, extended := 0, false;
    }

    /** Sets the size, growing the storage as SmallByteVector::resize does; the bytes kept are unchanged. */
    method Resize(n: nat)
      requires Valid()
      modifies this`data, this`size
      ensures Valid() && size == n
      ensures data == old(data) || fresh(data)
      ensures forall i :: 0 <= i < n && i < old(size) ==> data[i] == old(data[i])
    {
      if n > data.Length {
        var capacity := if n > 2 * data.Length then n else 2 * data.Length;
        var grown := new byte[capacity];
        forall i | 0 <= i < size {
          grown[i] := data[i];
        }
        data := grown;
      }
      size := n;
    }

    method PushBack(b: byte, ext: bool)
      requires Valid()
      modifies this, data
      ensures Valid() && (data == old(data) || fresh(data))
      ensures Contents() == old(Contents()) + [b] && extended == ext
    {
      Resize(size + 1);
      data[size - 1] := b;
      extended := ext;
    }

    method Append(bytes: seq<byte>)
      requires Valid()
      modifies this, data
      ensures Valid() && (data == old(data) || fresh(data)) && extended == old(extended)
      ensures Contents() == old(Contents()) + bytes
    {
      var n := size;
      Resize(n + |bytes|);
      forall i | 0 <= i < |bytes| {
        data[n + i] := bytes[i];
      }
    }

    method CountEscapes() returns (extra: nat)
      requires Valid()
      ensures extra == Escapes(Contents())
    {
      extra := 0;
      for i := 0 to size
        invariant extra == Escapes(data[..i])
      {
        assert data[..i + 1][..i] == data[..i];
        if NeedsEscape(data[i]) {
          extra := extra + 1;
        }
      }
    }

    /** Backward, in place: after the call the storage holds the stuffed form of what it held before. */
    method Extend()
      requires Valid()
      modifies this, data
      ensures Valid() && extended && (data == old(data) || fresh(data))
      ensures Contents() == if old(extended) then old(Contents()) else Stuff(old(Contents()))
      ensures !old(extended) ==> Logical() == old(Logical())
    {
      if extended {
        return;
      }
      hide Stuff, Unstuff, Escapes, Layout;
      ghost var was := Contents();
      RoundTripExact(was, []);
      StuffLength(was);
      var extra := CountEscapes();
      if extra == 0 {
        NoEscapes(was);
        StuffWithoutEscapes(was);
        extended := true;
        return;
      }
      var oldSize := size;
      Resize(oldSize + extra);
      ghost var at := StuffLayout(was);
      StretchBackward(oldSize, was, Stuff(was), at);
      extended := true;
    }

    /** The backward loop; byte i of the old content ends up at index at[i] of `wire`. */
    method StretchBackward(oldSize: nat, ghost was: seq<byte>, ghost wire: seq<byte>, ghost at: seq<nat>)
      requires Valid() && |was| == oldSize <= size == |wire| && data[..oldSize] == was
      requires Layout(was, wire, at)
      modifies data
      ensures Contents() == wire
    {
      hide Layout;
      LayoutEnds(was, wire, at);
      var write := size - 1;
      var i := oldSize - 1;
      while i >= 0
        invariant -1 <= i < oldSize && write + 1 == at[i + 1]
        invariant forall j :: 0 <= j <= i ==> data[j] == was[j]
        invariant forall j :: write < j < size ==> data[j] == wire[j]
      {
        var b := data[i];
        LayoutAt(was, wire, at, i);
        if NeedsEscape(b) {
          data[write] := if b == SYN then 0x01 else 0x00;
          data[write - 1] := EXT;
          write := write - 2;
        } else {
          data[write] := b;
          write := write - 1;
        }
        i := i - 1;
      }
    }

    /** Forward, in place: after the call the storage holds the unstuffed form of what it held before. */
    method Reduce()
      requires Valid()
      modifies this, data
      ensures Valid() && !extended && data == old(data)
      ensures Contents() == old(Logical())
    {
      if !extended {
        return;
      }
      if forall i :: 0 <= i < size ==> data[i] != EXT {
        UnstuffWithoutExt(Contents());
        extended := false;
        return;
      }
      ShrinkForward(Contents(), Unstuff(Contents()));
      extended := false;
    }

    /** The forward loop: what is read at `read` of the old content is written at `write` of the new. */
    method ShrinkForward(ghost was: seq<byte>, ghost logical: seq<byte>)
      requires Valid() && Contents() == was && logical == Unstuff(was)
      modifies this`size, data
      ensures Valid() && Contents() == logical
    {
      hide Unstuff;
      var write := 0;
      var read := 0;
      assert was[0..] == was && logical[0..] == logical;
      while read < size
        invariant 0 <= write <= read <= size == |was| && Valid() && write <= |logical|
        invariant forall j :: read <= j < size ==> data[j] == was[j]
        invariant forall j :: 0 <= j < write ==> data[j] == logical[j]
        invariant logical[write..] == Unstuff(was[read..])
      {
        UnstuffAt(was, read, logical, write);
        if read + 1 < size && IsEscape(data[read], data[read + 1]) {
          data[write] := Unescape(data[read], data[read + 1]);
          read := read + 1;
        } else {
          data[write] := data[read];
        }
        write, read := write + 1, read + 1;
      }
      UnstuffNothing(was[read..]);
      size := write;
    }

    method CrcOf() returns (crc: byte)
      requires Valid()
      ensures crc == if extended then Crc.WireCrc(Contents()) else Crc.LogicalCrc(Contents())
    {
      crc := Crc.CalculateCrc(data[..size], extended);
    }
  }

  lemma {:induction false} NoEscapes(s: seq<byte>)
    requires Escapes(s) == 0
    ensures forall i :: 0 <= i < |s| ==> !NeedsEscape(s[i])
  {
    if s != [] {
      NoEscapes(s[..|s| - 1]);
    }
  }

  ghost predicate EscapeAt(wire: seq<byte>, p: nat, b: byte) {
    if NeedsEscape(b) then p + 1 < |wire| && wire[p] == EXT && wire[p + 1] == if b == SYN then 0x01 else 0x00
    else p < |wire| && wire[p] == b
  }

  /** `wire` holds the escapes of `was` one after another, the i-th starting at at[i]. */
  ghost predicate Layout(was: seq<byte>, wire: seq<byte>, at: seq<nat>) {
    && |at| == |was| + 1 && at[0] == 0 && at[|was|] == |wire|
    && forall i :: 0 <= i < |was| ==>
         i <= at[i] && at[i + 1] == at[i] + (if NeedsEscape(was[i]) then 2 else 1) && EscapeAt(wire, at[i], was[i])
  }

  lemma LayoutEnds(was: seq<byte>, wire: seq<byte>, at: seq<nat>)
    requires Layout(was, wire, at)
    ensures |at| == |was| + 1 && at[0] == 0 && at[|was|] == |wire|
  {
  }

  lemma LayoutAt(was: seq<byte>, wire: seq<byte>, at: seq<nat>, i: nat)
    requires Layout(was, wire, at) && i < |was|
    ensures |at| == |was| + 1 && i <= at[i] && at[i + 1] == at[i] + (if NeedsEscape(was[i]) then 2 else 1)
    ensures EscapeAt(wire, at[i], was[i])
  {
  }

  lemma StuffAt(s: seq<byte>, i: nat)
    requires i < |s|
    ensures i <= |Stuff(s[..i])| && |Stuff(s[..i + 1])| == |Stuff(s[..i])| + (if NeedsEscape(s[i]) then 2 else 1)
    ensures EscapeAt(Stuff(s), |Stuff(s[..i])|, s[i])
  {
    assert s[..i + 1] == s[..i] + [s[i]];
    assert s == s[..i + 1] + s[i + 1..];
    StuffSnoc(s[..i], s[i]);
    StuffConcat(s[..i + 1], s[i + 1..]);
    StuffLength(s[..i]);
  }

  lemma StuffLayout(s: seq<byte>) returns (at: seq<nat>)
    ensures Layout(s, Stuff(s), at)
  {
    at := seq(|s| + 1, i requires 0 <= i <= |s| => |Stuff(s[..i])|);
    hide EscapeAt;
    forall i | 0 <= i < |s|
      ensures i <= at[i] && at[i + 1] == at[i] + (if NeedsEscape(s[i]) then 2 else 1) && EscapeAt(Stuff(s), at[i], s[i])
    {
      StuffAt(s, i);
    }
    assert s[..|s|] == s && s[..0] == [];
  }

  /** The next logical byte of the wire bytes from `read` on. */
  lemma UnstuffAt(w: seq<byte>, read: nat, logical: seq<byte>, write: nat)
    requires read < |w| && write <= |logical| && logical[write..] == Unstuff(w[read..])
    ensures write < |logical|
    ensures if read + 1 < |w| && IsEscape(w[read], w[read + 1])
            then logical[write] == Unescape(w[read], w[read + 1]) && logical[write + 1..] == Unstuff(w[read + 2..])
            else logical[write] == w[read] && logical[write + 1..] == Unstuff(w[read + 1..])
  {
    var rest := w[read..];
    assert rest[1..] == w[read + 1..];
    assert |rest| >= 2 ==> rest[2..] == w[read + 2..];
    assert logical[write + 1..] == logical[write..][1..];
  }

  /** frameMaster: the wire form of a master part, CRC included. */
  method FrameMaster(source: byte, payload: seq<byte>) returns (msg: Sequence)
    ensures fresh(msg) && fresh(msg.data) && msg.Valid() && msg.extended
    ensures msg.Contents() == Stuff([source] + payload + [Crc.LogicalCrc([source] + payload)])
  {
    msg := new Sequence();
    msg.PushBack(source, false);
    assert msg.Contents() == [source];
    msg.Append(payload);
    assert msg.Contents() == [source] + payload;
    var crc := msg.CrcOf();
    msg.PushBack(crc, false);
    msg.Extend();
  }

  /** frameSlave: the wire form of a slave part, CRC included. */
  method FrameSlave(payload: seq<byte>) returns (msg: Sequence)
    ensures fresh(msg) && fresh(msg.data) && msg.Valid() && msg.extended
    ensures msg.Contents() == Stuff(payload + [Crc.LogicalCrc(payload)])
  {
    msg := new Sequence();
    msg.Append(payload);
    assert msg.Contents() == payload;
    var crc := msg.CrcOf();
    msg.PushBack(crc, false);
    msg.Extend();
  }
}
