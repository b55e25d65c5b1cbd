/** Byte stuffing as pure functions: 0xAA <-> 0xA9 0x01 and 0xA9 <-> 0xA9 0x00. */
module Stuffing {
  import opened Bytes

  function Escape(b: byte): seq<byte> {
    if b == SYN then [EXT, 0x01] else if b == EXT then [EXT, 0x00] else [b]
  }

  function Stuff(s: seq<byte>): seq<byte> {
    if s == [] then [] else Escape(s[0]) + Stuff(s[1..])
  }

  /** A pair of wire bytes that stands for one logical byte. */
  predicate IsEscape(b1: byte, b2: byte) {
    b1 == EXT && (b2 == 0x01 || b2 == 0x00)
  }

  function Unescape(b1: byte, b2: byte): byte
    requires IsEscape(b1, b2)
  {
    if b2 == 0x01 then SYN else EXT
  }

  function Unstuff(w: seq<byte>): seq<byte> {
    if w == [] then []
    else if |w| >= 2 && IsEscape(w[0], w[1]) then [Unescape(w[0], w[1])] + Unstuff(w[2..])
    else [w[0]] + Unstuff(w[1..])
  }

  /** Well-formed stuffing: no SYN, and every 0xA9 opens a complete escape pair. */
  predicate Stuffed(w: seq<byte>) {
    if w == [] then true
    else if w[0] == EXT then |w| >= 2 && IsEscape(w[0], w[1]) && Stuffed(w[2..])
    else w[0] != SYN && Stuffed(w[1..])
  }

  function Escapes(s: seq<byte>): nat {
    if s == [] then 0 else Escapes(s[..|s| - 1]) + (if NeedsEscape(s[|s| - 1]) then 1 else 0)
  }

  /** Number of 0xA9 bytes. */
  function Exts(w: seq<byte>): nat {
    if w == [] then 0 else Exts(w[..|w| - 1]) + (if w[|w| - 1] == EXT then 1 else 0)
  }

  lemma {:induction false} StuffConcat(a: seq<byte>, b: seq<byte>)
    ensures Stuff(a + b) == Stuff(a) + Stuff(b)
  {
    hide Escape;
    if a == [] {
      assert a + b == b;
    } else {
      StuffConcat(a[1..], b);
      assert (a + b)[1..] == a[1..] + b && (a + b)[0] == a[0];
      assert Stuff(a) + Stuff(b) == Escape(a[0]) + (Stuff(a[1..]) + Stuff(b));
    }
  }

  lemma StuffSnoc(a: seq<byte>, b: byte)
    ensures Stuff(a + [b]) == Stuff(a) + Escape(b)
  {
    StuffConcat(a, [b]);
    assert Stuff([b]) == Escape(b) + Stuff([]);
  }

  lemma UnstuffEscape(b: byte, w: seq<byte>)
    ensures Unstuff(Escape(b) + w) == [b] + Unstuff(w)
  {
    var e := Escape(b);
    assert (e + w)[|e|..] == w;
    assert (e + w)[0] == e[0] && (|e| == 2 ==> (e + w)[1] == e[1]);
  }

  /** Unstuffing undoes stuffing, whatever follows on the wire. */
  lemma {:induction false} UnstuffStuff(s: seq<byte>, rest: seq<byte>)
    ensures Unstuff(Stuff(s) + rest) == s + Unstuff(rest)
  {
    hide Unstuff, Escape;
    if s == [] {
      assert Stuff(s) + rest == rest;
    } else {
      var w := Stuff(s[1..]) + rest;
      UnstuffStuff(s[1..], rest);
      UnstuffEscape(s[0], w);
      assert Stuff(s) + rest == Escape(s[0]) + w;
      assert s + Unstuff(rest) == [s[0]] + (s[1..] + Unstuff(rest));
    }
  }

  lemma StuffedEscape(b: byte, w: seq<byte>)
    requires Stuffed(w)
    ensures Stuffed(Escape(b) + w)
  {
    var e := Escape(b);
    assert (e + w)[|e|..] == w;
    assert (e + w)[0] == e[0] && (|e| == 2 ==> (e + w)[1] == e[1]);
  }

  lemma {:induction false} StuffIsStuffed(s: seq<byte>)
    ensures Stuffed(Stuff(s))
  {
    if s != [] {
      StuffIsStuffed(s[1..]);
      StuffedEscape(s[0], Stuff(s[1..]));
    }
  }

  lemma {:induction false} StuffedHasNoSyn(w: seq<byte>)
    requires Stuffed(w)
    ensures SYN !in w
  {
    if w != [] {
      if w[0] == EXT {
        StuffedHasNoSyn(w[2..]);
        assert w == [w[0], w[1]] + w[2..];
      } else {
        StuffedHasNoSyn(w[1..]);
        assert w == [w[0]] + w[1..];
      }
    }
  }

  lemma {:induction false} StuffUnstuff(w: seq<byte>)
    requires Stuffed(w)
    ensures Stuff(Unstuff(w)) == w
  {
    if w != [] {
      var k := if w[0] == EXT then 2 else 1;
      StuffUnstuff(w[k..]);
      var h := Unstuff(w)[0];
      assert Unstuff(w)[1..] == Unstuff(w[k..]);
      assert w == Escape(h) + w[k..];
    }
  }

  /** Stuffing and unstuffing are inverse exactly on the well-formed wire sequences. */
  lemma RoundTripExact(s: seq<byte>, w: seq<byte>)
    ensures Unstuff(Stuff(s)) == s
    ensures SYN !in Stuff(s)
    ensures Stuff(Unstuff(w)) == w <==> Stuffed(w)
  {
    UnstuffStuff(s, []);
    assert Stuff(s) + [] == Stuff(s);
    StuffIsStuffed(s);
    StuffedHasNoSyn(Stuff(s));
    if Stuffed(w) {
      StuffUnstuff(w);
    } else {
      StuffIsStuffed(Unstuff(w));
    }
  }

  /** Wire bytes split where their logical bytes do; a split off prefix never ends inside an escape pair. */
  lemma {:induction false} UnstuffSplit(w: seq<byte>, s: seq<byte>, t: seq<byte>) returns (a: seq<byte>, b: seq<byte>)
    requires Unstuff(w) == s + t
    ensures w == a + b && Unstuff(a) == s && Unstuff(b) == t
    ensures a != [] && b != [] && IsEscape(EXT, b[0]) ==> a[|a| - 1] != EXT
  {
    if s == [] {
      a, b := [], w;
      assert s + t == t;
    } else {
      var k := if |w| >= 2 && IsEscape(w[0], w[1]) then 2 else 1;
      assert Unstuff(w)[1..] == Unstuff(w[k..]);
      assert (s + t)[1..] == s[1..] + t && (s + t)[0] == s[0];
      a, b := UnstuffSplit(w[k..], s[1..], t);
      SplitHead(w, k, a, b, s);
      a := w[..k] + a;
    }
  }

  lemma SplitHead(w: seq<byte>, k: nat, a: seq<byte>, b: seq<byte>, s: seq<byte>)
    requires w != [] && k == (if |w| >= 2 && IsEscape(w[0], w[1]) then 2 else 1) && s != []
    requires w[k..] == a + b && Unstuff(a) == s[1..] && Unstuff(w)[0] == s[0]
    ensures w == (w[..k] + a) + b && Unstuff(w[..k] + a) == s
    ensures a == [] && b != [] && IsEscape(EXT, b[0]) ==> w[..k][k - 1] != EXT
  {
    var c := w[..k] + a;
    assert w == c + b;
    assert c[0] == w[0] && (|c| >= 2 ==> c[1] == w[1]);
    assert c[k..] == a;
    assert s == [s[0]] + s[1..];
    if a == [] && b != [] {
      assert w[k] == b[0];
    }
  }

  /** Bytes read up to one that is not 0xA9 are unstuffed on their own. */
  lemma {:induction false} UnstuffConcat(a: seq<byte>, b: seq<byte>)
    requires a == [] || a[|a| - 1] != EXT
    ensures Unstuff(a + b) == Unstuff(a) + Unstuff(b)
  {
    hide Unstuff;
    if a == [] {
      assert a + b == b;
      UnstuffNothing(a);
    } else {
      var k := if |a| >= 2 && IsEscape(a[0], a[1]) then 2 else 1;
      UnstuffConcat(a[k..], b);
      assert (a + b)[k..] == a[k..] + b;
      assert (a + b)[0] == a[0] && (|a| >= 2 ==> (a + b)[1] == a[1]);
      UnstuffFirst(a, k);
      UnstuffFirst(a + b, k);
    }
  }

  lemma UnstuffNothing(w: seq<byte>)
    requires w == []
    ensures Unstuff(w) == []
  {
  }

  lemma UnstuffFirst(w: seq<byte>, k: nat)
    requires w != [] && k == if |w| >= 2 && IsEscape(w[0], w[1]) then 2 else 1
    ensures Unstuff(w) == [if k == 2 then Unescape(w[0], w[1]) else w[0]] + Unstuff(w[k..])
  {
  }

  lemma {:induction false} UnstuffWithoutExt(w: seq<byte>)
    requires EXT !in w
    ensures Unstuff(w) == w
  {
    if w != [] {
      UnstuffWithoutExt(w[1..]);
    }
  }

  lemma {:induction false} StuffWithoutEscapes(s: seq<byte>)
    requires forall i :: 0 <= i < |s| ==> !NeedsEscape(s[i])
    ensures Stuff(s) == s
  {
    if s != [] {
      StuffWithoutEscapes(s[1..]);
    }
  }

  lemma {:induction false} StuffLength(s: seq<byte>)
    ensures |Stuff(s)| == |s| + Escapes(s)
    ensures |s| <= |Stuff(s)| <= 2 * |s|
  {
    if s != [] {
      StuffLength(s[..|s| - 1]);
      StuffSnoc(s[..|s| - 1], s[|s| - 1]);
      assert s == s[..|s| - 1] + [s[|s| - 1]];
    }
  }

  lemma {:induction false} ExtsConcat(a: seq<byte>, b: seq<byte>)
    ensures Exts(a + b) == Exts(a) + Exts(b)
    ensures Exts(b) <= |b|
  {
    if b == [] {
      assert a + b == a;
    } else {
      ExtsConcat(a, b[..|b| - 1]);
      assert (a + b)[..|a + b| - 1] == a + b[..|b| - 1];
    }
  }

  lemma ExtsEscape(b: byte)
    ensures Exts(Escape(b)) == |Escape(b)| - 1
    ensures |Escape(b)| == 2 ==> Exts(Escape(b)[..1]) == 1
  {
    var e := Escape(b);
    assert Exts(e[..0]) == 0;
    if |e| == 2 {
      assert e[..1][..0] == [];
    }
  }

  /**
   * The escape-counting length test: reading the stuffed form of `s` byte by byte, the number of
   * bytes that are not 0xA9 reaches |s| at the last byte and never before.
   */
  lemma {:induction false} FrameEnd(s: seq<byte>, k: nat)
    requires k <= |Stuff(s)|
    ensures k - Exts(Stuff(s)[..k]) <= |s|
    ensures k - Exts(Stuff(s)[..k]) == |s| <==> k == |Stuff(s)|
  {
    if s != [] {
      hide Stuff, Exts, Escape;
      var t, b := s[..|s| - 1], s[|s| - 1];
      assert s == t + [b];
      StuffSnoc(t, b);
      EscapeLength(b);
      var u := Stuff(t);
      if k <= |u| {
        FrameEnd(t, k);
        assert (u + Escape(b))[..k] == u[..k];
      } else {
        FrameEnd(t, |u|);
        LastEscape(u, b, k);
      }
    }
  }

  lemma EscapeLength(b: byte)
    ensures 1 <= |Escape(b)| <= 2
  {
  }

  lemma LastEscape(u: seq<byte>, b: byte, k: nat)
    requires |u| < k <= |u + Escape(b)|
    ensures Exts((u + Escape(b))[..k]) == Exts(u[..|u|]) + (if k == |u + Escape(b)| then |Escape(b)| - 1 else 1)
  {
    hide Exts;
    var e := Escape(b);
    assert u[..|u|] == u;
    assert (u + e)[..k] == u + e[..k - |u|];
    ExtsConcat(u, e[..k - |u|]);
    ExtsEscape(b);
    assert k == |u + e| ==> e[..k - |u|] == e;
  }
}
