// The Nios program of the USB test on its own, as a sequence of accesses to its controller; and
// that these accesses are exactly its steps in the whole system.
module UsbLocal {
  import opened Words
  import opened UsbFormat
  import opened UsbExchange
  import opened UsbTheorems

  /** A byte read, a byte written, a move without an access, or a write that gave up. */
  datatype Access = Took(b: byte) | Wrote(b: byte) | Moved | GaveUp

  /** The state after an access, if the program makes that access in state `n`. */
  ghost function After(packet: seq<byte>, n: Nios, a: Access): Option<Nios> {
    match a
    case Took(b) => if Reads(n) then Some(TakeByte(n, b)) else None
    case Wrote(b) => if !Reads(n) && NextByte(packet, n) == Some(b) then Some(Advance(packet, n)) else None
    case Moved => if !Reads(n) && NextByte(packet, n) == None then Some(Advance(packet, n)) else None
    case GaveUp => if CanGiveUp(n) then Some(GiveUp(n)) else None
  }

  ghost function LocalRun(packet: seq<byte>, n: Nios, trace: seq<Access>): Option<Nios>
    decreases |trace|
  {
    if trace == [] then Some(n)
    else
      var next := After(packet, n, trace[0]);
      if next.None? then None else LocalRun(packet, next.value, trace[1..])
  }

  ghost function Taken(trace: seq<Access>): seq<byte> {
    if trace == [] then [] else (if trace[0].Took? then [trace[0].b] else []) + Taken(trace[1..])
  }

  ghost function Written(trace: seq<Access>): seq<byte> {
    if trace == [] then [] else (if trace[0].Wrote? then [trace[0].b] else []) + Written(trace[1..])
  }

  ghost function Takes(s: seq<byte>): seq<Access> { seq(|s|, i requires 0 <= i < |s| => Took(s[i])) }

  ghost function Writes(s: seq<byte>): seq<Access> { seq(|s|, i requires 0 <= i < |s| => Wrote(s[i])) }

  lemma {:induction false} LocalBoth(packet: seq<byte>, n: Nios, first: seq<Access>, second: seq<Access>)
    requires LocalRun(packet, n, first).Some?
    ensures LocalRun(packet, n, first + second) == LocalRun(packet, LocalRun(packet, n, first).value, second)
    decreases |first|
  {
    hide After;
    if first == [] {
      assert [] + second == second;
    } else {
      LocalBoth(packet, After(packet, n, first[0]).value, first[1..], second);
      assert (first + second)[1..] == first[1..] + second;
    }
  }

  lemma {:induction false} BytesOfBoth(first: seq<Access>, second: seq<Access>)
    ensures Taken(first + second) == Taken(first) + Taken(second)
    ensures Written(first + second) == Written(first) + Written(second)
    decreases |first|
  {
    if first == [] {
      assert [] + second == second;
    } else {
      BytesOfBoth(first[1..], second);
      assert (first + second)[1..] == first[1..] + second;
      Associate(if first[0].Took? then [first[0].b] else [], Taken(first[1..]), Taken(second));
      Associate(if first[0].Wrote? then [first[0].b] else [], Written(first[1..]), Written(second));
    }
  }

  lemma {:induction false} BytesOf(s: seq<byte>)
    ensures Taken(Takes(s)) == s && Written(Takes(s)) == []
    ensures Taken(Writes(s)) == [] && Written(Writes(s)) == s
  {
    if s != [] {
      BytesOf(s[1..]);
      assert Takes(s)[1..] == Takes(s[1..]) && Writes(s)[1..] == Writes(s[1..]);
      assert s == [s[0]] + s[1..];
    }
  }

  // ----- stretches of accesses

  lemma {:induction false} SendMany(packet: seq<byte>, k: nat, s: seq<byte>)
    requires k + |s| <= |packet| && s == packet[k..k + |s|]
    ensures LocalRun(packet, Sending(k), Writes(s)) == Some(Sending(k + |s|))
    decreases |s|
  {
    if s != [] {
      assert s[0] == packet[k] && s[1..] == packet[k + 1..k + |s|];
      SendMany(packet, k + 1, s[1..]);
      assert Writes(s)[1..] == Writes(s[1..]);
    }
  }

  lemma {:induction false} TakeMany(packet: seq<byte>, data: seq<byte>, s: seq<byte>)
    requires |data| + |s| <= COUNT
    ensures LocalRun(packet, Receiving(data), Takes(s)) == Some(Receiving(data + s))
    decreases |s|
  {
    hide Checksum;
    if s != [] {
      TakeMany(packet, data + [s[0]], s[1..]);
      assert Takes(s)[1..] == Takes(s[1..]);
      assert data + [s[0]] + s[1..] == data + s;
    } else {
      assert data + s == data;
    }
  }

  /** The cut with `n` bytes of one piece. */
  ghost function With(cut: Cut, piece: nat, n: nat): Cut
    requires piece < 5
  {
    match piece
    case 0 => cut.(head := n)
    case 1 => cut.(computed := n)
    case 2 => cut.(middle := n)
    case 3 => cut.(received := n)
    case 4 => cut.(tail := n)
  }

  lemma ReplyOne(packet: seq<byte>, data: seq<byte>, crc: byte, cut: Cut, piece: nat, k: nat)
    requires piece < 5 && k < Length(piece)
    ensures After(packet, Replying(data, crc, With(cut, piece, k), piece), Wrote(Piece(data, crc, piece)[k]))
         == Some(Replying(data, crc, With(cut, piece, k + 1), piece))
  {
    hide Piece, Checksum;
  }

  lemma {:induction false} ReplyMany(packet: seq<byte>, data: seq<byte>, crc: byte, cut: Cut, piece: nat, k: nat,
      s: seq<byte>)
    requires piece < 5 && k + |s| <= Length(piece) && s == Piece(data, crc, piece)[k..k + |s|]
    ensures LocalRun(packet, Replying(data, crc, With(cut, piece, k), piece), Writes(s))
         == Some(Replying(data, crc, With(cut, piece, k + |s|), piece))
    decreases |s|
  {
    hide Piece, After, With, Length;
    if s != [] {
      var p := Piece(data, crc, piece);
      assert s[0] == p[k] && s[1..] == p[k + 1..k + |s|];
      ReplyOne(packet, data, crc, cut, piece, k);
      ReplyMany(packet, data, crc, cut, piece, k + 1, s[1..]);
      assert Writes(s)[1..] == Writes(s[1..]);
    }
  }

  /** How a piece ends: at its last byte, or with a write that gives up. */
  ghost function Ending(piece: nat, n: nat): Access
    requires piece < 5
  {
    if n == Length(piece) then Moved else GaveUp
  }

  lemma PieceEnds(packet: seq<byte>, data: seq<byte>, crc: byte, cut: Cut, piece: nat)
    requires piece < 5 && cut.Of(piece) <= Length(piece)
    ensures LocalRun(packet, Replying(data, crc, cut, piece), [Ending(piece, cut.Of(piece))])
         == Some(Replying(data, crc, cut, piece + 1))
  {
    hide Piece, Checksum;
    var last := [Ending(piece, cut.Of(piece))];
    assert last[1..] == [];
  }

  lemma WithIs(cut: Cut, piece: nat, n: nat)
    requires piece < 5
    ensures With(cut, piece, n).Of(piece) == n && (cut.Of(piece) == n ==> With(cut, piece, n) == cut)
  {
  }

  /** A whole piece, or its beginning and a write that gives up. */
  lemma PieceRun(packet: seq<byte>, data: seq<byte>, crc: byte, cut: Cut, piece: nat, n: nat)
    requires piece < 5 && n <= Length(piece) && cut.Of(piece) == 0
    ensures LocalRun(packet, Replying(data, crc, cut, piece), Writes(Piece(data, crc, piece)[..n]) + [Ending(piece, n)])
         == Some(Replying(data, crc, With(cut, piece, n), piece + 1))
  {
    hide Piece, Length, LocalRun, Ending, With, Cut.Of;
    var s := Piece(data, crc, piece)[..n];
    WithIs(cut, piece, 0);
    WithIs(cut, piece, n);
    assert Piece(data, crc, piece)[0..0 + |s|] == s;
    ReplyMany(packet, data, crc, cut, piece, 0, s);
    LocalBoth(packet, Replying(data, crc, cut, piece), Writes(s), [Ending(piece, n)]);
    PieceEnds(packet, data, crc, With(cut, piece, n), piece);
  }

  // ----- the accesses are the program's steps in the system

  /** In any state of the system in which it is possible, an access is one of the two Nios actions. */
  lemma AccessIsStep(x: Setup, s: System, a: Access)
    requires After(x.NiosPacket(), s.nios, a).Some?
    requires a.Took? ==> s.toNios.taken < |s.toNios.sent| && s.toNios.sent[s.toNios.taken] == a.b
    requires a.Wrote? ==> s.toPc.Waiting() < x.toPcDepth
    ensures Next(x, s, if a.GaveUp? then NiosGivesUp else NiosStep)
         == s.(nios := After(x.NiosPacket(), s.nios, a).value,
               toNios := if a.Took? then s.toNios.Take(1) else s.toNios,
               toPc := if a.Wrote? then s.toPc.Send([a.b]) else s.toPc)
  {
    hide Packet, TakeByte, Advance, NextByte;
  }

  /** The Nios part of a step of the system. */
  ghost function AccessOf(x: Setup, s: System, act: Action): seq<Access> {
    match act
    case NiosStep =>
      if Reads(s.nios) then
        if s.toNios.taken < |s.toNios.sent| then [Took(s.toNios.sent[s.toNios.taken])] else []
      else
        (match NextByte(x.NiosPacket(), s.nios)
         case None => [Moved]
         case Some(b) => if s.toPc.Waiting() < x.toPcDepth then [Wrote(b)] else [])
    case NiosGivesUp => if CanGiveUp(s.nios) then [GaveUp] else []
    case _ => []
  }

  lemma StepIsAccess(x: Setup, s: System, act: Action)
    requires s.toNios.taken <= |s.toNios.sent|
    ensures var (t, s') := (AccessOf(x, s, act), Next(x, s, act));
      && LocalRun(x.NiosPacket(), s.nios, t) == Some(s'.nios)
      && s'.toPc.sent == s.toPc.sent + Written(t)
      && s'.toNios.taken <= |s'.toNios.sent|
      && s.toNios.sent <= s'.toNios.sent
      && s'.toNios.sent[..s'.toNios.taken] == s.toNios.sent[..s.toNios.taken] + Taken(t)
  {
    hide Packet, TakeByte, Advance, NextByte, Contains;
    var t := AccessOf(x, s, act);
    if t != [] { assert t[1..] == []; }
  }

  /**
   * In every run of the system what the Nios has done is a sequence of its accesses, whose bytes
   * read are those it took from the one pipe and whose bytes written are those in the other.
   */
  lemma {:induction false} RunsProject(x: Setup, s: System, actions: seq<Action>) returns (trace: seq<Access>)
    requires s.toNios.taken <= |s.toNios.sent|
    ensures var e := Run(x, s, actions);
      && LocalRun(x.NiosPacket(), s.nios, trace) == Some(e.nios)
      && e.toPc.sent == s.toPc.sent + Written(trace)
      && e.toNios.taken <= |e.toNios.sent|
      && e.toNios.sent[..e.toNios.taken] == s.toNios.sent[..s.toNios.taken] + Taken(trace)
    decreases |actions|
  {
    hide Next, AccessOf, After, Packet;
    if actions == [] {
      trace := [];
      assert s.toPc.sent + [] == s.toPc.sent;
      assert s.toNios.sent[..s.toNios.taken] + [] == s.toNios.sent[..s.toNios.taken];
    } else {
      var t := AccessOf(x, s, actions[0]);
      StepIsAccess(x, s, actions[0]);
      var rest := RunsProject(x, Next(x, s, actions[0]), actions[1..]);
      trace := t + rest;
      LocalBoth(x.NiosPacket(), s.nios, t, rest);
      BytesOfBoth(t, rest);
      Associate(s.toPc.sent, Written(t), Written(rest));
      Associate(s.toNios.sent[..s.toNios.taken], Taken(t), Taken(rest));
    }
  }

  lemma Associate(a: seq<byte>, b: seq<byte>, c: seq<byte>)
    ensures a + b + c == a + (b + c)
  {
  }
}
