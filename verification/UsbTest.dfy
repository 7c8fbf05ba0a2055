// The Nios program of the USB test and the writing loop of its PC peer.
module UsbTest {
  import opened Words
  import opened HeaderMatch
  import opened UsbController
  import opened UsbExchange
  import opened UsbFormat
  import opened UsbLocal
  import opened UsbTheorems

  const TX_BATCH: nat := 128
  const RX_BATCH: nat := 128
  const SEED: u32 := 0x4e494f53

  // ----- the pseudo-random payload

  function NextState(state: u32): u32 {
    (state * 1664525 + 1013904223) % WORD
  }

  function RandomByte(state: u32): byte {
    state / 0x100_0000 % 255 + 1
  }

  /** The bytes drawn from a generator in the given state. */
  function RandomBytes(state: u32, n: nat): (r: seq<byte>)
    ensures |r| == n
    decreases n
  {
    if n == 0 then [] else [RandomByte(NextState(state))] + RandomBytes(NextState(state), n - 1)
  }

  /** Every byte is in 1..255: a payload never contains the zero byte. */
  lemma {:induction false} RandomBytesInRange(state: u32, n: nat, i: nat)
    requires i < n
    ensures 1 <= RandomBytes(state, n)[i] <= 255
    decreases n
  {
    if i > 0 { RandomBytesInRange(NextState(state), n - 1, i - 1); }
  }

  /** The generator loses nothing: different states have different successors. */
  lemma NextStateIsInjective(a: u32, b: u32)
    requires NextState(a) == NextState(b)
    ensures a == b
  {
    var x, y := a * 1664525 + 1013904223, b * 1664525 + 1013904223;
    var q: int := x as int / WORD - y as int / WORD;
    SameRemainder(x, y);
    // 4276115653 is the inverse of 1664525 modulo 2^32
    assert 1664525 * 4276115653 == WORD * 1657219 + 1;
    SmallMultiple(a - b, 4276115653 * q - 1657219 * (a - b));
  }

  lemma SameRemainder(x: int, y: int)
    requires x % WORD == y % WORD
    ensures x - y == WORD as int * (x / WORD - y / WORD)
  {
    assert x == WORD * (x / WORD) + x % WORD;
    assert y == WORD * (y / WORD) + y % WORD;
  }

  lemma SmallMultiple(d: int, n: int)
    requires d == WORD as int * n && -0x1_0000_0000 < d < 0x1_0000_0000
    ensures d == 0
  {
  }

  /** The first bytes of the payload. */
  lemma PayloadBegins()
    ensures RandomBytes(SEED, 4) == [43, 30, 156, 147]
  {
    assert NextState(SEED) == 719195286 && NextState(719195286) == 492788477;
    assert NextState(492788477) == 2604425272 && NextState(2604425272) == 2454595127;
  }

  function StateAfter(state: u32, n: nat): u32 {
    if n == 0 then state else NextState(StateAfter(state, n - 1))
  }

  lemma {:induction false} RandomBytesSnoc(state: u32, n: nat)
    ensures RandomBytes(state, n + 1) == RandomBytes(state, n) + [RandomByte(StateAfter(state, n + 1))]
    decreases n
  {
    if n > 0 {
      RandomBytesSnoc(NextState(state), n - 1);
      StateAfterHead(state, n);
    }
  }

  lemma {:induction false} StateAfterHead(state: u32, n: nat)
    ensures StateAfter(NextState(state), n) == StateAfter(state, n + 1)
  {
    if n > 0 { StateAfterHead(state, n - 1); }
  }

  lemma SumSnoc(s: seq<byte>, b: byte)
    ensures Sum(s + [b]) == Sum(s) + b
  {
    assert (s + [b])[..|s|] == s;
  }

  lemma NothingSummed(seed: u32)
    ensures RandomBytes(seed, 0) == [] && Sum([]) == 0
  {
  }

  method PrngNextByte(state: u32) returns (next: u32, b: byte)
    ensures next == NextState(state) && b == RandomByte(next)
  {
    next := (state * 1664525 + 1013904223) % WORD;
    b := next / 0x100_0000 % 255 + 1;
  }

  /** Fill the buffer from the seed; the running 32-bit sum gives the checksum of the bytes. */
  method FillRandom(buffer: array<byte>, seed: u32) returns (crc: byte)
    modifies buffer
    ensures buffer[..] == RandomBytes(seed, buffer.Length)
    ensures crc == Checksum(buffer[..])
  {
    hide RandomBytes, NextState, RandomByte, Sum;
    var sum: u32, state := 0, seed;
    var i := 0;
    NothingSummed(seed);
    while i < buffer.Length
      invariant i <= buffer.Length
      invariant state == StateAfter(seed, i) && buffer[..i] == RandomBytes(seed, i)
      invariant sum == Sum(buffer[..i]) % WORD
    {
      RandomBytesSnoc(seed, i);
      ghost var before := buffer[..i];
      var b;
      state, b := PrngNextByte(state);
      buffer[i] := b;
      assert buffer[..i + 1] == before + [buffer[i]];
      SumSnoc(before, buffer[i]);
      AddByte(sum, Sum(before), b);
      sum := (sum + buffer[i]) % WORD;
      i := i + 1;
    }
    assert buffer[..] == buffer[..i];
    crc := sum % 256;
    LowByte(Sum(buffer[..]));
  }

  /** A 32-bit running sum stays the true sum modulo 2^32. */
  lemma AddByte(sum: u32, total: nat, b: byte)
    requires sum == total % WORD
    ensures (sum + b) % WORD == (total + b) % WORD
  {
  }

  /** The low byte of the wrapped sum is the low byte of the true sum. */
  lemma LowByte(total: nat)
    ensures total % WORD % 256 == total % 256
  {
    var q := total / WORD;
    assert total == WORD * q + total % WORD;
    assert WORD * q == 256 * (0x100_0000 * q);
  }

  method CalcCrc(buffer: array<byte>) returns (crc: byte)
    ensures crc == Checksum(buffer[..])
  {
    hide Sum;
    NothingSummed(0);
    var sum: u32 := 0;
    var i := 0;
    while i < buffer.Length
      invariant i <= buffer.Length && sum == Sum(buffer[..i]) % WORD
    {
      assert buffer[..i + 1] == buffer[..i] + [buffer[i]];
      SumSnoc(buffer[..i], buffer[i]);
      AddByte(sum, Sum(buffer[..i]), buffer[i]);
      sum := (sum + buffer[i]) % WORD;
      i := i + 1;
    }
    assert buffer[..] == buffer[..i];
    crc := sum % 256;
    LowByte(Sum(buffer[..]));
  }

  /** The PC's checksum of a payload: the sum of all bytes, and of that the low byte. */
  method CrcLowByte(data: seq<byte>) returns (crc: byte)
    ensures crc == Checksum(data)
  {
    hide Sum;
    SumOfOne(0);
    var sum: nat, i := 0, 0;
    while i < |data|
      invariant i <= |data| && sum == Sum(data[..i])
    {
      assert data[..i + 1] == data[..i] + [data[i]];
      SumSnoc(data[..i], data[i]);
      sum := sum + data[i];
      i := i + 1;
    }
    assert data[..i] == data;
    crc := sum % 256;
  }

  /** The PC writes its packet in chunks: the chunks make up the packet, whatever their size. */
  method WriteInChunks(data: seq<byte>, chunkSize: nat) returns (written: seq<byte>, total: nat)
    requires chunkSize > 0
    ensures written == data && total == |data|
  {
    written, total := [], 0;
    var offset := 0;
    while offset < |data|
      invariant written == data[..Min(offset, |data|)] && total == Min(offset, |data|)
      decreases |data| - offset
    {
      var chunk := data[offset..Min(offset + chunkSize, |data|)];
      written := written + chunk;
      total := total + |chunk|;
      offset := offset + chunkSize;
    }
  }

  /** How a phase of the Nios program ends; it can also wait for ever for a byte that never comes. */
  datatype Outcome = Waiting | Failed | Passed

  /** The random payload of the Nios packet, and the packet. */
  function Payload(): (r: seq<byte>)
    ensures |r| == COUNT
  {
    RandomBytes(SEED, COUNT)
  }

  function OwnPacket(): seq<byte> {
    Packet(NIOS2PC, Payload())
  }

  /** The state in which one of the two headers is waited for, `m` bytes of it matched. */
  ghost function Awaiting(header: seq<byte>, m: nat): Nios {
    if header == START then if m == |START| then Sending(0) else AwaitStart(m)
    else if m == |PC2NIOS| then Receiving([]) else AwaitPacket(m)
  }

  /** How much of the packet goes out, by what STATUS shows, and the next STATUS read then. */
  ghost function PacketWrites(status: nat -> Status, at: nat): (nat, nat) {
    var header := Texting(status, at, |NIOS2PC|);
    if header.0 < |NIOS2PC| then header
    else
      var crc := Polling(status, header.1, 0, 0);
      (|NIOS2PC| + COUNT + if crc.ok then 1 else 0, crc.next)
  }

  /** How much of each piece of the reply goes out, in the same way. */
  ghost function ReplyWrites(status: nat -> Status, at: nat): (Cut, nat) {
    var a := Texting(status, at, 32);
    var b := Texting(status, a.1, 2);
    var c := Texting(status, b.1, 6);
    var d := Texting(status, c.1, 2);
    var e := Texting(status, d.1, 2);
    (Cut(a.0, b.0, c.0, d.0, e.0), e.1)
  }

  lemma ClearWrites(status: nat -> Status, at: nat)
    requires forall i: nat :: Clear(status(i))
    ensures PacketWrites(status, at).0 == COUNT + 9
    ensures ReplyWrites(status, at).0 == Cut(32, 2, 6, 2, 2)
  {
    hide Ascii, Texting;
    Headers();
    ClearTexting(status, at, 8);
    assert Clear(status(at + 8));
    ClearTexting(status, at, 32);
    ClearTexting(status, at + 32, 2);
    ClearTexting(status, at + 34, 6);
    ClearTexting(status, at + 40, 2);
    ClearTexting(status, at + 42, 2);
  }

  /**
   * The program as written, with a record of its accesses to the controller: they always lead
   * from the initial state of the step machine to the state that the program has reached.
   */
  class Program {
    const usb: Controller
    const buffer: array<byte>
    ghost var trace: seq<Access>
    ghost var state: Nios

    constructor (usb: Controller)
      requires usb.Valid() && usb.taken == 0 && usb.sent == []
      ensures this.usb == usb && fresh(buffer) && Valid() && trace == [] && state == AwaitStart(0)
    {
      this.usb := usb;
      buffer := new byte[COUNT];
      trace, state := [], AwaitStart(0);
    }

    ghost predicate Valid()
      reads this, usb
    {
      Recorded() && Written(trace) == usb.sent
    }

    /** The record is complete but for bytes just written. */
    ghost predicate Recorded()
      reads this, usb
    {
      && usb.Valid() && buffer.Length == COUNT
      && LocalRun(OwnPacket(), AwaitStart(0), trace) == Some(state)
      && Taken(trace) == usb.input[..usb.taken]
    }

    /** Add the accesses just made to the record. */
    ghost method Log(more: seq<Access>, next: Nios)
      requires usb.Valid() && buffer.Length == COUNT
      requires LocalRun(OwnPacket(), AwaitStart(0), trace) == Some(state)
      requires LocalRun(OwnPacket(), state, more) == Some(next)
      requires Taken(trace) + Taken(more) == usb.input[..usb.taken]
      requires Written(trace) + Written(more) == usb.sent
      modifies this`trace, this`state
      ensures Valid() && state == next && trace == old(trace) + more
    {
      hide LocalRun, Taken, Written, OwnPacket;
      LocalBoth(OwnPacket(), AwaitStart(0), trace, more);
      BytesOfBoth(trace, more);
      trace, state := trace + more, next;
    }

    /** A stretch of the packet has been written. */
    ghost method LogSent(k: nat, s: seq<byte>)
      requires Recorded() && Written(trace) + s == usb.sent
      requires state == Sending(k) && k + |s| <= |OwnPacket()| && s == OwnPacket()[k..k + |s|]
      modifies this`trace, this`state
      ensures Valid() && state == Sending(k + |s|)
    {
      hide LocalRun, Taken, Written, OwnPacket, Writes;
      SendMany(OwnPacket(), k, s);
      BytesOf(s);
      NothingMore(Taken(trace));
      Log(Writes(s), Sending(k + |s|));
    }

    /** A move without an access, or a write that has given up. */
    ghost method LogEnd(a: Access, next: Nios)
      requires Valid() && (a.Moved? || a.GaveUp?) && After(OwnPacket(), state, a) == Some(next)
      modifies this`trace, this`state
      ensures Valid() && state == next
    {
      hide Ascii, OwnPacket, After;
      NothingMore(Taken(trace));
      NothingMore(Written(trace));
      EndOnly(OwnPacket(), state, a);
      Log([a], next);
    }

    /** A piece of the reply has been written, or its beginning. */
    ghost method LogPiece(data: seq<byte>, crc: byte, cut: Cut, piece: nat, n: nat)
      requires piece < 5 && n <= Length(piece) && cut.Of(piece) == 0
      requires Recorded() && state == Replying(data, crc, cut, piece)
      requires Written(trace) + Piece(data, crc, piece)[..n] == usb.sent
      modifies this`trace, this`state
      ensures Valid() && state == Replying(data, crc, With(cut, piece, n), piece + 1)
    {
      hide Ascii, OwnPacket, Piece, LocalRun, Taken, Written, Writes, Ending, With;
      var s := Piece(data, crc, piece)[..n];
      PieceRun(OwnPacket(), data, crc, cut, piece, n);
      BytesOf(s);
      BytesOfBoth(Writes(s), [Ending(piece, n)]);
      EndingOnly(piece, n);
      NothingMore(s);
      NothingMore(Taken(trace));
      Log(Writes(s) + [Ending(piece, n)], Replying(data, crc, With(cut, piece, n), piece + 1));
    }

    /** More of the payload has been read. */
    ghost method LogTaken(data: seq<byte>, s: seq<byte>)
      requires usb.Valid() && buffer.Length == COUNT
      requires LocalRun(OwnPacket(), AwaitStart(0), trace) == Some(state)
      requires state == Receiving(data) && |data| + |s| <= COUNT && Written(trace) == usb.sent
      requires |s| <= usb.taken && Taken(trace) == usb.input[..usb.taken - |s|]
      requires s == usb.input[usb.taken - |s|..usb.taken]
      modifies this`trace, this`state
      ensures Valid() && state == Receiving(data + s)
    {
      hide OwnPacket, LocalRun, Taken, Written, Takes;
      TakeMany(OwnPacket(), data, s);
      BytesOf(s);
      NothingMore(Written(trace));
      Appended([], usb.input, usb.taken - |s|, |s|);
      assert usb.input[..usb.taken - |s|] + s == usb.input[..usb.taken];
      Log(Takes(s), Receiving(data + s));
    }

    /** The checksum has been read. */
    ghost method LogCrc(data: seq<byte>, crc: byte)
      requires usb.Valid() && buffer.Length == COUNT
      requires LocalRun(OwnPacket(), AwaitStart(0), trace) == Some(state)
      requires state == Receiving(data) && |data| == COUNT && Written(trace) == usb.sent
      requires 0 < usb.taken && Taken(trace) == usb.input[..usb.taken - 1] && crc == usb.input[usb.taken - 1]
      modifies this`trace, this`state
      ensures Valid() && state == Replying(data, crc, NOTHING, 0)
    {
      hide OwnPacket, Taken, Written;
      TookOne(crc);
      NothingMore(Written(trace));
      assert usb.input[..usb.taken - 1] + [crc] == usb.input[..usb.taken];
      assert [Took(crc)][1..] == [];
      Log([Took(crc)], Replying(data, crc, NOTHING, 0));
    }

    /** Take bytes up to the end of the header's first occurrence among those still to come. */
    method WaitForHeader(header: seq<byte>) returns (found: bool)
      requires Valid() && (header == START || header == PC2NIOS) && state == Awaiting(header, 0)
      modifies this`trace, this`state, usb`taken
      ensures Valid() && usb.sent == old(usb.sent)
      ensures Scan(header, usb.input, old(usb.taken), 0) == if found then Some(usb.taken) else None
      ensures if found then state == Awaiting(header, |header|) else Reads(state)
    {
      hide Ascii, LocalRun, Taken, Written, OwnPacket, Awaiting, Scan;
      var matched := 0;
      AwaitingReads(header, 0);
      while matched < |header|
        invariant matched <= |header| && Valid() && usb.sent == old(usb.sent)
        invariant state == Awaiting(header, matched)
        invariant Scan(header, usb.input, old(usb.taken), 0) == Scan(header, usb.input, usb.taken, matched)
        decreases |usb.input| - usb.taken
      {
        AwaitingReads(header, matched);
        ScanOne(header, usb.input, usb.taken, matched);
        if usb.taken == |usb.input| { return false; }
        ghost var m := matched;
        ghost var from := usb.input[..usb.taken];
        var data := usb.ReadByte();
        if data == header[matched] {
          matched := matched + 1;
        } else {
          matched := if data == header[0] then 1 else 0;
        }
        MatchOne(OwnPacket(), header, m, data);
        TookOne(data);
        assert usb.input[..usb.taken] == from + [data];
        NothingMore(usb.sent);
        Log([Took(data)], Awaiting(header, matched));
      }
      ScanOne(header, usb.input, usb.taken, matched);
      return true;
    }

    /** The packet goes out whole if the outcome is `Passed`, and up to byte `n` otherwise. */
    method SendPacket() returns (outcome: Outcome, ghost n: nat)
      requires Valid() && state == Sending(0)
      modifies this`trace, this`state, usb`looks, usb`sent, buffer
      ensures Valid() && buffer[..] == Payload()
      ensures n <= |OwnPacket()| && usb.sent == old(usb.sent) + OwnPacket()[..n]
      ensures outcome == if n == |OwnPacket()| then Passed else Failed
      ensures outcome.Failed? ==> n < |NIOS2PC| || n == |NIOS2PC| + COUNT
      ensures (n, usb.looks) == PacketWrites(usb.status, old(usb.looks))
      ensures state == if outcome.Passed? then AwaitPacket(0) else NiosFailed(n)
    {
      hide Ascii, LocalRun, Taken, Written, OwnPacket, Payload, RandomBytes, Checksum, After, Polling, Texting;
      OwnParts();
      PacketOut();
      ghost var header := Texting(usb.status, usb.looks, |NIOS2PC|);
      var crc := FillRandom(buffer, SEED);
      ghost var before, size := usb.sent, |NIOS2PC|;
      var ok;
      ok, n := usb.WriteText(NIOS2PC);
      HeaderPart(n);
      LogSent(0, NIOS2PC[..n]);
      if !ok {
        GivesUp(n);
        LogEnd(GaveUp, NiosFailed(n));
        return Failed, n;
      }
      var offset := 0;
      while offset < COUNT
        invariant offset <= COUNT && Valid() && buffer[..] == Payload()
        invariant usb.sent == before + OwnPacket()[..size + offset] && state == Sending(size + offset)
        invariant usb.looks == header.1
      {
        var chunk := COUNT - offset;
        if chunk > TX_BATCH { chunk := TX_BATCH; }
        var sent := usb.WriteBytes(buffer[offset..], chunk);
        PayloadPart(offset, chunk);
        Appended(before, OwnPacket(), size + offset, chunk);
        LogSent(size + offset, buffer[offset..][..chunk]);
        offset := offset + chunk;
      }
      n := size + COUNT;
      ok := usb.WriteByte(crc);
      if !ok {
        GivesUp(n);
        LogEnd(GaveUp, NiosFailed(n));
        return Failed, n;
      }
      Appended(before, OwnPacket(), n, 1);
      LogSent(n, [crc]);
      n := n + 1;
      LogEnd(Moved, AwaitPacket(0));
      outcome := Passed;
    }

    /** The five pieces of the reply, each up to its first failing write. */
    method SendReply(calculated: byte, crc: byte) returns (ghost cut: Cut)
      requires Valid() && state == Replying(buffer[..], crc, NOTHING, 0) && calculated == Checksum(buffer[..])
      modifies this`trace, this`state, usb`looks, usb`sent
      ensures Valid() && cut.Valid() && state == NiosDone(buffer[..], crc, cut, calculated == crc)
      ensures usb.sent == old(usb.sent) + Reply(cut, buffer[..], crc)
      ensures Contains(usb.sent[|old(usb.sent)|..], VERDICT) <==> calculated == crc && cut.head >= 12
      ensures (cut, usb.looks) == ReplyWrites(usb.status, old(usb.looks))
    {
      hide Ascii, LocalRun, Taken, Written, OwnPacket, Checksum, ReplyText, Hex, Piece, With, Reply, Cut.Of, Texting;
      ghost var was, data := usb.sent, buffer[..];
      Pieces(data, crc);
      var _, a := usb.WriteText(ReplyText(calculated == crc));
      CutSteps(a, 0, 0, 0, 0);
      LogPiece(data, crc, NOTHING, 0, a);
      var _, b := usb.WriteHexByte(calculated);
      CutSteps(a, b, 0, 0, 0);
      LogPiece(data, crc, Cut(a, 0, 0, 0, 0), 1, b);
      var _, c := usb.WriteText(Ascii(" pc=0x"));
      CutSteps(a, b, c, 0, 0);
      LogPiece(data, crc, Cut(a, b, 0, 0, 0), 2, c);
      var _, d := usb.WriteHexByte(crc);
      CutSteps(a, b, c, d, 0);
      LogPiece(data, crc, Cut(a, b, c, 0, 0), 3, d);
      var _, e := usb.WriteText(Ascii("\r\n"));
      CutSteps(a, b, c, d, e);
      LogPiece(data, crc, Cut(a, b, c, d, 0), 4, e);
      cut := Cut(a, b, c, d, e);
      AllPieces(OwnPacket(), data, crc, cut);
      LogEnd(Moved, NiosDone(data, crc, cut, Checksum(data) == crc));
      ReplyIs(was, data, crc, cut);
      VerdictWritten(was, data, crc, cut);
    }

    /**
     * After the header the buffer holds the bytes that follow it and the reply says whether their
     * checksum is the byte after them.
     */
    method ReceivePacket() returns (outcome: Outcome, ghost cut: Cut)
      requires Valid() && state == AwaitPacket(0)
      modifies this`trace, this`state, usb`looks, usb`sent, usb`taken, buffer
      ensures Valid() && cut.Valid()
      ensures outcome.Waiting? <==>
        match Scan(PC2NIOS, usb.input, old(usb.taken), 0)
        case None => true
        case Some(at) => |usb.input| - at <= COUNT
      ensures outcome.Waiting? ==> Reads(state) && usb.sent == old(usb.sent) && usb.looks == old(usb.looks)
      ensures !outcome.Waiting? ==> (cut, usb.looks) == ReplyWrites(usb.status, old(usb.looks))
      ensures !outcome.Waiting? ==>
        var at := Scan(PC2NIOS, usb.input, old(usb.taken), 0).value;
        && buffer[..] == usb.input[at..at + COUNT] && usb.taken == at + COUNT + 1
        && (outcome.Passed? <==> Checksum(buffer[..]) == usb.input[at + COUNT])
        && usb.sent == old(usb.sent) + Reply(cut, buffer[..], usb.input[at + COUNT])
        && (Contains(usb.sent[|old(usb.sent)|..], VERDICT) <==> outcome.Passed? && cut.head >= 12)
        && state == NiosDone(buffer[..], usb.input[at + COUNT], cut, outcome.Passed?)
    {
      hide Ascii, Checksum, Scan, LocalRun, Taken, Written, OwnPacket, Reply, ReplyWrites, Contains;
      cut := NOTHING;
      AwaitsPacket();
      var found := WaitForHeader(PC2NIOS);
      if !found || |usb.input| - usb.taken <= COUNT { return Waiting, cut; }
      ghost var at := usb.taken;
      var offset := 0;
      while offset < COUNT
        invariant offset <= COUNT && Valid() && usb.taken == at + offset && usb.sent == old(usb.sent)
        invariant usb.looks == old(usb.looks)
        invariant buffer[..offset] == usb.input[at..at + offset] && state == Receiving(buffer[..offset])
      {
        var chunk := COUNT - offset;
        if chunk > RX_BATCH { chunk := RX_BATCH; }
        ghost var before := buffer[..];
        var got := usb.ReadBytes(buffer, offset, chunk);
        ChunkRead(before, buffer[..], usb.input, at, offset, chunk);
        LogTaken(before[..offset], usb.input[at + offset..at + offset + chunk]);
        offset := offset + chunk;
      }
      assert buffer[..] == buffer[..offset];
      var crc := usb.ReadByte();
      LogCrc(buffer[..], crc);
      var calculated := CalcCrc(buffer);
      cut := SendReply(calculated, crc);
      outcome := if calculated == crc then Passed else Failed;
    }

    /**
     * The whole program. On what the PC sends, after any number of START headers, it receives the
     * PC's payload and passes unless one of its own checked writes fails; with hardware that shows
     * neither errors nor a full FIFO none does, and the whole reply goes out.
     */
    method RunTest() returns (outcome: Outcome, ghost n: nat, ghost cut: Cut)
      requires Valid() && state == AwaitStart(0) && usb.taken == 0 && usb.sent == []
      modifies this`trace, this`state, usb`looks, usb`sent, usb`taken, buffer
      ensures Valid() && cut.Valid()
      ensures match outcome
        case Waiting => Reads(state)
        case Passed => state.NiosDone? && state.pass
        case Failed => state == NiosFailed(n) || (state.NiosDone? && !state.pass)
      ensures forall payload: seq<byte>, lead: nat {:trigger StartBytes(lead), Packet(PC2NIOS, payload)} ::
        |payload| == COUNT && lead > 0 && lead % 6 == 0 && n == COUNT + 9
        && usb.input == StartBytes(lead) + Packet(PC2NIOS, payload) ==>
          && outcome.Passed? && buffer[..] == payload
          && usb.sent == OwnPacket() + Reply(cut, payload, Checksum(payload))
          && state == NiosDone(payload, Checksum(payload), cut, true)
      ensures (forall i: nat :: Clear(usb.status(i))) && Scan(START, usb.input, 0, 0).Some? ==>
        n == COUNT + 9 && (state.NiosDone? ==> cut == Cut(32, 2, 6, 2, 2))
    {
      hide Ascii, Checksum, Scan, LocalRun, Taken, Written, OwnPacket, Reply, Packet, StartBytes, PacketWrites,
        ReplyWrites, Contains, Valid, Clear;
      outcome, n, cut := Phases();
      forall payload: seq<byte>, lead: nat |
        |payload| == COUNT && lead > 0 && lead % 6 == 0 && n == COUNT + 9
        && usb.input == StartBytes(lead) + Packet(PC2NIOS, payload)
        ensures outcome.Passed? && buffer[..] == payload
        ensures usb.sent == OwnPacket() + Reply(cut, payload, Checksum(payload))
        ensures state == NiosDone(payload, Checksum(payload), cut, true)
      {
        HeadersFound(payload, lead, usb.input);
      }
    }

    /** The three phases, for whatever arrives. */
    method Phases() returns (outcome: Outcome, ghost n: nat, ghost cut: Cut)
      requires Valid() && state == AwaitStart(0) && usb.taken == 0 && usb.sent == []
      modifies this`trace, this`state, usb`looks, usb`sent, usb`taken, buffer
      ensures Valid() && cut.Valid()
      ensures match outcome
        case Waiting => Reads(state)
        case Passed => state.NiosDone? && state.pass
        case Failed => state == NiosFailed(n) || (state.NiosDone? && !state.pass)
      ensures n == COUNT + 9 && Scan(START, usb.input, 0, 0).Some? ==>
        match Scan(PC2NIOS, usb.input, Scan(START, usb.input, 0, 0).value, 0)
        case None => outcome.Waiting?
        case Some(at) =>
          if |usb.input| - at <= COUNT then outcome.Waiting?
          else
            && buffer[..] == usb.input[at..at + COUNT]
            && (outcome.Passed? <==> Checksum(buffer[..]) == usb.input[at + COUNT])
            && usb.sent == OwnPacket() + Reply(cut, buffer[..], usb.input[at + COUNT])
            && state == NiosDone(buffer[..], usb.input[at + COUNT], cut, outcome.Passed?)
      ensures (forall i: nat :: Clear(usb.status(i))) && Scan(START, usb.input, 0, 0).Some? ==>
        n == COUNT + 9 && (state.NiosDone? ==> cut == Cut(32, 2, 6, 2, 2))
    {
      hide Ascii, Checksum, Scan, Reply, Contains, Clear, Valid;
      AwaitsStart();
      cut := NOTHING;
      n := 0;
      var found := WaitForHeader(START);
      if found {
        outcome, n, cut := SendAndReceive();
      } else {
        outcome := Waiting;
      }
    }

    /** The two phases after the START. */
    method SendAndReceive() returns (outcome: Outcome, ghost n: nat, ghost cut: Cut)
      requires Valid() && state == Sending(0) && usb.sent == []
      modifies this`trace, this`state, usb`looks, usb`sent, usb`taken, buffer
      ensures Valid() && cut.Valid()
      ensures match outcome
        case Waiting => Reads(state)
        case Passed => state.NiosDone? && state.pass
        case Failed => state == NiosFailed(n) || (state.NiosDone? && !state.pass)
      ensures n == COUNT + 9 ==>
        match Scan(PC2NIOS, usb.input, old(usb.taken), 0)
        case None => outcome.Waiting?
        case Some(at) =>
          if |usb.input| - at <= COUNT then outcome.Waiting?
          else
            && buffer[..] == usb.input[at..at + COUNT]
            && (outcome.Passed? <==> Checksum(buffer[..]) == usb.input[at + COUNT])
            && usb.sent == OwnPacket() + Reply(cut, buffer[..], usb.input[at + COUNT])
            && state == NiosDone(buffer[..], usb.input[at + COUNT], cut, outcome.Passed?)
      ensures (forall i: nat :: Clear(usb.status(i))) ==>
        n == COUNT + 9 && (state.NiosDone? ==> cut == Cut(32, 2, 6, 2, 2))
    {
      hide Ascii, Checksum, Scan, LocalRun, Taken, Written, OwnPacket, Reply, PacketWrites, ReplyWrites, Contains,
        Clear, Valid, Payload, Awaiting, RandomBytes;
      OwnParts();
      cut := NOTHING;
      ghost var looks := usb.looks;
      outcome, n := SendPacket();
      if forall i: nat :: Clear(usb.status(i)) {
        ClearWrites(usb.status, looks);
        ClearWrites(usb.status, usb.looks);
      }
      if outcome.Passed? {
        assert usb.sent == [] + OwnPacket()[..n] == OwnPacket();
        outcome, cut := ReceivePacket();
      }
    }
  }

  // ----- what the record needs

  lemma AwaitsStart()
    ensures Awaiting(START, 0) == AwaitStart(0) && Awaiting(START, |START|) == Sending(0) && START != PC2NIOS
  {
    assert |START| != |PC2NIOS|;
  }

  lemma AwaitsPacket()
    ensures Awaiting(PC2NIOS, 0) == AwaitPacket(0) && Awaiting(PC2NIOS, |PC2NIOS|) == Receiving([])
  {
    AwaitsStart();
  }

  lemma AwaitingReads(header: seq<byte>, m: nat)
    requires header == START || header == PC2NIOS
    ensures m < |header| ==> Reads(Awaiting(header, m))
  {
  }

  /** A byte taken while a header is waited for is a step of the matcher. */
  lemma MatchOne(packet: seq<byte>, header: seq<byte>, m: nat, c: byte)
    requires m < |header| && (header == START || header == PC2NIOS)
    ensures LocalRun(packet, Awaiting(header, m), [Took(c)]) == Some(Awaiting(header, Step(header, m, c)))
  {
    hide Ascii;
    AwaitsStart();
    AwaitingReads(header, m);
    assert [Took(c)][1..] == [];
  }

  lemma TookOne(c: byte)
    ensures Taken([Took(c)]) == [c] && Written([Took(c)]) == []
  {
    assert [Took(c)][1..] == [];
  }

  lemma NothingMore(s: seq<byte>)
    ensures s + [] == s
  {
  }

  lemma EndOnly(packet: seq<byte>, n: Nios, a: Access)
    requires a.Moved? || a.GaveUp?
    ensures After(packet, n, a).Some? ==> LocalRun(packet, n, [a]) == After(packet, n, a)
    ensures Taken([a]) == [] && Written([a]) == []
  {
    hide After;
    assert [a][1..] == [];
  }

  lemma EndingOnly(piece: nat, n: nat)
    requires piece < 5
    ensures Taken([Ending(piece, n)]) == [] && Written([Ending(piece, n)]) == []
  {
    assert [Ending(piece, n)][1..] == [];
  }

  lemma ScanOne(h: seq<byte>, s: seq<byte>, pos: nat, m: nat)
    requires m <= |h| && pos <= |s|
    ensures Scan(h, s, pos, m) == if m == |h| then Some(pos) else if pos == |s| then None
                                  else Scan(h, s, pos + 1, Step(h, m, s[pos]))
  {
  }

  lemma OwnParts()
    ensures |START| == 6 && |NIOS2PC| == 8 && |PC2NIOS| == 8
    ensures |OwnPacket()| == 9 + COUNT && OwnPacket()[..8] == NIOS2PC
    ensures Payload() == RandomBytes(SEED, COUNT)
    ensures OwnPacket()[8 + COUNT..8 + COUNT + 1] == [Checksum(Payload())]
  {
    hide RandomBytes, Checksum, Ascii;
    Headers();
  }

  lemma HeaderPart(n: nat)
    requires n <= |NIOS2PC|
    ensures |NIOS2PC| <= |OwnPacket()| && OwnPacket()[0..0 + n] == OwnPacket()[..n] == NIOS2PC[..n]
  {
    hide RandomBytes, Checksum, Ascii, Payload;
  }

  /** A chunk read behind those already in the buffer. */
  lemma ChunkRead(was: seq<byte>, now: seq<byte>, input: seq<byte>, at: nat, offset: nat, chunk: nat)
    requires offset + chunk <= |was| && at + offset + chunk <= |input|
    requires now == was[..offset] + input[at + offset..at + offset + chunk] + was[offset + chunk..]
    ensures |now| == |was| && now[..offset + chunk] == was[..offset] + input[at + offset..at + offset + chunk]
    ensures was[..offset] == input[at..at + offset] ==> now[..offset + chunk] == input[at..at + offset + chunk]
  {
  }

  lemma PayloadPart(offset: nat, chunk: nat)
    requires offset + chunk <= COUNT
    ensures |NIOS2PC| == 8 && |OwnPacket()| == 9 + COUNT
    ensures Payload()[offset..][..chunk] == OwnPacket()[8 + offset..8 + offset + chunk]
  {
    hide RandomBytes, Checksum, Ascii, Payload;
    Headers();
  }

  lemma Appended(before: seq<byte>, packet: seq<byte>, k: nat, n: nat)
    requires k + n <= |packet|
    ensures before + packet[..k] + packet[k..k + n] == before + packet[..k + n]
  {
  }

  lemma PacketOut()
    ensures After(OwnPacket(), Sending(|OwnPacket()|), Moved) == Some(AwaitPacket(0))
  {
    hide OwnPacket;
  }

  lemma GivesUp(n: nat)
    requires n < |NIOS2PC| || n == |NIOS2PC| + COUNT
    ensures After(OwnPacket(), Sending(n), GaveUp) == Some(NiosFailed(n))
  {
    hide Ascii, OwnPacket;
  }

  // ----- the program on the stream that the PC sends

  /** Bytes that are not the header's first byte are skipped. */
  lemma {:induction false} ScanIgnores(h: seq<byte>, s: seq<byte>, pos: nat, end: nat)
    requires h != [] && pos <= end <= |s| && forall k :: pos <= k < end ==> s[k] != h[0]
    ensures Scan(h, s, pos, 0) == Scan(h, s, end, 0)
    decreases end - pos
  {
    if pos < end { ScanIgnores(h, s, pos + 1, end); }
  }

  /** The rest of the header, in one piece, completes the match. */
  lemma {:induction false} ScanCompletes(h: seq<byte>, s: seq<byte>, pos: nat, m: nat)
    requires m <= |h| && pos + |h| - m <= |s| && forall k :: m <= k < |h| ==> s[pos + k - m] == h[k]
    ensures Scan(h, s, pos, m) == Some(pos + |h| - m)
    decreases |h| - m
  {
    if m < |h| {
      assert s[pos + m - m] == h[m];
      ScanCompletes(h, s, pos + 1, m + 1);
    }
  }

  /** The stream, byte by byte: START headers, the other header, the payload, the checksum. */
  lemma StreamAt(payload: seq<byte>, lead: nat, input: seq<byte>, k: nat)
    requires |payload| == COUNT && input == StartBytes(lead) + Packet(PC2NIOS, payload) && k < |input|
    requires |START| == 6 && |PC2NIOS| == 8
    ensures |input| == lead + 9 + COUNT
    ensures k < lead ==> input[k] == START[k % 6]
    ensures lead <= k < lead + 8 ==> input[k] == PC2NIOS[k - lead]
    ensures lead + 8 <= k < lead + 8 + COUNT ==> input[k] == payload[k - lead - 8]
    ensures k == lead + 8 + COUNT ==> input[k] == Checksum(payload)
  {
    hide Ascii, Checksum, StartBytes, Packet;
    PacketAt(PC2NIOS, payload, 0);
    if k < lead { StartBytesAt(lead, k); } else { PacketAt(PC2NIOS, payload, k - lead); }
  }

  lemma StartFound(payload: seq<byte>, lead: nat, input: seq<byte>)
    requires |payload| == COUNT && lead >= 6 && input == StartBytes(lead) + Packet(PC2NIOS, payload)
    ensures Scan(START, input, 0, 0) == Some(6)
  {
    hide Ascii, Checksum, StartBytes, Scan, Packet;
    Headers();
    forall k: nat | k < 6 ensures input[k] == START[k] { StreamAt(payload, lead, input, k); }
    ScanCompletes(START, input, 0, 0);
  }

  lemma PacketFound(payload: seq<byte>, lead: nat, input: seq<byte>)
    requires |payload| == COUNT && lead >= 6 && input == StartBytes(lead) + Packet(PC2NIOS, payload)
    ensures Scan(PC2NIOS, input, 6, 0) == Some(lead + 8)
  {
    hide Ascii, Checksum, StartBytes, Scan, Packet;
    Headers();
    StreamAt(payload, lead, input, 0);
    forall k: nat | k < lead ensures input[k] != PC2NIOS[0] { StreamAt(payload, lead, input, k); }
    forall k: nat | k < 8 ensures input[lead + k] == PC2NIOS[k] { StreamAt(payload, lead, input, lead + k); }
    ScanIgnores(PC2NIOS, input, 6, lead);
    ScanCompletes(PC2NIOS, input, lead, 0);
  }

  /** Whatever the number of START headers, both headers are found where the PC put them. */
  lemma HeadersFound(payload: seq<byte>, lead: nat, input: seq<byte>)
    requires |payload| == COUNT && lead > 0 && lead % 6 == 0
    requires input == StartBytes(lead) + Packet(PC2NIOS, payload)
    ensures Scan(START, input, 0, 0) == Some(6)
    ensures Scan(PC2NIOS, input, 6, 0) == Some(lead + 8)
    ensures |input| == lead + 9 + COUNT && input[lead + 8 + COUNT] == Checksum(payload)
    ensures input[lead + 8..lead + 8 + COUNT] == payload
  {
    hide Ascii, Checksum, StartBytes, Scan, Packet;
    Headers();
    StartFound(payload, lead, input);
    PacketFound(payload, lead, input);
    PacketAt(PC2NIOS, payload, 0);
    StreamAt(payload, lead, input, lead + 8 + COUNT);
    forall k | lead + 8 <= k < lead + 8 + COUNT ensures input[k] == payload[k - lead - 8] {
      StreamAt(payload, lead, input, k);
    }
  }

  lemma VerdictWritten(was: seq<byte>, data: seq<byte>, crc: byte, cut: Cut)
    requires cut.Valid()
    ensures Contains((was + Reply(cut, data, crc))[|was|..], VERDICT) <==> Checksum(data) == crc && cut.head >= 12
  {
    hide Reply, Checksum, Contains;
    assert (was + Reply(cut, data, crc))[|was|..] == Reply(cut, data, crc);
    ReplyLength(cut, data, crc);
    VerdictIs(cut, data, crc, Reply(cut, data, crc));
  }

  lemma Pieces(data: seq<byte>, crc: byte)
    ensures Piece(data, crc, 0) == ReplyText(Checksum(data) == crc) && Piece(data, crc, 1) == Hex(Checksum(data))
    ensures Piece(data, crc, 2) == Ascii(" pc=0x") && Piece(data, crc, 3) == Hex(crc)
    ensures Piece(data, crc, 4) == Ascii("\r\n")
  {
    hide Checksum, ReplyText, Hex, Ascii;
  }

  lemma CutSteps(a: nat, b: nat, c: nat, d: nat, e: nat)
    ensures With(NOTHING, 0, a) == Cut(a, 0, 0, 0, 0) && NOTHING.Of(0) == 0
    ensures With(Cut(a, 0, 0, 0, 0), 1, b) == Cut(a, b, 0, 0, 0) && Cut(a, 0, 0, 0, 0).Of(1) == 0
    ensures With(Cut(a, b, 0, 0, 0), 2, c) == Cut(a, b, c, 0, 0) && Cut(a, b, 0, 0, 0).Of(2) == 0
    ensures With(Cut(a, b, c, 0, 0), 3, d) == Cut(a, b, c, d, 0) && Cut(a, b, c, 0, 0).Of(3) == 0
    ensures With(Cut(a, b, c, d, 0), 4, e) == Cut(a, b, c, d, e) && Cut(a, b, c, d, 0).Of(4) == 0
  {
  }

  lemma AllPieces(packet: seq<byte>, data: seq<byte>, crc: byte, cut: Cut)
    ensures After(packet, Replying(data, crc, cut, 5), Moved) == Some(NiosDone(data, crc, cut, Checksum(data) == crc))
  {
    hide Checksum, Piece;
  }

  lemma ReplyIs(was: seq<byte>, data: seq<byte>, crc: byte, cut: Cut)
    requires cut.Valid()
    ensures was + Piece(data, crc, 0)[..cut.head] + Piece(data, crc, 1)[..cut.computed]
            + Piece(data, crc, 2)[..cut.middle] + Piece(data, crc, 3)[..cut.received]
            + Piece(data, crc, 4)[..cut.tail] == was + Reply(cut, data, crc)
  {
    hide Piece;
    FivePieces(was, Piece(data, crc, 0)[..cut.head], Piece(data, crc, 1)[..cut.computed],
               Piece(data, crc, 2)[..cut.middle], Piece(data, crc, 3)[..cut.received], Piece(data, crc, 4)[..cut.tail]);
  }

  lemma FivePieces(was: seq<byte>, a: seq<byte>, b: seq<byte>, c: seq<byte>, d: seq<byte>, e: seq<byte>)
    ensures was + a + b + c + d + e == was + (a + b + c + d + e)
  {
  }
}
