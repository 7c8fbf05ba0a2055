// What holds of every run of the USB test, whatever the interleaving, the number of retries and
// the depths of the pipes.
module UsbTheorems {
  import opened Words
  import opened HeaderMatch
  import opened UsbFormat
  import opened UsbExchange

  ghost function Run(x: Setup, s: System, actions: seq<Action>): System
    decreases |actions|
  {
    if actions == [] then s else Run(x, Next(x, s, actions[0]), actions[1..])
  }

  lemma InitialOk(x: Setup)
    requires x.Valid()
    ensures Inv(x, Initial())
  {
    hide Checksum, Packet;
    Headers();
    assert x.PcPacket()[..0] == [];
  }

  lemma {:induction false} RunKeeps(x: Setup, s: System, actions: seq<Action>)
    requires x.Valid() && Inv(x, s)
    ensures Inv(x, Run(x, s, actions))
    decreases |actions|
  {
    hide Inv, Next;
    if actions != [] {
      NextKeeps(x, s, actions[0]);
      RunKeeps(x, Next(x, s, actions[0]), actions[1..]);
    }
  }

  ghost predicate Reachable(x: Setup, s: System) {
    exists actions :: s == Run(x, Initial(), actions)
  }

  lemma ReachableOk(x: Setup, s: System)
    requires x.Valid() && Reachable(x, s)
    ensures Inv(x, s)
  {
    hide Inv, Run;
    InitialOk(x);
    var actions :| s == Run(x, Initial(), actions);
    RunKeeps(x, Initial(), actions);
  }

  /**
   * In every reachable state what each side has received so far is a prefix of what the other
   * side means to send, however many START bytes were left in the pipe.
   */
  lemma ReceivesPrefixes(x: Setup, s: System)
    requires x.Valid() && Reachable(x, s)
    ensures s.nios.Receiving? ==> s.nios.data <= x.pcPayload
    ensures s.pc.ReadingPayload? ==> s.pc.data <= x.niosPayload
    ensures s.nios.Replying? || s.nios.NiosDone? ==> s.nios.data == x.pcPayload
    ensures s.pc.ReadingCrc? || s.pc.Writing? || s.pc.AwaitResult? || s.pc.PcDone? ==> s.pc.data == x.niosPayload
  {
    hide Run, Checksum, Reply, Contains, Packet;
    ReachableOk(x, s);
  }

  /** The three headers of the test, so the streaming matcher is exact for each of them. */
  lemma HeadersAreExact(s: seq<byte>)
    ensures IsFirst(START, s, Scan(START, s, 0, 0))
    ensures IsFirst(NIOS2PC, s, Scan(NIOS2PC, s, 0, 0))
    ensures IsFirst(PC2NIOS, s, Scan(PC2NIOS, s, 0, 0))
  {
    hide Scan, IsFirst, SelfSafe;
    UniqueFirstByteIsSafe(START);
    UniqueFirstByteIsSafe(NIOS2PC);
    UniqueFirstByteIsSafe(PC2NIOS);
    hide Ascii;
    SafeIsExact(START, s);
    SafeIsExact(NIOS2PC, s);
    SafeIsExact(PC2NIOS, s);
  }

  // ----- the verdicts

  /** After its first piece the reply holds neither an `N` nor an `S`. */
  lemma RestOfReply(cut: Cut, data: seq<byte>, crc: byte, i: nat)
    requires cut.Valid() && cut.head <= i < |Reply(cut, data, crc)|
    ensures Reply(cut, data, crc)[i] != 78 && Reply(cut, data, crc)[i] != 83
  {
    hide Checksum, ReplyText;
    var b, c := Piece(data, crc, 1)[..cut.computed], Piece(data, crc, 2)[..cut.middle];
    var d, e := Piece(data, crc, 3)[..cut.received], Piece(data, crc, 4)[..cut.tail];
    assert forall k :: 0 <= k < |b| ==> b[k] != 78 && b[k] != 83;
    assert forall k :: 0 <= k < |c| ==> c[k] != 78 && c[k] != 83;
    assert forall k :: 0 <= k < |d| ==> d[k] != 78 && d[k] != 83;
    assert forall k :: 0 <= k < |e| ==> e[k] != 78 && e[k] != 83;
  }

  lemma FirstOfReply(cut: Cut, data: seq<byte>, crc: byte, i: nat)
    requires cut.Valid() && i < cut.head
    ensures var r, pass := Reply(cut, data, crc), Checksum(data) == crc;
      && |r| >= cut.head && r[i] == ReplyText(pass)[i] && (r[i] == 78 <==> i == 0)
      && (pass && i < 12 ==> r[i] == VERDICT[i]) && (!pass && i == 8 ==> r[i] != VERDICT[i])
  {
    hide Checksum;
  }

  /**
   * The word looked for has arrived exactly when the checksums agree and the first twelve bytes of
   * the first piece got out and arrived: no reply about a corrupted packet contains it.
   */
  lemma VerdictIs(cut: Cut, data: seq<byte>, crc: byte, text: seq<byte>)
    requires cut.Valid() && text <= Reply(cut, data, crc)
    ensures Contains(text, VERDICT) <==> Checksum(data) == crc && cut.head >= 12 && |text| >= 12
  {
    hide Reply, Checksum, ReplyText;
    var r := Reply(cut, data, crc);
    assert |VERDICT| == 12 && VERDICT[0] == 78 && VERDICT[11] == 83;
    if Checksum(data) == crc && cut.head >= 12 && |text| >= 12 {
      forall i: nat | i < 12 ensures text[i] == VERDICT[i] { FirstOfReply(cut, data, crc, i); }
      hide Ascii;
      assert text[0..0 + |VERDICT|] == VERDICT;
      assert ContainsAt(text, VERDICT, 0);
    }
    if i: nat :| ContainsAt(text, VERDICT, i) {
      hide Ascii;
      WordStartsReply(cut, data, crc, text, i);
    }
  }

  /** Where the word occurs, the reply starts, and says that the checksums agree. */
  lemma WordStartsReply(cut: Cut, data: seq<byte>, crc: byte, text: seq<byte>, i: nat)
    requires cut.Valid() && text <= Reply(cut, data, crc) && ContainsAt(text, VERDICT, i)
    requires |VERDICT| == 12 && VERDICT[0] == 78 && VERDICT[11] == 83
    ensures i == 0 && cut.head >= 12 && |text| >= 12 && Checksum(data) == crc
  {
    hide Reply, Checksum, ReplyText, Ascii;
    var r, found := Reply(cut, data, crc), text[i..i + 12];
    assert r[i] == found[0] == VERDICT[0];
    assert r[i + 11] == found[11] == VERDICT[11];
    assert r[i + 8] == found[8] == VERDICT[8];
    if i < cut.head { FirstOfReply(cut, data, crc, i); } else { RestOfReply(cut, data, crc, i); }
    if cut.head <= i + 11 { RestOfReply(cut, data, crc, i + 11); }
    FirstOfReply(cut, data, crc, 8);
  }

  /** A reply that got out whole says how many bytes were expected and both checksums. */
  lemma ReplyReadsBack(cut: Cut, data: seq<byte>, crc: byte)
    requires cut.Valid() && cut.Full(5)
    ensures var r := Reply(cut, data, crc);
      && |r| == 44 && r[..32] == ReplyText(Checksum(data) == crc) && r[42..] == Ascii("\r\n")
      && DecimalValue(r[19..24]) == COUNT
      && 16 * HexValue(r[32]) + HexValue(r[33]) == Checksum(data)
      && r[34..40] == Ascii(" pc=0x") && 16 * HexValue(r[40]) + HexValue(r[41]) == crc
  {
    assert |Hex(Checksum(data))| == 2 == |Hex(crc)|;
    hide Ascii, ReplyText, Checksum, Hex, HexValue;
    HexReadsBack(Checksum(data));
    HexReadsBack(crc);
    assert cut.Of(0) == 32 && cut.Of(1) == 2 && cut.Of(2) == 6 && cut.Of(3) == 2 && cut.Of(4) == 2;
    FiveWhole(ReplyText(Checksum(data) == crc), Hex(Checksum(data)), Ascii(" pc=0x"), Hex(crc), Ascii("\r\n"));
    ReplyNamesCount(Checksum(data) == crc);
    hide Reply, DecimalValue;
    assert Reply(cut, data, crc)[19..24] == Reply(cut, data, crc)[..32][19..24];
  }

  lemma FiveWhole(a: seq<byte>, b: seq<byte>, c: seq<byte>, d: seq<byte>, e: seq<byte>)
    requires |a| == 32 && |b| == 2 && |c| == 6 && |d| == 2 && |e| == 2
    ensures var r := a[..32] + b[..2] + c[..6] + d[..2] + e[..2];
      && |r| == 44 && r[..32] == a && r[32] == b[0] && r[33] == b[1] && r[34..40] == c
      && r[40] == d[0] && r[41] == d[1] && r[42..] == e
  {
  }

  /** How much of its reply the Nios has written. */
  ghost function CutOf(n: Nios): Cut {
    if n.Replying? || n.NiosDone? then n.cut else NOTHING
  }

  /** What the PC has read after the packet is a prefix of the reply written so far. */
  lemma TextIsReply(x: Setup, s: System)
    requires x.Valid() && Inv(x, s) && (s.pc.AwaitResult? || s.pc.PcDone?)
    ensures CutOf(s.nios).Valid()
    ensures s.pc.text <= Reply(CutOf(s.nios), x.pcPayload, Checksum(x.pcPayload))
    ensures s.pc.text != [] ==> s.nios.Replying? || s.nios.NiosDone?
  {
    hide Checksum, Packet, Contains, StartBytes, Piece;
    PacketLengths(x);
    NothingIsUpTo();
  }

  /**
   * Every run in which the PC ends: it has the Nios payload; the verdict is PASS exactly when the
   * word got out and was read; and then the Nios has the PC payload.
   */
  lemma PcVerdictIsRight(x: Setup, s: System)
    requires x.Valid() && Reachable(x, s) && s.pc.PcDone?
    ensures s.pc.data == x.niosPayload
    ensures s.pc.pass <==> CutOf(s.nios).head >= 12 && |s.pc.text| >= 12
    ensures s.pc.pass ==> (s.nios.Replying? || s.nios.NiosDone?) && s.nios.data == x.pcPayload
  {
    hide Run, Checksum, Reply, Contains, Packet, StartBytes;
    ReachableOk(x, s);
    TextIsReply(x, s);
    VerdictIs(CutOf(s.nios), x.pcPayload, Checksum(x.pcPayload), s.pc.text);
  }

  /**
   * A time-out ends the PC in every state, with a verdict only if it was waiting for the reply, and
   * then on what it has read of it.
   */
  lemma TimeOutEnds(x: Setup, s: System)
    requires x.Valid() && Reachable(x, s) && !s.pc.PcDone? && !s.pc.PcTimedOut?
    ensures var t := Next(x, s, PcTimesOut);
      && t == s.(pc := t.pc)
      && (!s.pc.AwaitResult? ==> t.pc.PcTimedOut?)
      && (s.pc.AwaitResult? ==>
            && t.pc.PcDone? && t.pc.data == x.niosPayload && t.pc.text == s.pc.text
            && (t.pc.pass <==> CutOf(s.nios).head >= 12 && |s.pc.text| >= 12))
  {
    hide Run, Checksum, Reply, Contains, Packet, StartBytes;
    ReachableOk(x, s);
    if s.pc.AwaitResult? {
      TextIsReply(x, s);
      VerdictIs(CutOf(s.nios), x.pcPayload, Checksum(x.pcPayload), s.pc.text);
    }
  }

  /**
   * A packet with one byte of its payload changed passes on neither side: the PC's verdict is no
   * pass whatever it reads afterwards, and the Nios ends with a failure.
   */
  lemma CorruptedFails(packet: seq<byte>, data: seq<byte>, i: nat, b: byte, text: seq<byte>, cut: Cut)
    requires i < |data| && data[i] != b
    ensures !PcVerdict(data[i := b], Checksum(data), text)
    ensures var n := Advance(packet, Replying(data[i := b], Checksum(data), cut, 5)); n.NiosDone? && !n.pass
  {
    ChangeIsCaught(data, i, b);
    hide Checksum, Contains;
  }

  /** The newline is the last byte of a reply whose last piece got out. */
  lemma NewlineEnds(cut: Cut, data: seq<byte>, text: seq<byte>)
    requires cut.Valid() && text <= Reply(cut, data, Checksum(data))
    ensures NEWLINE in text <==> cut.tail == 2 && text == Reply(cut, data, Checksum(data))
  {
    hide Checksum;
    var crc := Checksum(data);
    var e := Piece(data, crc, 4)[..cut.tail];
    var front := Piece(data, crc, 0)[..cut.head] + Piece(data, crc, 1)[..cut.computed]
                 + Piece(data, crc, 2)[..cut.middle] + Piece(data, crc, 3)[..cut.received];
    var whole := Reply(cut, data, crc);
    assert whole == front + e;
    FrontHasNone(cut, data, crc);
    assert e == Ascii("\r\n")[..cut.tail];
    if cut.tail == 2 { assert whole[|whole| - 1] == e[1] == NEWLINE; }
  }

  lemma FrontHasNone(cut: Cut, data: seq<byte>, crc: byte)
    requires cut.Valid()
    ensures NEWLINE !in Piece(data, crc, 0)[..cut.head] + Piece(data, crc, 1)[..cut.computed]
                        + Piece(data, crc, 2)[..cut.middle] + Piece(data, crc, 3)[..cut.received]
  {
    hide Checksum;
    assert NEWLINE !in Piece(data, crc, 0);
    assert NEWLINE !in Piece(data, crc, 1);
    assert NEWLINE !in Piece(data, crc, 2);
    assert NEWLINE !in Piece(data, crc, 3);
  }

  /**
   * Every run in which both sides end, with any number of retries, any depths and any interleaving:
   * both payloads arrived and the Nios passes; the PC passes unless its deadline cut the text
   * short or the reply was not written; in particular if it read on to the newline of a whole reply.
   */
  lemma ExchangeIsCorrect(x: Setup, s: System)
    requires x.Valid() && Reachable(x, s) && s.nios.NiosDone? && s.pc.PcDone?
    ensures s.nios.data == x.pcPayload && s.pc.data == x.niosPayload && s.nios.pass
    ensures s.pc.pass <==> s.nios.cut.head >= 12 && |s.pc.text| >= 12
    ensures s.nios.cut.Full(5) && NEWLINE in s.pc.text ==> s.pc.pass
  {
    hide Run, Checksum, Reply, Contains, PipesOk, Packet;
    ReachableOk(x, s);
    PcVerdictIsRight(x, s);
    if s.nios.cut.Full(5) && NEWLINE in s.pc.text {
      TextIsReply(x, s);
      NewlineEnds(s.nios.cut, x.pcPayload, s.pc.text);
      ReplyLength(s.nios.cut, x.pcPayload, Checksum(x.pcPayload));
      assert s.nios.cut.Of(0) == Length(0);
    }
  }
}
