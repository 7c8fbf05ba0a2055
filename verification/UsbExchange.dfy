// The two-party USB test: the Nios program and the PC script exchange one checked packet in each
// direction over two lossless byte pipes of any positive depth. Their steps interleave in any
// order; a write waits while its pipe is full, a read while its pipe is empty.
module UsbExchange {
  import opened Words
  import opened HeaderMatch
  import opened UsbFormat

  // ----- the Nios program, between two accesses to its USB controller

  datatype Nios =
    | AwaitStart(matched: nat)
    | Sending(sent: nat)
    | AwaitPacket(matched: nat)
    | Receiving(data: seq<byte>)
    | Replying(data: seq<byte>, crc: byte, cut: Cut, piece: nat)
    | NiosDone(data: seq<byte>, crc: byte, cut: Cut, pass: bool)
    | NiosFailed(sent: nat)

  predicate Reads(n: Nios) { n.AwaitStart? || n.AwaitPacket? || n.Receiving? }

  /** A byte read. */
  ghost function TakeByte(n: Nios, c: byte): Nios {
    match n
    case AwaitStart(m) =>
      if m >= |START| then n
      else
        var m' := Step(START, m, c);
        if m' == |START| then Sending(0) else AwaitStart(m')
    case AwaitPacket(m) =>
      if m >= |PC2NIOS| then n
      else
        var m' := Step(PC2NIOS, m, c);
        if m' == |PC2NIOS| then Receiving([]) else AwaitPacket(m')
    case Receiving(data) =>
      if |data| < COUNT then Receiving(data + [c]) else Replying(data, c, NOTHING, 0)
    case _ => n
  }

  /** The byte to be written next, if the packet or the piece of the reply is not yet out. */
  ghost function NextByte(packet: seq<byte>, n: Nios): Option<byte> {
    match n
    case Sending(k) => if k < |packet| then Some(packet[k]) else None
    case Replying(data, crc, cut, piece) =>
      if piece < 5 && cut.Of(piece) < Length(piece) then Some(Piece(data, crc, piece)[cut.Of(piece)]) else None
    case _ => None
  }

  /** That byte was written, or there was none and the program moves on. */
  ghost function Advance(packet: seq<byte>, n: Nios): Nios {
    match n
    case Sending(k) => if k < |packet| then Sending(k + 1) else AwaitPacket(0)
    case Replying(data, crc, cut, piece) =>
      if piece >= 5 then NiosDone(data, crc, cut, Checksum(data) == crc)
      else if cut.Of(piece) < Length(piece) then Replying(data, crc, cut.Plus(piece), piece)
      else Replying(data, crc, cut, piece + 1)
    case _ => n
  }

  /** Only the header, the checksum and the reply go through the write that can give up. */
  ghost predicate CanGiveUp(n: Nios) {
    || (n.Sending? && (n.sent < |NIOS2PC| || n.sent == |NIOS2PC| + COUNT))
    || (n.Replying? && n.piece < 5 && n.cut.Of(n.piece) < Length(n.piece))
  }

  /** The write gave up: the end of the packet's program, but only of a piece of the reply. */
  ghost function GiveUp(n: Nios): Nios {
    if !CanGiveUp(n) then n
    else if n.Sending? then NiosFailed(n.sent)
    else n.(piece := n.piece + 1)
  }

  // ----- the whole system

  /** What one run of the test is about: the two payloads and the depths of the pipes. */
  datatype Setup = Setup(niosPayload: seq<byte>, pcPayload: seq<byte>, toNiosDepth: nat, toPcDepth: nat) {
    ghost predicate Valid() {
      |niosPayload| == COUNT && |pcPayload| == COUNT && toNiosDepth > 0 && toPcDepth > 0
    }

    function NiosPacket(): seq<byte> { Packet(NIOS2PC, niosPayload) }

    function PcPacket(): seq<byte> { Packet(PC2NIOS, pcPayload) }
  }

  /** A lossless pipe: every byte ever sent, and how many of them the receiver has taken. */
  datatype Pipe = Pipe(sent: seq<byte>, taken: nat) {
    ghost predicate Valid(depth: nat) {
      taken <= |sent| <= taken + depth
    }

    function Waiting(): int { |sent| - taken }

    function Send(data: seq<byte>): Pipe { Pipe(sent + data, taken) }

    function Take(k: nat): Pipe { Pipe(sent, taken + k) }
  }

  /** The PC looks for the Nios header, and now and then is in the middle of writing a START. */
  datatype Pc =
    | Seeking(matched: nat)
    | Starting(matched: nat)
    | ReadingPayload(data: seq<byte>)
    | ReadingCrc(data: seq<byte>)
    | Writing(data: seq<byte>, crc: byte, sent: nat)
    | AwaitResult(data: seq<byte>, crc: byte, text: seq<byte>)
    | PcDone(data: seq<byte>, pass: bool, text: seq<byte>)
    | PcTimedOut(sent: nat)

  /** `lead` counts the bytes of all START headers written so far. */
  datatype System = System(nios: Nios, pc: Pc, toNios: Pipe, toPc: Pipe, lead: nat)

  datatype Action =
    | NiosStep
    | NiosGivesUp
    | PcRetry
    | PcRead(most: nat)
    | PcWrite(most: nat)
    | PcTimesOut

  /** The PC's overall verdict. */
  ghost predicate PcVerdict(data: seq<byte>, crc: byte, text: seq<byte>) {
    crc == Checksum(data) && Contains(text, VERDICT)
  }

  ghost function Initial(): System {
    System(AwaitStart(0), Seeking(0), Pipe([], 0), Pipe([], 0), 0)
  }

  function Min(a: nat, b: nat): nat {
    if a < b then a else b
  }

  ghost function NiosAccess(x: Setup, s: System): System {
    if Reads(s.nios) then
      if s.toNios.taken < |s.toNios.sent|
      then s.(nios := TakeByte(s.nios, s.toNios.sent[s.toNios.taken]), toNios := s.toNios.Take(1)) else s
    else
      match NextByte(x.NiosPacket(), s.nios)
      case None => s.(nios := Advance(x.NiosPacket(), s.nios))
      case Some(b) =>
        if s.toPc.Waiting() < x.toPcDepth
        then s.(nios := Advance(x.NiosPacket(), s.nios), toPc := s.toPc.Send([b])) else s
  }

  ghost function PcTakes(s: System, k: nat): System
    requires k <= s.toPc.Waiting()
  {
    var chunk := s.toPc.sent[s.toPc.taken..s.toPc.taken + k];
    var s' := s.(toPc := s.toPc.Take(k));
    match s.pc
    case ReadingPayload(data) =>
      if |data| + k < COUNT then s'.(pc := ReadingPayload(data + chunk))
      else s'.(pc := ReadingCrc(data + chunk))
    case AwaitResult(data, crc, text) =>
      if NEWLINE in text + chunk
      then s'.(pc := PcDone(data, PcVerdict(data, crc, text + chunk), text + chunk))
      else s'.(pc := AwaitResult(data, crc, text + chunk))
    case _ => s
  }

  ghost function PcTakesOne(s: System, c: byte): System {
    var s' := s.(toPc := s.toPc.Take(1));
    match s.pc
    case Seeking(m) =>
      if m >= |NIOS2PC| then s
      else
        var m' := Step(NIOS2PC, m, c);
        s'.(pc := if m' == |NIOS2PC| then ReadingPayload([]) else Seeking(m'))
    case ReadingCrc(data) => s'.(pc := Writing(data, c, 0))
    case _ => s
  }

  ghost function PcReads(s: System, most: nat): System {
    if s.toPc.Waiting() <= 0 then s
    else if s.pc.Seeking? || s.pc.ReadingCrc? then PcTakesOne(s, s.toPc.sent[s.toPc.taken])
    else if s.pc.ReadingPayload? && |s.pc.data| <= COUNT
    then PcTakes(s, Min(Min(most, s.toPc.Waiting()), COUNT - |s.pc.data|))
    else PcTakes(s, Min(most, s.toPc.Waiting()))
  }

  /** A write in progress gets as many bytes into the pipe as fit and the system chooses to move. */
  ghost function PcWrites(x: Setup, s: System, most: nat): System {
    var room := if s.toNios.Waiting() < x.toNiosDepth then x.toNiosDepth - s.toNios.Waiting() else 0;
    match s.pc
    case Starting(m) =>
      if room == 0 || |START| != 6 then s
      else
        s.(toNios := s.toNios.Send([START[s.lead % 6]]), lead := s.lead + 1,
           pc := if s.lead % 6 == 5 then Seeking(m) else s.pc)
    case Writing(data, crc, n) =>
      if n >= |x.PcPacket()| then s.(pc := AwaitResult(data, crc, []))
      else
        var k := Min(Min(most, room), |x.PcPacket()| - n);
        s.(pc := s.pc.(sent := n + k), toNios := s.toNios.Send(x.PcPacket()[n..n + k]))
    case _ => s
  }

  ghost function PcStops(s: System): System {
    match s.pc
    case Writing(_, _, n) => s.(pc := PcTimedOut(n))
    case AwaitResult(data, crc, text) => s.(pc := PcDone(data, PcVerdict(data, crc, text), text))
    case PcDone(_, _, _) => s
    case PcTimedOut(_) => s
    case _ => s.(pc := PcTimedOut(0))
  }

  /** One step of the system; an action that is not enabled changes nothing. */
  ghost function Next(x: Setup, s: System, a: Action): System {
    match a
    case NiosStep => NiosAccess(x, s)
    case NiosGivesUp => s.(nios := GiveUp(s.nios))
    case PcRetry => if s.pc.Seeking? then s.(pc := Starting(s.pc.matched)) else s
    case PcRead(most) => PcReads(s, most)
    case PcWrite(most) => PcWrites(x, s, most)
    case PcTimesOut => PcStops(s)
  }

  // ----- what every run keeps

  /** The first `n` bytes of the START headers. */
  function StartBytes(n: nat): (r: seq<byte>)
    ensures |r| == n
  {
    if n == 0 then [] else Headers(); StartBytes(n - 1) + [START[(n - 1) % 6]]
  }

  /** Everything the Nios has written so far. */
  ghost function NiosOut(x: Setup, n: Nios): seq<byte> {
    match n
    case AwaitStart(_) => []
    case Sending(k) => if k <= |x.NiosPacket()| then x.NiosPacket()[..k] else []
    case NiosFailed(k) => if k <= |x.NiosPacket()| then x.NiosPacket()[..k] else []
    case AwaitPacket(_) => x.NiosPacket()
    case Receiving(_) => x.NiosPacket()
    case Replying(data, crc, cut, _) => x.NiosPacket() + if cut.Valid() then Reply(cut, data, crc) else []
    case NiosDone(data, crc, cut, _) => x.NiosPacket() + if cut.Valid() then Reply(cut, data, crc) else []
  }

  /** How much of its packet the PC has written so far. */
  ghost function PcOut(x: Setup, p: Pc): nat {
    match p
    case Writing(_, _, k) => k
    case PcTimedOut(k) => k
    case AwaitResult(_, _, _) => |x.PcPacket()|
    case PcDone(_, _, _) => |x.PcPacket()|
    case _ => 0
  }

  ghost predicate PipesOk(x: Setup, s: System) {
    && s.toNios.Valid(x.toNiosDepth) && s.toPc.Valid(x.toPcDepth)
    && s.toPc.sent == NiosOut(x, s.nios)
    && PcOut(x, s.pc) <= |x.PcPacket()|
    && s.toNios.sent == StartBytes(s.lead) + x.PcPacket()[..PcOut(x, s.pc)]
    && (s.lead % 6 == 0 || s.pc.Starting? || s.pc.PcTimedOut?)
  }

  ghost predicate NiosOk(x: Setup, s: System) {
    var got, lead := s.toNios.taken, s.lead;
    match s.nios
    case AwaitStart(m) => m < 6 && got == m
    case Sending(k) => got == 6 <= lead && k <= |x.NiosPacket()|
    case NiosFailed(k) => got == 6 <= lead && k <= |x.NiosPacket()|
    case AwaitPacket(m) => 6 <= got && 6 <= lead && m < 8 && m == if got <= lead then 0 else got - lead
    case Receiving(data) =>
      && |data| <= COUNT && |data| <= |x.pcPayload| && data == x.pcPayload[..|data|]
      && got == lead + 8 + |data|
    case Replying(data, crc, cut, piece) =>
      && data == x.pcPayload && crc == Checksum(data) && got == lead + |x.PcPacket()|
      && cut.Valid() && piece <= 5 && cut.UpTo(piece)
    case NiosDone(data, crc, cut, pass) =>
      && data == x.pcPayload && crc == Checksum(data) && got == lead + |x.PcPacket()|
      && cut.Valid() && pass
  }

  /** What the PC has read after the packet is what has arrived of the reply. */
  ghost predicate TextOk(x: Setup, s: System, text: seq<byte>) {
    var n := |x.NiosPacket()|;
    && s.toPc.taken == n + |text| <= |s.toPc.sent| && text == s.toPc.sent[n..n + |text|]
  }

  ghost predicate PcOk(x: Setup, s: System) {
    var got := s.toPc.taken;
    match s.pc
    case Seeking(m) => m < 8 && got == m
    case Starting(m) => m < 8 && got == m
    case ReadingPayload(data) =>
      |data| < COUNT && |data| <= |x.niosPayload| && data == x.niosPayload[..|data|] && got == 8 + |data|
    case ReadingCrc(data) => data == x.niosPayload && got == 8 + COUNT
    case Writing(data, crc, _) =>
      data == x.niosPayload && crc == Checksum(data) && got == |x.NiosPacket()|
    case AwaitResult(data, crc, text) =>
      data == x.niosPayload && crc == Checksum(data) && TextOk(x, s, text) && NEWLINE !in text
    case PcDone(data, pass, text) =>
      data == x.niosPayload && TextOk(x, s, text) && (pass <==> Contains(text, VERDICT))
    case PcTimedOut(k) => k > 0 ==> got == |x.NiosPacket()|
  }

  ghost predicate Inv(x: Setup, s: System) {
    PipesOk(x, s) && NiosOk(x, s) && PcOk(x, s)
  }

  lemma {:induction false} StartBytesAt(n: nat, i: nat)
    requires i < n && |START| == 6
    ensures StartBytes(n)[i] == START[i % 6]
  {
    if i < n - 1 { StartBytesAt(n - 1, i); }
  }

  lemma PacketLengths(x: Setup)
    requires x.Valid()
    ensures |x.NiosPacket()| == 9 + COUNT == |x.PcPacket()|
    ensures |START| == 6 && |NIOS2PC| == 8 && |PC2NIOS| == 8
  {
    hide Ascii, Checksum;
    Headers();
  }

  /** The next byte for the Nios is a START byte or a byte of the PC's packet. */
  lemma NextForNios(x: Setup, s: System)
    requires x.Valid() && PipesOk(x, s) && s.toNios.taken < |s.toNios.sent|
    ensures |START| == 6 && |PC2NIOS| == 8
    ensures s.toNios.taken < s.lead ==> s.toNios.sent[s.toNios.taken] == START[s.toNios.taken % 6]
    ensures s.toNios.taken >= s.lead ==>
      var i := s.toNios.taken - s.lead;
      && i < PcOut(x, s.pc) <= 9 + COUNT
      && s.toNios.sent[s.toNios.taken] ==
         if i < 8 then PC2NIOS[i] else if i < 8 + COUNT then x.pcPayload[i - 8] else Checksum(x.pcPayload)
  {
    hide Ascii, Checksum, Packet, NiosOut, StartBytes;
    PacketLengths(x);
    if s.toNios.taken < s.lead { StartBytesAt(s.lead, s.toNios.taken); }
    else { PacketAt(PC2NIOS, x.pcPayload, s.toNios.taken - s.lead); }
  }

  lemma TakeOk(x: Setup, s: System)
    requires x.Valid() && Inv(x, s) && Reads(s.nios) && s.toNios.taken < |s.toNios.sent|
    ensures NiosOk(x, NiosAccess(x, s))
  {
    hide Ascii, Checksum, Reply, StartBytes, Packet, PipesOk, PcOk;
    Headers();
    PacketLengths(x);
    assert PipesOk(x, s);
    NextForNios(x, s);
    NothingIsUpTo();
    if s.nios.AwaitStart? { BeforeStart(x, s); }
    if s.nios.Receiving? {
      var data := s.nios.data;
      if |data| < COUNT { Extend(x.pcPayload, |data|); } else { assert x.pcPayload[..COUNT] == x.pcPayload; }
    }
  }

  lemma NothingIsUpTo()
    ensures NOTHING.Valid() && NOTHING.UpTo(0) && NOTHING.Full(0)
  {
  }

  /** Before the first START is complete the PC has not written its packet. */
  lemma BeforeStart(x: Setup, s: System)
    requires x.Valid() && Inv(x, s) && s.nios.AwaitStart?
    ensures PcOut(x, s.pc) == 0 && s.toPc.sent == [] && s.toPc.taken == 0
  {
    hide Ascii, Checksum, Packet, StartBytes;
    PacketLengths(x);
  }

  lemma Extend(s: seq<byte>, k: nat)
    requires k < |s|
    ensures s[..k] + [s[k]] == s[..k + 1]
  {
  }

  lemma ExtendMany(s: seq<byte>, k: nat, n: nat)
    requires k + n <= |s|
    ensures s[..k] + s[k..k + n] == s[..k + n]
  {
  }

  lemma Regroup(a: seq<byte>, b: seq<byte>, c: seq<byte>)
    ensures (a + b) + c == a + (b + c)
  {
  }

  /** The PC's half of the invariant only needs what has been sent to it to grow. */
  lemma PcOkGrows(x: Setup, s: System, s': System)
    requires PcOk(x, s) && s.toPc.Valid(x.toPcDepth)
    requires s'.pc == s.pc && s'.toPc.taken == s.toPc.taken && s.toPc.sent <= s'.toPc.sent
    ensures PcOk(x, s')
  {
    hide Packet, Checksum, Contains;
  }

  lemma TakeKeeps(x: Setup, s: System)
    requires x.Valid() && Inv(x, s) && Reads(s.nios)
    ensures Inv(x, NiosAccess(x, s))
  {
    hide Ascii, Checksum, StartBytes, Packet, NiosOk, Piece;
    if s.toNios.taken < |s.toNios.sent| {
      TakeOk(x, s);
      Headers();
      var s' := NiosAccess(x, s);
      PcOkGrows(x, s, s');
      SameOut(x, s);
    }
  }

  /** Reading writes nothing. */
  lemma SameOut(x: Setup, s: System)
    requires x.Valid() && NiosOk(x, s) && Reads(s.nios) && s.toNios.taken < |s.toNios.sent|
    ensures NiosOut(x, TakeByte(s.nios, s.toNios.sent[s.toNios.taken])) == NiosOut(x, s.nios)
  {
    hide Ascii, Checksum, StartBytes, Packet, Reply;
    Headers();
    var c := s.toNios.sent[s.toNios.taken];
    match s.nios
    case Receiving(data) =>
      NothingIsUpTo();
      NoReply(data, c);
      assert x.NiosPacket() + [] == x.NiosPacket();
    case _ =>
  }

  /** What a write adds to the Nios output, and that the Nios half of the invariant is kept. */
  lemma AdvanceOut(x: Setup, s: System)
    requires x.Valid() && NiosOk(x, s) && !Reads(s.nios)
    ensures var n' := Advance(x.NiosPacket(), s.nios);
      && NiosOk(x, s.(nios := n'))
      && NiosOut(x, n') == match NextByte(x.NiosPacket(), s.nios)
                           case None => NiosOut(x, s.nios)
                           case Some(b) => NiosOut(x, s.nios) + [b]
  {
    hide Ascii, Checksum, Reply, Packet, Piece;
    match s.nios
    case Sending(n) =>
      if n < |x.NiosPacket()| { Extend(x.NiosPacket(), n); }
      else { assert x.NiosPacket()[..n] == x.NiosPacket(); }
    case Replying(data, crc, cut, piece) =>
      if piece < 5 && cut.Of(piece) < Length(piece) {
        ReplyGrows(cut, data, crc, piece);
        Regroup(x.NiosPacket(), Reply(cut, data, crc), [Piece(data, crc, piece)[cut.Of(piece)]]);
      } else if piece < 5 {
        UpToNext(cut, piece);
      }
    case _ =>
  }

  lemma UpToNext(cut: Cut, piece: nat)
    requires piece < 5 && cut.UpTo(piece)
    ensures cut.UpTo(piece + 1)
  {
  }

  lemma SendKeeps(x: Setup, s: System)
    requires x.Valid() && Inv(x, s) && !Reads(s.nios)
    ensures Inv(x, NiosAccess(x, s))
  {
    hide Ascii, Checksum, Reply, StartBytes, Packet, NiosOut, Advance, NextByte, NiosOk, PcOk;
    AdvanceOut(x, s);
    var s' := NiosAccess(x, s);
    if s'.nios == Advance(x.NiosPacket(), s.nios) { NiosOkLocal(x, s.(nios := s'.nios), s'); }
    PcOkGrows(x, s, s');
  }

  lemma NiosOkLocal(x: Setup, s: System, s': System)
    requires NiosOk(x, s) && s'.nios == s.nios && s'.toNios == s.toNios && s'.lead == s.lead
    ensures NiosOk(x, s')
  {
  }

  lemma GiveUpKeeps(x: Setup, s: System)
    requires x.Valid() && Inv(x, s)
    ensures Inv(x, Next(x, s, NiosGivesUp))
  {
    hide Ascii, Checksum, Reply, StartBytes, Packet;
    if s.nios.Replying? && s.nios.piece < 5 { UpToNext(s.nios.cut, s.nios.piece); }
    PcOkGrows(x, s, Next(x, s, NiosGivesUp));
  }

  // ----- the PC's steps

  /** The Nios output starts with its packet. */
  lemma OutAt(x: Setup, s: System, i: nat)
    requires x.Valid() && NiosOk(x, s) && i < |NiosOut(x, s.nios)| && i < 9 + COUNT
    ensures |NIOS2PC| == 8
    ensures NiosOut(x, s.nios)[i] ==
      if i < 8 then NIOS2PC[i] else if i < 8 + COUNT then x.niosPayload[i - 8] else Checksum(x.niosPayload)
  {
    hide Ascii, Checksum, Reply, Packet;
    PacketLengths(x);
    PacketAt(NIOS2PC, x.niosPayload, i);
  }

  lemma PcTakesOneOk(x: Setup, s: System)
    requires x.Valid() && Inv(x, s) && s.toPc.Waiting() > 0
    ensures PcOk(x, PcTakesOne(s, s.toPc.sent[s.toPc.taken]))
  {
    hide Ascii, Checksum, StartBytes, Packet, NiosOut, NiosOk, Contains;
    PacketLengths(x);
    if s.toPc.taken < 9 + COUNT { OutAt(x, s, s.toPc.taken); }
    assert x.niosPayload[..0] == [];
  }

  lemma PcTakesOneKeeps(x: Setup, s: System)
    requires x.Valid() && Inv(x, s) && s.toPc.Waiting() > 0
    ensures Inv(x, PcTakesOne(s, s.toPc.sent[s.toPc.taken]))
  {
    hide Ascii, Checksum, StartBytes, Packet, NiosOut, PcOk, NiosOk;
    PacketLengths(x);
    PcTakesOneOk(x, s);
    var s' := PcTakesOne(s, s.toPc.sent[s.toPc.taken]);
    NiosOkLocal(x, s, s');
  }

  lemma PayloadChunk(x: Setup, s: System, k: nat)
    requires x.Valid() && Inv(x, s) && s.pc.ReadingPayload? && k <= s.toPc.Waiting() && |s.pc.data| + k <= COUNT
    ensures PcOk(x, PcTakes(s, k))
  {
    hide Ascii, Checksum, StartBytes, Packet, NiosOut, NiosOk;
    PacketLengths(x);
    var data, got := s.pc.data, s.toPc.taken;
    forall i | got <= i < got + k ensures s.toPc.sent[i] == x.niosPayload[i - 8] { OutAt(x, s, i); }
    assert s.toPc.sent[got..got + k] == x.niosPayload[|data|..|data| + k];
    ExtendMany(x.niosPayload, |data|, k);
    assert x.niosPayload[..COUNT] == x.niosPayload;
  }

  lemma ResultChunk(x: Setup, s: System, k: nat)
    requires x.Valid() && Inv(x, s) && s.pc.AwaitResult? && k <= s.toPc.Waiting()
    ensures PcOk(x, PcTakes(s, k))
  {
    hide Ascii, Checksum, StartBytes, Packet, NiosOut, NiosOk, Contains;
    var n, text := |x.NiosPacket()|, s.pc.text;
    assert s.toPc.sent[n..n + |text| + k] == text + s.toPc.sent[n + |text|..n + |text| + k];
  }

  lemma PcTakesKeeps(x: Setup, s: System, k: nat)
    requires x.Valid() && Inv(x, s) && k <= s.toPc.Waiting()
    requires s.pc.ReadingPayload? ==> |s.pc.data| + k <= COUNT
    ensures Inv(x, PcTakes(s, k))
  {
    hide Ascii, Checksum, StartBytes, Packet, NiosOut, NiosOk, PcOk, PcVerdict;
    var s' := PcTakes(s, k);
    match s.pc {
      case ReadingPayload(_) => PayloadChunk(x, s, k);
      case AwaitResult(_, _, _) => ResultChunk(x, s, k);
      case _ => assert s' == s;
    }
    NiosOkLocal(x, s, s');
  }

  lemma ReadKeeps(x: Setup, s: System, most: nat)
    requires x.Valid() && Inv(x, s)
    ensures Inv(x, PcReads(s, most))
  {
    hide Ascii, Checksum, StartBytes, Packet, NiosOut, NiosOk, PipesOk, PcTakes, PcTakesOne;
    if s.toPc.Waiting() > 0 {
      if s.pc.Seeking? || s.pc.ReadingCrc? {
        PcTakesOneKeeps(x, s);
      } else if s.pc.ReadingPayload? && |s.pc.data| <= COUNT {
        PcTakesKeeps(x, s, Min(Min(most, s.toPc.Waiting()), COUNT - |s.pc.data|));
      } else {
        PcTakesKeeps(x, s, Min(most, s.toPc.Waiting()));
      }
    }
  }

  /** One more START byte, while the Nios has not read beyond those sent. */
  lemma NiosOkWithLead(x: Setup, s: System, s': System)
    requires x.Valid() && NiosOk(x, s) && s.toNios.taken <= s.lead
    requires s'.nios == s.nios && s'.toNios.taken == s.toNios.taken && s'.lead == s.lead + 1
    ensures NiosOk(x, s')
  {
    hide Ascii, Checksum, Packet, Reply;
    PacketLengths(x);
  }

  lemma StartByteSent(n: nat, packet: seq<byte>)
    ensures |START| == 6
    ensures StartBytes(n) + packet[..0] + [START[n % 6]] == StartBytes(n + 1) + packet[..0]
    ensures StartBytes(n) + packet[..0] == StartBytes(n)
  {
    hide Ascii;
    Headers();
    assert packet[..0] == [];
  }

  lemma StartByteKeeps(x: Setup, s: System, most: nat)
    requires x.Valid() && Inv(x, s) && s.pc.Starting?
    ensures Inv(x, PcWrites(x, s, most))
  {
    hide Ascii, Checksum, Packet, NiosOut, Reply, StartBytes, NiosOk;
    StartByteSent(s.lead, x.PcPacket());
    var s' := PcWrites(x, s, most);
    if s'.lead == s.lead + 1 { NiosOkWithLead(x, s, s'); }
  }

  lemma PacketWriteKeeps(x: Setup, s: System, most: nat)
    requires x.Valid() && Inv(x, s) && s.pc.Writing?
    ensures Inv(x, PcWrites(x, s, most))
  {
    hide Ascii, Checksum, Packet, NiosOut, Reply, StartBytes, NiosOk;
    var s' := PcWrites(x, s, most);
    var n := s.pc.sent;
    if n < |x.PcPacket()| {
      var room := if s.toNios.Waiting() < x.toNiosDepth then x.toNiosDepth - s.toNios.Waiting() else 0;
      var k := Min(Min(most, room), |x.PcPacket()| - n);
      ExtendMany(x.PcPacket(), n, k);
      Regroup(StartBytes(s.lead), x.PcPacket()[..n], x.PcPacket()[n..n + k]);
    } else {
      var got := |x.NiosPacket()|;
      assert s.toPc.sent[got..got] == [];
    }
    NiosOkWhileWriting(x, s, s');
  }

  /** More bytes behind those already taken change nothing for the Nios. */
  lemma NiosOkWhileWriting(x: Setup, s: System, s': System)
    requires NiosOk(x, s) && s'.nios == s.nios && s'.toNios.taken == s.toNios.taken && s'.lead == s.lead
    ensures NiosOk(x, s')
  {
  }

  lemma RetryKeeps(x: Setup, s: System)
    requires x.Valid() && Inv(x, s)
    ensures Inv(x, Next(x, s, PcRetry))
  {
    hide Ascii, Checksum, Packet, NiosOut, StartBytes, Reply;
    NiosOkLocal(x, s, Next(x, s, PcRetry));
  }

  lemma StopKeeps(x: Setup, s: System)
    requires x.Valid() && Inv(x, s)
    ensures Inv(x, PcStops(s))
  {
    hide Ascii, Checksum, Packet, NiosOut, StartBytes, Reply, NiosOk, Contains;
    NiosOkLocal(x, s, PcStops(s));
  }

  lemma NextKeeps(x: Setup, s: System, a: Action)
    requires x.Valid() && Inv(x, s)
    ensures Inv(x, Next(x, s, a))
  {
    hide Inv, NiosAccess, PcReads, PcWrites, PcStops;
    match a
    case NiosStep => if Reads(s.nios) { TakeKeeps(x, s); } else { SendKeeps(x, s); }
    case NiosGivesUp => GiveUpKeeps(x, s);
    case PcRetry => RetryKeeps(x, s);
    case PcRead(most) => ReadKeeps(x, s, most);
    case PcWrite(most) =>
      if s.pc.Starting? { StartByteKeeps(x, s, most); }
      else if s.pc.Writing? { PacketWriteKeeps(x, s, most); }
      else { NoWrite(x, s, most); }
    case PcTimesOut => StopKeeps(x, s);
  }

  lemma NoWrite(x: Setup, s: System, most: nat)
    requires !s.pc.Starting? && !s.pc.Writing?
    ensures PcWrites(x, s, most) == s
  {
  }
}
