// When the exchange can still be completed: always, except for one circle of full pipes, in which
// the PC is inside a START that cannot fit and the Nios inside a packet that cannot fit.
module UsbProgress {
  import opened UsbFormat
  import opened UsbExchange
  import opened UsbTheorems

  /** Nobody has given up: every write went through and the PC's deadlines have not passed. */
  ghost predicate Going(s: System) {
    && !s.nios.NiosFailed? && !s.pc.PcTimedOut? && (s.pc.PcDone? ==> NEWLINE in s.pc.text)
    && ((s.nios.Replying? && s.nios.piece == 5) || s.nios.NiosDone? ==> s.nios.cut.tail == 2)
  }

  ghost predicate Finished(s: System) {
    s.nios.NiosDone? && s.pc.PcDone?
  }

  predicate GivesUp(a: Action) { a.NiosGivesUp? || a.PcTimesOut? }

  /**
   * The PC is writing a START that does not fit in its pipe together with the complete ones before
   * it, less the one that the Nios takes; and the Nios, which takes no more before its packet is
   * out, has a packet that does not fit in the other pipe with what the PC has taken.
   */
  ghost predicate Doomed(x: Setup, s: System) {
    && s.pc.Starting? && (s.nios.AwaitStart? || s.nios.Sending?)
    && x.toNiosDepth < s.lead - s.lead % 6
    && s.toPc.taken + x.toPcDepth < |x.NiosPacket()|
  }

  // ----- no way out

  lemma DoomedStays(x: Setup, s: System, a: Action)
    requires x.Valid() && Inv(x, s) && Doomed(x, s) && !GivesUp(a)
    ensures Doomed(x, Next(x, s, a))
  {
    hide Checksum, Ascii, Packet, StartBytes, Reply;
    PacketLengths(x);
    match a
    case NiosStep =>
    case PcWrite(most) => assert s.toNios.Waiting() == s.lead - s.toNios.taken by { PcHasNotWritten(x, s); }
    case _ =>
  }

  lemma PcHasNotWritten(x: Setup, s: System)
    requires x.Valid() && Inv(x, s) && s.pc.Starting?
    ensures |s.toNios.sent| == s.lead
  {
    hide Checksum, Ascii, Packet, StartBytes, Reply;
  }

  ghost predicate Quiet(actions: seq<Action>) {
    forall i :: 0 <= i < |actions| ==> !GivesUp(actions[i])
  }

  /** Once doomed, the exchange ends only by somebody's giving up. */
  lemma {:induction false} DoomedForEver(x: Setup, s: System, actions: seq<Action>)
    requires x.Valid() && Inv(x, s) && Doomed(x, s) && Quiet(actions)
    ensures Doomed(x, Run(x, s, actions)) && !Finished(Run(x, s, actions))
    decreases |actions|
  {
    hide Inv, Next, GivesUp;
    if actions != [] {
      assert !GivesUp(actions[0]);
      DoomedStays(x, s, actions[0]);
      NextKeeps(x, s, actions[0]);
      assert forall i :: 0 <= i < |actions[1..]| ==> actions[1..][i] == actions[i + 1];
      DoomedForEver(x, Next(x, s, actions[0]), actions[1..]);
    }
  }

  // ----- otherwise

  /** Work still to be done, in units that every productive step uses up. */
  ghost function Rank(x: Setup, s: System): int {
    StartWork(s) + NiosWork(x, s) + PcWork(x, s)
  }

  /** START bytes to be written; each of them is then one more for the Nios to take. */
  ghost function StartWork(s: System): int {
    if s.pc.Starting? then 12 - 2 * (s.lead % 6) else if s.pc.Seeking? && s.lead == 0 then 14 else 0
  }

  ghost function NiosWork(x: Setup, s: System): int {
    s.lead + |x.PcPacket()| - s.toNios.taken
    + match s.nios
      case AwaitStart(_) => |x.NiosPacket()| + 60
      case Sending(k) => |x.NiosPacket()| - k + 59
      case AwaitPacket(_) => 58
      case Receiving(_) => 58
      case Replying(_, _, cut, piece) => 57 - (cut.head + cut.computed + cut.middle + cut.received + cut.tail) - piece
      case NiosDone(_, _, _, _) => 0
      case NiosFailed(_) => 0
  }

  ghost function PcWork(x: Setup, s: System): int {
    |x.NiosPacket()| + 44 - s.toPc.taken + |x.PcPacket()| - PcOut(x, s.pc)
    + if s.pc.AwaitResult? || s.pc.PcDone? then 0 else 1
  }

  lemma RankIsNat(x: Setup, s: System)
    requires x.Valid() && Inv(x, s)
    ensures Rank(x, s) >= 0
  {
    hide Checksum, Ascii, Reply, Piece, StartBytes, Packet, Contains;
    PacketLengths(x);
    OutLength(x, s);
    SentLength(x, s);
  }

  lemma OutLength(x: Setup, s: System)
    requires x.Valid() && NiosOk(x, s)
    ensures |NiosOut(x, s.nios)| <= |x.NiosPacket()| + 44
  {
    hide Checksum, Ascii, Reply, Piece, Packet;
    if s.nios.Replying? || s.nios.NiosDone? { ReplyLength(s.nios.cut, s.nios.data, s.nios.crc); }
  }

  lemma SentLength(x: Setup, s: System)
    requires x.Valid() && PipesOk(x, s)
    ensures |s.toNios.sent| == s.lead + PcOut(x, s.pc) <= s.lead + |x.PcPacket()|
  {
    hide Checksum, Ascii, Reply, Packet, StartBytes, NiosOut;
  }

  ghost predicate Progress(x: Setup, s: System, a: Action) {
    var s' := Next(x, s, a);
    !GivesUp(a) && Going(s') && !Doomed(x, s') && Rank(x, s') < Rank(x, s)
  }

  lemma NiosProgress(x: Setup, s: System)
    requires x.Valid() && Inv(x, s) && Going(s) && !Doomed(x, s) && !s.nios.NiosDone?
    requires if Reads(s.nios) then s.toNios.Waiting() > 0
             else NextByte(x.NiosPacket(), s.nios).Some? ==> s.toPc.Waiting() < x.toPcDepth
    ensures Progress(x, s, NiosStep)
  {
    hide Checksum, Ascii, Reply, Piece, StartBytes, Packet, NiosOut, PcOk;
    PacketLengths(x);
  }

  lemma PcReadProgress(x: Setup, s: System)
    requires x.Valid() && Inv(x, s) && Going(s) && s.toPc.Waiting() > 0
    requires s.pc.Seeking? || s.pc.ReadingPayload? || s.pc.ReadingCrc? || s.pc.AwaitResult?
    ensures Progress(x, s, PcRead(1))
  {
    hide Checksum, Ascii, Reply, Piece, StartBytes, Packet, NiosOut, NiosOk, Contains;
    PacketLengths(x);
  }

  lemma PcWriteProgress(x: Setup, s: System)
    requires x.Valid() && Inv(x, s) && Going(s) && s.pc.Writing?
    requires s.pc.sent < |x.PcPacket()| ==> s.toNios.Waiting() < x.toNiosDepth
    ensures Progress(x, s, PcWrite(1))
  {
    hide Checksum, Ascii, Reply, Piece, StartBytes, Packet, NiosOut, NiosOk;
    PacketLengths(x);
  }

  lemma StartProgress(x: Setup, s: System)
    requires x.Valid() && Inv(x, s) && Going(s) && !Doomed(x, s) && s.pc.Starting?
    requires s.toNios.Waiting() < x.toNiosDepth
    ensures Progress(x, s, PcWrite(1))
  {
    hide Checksum, Ascii, Reply, Piece, StartBytes, Packet, NiosOut, NiosOk;
    PacketLengths(x);
  }

  lemma RetryProgress(x: Setup, s: System)
    requires x.Valid() && Inv(x, s) && Going(s) && s.pc.Seeking? && s.lead == 0
    ensures Progress(x, s, PcRetry)
  {
    hide Checksum, Ascii, Reply, Piece, StartBytes, Packet, NiosOut, NiosOk;
    PacketLengths(x);
  }

  /** The program writes and its pipe is full, or it reads and its pipe is empty, or it is done. */
  ghost predicate NiosWaits(x: Setup, s: System) {
    if Reads(s.nios) then s.toNios.Waiting() == 0
    else s.nios.NiosDone? || (NextByte(x.NiosPacket(), s.nios).Some? && s.toPc.Waiting() == x.toPcDepth)
  }

  ghost predicate PcWaits(x: Setup, s: System) {
    match s.pc
    case Starting(_) => s.toNios.Waiting() == x.toNiosDepth
    case Writing(_, _, n) => n < |x.PcPacket()| && s.toNios.Waiting() == x.toNiosDepth
    case PcDone(_, _, _) => true
    case _ => s.toPc.Waiting() == 0
  }

  /** A Nios with room in its pipe that waits for a byte has everything the PC has sent. */
  lemma BothWaitReading(x: Setup, s: System)
    requires x.Valid() && Inv(x, s) && Going(s) && NiosWaits(x, s) && PcWaits(x, s) && Reads(s.nios)
    ensures s.pc.Seeking? && s.lead == 0
  {
    hide Checksum, Ascii, Reply, Piece, StartBytes, Packet, Contains;
    PacketLengths(x);
    SentLength(x, s);
    if s.pc.AwaitResult? || s.pc.PcDone? { TextIsReply(x, s); }
  }

  lemma BothWaitWriting(x: Setup, s: System)
    requires x.Valid() && Inv(x, s) && Going(s) && NiosWaits(x, s) && PcWaits(x, s)
    requires !Reads(s.nios) && !s.nios.NiosDone?
    ensures Doomed(x, s)
  {
    hide Checksum, Ascii, Reply, Piece, StartBytes, Packet, Contains;
    PacketLengths(x);
    SentLength(x, s);
    if s.pc.PcDone? { DoneMeansAllSent(x, s); }
  }

  /** The PC ends with the newline only when the Nios has written its whole reply. */
  lemma DoneMeansAllSent(x: Setup, s: System)
    requires x.Valid() && Inv(x, s) && s.pc.PcDone? && NEWLINE in s.pc.text
    ensures (s.nios.Replying? || s.nios.NiosDone?) && s.nios.cut.tail == 2
    ensures s.nios.Replying? ==> NextByte(x.NiosPacket(), s.nios).None?
  {
    hide Checksum, Ascii, Reply, Piece, StartBytes, Packet, Contains, NiosOut;
    TextIsReply(x, s);
    assert s.nios.Replying? && s.nios.piece < 4 ==> s.nios.cut.Of(4) == 0;
    NewlineEnds(CutOf(s.nios), x.pcPayload, s.pc.text);
  }

  lemma BothWaitDone(x: Setup, s: System)
    requires x.Valid() && Inv(x, s) && Going(s) && PcWaits(x, s) && s.nios.NiosDone?
    ensures s.pc.PcDone?
  {
    hide Checksum, Ascii, Piece, StartBytes, Packet, Contains;
    PacketLengths(x);
    SentLength(x, s);
    if s.pc.AwaitResult? {
      var r := Reply(s.nios.cut, x.pcPayload, Checksum(x.pcPayload));
      ReplyLength(s.nios.cut, x.pcPayload, Checksum(x.pcPayload));
      TextIsReply(x, s);
      assert s.pc.text == r;
      NewlineEnds(s.nios.cut, x.pcPayload, s.pc.text);
    }
  }

  /**
   * In every state that is not doomed somebody can take a productive step, unless both sides have
   * finished; and when both sides wait that step is the first START.
   */
  lemma Productive(x: Setup, s: System) returns (a: Action)
    requires x.Valid() && Inv(x, s) && Going(s) && !Doomed(x, s) && !Finished(s)
    ensures Progress(x, s, a)
    ensures NiosWaits(x, s) && PcWaits(x, s) ==> a == PcRetry && s.lead == 0
  {
    hide Progress, Checksum, Ascii, Reply, Piece, StartBytes, Packet, Contains, NiosOut, NiosOk, PcOk, Doomed;
    if !NiosWaits(x, s) {
      a := NiosStep;
      NiosProgress(x, s);
    } else if !PcWaits(x, s) {
      if s.pc.Writing? { a := PcWrite(1); PcWriteProgress(x, s); }
      else if s.pc.Starting? { a := PcWrite(1); StartProgress(x, s); }
      else { a := PcRead(1); PcReadProgress(x, s); }
    } else {
      if s.nios.NiosDone? { BothWaitDone(x, s); }
      else if Reads(s.nios) { BothWaitReading(x, s); }
      else { BothWaitWriting(x, s); }
      a := PcRetry;
      RetryProgress(x, s);
    }
  }

  lemma {:induction false} Finish(x: Setup, s: System) returns (actions: seq<Action>)
    requires x.Valid() && Inv(x, s) && Going(s) && !Doomed(x, s)
    ensures Quiet(actions) && Finished(Run(x, s, actions)) && Going(Run(x, s, actions))
    decreases Rank(x, s)
  {
    if Finished(s) {
      actions := [];
    } else {
      hide Next, Rank, Inv, Doomed, Going, Finished, GivesUp;
      var a := Productive(x, s);
      NextKeeps(x, s, a);
      RankIsNat(x, s);
      RankIsNat(x, Next(x, s, a));
      var rest := Finish(x, Next(x, s, a));
      actions := [a] + rest;
      assert actions[1..] == rest;
    }
  }

  /**
   * While nobody has given up, the exchange can still be completed without anybody giving up if
   * and only if it is not caught between the two full pipes.
   */
  lemma CanFinishIff(x: Setup, s: System)
    requires x.Valid() && Inv(x, s) && Going(s)
    ensures (exists actions :: Quiet(actions) && Finished(Run(x, s, actions))) <==> !Doomed(x, s)
  {
    hide Inv, Going, Finished, Doomed, Quiet, Run;
    if Doomed(x, s) {
      forall actions | Quiet(actions) ensures !Finished(Run(x, s, actions)) { DoomedForEver(x, s, actions); }
    } else {
      var actions := Finish(x, s);
      assert Quiet(actions) && Finished(Run(x, s, actions));
    }
  }

  /** A pipe that holds the whole Nios packet rules it out. */
  lemma DeepPipesAreSafe(x: Setup, s: System)
    requires x.toPcDepth >= |x.NiosPacket()|
    ensures !Doomed(x, s)
  {
  }

  // ----- a completed exchange passes

  /** No write of the reply has failed so far. */
  ghost predicate Whole(n: Nios) {
    (n.Replying? ==> n.cut.Valid() && n.cut.Full(n.piece)) && (n.NiosDone? ==> n.cut.Full(5))
  }

  lemma WholeStays(x: Setup, s: System, a: Action)
    requires Whole(s.nios) && !GivesUp(a)
    ensures Whole(Next(x, s, a).nios)
  {
    hide Checksum, Ascii, Piece, Packet, Contains;
    NothingIsUpTo();
    if s.nios.Replying? && s.nios.piece < 5 { PlusKeepsFull(s.nios.cut, s.nios.piece); }
  }

  lemma PlusKeepsFull(cut: Cut, piece: nat)
    requires cut.Valid() && piece < 5 && cut.Full(piece)
    ensures cut.Of(piece) < Length(piece) ==> cut.Plus(piece).Valid() && cut.Plus(piece).Full(piece)
    ensures cut.Of(piece) >= Length(piece) ==> cut.Full(piece + 1)
  {
    assert forall k :: 0 <= k < piece ==> cut.Plus(piece).Of(k) == cut.Of(k);
  }

  lemma {:induction false} WholeStaysForEver(x: Setup, s: System, actions: seq<Action>)
    requires Whole(s.nios) && Quiet(actions)
    ensures Whole(Run(x, s, actions).nios)
    decreases |actions|
  {
    hide Next, Whole, GivesUp;
    if actions != [] {
      assert !GivesUp(actions[0]);
      WholeStays(x, s, actions[0]);
      assert forall i :: 0 <= i < |actions[1..]| ==> actions[1..][i] == actions[i + 1];
      WholeStaysForEver(x, Next(x, s, actions[0]), actions[1..]);
    }
  }

  /**
   * From every reachable state in which nobody has given up and that is not doomed, in particular
   * from the start, some run delivers both payloads and passes on both sides.
   */
  lemma ExchangeCanPass(x: Setup, s: System) returns (actions: seq<Action>)
    requires x.Valid() && Reachable(x, s) && Going(s) && Whole(s.nios) && !Doomed(x, s)
    ensures var end := Run(x, s, actions);
      && end.nios.NiosDone? && end.nios.pass && end.nios.data == x.pcPayload
      && end.pc.PcDone? && end.pc.pass && end.pc.data == x.niosPayload
  {
    hide Run, Inv, Whole, Doomed, Quiet;
    ReachableOk(x, s);
    actions := Finish(x, s);
    WholeStaysForEver(x, s, actions);
    ReachableRun(x, s, actions);
    var end := Run(x, s, actions);
    DoneIsWhole(end.nios);
    ExchangeIsCorrect(x, end);
  }

  lemma DoneIsWhole(n: Nios)
    requires Whole(n) && n.NiosDone?
    ensures n.cut.Full(5)
  {
  }

  lemma ReachableRun(x: Setup, s: System, actions: seq<Action>)
    requires Reachable(x, s)
    ensures Reachable(x, Run(x, s, actions))
  {
    hide Run;
    var before :| s == Run(x, Initial(), before);
    RunBoth(x, Initial(), before, actions);
    assert Run(x, s, actions) == Run(x, Initial(), before + actions);
  }

  lemma {:induction false} RunBoth(x: Setup, s: System, first: seq<Action>, second: seq<Action>)
    ensures Run(x, s, first + second) == Run(x, Run(x, s, first), second)
    decreases |first|
  {
    hide Next;
    if first == [] {
      assert [] + second == second;
    } else {
      RunBoth(x, Next(x, s, first[0]), first[1..], second);
      assert (first + second)[1..] == first[1..] + second;
    }
  }

  // ----- the circle does arise, for every depth of the pipe to the Nios

  /** The Nios has taken `taken` bytes of `lead` START bytes and written nothing. */
  ghost function OnlyStarts(n: Nios, pc: Pc, lead: nat, taken: nat): System {
    System(n, pc, Pipe(StartBytes(lead), taken), Pipe([], 0), lead)
  }

  lemma Then(x: Setup, actions: seq<Action>, a: Action)
    ensures Run(x, Initial(), actions + [a]) == Next(x, Run(x, Initial(), actions), a)
  {
    hide Next;
    RunBoth(x, Initial(), actions, [a]);
    assert [a][1..] == [];
  }

  lemma OneWritten(x: Setup, n: Nios, lead: nat, taken: nat)
    requires lead - taken < x.toNiosDepth
    ensures Next(x, OnlyStarts(n, Starting(0), lead, taken), PcWrite(1))
         == OnlyStarts(n, if lead % 6 == 5 then Seeking(0) else Starting(0), lead + 1, taken)
  {
    hide Ascii;
    Headers();
  }

  lemma OneTaken(x: Setup, pc: Pc, lead: nat, taken: nat)
    requires taken < 6 && taken < lead
    ensures Next(x, OnlyStarts(AwaitStart(taken), pc, lead, taken), NiosStep)
         == OnlyStarts(if taken == 5 then Sending(0) else AwaitStart(taken + 1), pc, lead, taken + 1)
  {
    hide Ascii, StartBytes;
    Headers();
    StartBytesAt(lead, taken);
  }

  /** One START, taken by the Nios byte by byte. */
  lemma FirstStart(x: Setup) returns (actions: seq<Action>)
    requires x.Valid()
    ensures Run(x, Initial(), actions) == OnlyStarts(Sending(0), Seeking(0), 6, 6) && Retries(actions) == 1
  {
    hide Run, Next;
    Then(x, [], PcRetry);
    actions := [PcRetry];
    StartsAtNothing(x);
    RetriesThen([], PcRetry);
    assert [] + [PcRetry] == [PcRetry];
    hide Retries;
    var i := 0;
    while i < 6
      invariant 0 <= i <= 6 && Retries(actions) == 1
      invariant Run(x, Initial(), actions) == OnlyStarts(if i == 6 then Sending(0) else AwaitStart(i),
                                                        if i == 6 then Seeking(0) else Starting(0), i, i)
    {
      OneWritten(x, AwaitStart(i), i, i);
      Then(x, actions, PcWrite(1));
      RetriesThen(actions, PcWrite(1));
      actions := actions + [PcWrite(1)];
      OneTaken(x, if i == 5 then Seeking(0) else Starting(0), i + 1, i);
      Then(x, actions, NiosStep);
      RetriesThen(actions, NiosStep);
      actions := actions + [NiosStep];
      i := i + 1;
    }
  }

  lemma StartsAtNothing(x: Setup)
    ensures Run(x, Initial(), [PcRetry]) == OnlyStarts(AwaitStart(0), Starting(0), 0, 0)
  {
    assert [PcRetry][1..] == [];
  }

  lemma RetryBegins(x: Setup, lead: nat)
    ensures Next(x, OnlyStarts(Sending(0), Seeking(0), lead, 6), PcRetry)
         == OnlyStarts(Sending(0), Starting(0), lead, 6)
  {
    hide StartBytes;
  }

  /** One more START, written while the Nios is about to send. */
  lemma OneMoreStart(x: Setup, before: seq<Action>, q: nat) returns (actions: seq<Action>)
    requires x.Valid() && 6 * q + 6 <= x.toNiosDepth
    requires Run(x, Initial(), before) == OnlyStarts(Sending(0), Seeking(0), 6 * q + 6, 6)
    ensures Run(x, Initial(), actions) == OnlyStarts(Sending(0), Seeking(0), 6 * q + 12, 6)
    ensures Retries(actions) == Retries(before) + 1
  {
    hide Run, Next, StartBytes, Retries;
    Then(x, before, PcRetry);
    RetriesThen(before, PcRetry);
    actions := before + [PcRetry];
    RetryBegins(x, 6 * q + 6);
    var i := 0;
    while i < 6
      invariant 0 <= i <= 6 && Retries(actions) == Retries(before) + 1
      invariant Run(x, Initial(), actions)
             == OnlyStarts(Sending(0), if i == 6 then Seeking(0) else Starting(0), 6 * q + 6 + i, 6)
    {
      OneWritten(x, Sending(0), 6 * q + 6 + i, 6);
      Then(x, actions, PcWrite(1));
      RetriesThen(actions, PcWrite(1));
      actions := actions + [PcWrite(1)];
      i := i + 1;
    }
  }

  /** How many START headers the run begins at most. */
  ghost function Retries(actions: seq<Action>): nat {
    if actions == [] then 0 else Retries(actions[..|actions| - 1]) + if actions[|actions| - 1].PcRetry? then 1 else 0
  }

  lemma RetriesThen(actions: seq<Action>, a: Action)
    ensures Retries(actions + [a]) == Retries(actions) + if a.PcRetry? then 1 else 0
  {
    assert (actions + [a])[..|actions|] == actions;
  }

  /** START bytes come from retries: the last START may be under way, all others are complete. */
  ghost predicate LeadOk(s: System, retries: nat) {
    s.lead <= 6 * retries && (s.pc.Starting? ==> s.lead < 6 * retries)
  }

  lemma LeadStep(x: Setup, s: System, a: Action, retries: nat)
    requires x.Valid() && Inv(x, s) && LeadOk(s, retries)
    ensures LeadOk(Next(x, s, a), retries + if a.PcRetry? then 1 else 0)
  {
    hide Checksum, Ascii, Packet, StartBytes, Reply, Piece, Contains, NiosOut, NiosOk, PcOk;
  }

  lemma {:induction false} LeadAfter(x: Setup, actions: seq<Action>)
    requires x.Valid()
    ensures Inv(x, Run(x, Initial(), actions)) && LeadOk(Run(x, Initial(), actions), Retries(actions))
    decreases |actions|
  {
    hide Inv, Next, Run;
    InitialOk(x);
    RunKeeps(x, Initial(), actions);
    if actions == [] {
      RunNothing(x);
    } else {
      var before, last := actions[..|actions| - 1], actions[|actions| - 1];
      assert actions == before + [last];
      LeadAfter(x, before);
      Then(x, before, last);
      LeadStep(x, Run(x, Initial(), before), last, Retries(before));
    }
  }

  lemma RunNothing(x: Setup)
    ensures Run(x, Initial(), []) == Initial()
  {
  }

  /** The run begins at most `r` START headers and ends in the circle, with nobody having given up. */
  ghost predicate DoomsWithin(x: Setup, actions: seq<Action>, r: nat) {
    var s := Run(x, Initial(), actions);
    Retries(actions) <= r && Going(s) && Doomed(x, s)
  }

  /**
   * With at most `r` START headers the circle can be reached exactly if the pipe to the PC cannot
   * hold the whole packet of the Nios and the other pipe cannot hold `r - 1` headers.
   */
  lemma DoomArisesIff(x: Setup, r: nat)
    requires x.Valid()
    ensures (exists actions :: DoomsWithin(x, actions, r))
            <==> x.toPcDepth < |x.NiosPacket()| && x.toNiosDepth < 6 * r - 6
  {
    hide Run, Going, Packet;
    if x.toPcDepth < |x.NiosPacket()| && x.toNiosDepth < 6 * r - 6 {
      var actions := DoomArises(x);
      assert DoomsWithin(x, actions, r);
    } else {
      forall actions ensures !DoomsWithin(x, actions, r) {
        var s := Run(x, Initial(), actions);
        if x.toPcDepth >= |x.NiosPacket()| { DeepPipesAreSafe(x, s); }
        else if Retries(actions) <= r { FewRetriesAreSafe(x, actions, r); }
      }
    }
  }

  lemma FewRetriesAreSafe(x: Setup, actions: seq<Action>, r: nat)
    requires x.Valid() && Retries(actions) <= r && x.toNiosDepth >= 6 * r - 6
    ensures !Doomed(x, Run(x, Initial(), actions))
  {
    hide Run, Inv, Packet, Retries;
    LeadAfter(x, actions);
  }

  const BRIDGE_FIFO: nat := 1024
  const MAX_STARTS: nat := 61

  /** The script's default time-out leaves time for 61 headers, fewer than the FIFO of the bridge holds. */
  lemma ScriptIsNeverDoomed(x: Setup, actions: seq<Action>)
    requires x.Valid() && x.toNiosDepth >= BRIDGE_FIFO && Retries(actions) <= MAX_STARTS
    ensures !Doomed(x, Run(x, Initial(), actions))
  {
    FewRetriesAreSafe(x, actions, MAX_STARTS);
  }

  /** As few retries as possible: one more than the headers that fit in the pipe with the one taken. */
  lemma DoomArises(x: Setup) returns (actions: seq<Action>)
    requires x.Valid() && x.toPcDepth < |x.NiosPacket()|
    ensures var s := Run(x, Initial(), actions); Going(s) && Doomed(x, s)
    ensures Retries(actions) == x.toNiosDepth / 6 + 2
  {
    hide Run, Packet, StartBytes, Retries;
    actions := FirstStart(x);
    var q := 0;
    while 6 * q + 6 <= x.toNiosDepth
      invariant 6 * q <= x.toNiosDepth && Retries(actions) == q + 1
      invariant Run(x, Initial(), actions) == OnlyStarts(Sending(0), Seeking(0), 6 * q + 6, 6)
      decreases x.toNiosDepth - 6 * q
    {
      actions := OneMoreStart(x, actions, q);
      q := q + 1;
    }
    assert q == x.toNiosDepth / 6;
    Then(x, actions, PcRetry);
    RetriesThen(actions, PcRetry);
    actions := actions + [PcRetry];
  }
}
