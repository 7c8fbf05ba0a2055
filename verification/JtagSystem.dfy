// The whole JTAG UART driver: one writer and one reader, each advanced one shared-memory access
// at a time, interleaved arbitrarily with host events, interrupts and the host-presence timer.
module JtagSystem {
  import opened Words
  import opened Ring
  import opened JtagModel

  /** Where a routine stands; each constructor is the access it makes next. */
  datatype WritePc = WIdle | WSnapIn | WSnapOut | WCopy | WKick | WSpin | WSpinHost | WCheck
  datatype ReadPc = RIdle | RSnapIn | RSnapOut | RCopy | RSpin | RSpinHost | RCheck | REnable

  /**
   * The local variables of a write in progress. `ptr` bytes of `data` have been accepted and `k`
   * of the `n` bytes being copied are in place. For stating properties only: `base` is how many
   * bytes earlier writes had accepted, `mark` how many bytes had left the ring when `out` was
   * read, `dirty` whether bytes were accepted since the last kick, and `gone` whether the host
   * was seen to be inactive.
   */
  datatype Writer = Writer(
    pc: WritePc, data: seq<byte>, nonblock: bool, ptr: nat, inn: nat, out: nat, n: nat, k: nat,
    result: int, base: nat, mark: nat, dirty: bool, gone: bool)

  /** The local variables of a read in progress; `dst` is the caller's buffer so far. */
  datatype Reader = Reader(
    pc: ReadPc, want: nat, space: nat, nonblock: bool, dst: seq<byte>, inn: nat, out: nat, n: nat, k: nat,
    result: int, base: nat, mark: nat, dirty: bool, gone: bool)

  datatype System = System(dev: Dev, w: Writer, r: Reader)

  /** Anything that may happen next. */
  datatype Action =
    | Host(e: HwEvent)
    | Interrupt(env: seq<seq<HwEvent>>)
    | Timer
    | StartWrite(data: seq<byte>, wNonblock: bool)
    | WriterStep
    | StartRead(space: nat, rNonblock: bool)
    | ReaderStep

  // ---------------------------------------------------------------- writer

  function WReturn(w: Writer): Writer {
    w.(pc := WIdle,
       result := if w.ptr > 0 then w.ptr else if w.nonblock then -EWOULDBLOCK else -EIO)
  }

  /** Room for a block copy at `inn`, given a snapshot `out` of the other side's index. */
  function Room(inn: nat, out: nat): nat
    requires inn < BUF_LEN && out < BUF_LEN
  {
    if inn < out then out - 1 - inn
    else if out > 0 then BUF_LEN - inn
    else BUF_LEN - 1 - inn
  }

  function WStep(s: System): System
    requires SysOk(s)
  {
    var w := s.w;
    var t := s.dev.tx;
    match w.pc
    case WIdle => s
    case WSnapIn =>
      if w.ptr < |w.data| then s.(w := w.(inn := t.inn, pc := WSnapOut))
      else s.(w := w.(pc := WKick))
    case WSnapOut =>
      var n := Room(w.inn, t.out);
      if n == 0 then s.(w := w.(out := t.out, mark := t.Removed(), n := 0, pc := WKick))
      else s.(w := w.(out := t.out, mark := t.Removed(), n := Min(n, |w.data| - w.ptr), k := 0, pc := WCopy))
    case WCopy =>
      if w.k < w.n then
        s.(dev := s.dev.(tx := t.(buf := t.buf[w.inn + w.k := w.data[w.ptr + w.k]])),
           w := w.(k := w.k + 1))
      else
        s.(dev := s.dev.(tx := t.(inn := (w.inn + w.n) % BUF_LEN,
                                  accepted := t.accepted + w.data[w.ptr..w.ptr + w.n])),
           w := w.(ptr := w.ptr + w.n, dirty := true, pc := WSnapIn))
    case WKick =>
      var d := Kick(s.dev);
      if w.ptr == |w.data| || w.nonblock then System(d, WReturn(w.(dirty := false)), s.r)
      else System(d, w.(dirty := false, pc := WSpin), s.r)
    case WSpin =>
      s.(w := w.(pc := if w.out == t.out then WSpinHost else WCheck))
    case WSpinHost =>
      if s.dev.inactive < s.dev.timeout then s.(w := w.(pc := WSpin))
      else s.(w := w.(pc := WCheck, gone := true))
    case WCheck =>
      if w.out == t.out then s.(w := WReturn(w)) else s.(w := w.(pc := WSnapIn))
  }

  /** Enable transmit interrupts, with interrupts held off around the update. */
  function Kick(d: Dev): Dev {
    d.(tx := d.tx.(we := true, weReg := true), rx := d.rx.(reReg := d.rx.re))
  }

  function Min(a: nat, b: nat): nat { if a <= b then a else b }

  // ---------------------------------------------------------------- reader

  /** After the copy loop and after the outer loop: enable interrupts if anything was read. */
  function RLeave(r: Reader): Reader {
    if r.dst != [] then r.(pc := REnable)
    else r.(pc := RIdle, result := if r.nonblock then -EWOULDBLOCK else -EIO)
  }

  /** What follows the copy loop. */
  function RAfterCopy(r: Reader): Reader {
    if r.dst != [] || r.nonblock then RLeave(r) else r.(pc := RSpin)
  }

  function Available(inn: nat, out: nat): nat
    requires inn < BUF_LEN && out < BUF_LEN
  {
    if inn >= out then inn - out else BUF_LEN - out
  }

  function RStep(s: System): System
    requires SysOk(s)
  {
    var r := s.r;
    var x := s.dev.rx;
    match r.pc
    case RIdle => s
    case RSnapIn => s.(r := r.(inn := x.inn, mark := x.Stored(), pc := RSnapOut))
    case RSnapOut =>
      var n := Available(r.inn, x.out);
      if n == 0 then s.(r := RAfterCopy(r.(out := x.out, n := 0, k := 0)))
      else s.(r := r.(out := x.out, n := Min(n, r.space), k := 0, pc := RCopy))
    case RCopy =>
      if r.k < r.n then s.(r := r.(dst := r.dst + [x.buf[r.out + r.k]], k := r.k + 1))
      else
        var done := r.(space := r.space - r.n, dirty := true, k := 0);
        s.(dev := s.dev.(rx := x.(out := (r.out + r.n) % BUF_LEN,
                                  delivered := x.delivered + r.dst[|r.dst| - r.n..])),
           r := if done.space > 0 then done.(pc := RSnapIn) else RAfterCopy(done))
    case RSpin =>
      s.(r := r.(pc := if r.inn == x.inn then RSpinHost else RCheck))
    case RSpinHost =>
      if s.dev.inactive < s.dev.timeout then s.(r := r.(pc := RSpin))
      else s.(r := r.(pc := RCheck, gone := true))
    case RCheck =>
      if r.inn == x.inn then s.(r := RLeave(r)) else s.(r := r.(pc := RSnapIn))
    case REnable =>
      System(Unmask(s.dev), s.w, r.(pc := RIdle, result := |r.dst|, dirty := false))
  }

  /** Enable receive interrupts, with interrupts held off around the update. */
  function Unmask(d: Dev): Dev {
    d.(rx := d.rx.(re := true, reReg := true), tx := d.tx.(weReg := d.tx.we))
  }

  // ---------------------------------------------------------------- the other actors

  /** The once-a-second check for host activity. */
  function TimerStep(d: Dev): Dev {
    if d.ac then d.(tx := d.tx.(weReg := d.tx.we), rx := d.rx.(reReg := d.rx.re), ac := false, inactive := 0)
    else if d.inactive < INT_MAX - 2 then d.(inactive := d.inactive + 1)
    else d
  }

  function Next(s: System, a: Action): System
    requires SysOk(s)
  {
    match a
    case Host(e) => s.(dev := HwStep(s.dev, e))
    case Interrupt(env) => s.(dev := Irq(s.dev.(env := env)).(env := []))
    case Timer => s.(dev := TimerStep(s.dev))
    case StartWrite(data, nonblock) =>
      if s.w.pc.WIdle? then
        s.(w := Writer(WSnapIn, data, nonblock, 0, 0, 0, 0, 0, 0, |s.dev.tx.accepted|, 0, false, false))
      else s
    case WriterStep => WStep(s)
    case StartRead(space, nonblock) =>
      if s.r.pc.RIdle? then
        var r := Reader(RSnapIn, space, space, nonblock, [], 0, 0, 0, 0, 0, |s.dev.rx.delivered|, 0, false, false);
        s.(r := if space > 0 then r else RLeave(r))
      else s
    case ReaderStep => RStep(s)
  }

  function Run(s: System, acts: seq<Action>): (r: System)
    requires SysOk(s)
    decreases |acts|
  {
    if acts == [] then s
    else
      NextOk(s, acts[0]);
      Run(Next(s, acts[0]), acts[1..])
  }

  // ---------------------------------------------------------------- the invariant

  /** The snapshot of `out` was taken when the ring was full. */
  ghost predicate SawFull(w: Writer, t: Tx)
    requires t.Wf()
  {
    && w.ptr < |w.data|
    && w.inn == t.inn && w.out == Wrap(t.inn + 1, BUF_LEN)
    && w.mark <= t.Removed() && |t.accepted| - w.mark == BUF_LEN - 1
  }

  ghost predicate WSpinning(w: Writer) { w.pc.WSpin? || w.pc.WSpinHost? || w.pc.WCheck? }

  /** The block being copied fits in the free slots, and `k` of its bytes are in place. */
  ghost predicate WCopying(w: Writer, t: Tx)
    requires t.Wf()
  {
    && w.inn == t.inn && 0 < w.n && w.k <= w.n
    && w.inn + w.n <= BUF_LEN && w.ptr + w.n <= |w.data|
    && |t.Waiting()| + w.n <= BUF_LEN - 1
    && t.buf[w.inn..w.inn + w.k] == w.data[w.ptr..w.ptr + w.k]
  }

  /** The writer's locals describe the ring, however stale its snapshot of `out` is. */
  ghost predicate WriterOk(w: Writer, t: Tx)
    requires t.Wf()
  {
    && w.ptr <= |w.data| && |t.accepted| == w.base + w.ptr && t.accepted[w.base..] == w.data[..w.ptr]
    && (w.pc.WSnapOut? ==> w.inn == t.inn && w.ptr < |w.data|)
    && (w.pc.WCopy? ==> WCopying(w, t))
    && (w.pc.WKick? && w.ptr < |w.data| ==> SawFull(w, t))
    && (WSpinning(w) ==> SawFull(w, t) && !w.nonblock)
    && (w.pc.WCheck? ==> w.gone || w.mark < t.Removed())
    && (w.dirty ==> w.ptr > 0)
    && (w.dirty ==> w.pc.WSnapIn? || w.pc.WSnapOut? || w.pc.WCopy? || w.pc.WKick?)
    && (!t.we ==> t.Waiting() == [] || w.dirty)
    && (w.pc.WIdle? ==> w == WReturn(w) && (w.ptr < |w.data| ==> w.nonblock || w.gone))
  }

  ghost predicate RSpinning(r: Reader) { r.pc.RSpin? || r.pc.RSpinHost? || r.pc.RCheck? }

  /** How many bytes of `dst` are copied but not yet released from the ring. */
  ghost function Held(r: Reader): nat { if r.pc.RCopy? then r.k else 0 }

  /** The snapshot of `inn` is where the ring stood when `mark` bytes had been stored. */
  ghost predicate SawStored(r: Reader, x: Rx)
    requires x.Wf()
  {
    && |x.delivered| <= r.mark <= |x.delivered| + |x.Waiting()|
    && r.inn == Wrap(x.out + (r.mark - |x.delivered|), BUF_LEN)
  }

  ghost predicate RCopying(r: Reader, x: Rx)
    requires x.Wf() && r.k <= |r.dst|
  {
    && r.out == x.out && 0 < r.n <= |x.Waiting()| && r.n <= r.space && r.k <= r.n
    && r.out + r.n <= BUF_LEN
    && r.dst[|r.dst| - r.k..] == x.Waiting()[..r.k]
  }

  /** The reader's locals describe the ring, however stale its snapshot of `inn` is. */
  ghost predicate ReaderOk(r: Reader, x: Rx)
    requires x.Wf()
  {
    && Held(r) <= |r.dst| && |x.delivered| == r.base + |r.dst| - Held(r)
    && x.delivered[r.base..] == r.dst[..|r.dst| - Held(r)]
    && r.space + |r.dst| - Held(r) == r.want
    && (r.pc.RSnapIn? || r.pc.RSnapOut? || RSpinning(r) ==> r.space > 0)
    && (r.pc.RSnapOut? ==> SawStored(r, x))
    && (r.pc.RCopy? ==> RCopying(r, x))
    && (RSpinning(r) ==> r.dst == [] && !r.nonblock && r.mark == |x.delivered| && SawStored(r, x))
    && (r.pc.RCheck? ==> r.gone || r.mark < |x.delivered| + |x.Waiting()|)
    && (r.pc.REnable? ==> r.dst != [])
    && (r.dirty ==> |x.delivered| > r.base)
    && (r.dirty ==> r.dst != [] && !r.pc.RIdle? && !RSpinning(r))
    && (!x.re ==> RingFull(x) || r.dirty)
    && (r.pc.RIdle? ==>
          && r.result == (if r.dst != [] then |r.dst| else if r.nonblock then -EWOULDBLOCK else -EIO)
          && (r.dst == [] && r.want > 0 ==> r.nonblock || r.gone))
  }

  ghost predicate SysOk(s: System) {
    DevOk(s.dev) && WriterOk(s.w, s.dev.tx) && ReaderOk(s.r, s.dev.rx)
  }

  /** Whatever happens between two of its accesses, the writer's view stays right. */
  lemma WriterStable(w: Writer, t0: Tx, t: Tx)
    requires TxOk(t0) && TxOk(t) && TxCalm(t0, t) && WriterOk(w, t0)
    ensures WriterOk(w, t)
  {
    hide Live;
    TxLengths(t0);
    TxLengths(t);
  }

  lemma ReaderStable(r: Reader, x0: Rx, x: Rx)
    requires RxOk(x0) && RxOk(x) && RxCalm(x0, x) && ReaderOk(r, x0)
    ensures ReaderOk(r, x)
  {
    hide Live;
  }

  lemma CalmOk(s: System, d: Dev)
    requires SysOk(s) && Calm(s.dev, d)
    ensures SysOk(s.(dev := d))
  {
    WriterStable(s.w, s.dev.tx, d.tx);
    ReaderStable(s.r, s.dev.rx, d.rx);
  }

  lemma NextOk(s: System, a: Action)
    requires SysOk(s)
    ensures SysOk(Next(s, a))
  {
    hide Live, WriterOk, ReaderOk;
    match a
    case Host(e) =>
      HwRunOk(s.dev, [e]);
      assert HwRun(s.dev, [e]) == HwStep(s.dev, e);
      CalmOk(s, HwStep(s.dev, e));
    case Interrupt(env) =>
      IrqOk(s.dev.(env := env));
      CalmOk(s, Irq(s.dev.(env := env)).(env := []));
    case Timer => CalmOk(s, TimerStep(s.dev));
    case StartWrite(data, nonblock) => StartWriteOk(s, a);
    case WriterStep => WStepOk(s);
    case StartRead(space, nonblock) => StartReadOk(s, a);
    case ReaderStep => RStepOk(s);
  }

  lemma StartWriteOk(s: System, a: Action)
    requires SysOk(s) && a.StartWrite?
    ensures SysOk(Next(s, a))
  {
    hide Live, ReaderOk, RxOk;
  }

  lemma StartReadOk(s: System, a: Action)
    requires SysOk(s) && a.StartRead?
    ensures SysOk(Next(s, a))
  {
    hide Live, WriterOk, TxOk;
  }

  lemma WStepOk(s: System)
    requires SysOk(s)
    ensures SysOk(WStep(s))
  {
    hide Live, ReaderOk, RxOk;
    match s.w.pc
    case WIdle =>
    case WSnapIn =>
    case WSnapOut => WSnapOutOk(s);
    case WCopy => if s.w.k < s.w.n { WCopyOk(s); } else { WPublishOk(s); }
    case WKick => WKickOk(s);
    case WSpin => WSpinOk(s);
    case WSpinHost =>
    case WCheck => WSpinOk(s);
  }

  lemma WSnapOutOk(s: System)
    requires SysOk(s) && s.w.pc.WSnapOut?
    ensures SysOk(WStep(s))
  {
    hide Live, ReaderOk, RxOk;
    TxLengths(s.dev.tx);
  }

  lemma WKickOk(s: System)
    requires SysOk(s) && s.w.pc.WKick?
    ensures SysOk(WStep(s))
  {
    hide Live;
    ReaderStable(s.r, s.dev.rx, Kick(s.dev).rx);
  }

  lemma WSpinOk(s: System)
    requires SysOk(s) && (s.w.pc.WSpin? || s.w.pc.WCheck?)
    ensures SysOk(WStep(s))
  {
    hide Live, ReaderOk, RxOk;
    TxLengths(s.dev.tx);
  }

  /** Copying one byte into a free slot. */
  lemma CopySlot(w: Writer, t: Tx)
    requires TxOk(t) && WCopying(w, t) && w.k < w.n
    ensures var t' := t.(buf := t.buf[w.inn + w.k := w.data[w.ptr + w.k]]);
            TxOk(t') && WCopying(w.(k := w.k + 1), t') && t'.Waiting() == t.Waiting()
  {
    hide Live;
    var b := w.data[w.ptr + w.k];
    WriteAhead(t.buf, t.inn, t.out, w.k, b);
    assert t.buf[w.inn + w.k := b][w.inn..w.inn + w.k + 1] == t.buf[w.inn..w.inn + w.k] + [b];
    assert w.data[w.ptr..w.ptr + w.k + 1] == w.data[w.ptr..w.ptr + w.k] + [b];
  }

  lemma WCopyOk(s: System)
    requires SysOk(s) && s.w.pc.WCopy? && s.w.k < s.w.n
    ensures SysOk(WStep(s))
  {
    hide Live, ReaderOk, RxOk, WCopying, TxOk;
    CopySlot(s.w, s.dev.tx);
  }

  /** Publishing a copied block is what accepts it. */
  lemma PublishTx(w: Writer, t: Tx)
    requires TxOk(t) && WriterOk(w, t) && w.pc.WCopy? && w.k == w.n
    ensures var block := w.data[w.ptr..w.ptr + w.n];
            var t' := t.(inn := (w.inn + w.n) % BUF_LEN, accepted := t.accepted + block);
            TxOk(t') && t'.Waiting() == t.Waiting() + block
  {
    hide Live;
    PublishBlock(t.buf, t.inn, t.out, w.n);
    assert (w.inn + w.n) % BUF_LEN == Wrap(w.inn + w.n, BUF_LEN);
    Append(t.got + t.fifo, t.Waiting(), w.data[w.ptr..w.ptr + w.n]);
  }

  lemma PublishWriter(w: Writer, t: Tx, block: seq<byte>)
    requires TxOk(t) && WriterOk(w, t) && w.pc.WCopy? && w.k == w.n
    requires block == w.data[w.ptr..w.ptr + w.n]
    ensures WriterOk(w.(ptr := w.ptr + w.n, dirty := true, pc := WSnapIn),
                     t.(inn := (w.inn + w.n) % BUF_LEN, accepted := t.accepted + block))
  {
    hide Live, TxOk;
    AppendTail(t.accepted, w.base, block);
    assert w.data[..w.ptr + w.n] == w.data[..w.ptr] + block;
  }

  lemma WPublishOk(s: System)
    requires SysOk(s) && s.w.pc.WCopy? && s.w.k == s.w.n
    ensures SysOk(WStep(s))
  {
    assert WCopying(s.w, s.dev.tx);
    hide Live, ReaderOk, RxOk, TxOk, WriterOk, WCopying;
    var w, t := s.w, s.dev.tx;
    var block := w.data[w.ptr..w.ptr + w.n];
    assert WStep(s) == s.(dev := s.dev.(tx := t.(inn := (w.inn + w.n) % BUF_LEN, accepted := t.accepted + block)),
                          w := w.(ptr := w.ptr + w.n, dirty := true, pc := WSnapIn));
    hide WStep;
    PublishTx(w, t);
    PublishWriter(w, t, block);
  }

  lemma Append(a: seq<byte>, b: seq<byte>, c: seq<byte>)
    ensures a + (b + c) == a + b + c
  {
  }

  lemma AppendTail(a: seq<byte>, i: nat, b: seq<byte>)
    requires i <= |a|
    ensures (a + b)[i..] == a[i..] + b
  {
  }

  lemma RStepOk(s: System)
    requires SysOk(s)
    ensures SysOk(RStep(s))
  {
    hide Live, WriterOk, TxOk;
    match s.r.pc
    case RIdle =>
    case RSnapIn => RSnapInOk(s);
    case RSnapOut => RSnapOutOk(s);
    case RCopy => if s.r.k < s.r.n { RCopyOk(s); } else { RReleaseOk(s); }
    case RSpin => RSpinOk(s);
    case RSpinHost => RSpinOk(s);
    case RCheck => RSpinOk(s);
    case REnable => REnableOk(s);
  }

  lemma RSnapInOk(s: System)
    requires SysOk(s) && s.r.pc.RSnapIn?
    ensures SysOk(RStep(s))
  {
    hide Live, WriterOk, TxOk;
    RxLengths(s.dev.rx);
  }

  lemma RSnapOutOk(s: System)
    requires SysOk(s) && s.r.pc.RSnapOut?
    ensures SysOk(RStep(s))
  {
    hide Live, WriterOk, TxOk;
  }

  lemma RSpinOk(s: System)
    requires SysOk(s) && RSpinning(s.r)
    ensures SysOk(RStep(s))
  {
    hide Live, WriterOk, TxOk;
  }

  lemma REnableOk(s: System)
    requires SysOk(s) && s.r.pc.REnable?
    ensures SysOk(RStep(s))
  {
    hide Live;
    WriterStable(s.w, s.dev.tx, Unmask(s.dev).tx);
  }

  /** Copying one waiting byte out of the ring. */
  lemma CopyOutSlot(r: Reader, x: Rx)
    requires RxOk(x) && ReaderOk(r, x) && r.pc.RCopy? && r.k < r.n
    ensures r.out + r.k < BUF_LEN && ReaderOk(r.(dst := r.dst + [x.buf[r.out + r.k]], k := r.k + 1), x)
  {
    hide Live;
    var b := x.buf[r.out + r.k];
    LiveAt(x.buf, x.inn, x.out, r.k);
    SuffixSnoc(r.dst, r.k, x.Waiting(), b);
    hide RxOk;
  }

  lemma SuffixSnoc(dst: seq<byte>, k: nat, w: seq<byte>, b: byte)
    requires k <= |dst| && k < |w| && dst[|dst| - k..] == w[..k] && w[k] == b
    ensures (dst + [b])[|dst| - k..] == w[..k + 1]
    ensures (dst + [b])[..|dst| - k] == dst[..|dst| - k]
  {
    AppendTail(dst, |dst| - k, [b]);
    assert w[..k + 1] == w[..k] + [b];
  }

  lemma RCopyOk(s: System)
    requires SysOk(s) && s.r.pc.RCopy? && s.r.k < s.r.n
    ensures SysOk(RStep(s))
  {
    hide Live, WriterOk, TxOk, ReaderOk, RxOk;
    CopyOutSlot(s.r, s.dev.rx);
  }

  /** Releasing a copied block is what delivers it. */
  lemma ReleaseRx(r: Reader, x: Rx)
    requires RxOk(x) && ReaderOk(r, x) && r.pc.RCopy? && r.k == r.n
    ensures var block := r.dst[|r.dst| - r.n..];
            var x' := x.(out := (r.out + r.n) % BUF_LEN, delivered := x.delivered + block);
            RxOk(x') && x.Waiting() == block + x'.Waiting()
  {
    hide Live;
    ConsumeBlock(x.buf, x.inn, x.out, r.n);
    assert (r.out + r.n) % BUF_LEN == Wrap(r.out + r.n, BUF_LEN);
    Append(x.delivered, r.dst[|r.dst| - r.n..], x.Waiting()[r.n..]);
  }

  lemma ReleaseReader(r: Reader, x: Rx, block: seq<byte>)
    requires RxOk(x) && ReaderOk(r, x) && r.pc.RCopy? && r.k == r.n
    requires block == r.dst[|r.dst| - r.n..]
    ensures var done := r.(space := r.space - r.n, dirty := true, k := 0);
            ReaderOk(if done.space > 0 then done.(pc := RSnapIn) else RAfterCopy(done),
                     x.(out := (r.out + r.n) % BUF_LEN, delivered := x.delivered + block))
  {
    hide Live, RxOk;
    AppendTail(x.delivered, r.base, block);
    assert r.dst == r.dst[..|r.dst| - r.n] + block;
  }

  lemma RReleaseOk(s: System)
    requires SysOk(s) && s.r.pc.RCopy? && s.r.k == s.r.n
    ensures SysOk(RStep(s))
  {
    assert RCopying(s.r, s.dev.rx);
    hide Live, WriterOk, TxOk, ReaderOk, RxOk, RCopying;
    var r, x := s.r, s.dev.rx;
    var block := r.dst[|r.dst| - r.n..];
    var done := r.(space := r.space - r.n, dirty := true, k := 0);
    assert RStep(s) == s.(dev := s.dev.(rx := x.(out := (r.out + r.n) % BUF_LEN, delivered := x.delivered + block)),
                          r := if done.space > 0 then done.(pc := RSnapIn) else RAfterCopy(done));
    hide RStep, RAfterCopy;
    ReleaseRx(r, x);
    ReleaseReader(r, x, block);
  }

  /** What a writer may assume of its snapshots and of the block it is copying. */
  lemma SnapshotInBounds(s: System)
    requires SysOk(s) && s.w.pc.WSnapOut?
    ensures s.w.inn == s.dev.tx.inn < BUF_LEN && s.w.ptr < |s.w.data|
  {
  }

  lemma CopyingInBounds(s: System)
    requires SysOk(s) && s.w.pc.WCopy?
    ensures s.w.inn + s.w.n <= BUF_LEN && |s.dev.tx.buf| == BUF_LEN && s.w.ptr + s.w.n <= |s.w.data|
  {
  }

  lemma ReadSnapshotInBounds(s: System)
    requires SysOk(s) && s.r.pc.RSnapOut?
    ensures s.r.inn < BUF_LEN && s.r.space > 0
  {
  }

  lemma CopyingOutInBounds(s: System)
    requires SysOk(s) && s.r.pc.RCopy?
    ensures s.r.out + s.r.n <= BUF_LEN && |s.dev.rx.buf| == BUF_LEN && s.r.n <= s.r.space
    ensures s.r.k == s.r.n ==> s.r.n <= |s.r.dst|
  {
  }
}
