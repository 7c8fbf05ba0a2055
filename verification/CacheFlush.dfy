// The cache flushing loops: which lines they touch.
module CacheFlush {
  import opened Words

  const LINE: nat := 32
  const ICACHE: nat := 4096

  /** The cache line of an address is among those flushed. */
  ghost predicate LineTouched(flushed: seq<nat>, a: nat) {
    exists k :: 0 <= k < |flushed| && flushed[k] / LINE == a / LINE
  }

  /** An instruction cache flush is by index: the line's number modulo the number of lines. */
  function Index(a: nat): nat {
    a / LINE % (ICACHE / LINE)
  }

  ghost predicate IndexTouched(flushed: seq<nat>, a: nat) {
    exists k :: 0 <= k < |flushed| && Index(flushed[k]) == Index(a)
  }

  /** `flushed` are the addresses `start`, `start + 32`, ... */
  ghost predicate Stepped(flushed: seq<nat>, start: nat) {
    forall k :: 0 <= k < |flushed| ==> flushed[k] == start + LINE * k
  }

  /** The addresses that a flush of `[start, start + len)` visits, by their number. */
  function Visits(start: nat, len: nat): nat {
    (len + LINE - 1) / LINE + if start % LINE != 0 then 1 else 0
  }

  /** How many flushes of a request may fall outside its region. */
  function Extra(start: nat): nat { if start % LINE == 0 then 0 else 1 }

  /** The stepping address after `n` turns of the loop, in 32-bit arithmetic. */
  function Step(start: u32, n: nat): u32 {
    (start + LINE * n) % WORD
  }

  /** The stepping address passes the end of the region before it wraps. */
  predicate StepsFit(start: u32, len: u32) {
    start + LINE * ((len + LINE - 1) / LINE) < WORD
  }

  /**
   * On a region that ends below 2^32 the loop comes to an end exactly if its stepping address does
   * not wrap on the way; otherwise no address that it takes is ever past the end.
   */
  lemma LoopEndsIff(start: u32, len: u32)
    requires start + len < WORD
    ensures (exists n: nat :: Step(start, n) >= start + len) <==> StepsFit(start, len)
  {
    var turns := (len + LINE - 1) / LINE;
    if StepsFit(start, len) {
      assert Step(start, turns) == start + LINE * turns;
    } else {
      hide Step;
      forall n: nat ensures Step(start, n) < start + len {
        StepIsCongruent(start, n);
        AlignedSteps(start, turns);
        LineApart(Step(start, n), start + LINE * turns);
      }
    }
  }

  lemma LineApart(a: nat, b: nat)
    requires a < b && a % LINE == b % LINE
    ensures a + LINE <= b
  {
  }

  lemma StepIsCongruent(start: u32, n: nat)
    ensures Step(start, n) % LINE == start % LINE
  {
    var q := (start + LINE * n) / WORD;
    assert start + LINE * n == WORD * q + Step(start, n);
    assert WORD * q == LINE * (0x800_0000 * q);
    AlignedSteps(Step(start, n), 0x800_0000 * q);
    AlignedSteps(start, n);
  }

  lemma AlignedSteps(start: nat, k: nat)
    ensures (start + LINE * k) % LINE == start % LINE
  {
  }

  lemma SteppedCovers(flushed: seq<nat>, start: nat, len: nat, a: nat)
    requires Stepped(flushed, start) && |flushed| == Visits(start, len)
    requires start <= a < start + len
    ensures LineTouched(flushed, a)
  {
    var k := (a - start) / LINE;
    assert k < (len + LINE - 1) / LINE;
    var f := start + LINE * k;
    assert f <= a < f + LINE && flushed[k] == f;
    AlignedSteps(start, k);
    if f / LINE != a / LINE {
      assert start % LINE != 0;
      assert (f + LINE) / LINE == a / LINE;
      assert flushed[k + 1] == f + LINE;
    }
  }

  /**
   * The data cache: every line that overlaps the region is flushed, and no flush falls outside the
   * region but the last one of an unaligned request.
   */
  method FlushData(start: u32, len: u32) returns (flushed: seq<nat>)
    requires StepsFit(start, len)
    ensures Stepped(flushed, start) && |flushed| == Visits(start, len)
    ensures forall a :: start <= a < start + len ==> LineTouched(flushed, a)
    ensures forall k :: 0 <= k < |flushed| - Extra(start) ==> start <= flushed[k] < start + len
  {
    flushed := [];
    var end: u32 := (start + len) % WORD;
    var i := start;
    while i < end
      invariant Stepped(flushed, start) && i == start + LINE * |flushed| && i < end + LINE
      invariant |flushed| <= (len + LINE - 1) / LINE
      invariant forall k :: 0 <= k < |flushed| ==> flushed[k] < end
      decreases end - i
    {
      flushed := flushed + [i];
      i := (i + LINE) % WORD;
    }
    assert |flushed| == (len + LINE - 1) / LINE;
    if start % LINE != 0 { flushed := flushed + [i]; }
    forall a | start <= a < start + len ensures LineTouched(flushed, a) {
      SteppedCovers(flushed, start, len, a);
    }
  }

  lemma SameLineSameIndex(flushed: seq<nat>, a: nat)
    requires LineTouched(flushed, a)
    ensures IndexTouched(flushed, a)
  {
    var k :| 0 <= k < |flushed| && flushed[k] / LINE == a / LINE;
    assert Index(flushed[k]) == Index(a);
  }

  /** An address repeats its index every cache size. */
  lemma IndexRepeats(a: nat, n: nat)
    ensures Index(a + ICACHE * n) == Index(a)
  {
    assert (a + ICACHE * n) / LINE == a / LINE + 128 * n;
    assert (a / LINE + 128 * n) % 128 == a / LINE % 128;
  }

  /**
   * The instruction cache: trimming the length to the cache size loses nothing, every index that
   * the whole region maps to is still flushed.
   */
  method FlushInstructions(start: u32, len: u32) returns (flushed: seq<nat>)
    requires StepsFit(start, if len > ICACHE then ICACHE else len)
    ensures Stepped(flushed, start)
    ensures |flushed| == Visits(start, if len > ICACHE then ICACHE else len)
    ensures forall a :: start <= a < start + len ==> IndexTouched(flushed, a)
    ensures forall k :: 0 <= k < |flushed| - Extra(start) ==> start <= flushed[k] < start + len
  {
    var trimmed: u32 := len;
    if trimmed > ICACHE { trimmed := ICACHE; }
    flushed := [];
    var end: u32 := (start + trimmed) % WORD;
    var i := start;
    while i < end
      invariant Stepped(flushed, start) && i == start + LINE * |flushed| && i < end + LINE
      invariant |flushed| <= (trimmed + LINE - 1) / LINE
      invariant forall k :: 0 <= k < |flushed| ==> flushed[k] < end
      decreases end - i
    {
      flushed := flushed + [i];
      i := (i + LINE) % WORD;
    }
    assert |flushed| == (trimmed + LINE - 1) / LINE;
    if start % LINE != 0 { flushed := flushed + [i]; }
    forall a | start <= a < start + len ensures IndexTouched(flushed, a) {
      TrimmedCovers(flushed, start, len, a);
    }
  }

  lemma TrimmedCovers(flushed: seq<nat>, start: nat, len: nat, a: nat)
    requires start <= a < start + len && Stepped(flushed, start)
    requires |flushed| == Visits(start, if len > ICACHE then ICACHE else len)
    ensures IndexTouched(flushed, a)
  {
    hide Visits, Stepped, Index, LineTouched, IndexTouched;
    var n := (a - start) / ICACHE;
    var b := a - ICACHE * n;
    IndexRepeats(b, n);
    SteppedCovers(flushed, start, if len > ICACHE then ICACHE else len, b);
    SameLineSameIndex(flushed, b);
    SameIndex(flushed, b, a);
  }

  lemma SameIndex(flushed: seq<nat>, b: nat, a: nat)
    requires IndexTouched(flushed, b) && Index(b) == Index(a)
    ensures IndexTouched(flushed, a)
  {
  }

  /**
   * The extra flush of an unaligned request is needed exactly when the region reaches past the
   * last line that the loop visits.
   */
  lemma ExtraFlushNeededIff(flushed: seq<nat>, start: nat, len: nat)
    requires len > 0 && Stepped(flushed, start) && |flushed| == (len + LINE - 1) / LINE
    ensures (forall a :: start <= a < start + len ==> LineTouched(flushed, a)) <==>
            (start + len - 1) / LINE == (start + LINE * ((len - 1) / LINE)) / LINE
  {
    var last := |flushed| - 1;
    assert last == (len - 1) / LINE;
    assert flushed[last] == start + LINE * last;
    if (start + len - 1) / LINE == flushed[last] / LINE {
      forall a | start <= a < start + len ensures LineTouched(flushed, a) {
        var k := (a - start) / LINE;
        var f := start + LINE * k;
        assert k <= last && flushed[k] == f && f <= a < f + LINE;
        if f / LINE != a / LINE {
          assert a / LINE == (f + LINE) / LINE;
          assert k < last;
          assert flushed[k + 1] == f + LINE;
        }
      }
    } else {
      NotTouched(flushed, start, len);
    }
  }

  lemma NotTouched(flushed: seq<nat>, start: nat, len: nat)
    requires len > 0 && Stepped(flushed, start) && |flushed| == (len + LINE - 1) / LINE
    requires (start + len - 1) / LINE != (start + LINE * ((len - 1) / LINE)) / LINE
    ensures !LineTouched(flushed, start + len - 1)
  {
    var a := start + len - 1;
    var last := |flushed| - 1;
    if LineTouched(flushed, a) {
      var k :| 0 <= k < |flushed| && flushed[k] / LINE == a / LINE;
      assert flushed[k] == start + LINE * k;
      assert start + LINE * k <= start + LINE * last <= a;
    }
  }
}
