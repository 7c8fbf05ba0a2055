// The circular buffers shared by a foreground routine and an interrupt routine.
//
// A ring is a fixed-size buffer with the index of the next slot to fill and the index of the
// next slot to empty. One slot always stays empty, so equal indices mean an empty ring.
module Ring {

  /** `i` reduced into the buffer, for an `i` at most one lap too large. */
  function Wrap(i: nat, len: nat): (r: nat)
    requires i < 2 * len
    ensures r < len
  {
    if i < len then i else i - len
  }

  predicate Shape<T>(buf: seq<T>, inn: nat, out: nat) {
    inn < |buf| && out < |buf|
  }

  /** The bytes waiting in the ring, oldest first. */
  function Live<T>(buf: seq<T>, inn: nat, out: nat): (r: seq<T>)
    requires Shape(buf, inn, out)
    ensures |r| < |buf|
    ensures inn == Wrap(out + |r|, |buf|)
    ensures |r| == 0 <==> inn == out
    ensures |r| == |buf| - 1 <==> Wrap(inn + 1, |buf|) == out
  {
    if out <= inn then buf[out..inn] else buf[out..] + buf[..inn]
  }

  lemma LiveAt<T>(buf: seq<T>, inn: nat, out: nat, i: nat)
    requires Shape(buf, inn, out) && i < |Live(buf, inn, out)|
    ensures Live(buf, inn, out)[i] == buf[Wrap(out + i, |buf|)]
  {
  }

  /** Filling the slot at `inn` of a ring that is not full appends to what is waiting. */
  lemma Push<T>(buf: seq<T>, inn: nat, out: nat, x: T)
    requires Shape(buf, inn, out) && Wrap(inn + 1, |buf|) != out
    ensures Live(buf[inn := x], Wrap(inn + 1, |buf|), out) == Live(buf, inn, out) + [x]
  {
  }

  /** Emptying the slot at `out` of a ring that is not empty removes the oldest element. */
  lemma Pop<T>(buf: seq<T>, inn: nat, out: nat)
    requires Shape(buf, inn, out) && inn != out
    ensures Live(buf, inn, out) == [buf[out]] + Live(buf, inn, Wrap(out + 1, |buf|))
  {
  }

  /** A slot past the waiting elements can be written without disturbing them. */
  lemma WriteAhead<T>(buf: seq<T>, inn: nat, out: nat, k: nat, x: T)
    requires Shape(buf, inn, out) && inn + k < |buf|
    requires |Live(buf, inn, out)| + k < |buf| - 1
    ensures Live(buf[inn + k := x], inn, out) == Live(buf, inn, out)
  {
  }

  /** Advancing `inn` over a block of prepared slots appends the whole block. */
  lemma PublishBlock<T>(buf: seq<T>, inn: nat, out: nat, n: nat)
    requires Shape(buf, inn, out) && inn + n <= |buf|
    requires |Live(buf, inn, out)| + n <= |buf| - 1
    ensures Live(buf, Wrap(inn + n, |buf|), out) == Live(buf, inn, out) + buf[inn..inn + n]
  {
    hide Live;
    var after := Live(buf, Wrap(inn + n, |buf|), out);
    var before := Live(buf, inn, out);
    assert |after| == |before| + n;
    forall i | 0 <= i < |after|
      ensures after[i] == (before + buf[inn..inn + n])[i]
    {
      LiveAt(buf, Wrap(inn + n, |buf|), out, i);
      if i < |before| { LiveAt(buf, inn, out, i); }
    }
  }

  /** Advancing `out` over a block of waiting slots removes exactly that block. */
  lemma ConsumeBlock<T>(buf: seq<T>, inn: nat, out: nat, n: nat)
    requires Shape(buf, inn, out) && out + n <= |buf|
    requires n <= |Live(buf, inn, out)|
    ensures Live(buf, inn, out)[..n] == buf[out..out + n]
    ensures Live(buf, inn, Wrap(out + n, |buf|)) == Live(buf, inn, out)[n..]
  {
  }
}
