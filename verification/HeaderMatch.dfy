// The hand-written streaming matcher that both ends of the USB test use to find a header.
module HeaderMatch {
  import opened Words

  /** One byte of input, when `m` bytes of the header are matched so far. */
  function Step(h: seq<byte>, m: nat, c: byte): nat
    requires m < |h|
  {
    if c == h[m] then m + 1 else if c == h[0] then 1 else 0
  }

  /** `matched` after the whole of `s`; a completed match stays completed. */
  function Feed(h: seq<byte>, s: seq<byte>): (m: nat)
    requires h != []
    ensures m <= |h| && m <= |s|
  {
    if s == [] then 0
    else
      var m := Feed(h, s[..|s| - 1]);
      if m == |h| then m else Step(h, m, s[|s| - 1])
  }

  /** The first `k` header bytes are the last `k` bytes of `s`. */
  ghost predicate Ends(h: seq<byte>, k: nat, s: seq<byte>) {
    k <= |h| && k <= |s| && s[|s| - k..] == h[..k]
  }

  /** The header occurs in `s`, ending just before position `e`. */
  ghost predicate Occurs(h: seq<byte>, s: seq<byte>, e: nat) {
    |h| <= e <= |s| && s[e - |h|..e] == h
  }

  /** No mismatch can leave a partial match of two or more bytes. */
  ghost predicate SelfSafe(h: seq<byte>) {
    forall m, k :: !Clash(h, m, k)
  }

  /** With `m` bytes matched, a mismatching byte can still complete a partial match of `k >= 2`. */
  ghost predicate Clash(h: seq<byte>, m: int, k: int) {
    2 <= k <= m < |h| && h[m - k + 1..m] == h[..k - 1] && h[k - 1] != h[m]
  }

  lemma UniqueFirstByteIsSafe(h: seq<byte>)
    requires forall i :: 0 < i < |h| ==> h[i] != h[0]
    ensures SelfSafe(h)
  {
    forall m, k ensures !Clash(h, m, k) {
      if 2 <= k <= m < |h| {
        assert h[m - k + 1] != h[0];
        assert h[m - k + 1..m][0] == h[m - k + 1] && h[..k - 1][0] == h[0];
      }
    }
  }

  lemma EndsShrinks(h: seq<byte>, k: nat, t: seq<byte>, c: byte)
    requires 0 < k
    ensures Ends(h, k, t + [c]) <==> k <= |h| && Ends(h, k - 1, t) && h[k - 1] == c
  {
    var s := t + [c];
    if k <= |h| && k <= |s| {
      assert s[|s| - k..] == t[|t| - (k - 1)..] + [c];
      assert h[..k] == h[..k - 1] + [h[k - 1]];
      if Ends(h, k, s) {
        assert s[|s| - k..][k - 1] == h[..k][k - 1];
        assert t[|t| - (k - 1)..] == s[|s| - k..][..k - 1];
        assert h[..k - 1] == h[..k][..k - 1];
      }
    }
  }

  /** Two partial matches at the same place overlap as the header does with itself. */
  lemma EndsNest(h: seq<byte>, j: nat, m: nat, t: seq<byte>)
    requires j <= m && Ends(h, j, t) && Ends(h, m, t)
    ensures h[m - j..m] == h[..j]
  {
    assert t[|t| - j..] == t[|t| - m..][m - j..];
    assert h[m - j..m] == h[..m][m - j..];
  }

  ghost predicate Longest(h: seq<byte>, m: nat, s: seq<byte>) {
    Ends(h, m, s) && forall k :: m < k <= |h| ==> !Ends(h, k, s)
  }

  lemma NothingMatched(h: seq<byte>)
    ensures Longest(h, 0, [])
  {
    assert [][0..] == h[..0];
  }

  lemma StepIsLongest(h: seq<byte>, m: nat, t: seq<byte>, c: byte)
    requires SelfSafe(h) && Longest(h, m, t) && m < |h|
    ensures Longest(h, Step(h, m, c), t + [c])
  {
    var m' := Step(h, m, c);
    if m' > 0 {
      assert Ends(h, m' - 1, t);
      EndsShrinks(h, m', t, c);
    }
    forall k | m' < k <= |h| ensures !Ends(h, k, t + [c]) {
      EndsShrinks(h, k, t, c);
      if 1 < k <= m && Ends(h, k - 1, t) {
        EndsNest(h, k - 1, m, t);
        assert !Clash(h, m, k);
      }
    }
  }

  /** While no header has been completed, `matched` is the longest possible partial match. */
  lemma {:induction false} MatchedIsLongest(h: seq<byte>, s: seq<byte>)
    requires h != [] && SelfSafe(h)
    requires s == [] || Feed(h, s[..|s| - 1]) < |h|
    ensures Longest(h, Feed(h, s), s)
  {
    hide Longest, SelfSafe, Step;
    if s == [] {
      NothingMatched(h);
    } else {
      var t := s[..|s| - 1];
      MatchedIsLongest(h, t);
      assert s == t + [s[|s| - 1]];
      StepIsLongest(h, Feed(h, t), t, s[|s| - 1]);
    }
  }

  /** Scan forward from `pos` with `m` bytes matched; the position just after the match, if any. */
  function Scan(h: seq<byte>, s: seq<byte>, pos: nat, m: nat): (r: Option<nat>)
    requires m <= |h| && pos <= |s|
    ensures r.Some? ==> pos <= r.value <= |s|
    decreases |s| - pos
  {
    if m == |h| then Some(pos)
    else if pos == |s| then None
    else Scan(h, s, pos + 1, Step(h, m, s[pos]))
  }

  /** `r` is where the first occurrence of the header ends, or none if there is none. */
  ghost predicate IsFirst(h: seq<byte>, s: seq<byte>, r: Option<nat>) {
    match r
    case Some(e) => Occurs(h, s, e) && forall i :: 0 <= i < e ==> !Occurs(h, s, i)
    case None => forall i :: 0 <= i <= |s| ==> !Occurs(h, s, i)
  }

  lemma {:induction false} ScanFindsFirst(h: seq<byte>, s: seq<byte>, pos: nat, m: nat)
    requires h != [] && SelfSafe(h) && pos <= |s|
    requires Longest(h, m, s[..pos]) && forall i :: 0 <= i < pos ==> !Occurs(h, s, i)
    ensures IsFirst(h, s, Scan(h, s, pos, m))
    decreases |s| - pos
  {
    OccursIsEnds(h, s, pos);
    if m < |h| && pos < |s| {
      assert s[..pos + 1] == s[..pos] + [s[pos]];
      StepIsLongest(h, m, s[..pos], s[pos]);
      ScanFindsFirst(h, s, pos + 1, Step(h, m, s[pos]));
    }
  }

  lemma OccursIsEnds(h: seq<byte>, s: seq<byte>, e: nat)
    requires e <= |s|
    ensures Occurs(h, s, e) <==> Ends(h, |h|, s[..e])
  {
    assert h[..|h|] == h;
    if |h| <= e { assert s[..e][e - |h|..] == s[e - |h|..e]; }
  }

  /** A violation of `SelfSafe` gives a stream on which the matcher misses the header. */
  ghost function Missed(h: seq<byte>, m: nat, k: nat): seq<byte>
    requires 2 <= k <= m < |h|
  {
    h[..m] + h[k - 1..]
  }

  /** At most one more byte is matched per byte read. */
  lemma {:induction false} ScanTooSoon(h: seq<byte>, s: seq<byte>, pos: nat, m: nat)
    requires m <= |h| && pos <= |s| && |s| - pos < |h| - m
    ensures Scan(h, s, pos, m) == None
    decreases |s| - pos
  {
    if pos < |s| { ScanTooSoon(h, s, pos + 1, Step(h, m, s[pos])); }
  }

  lemma {:induction false} ScanSkips(h: seq<byte>, s: seq<byte>, pos: nat, i: nat)
    requires i <= pos < |h| && pos <= |s| && s[..pos] == h[..pos]
    ensures Scan(h, s, i, i) == Scan(h, s, pos, pos)
    decreases pos - i
  {
    if i < pos {
      assert s[i] == s[..pos][i] == h[..pos][i] == h[i];
      ScanSkips(h, s, pos, i + 1);
    }
  }

  lemma UnsafeMisses(h: seq<byte>, m: nat, k: nat)
    requires Clash(h, m, k)
    ensures var s := Missed(h, m, k); Occurs(h, s, |s|) && Scan(h, s, 0, 0) == None
  {
    var s := Missed(h, m, k);
    assert h[..m] == h[..m - k + 1] + h[m - k + 1..m];
    assert h == h[..k - 1] + h[k - 1..];
    assert s == h[..m - k + 1] + h;
    assert s[..m] == h[..m];
    ScanSkips(h, s, m, 0);
    assert s[m] == h[k - 1];
    ScanTooSoon(h, s, m + 1, Step(h, m, s[m]));
  }

  /**
   * The matcher stops exactly at the end of the header's first occurrence, in every stream, if
   * and only if the header is self-safe.
   */
  lemma MatcherExactIffSafe(h: seq<byte>)
    requires h != []
    ensures SelfSafe(h) <==> forall s :: IsFirst(h, s, Scan(h, s, 0, 0))
  {
    if SelfSafe(h) {
      forall s ensures IsFirst(h, s, Scan(h, s, 0, 0)) { SafeIsExact(h, s); }
    } else {
      UnsafeIsNotExact(h);
    }
  }

  lemma SafeIsExact(h: seq<byte>, s: seq<byte>)
    requires h != [] && SelfSafe(h)
    ensures IsFirst(h, s, Scan(h, s, 0, 0))
  {
    assert s[..0] == [];
    NothingMatched(h);
    hide *;
    ScanFindsFirst(h, s, 0, 0);
  }

  lemma UnsafeIsNotExact(h: seq<byte>)
    requires h != [] && !SelfSafe(h)
    ensures exists s :: !IsFirst(h, s, Scan(h, s, 0, 0))
  {
    var m, k :| Clash(h, m, k);
    UnsafeMisses(h, m, k);
    assert !IsFirst(h, Missed(h, m, k), Scan(h, Missed(h, m, k), 0, 0));
  }

  /**
   * The receiving loop of both programs: read bytes until the header is matched or the input
   * runs out. It computes exactly `Scan`, for every header.
   */
  method FindHeader(header: seq<byte>, input: seq<byte>) returns (found: bool, consumed: nat)
    ensures Scan(header, input, 0, 0) == if found then Some(consumed) else None
    ensures !found ==> consumed == |input|
  {
    var matched := 0;
    consumed := 0;
    while matched < |header| && consumed < |input|
      invariant matched <= |header| && consumed <= |input|
      invariant Scan(header, input, 0, 0) == Scan(header, input, consumed, matched)
      decreases |input| - consumed
    {
      var data := input[consumed];
      consumed := consumed + 1;
      if data == header[matched] {
        matched := matched + 1;
      } else {
        matched := if data == header[0] then 1 else 0;
      }
    }
    found := matched == |header|;
  }
}
