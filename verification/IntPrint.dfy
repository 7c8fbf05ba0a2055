// Printing of integers by place value, and reading them back.
module IntPrint {
  import opened Words

  const SIGN: nat := 0x8000_0000

  // ----- arithmetic, kept behind names so that each fact is used where it is needed

  function Mul(a: nat, b: nat): nat { a * b }

  function Div(x: nat, d: nat): nat
    requires d > 0
  {
    x / d
  }

  function Mod(x: nat, d: nat): (r: nat)
    requires d > 0
    ensures r < d
  {
    x % d
  }

  lemma DivMod(x: nat, d: nat)
    requires d > 0
    ensures x == Mul(d, Div(x, d)) + Mod(x, d)
  {
  }

  lemma MulLe(d: nat, a: nat, b: nat)
    requires a <= b
    ensures Mul(d, a) <= Mul(d, b)
  {
  }

  lemma MulSucc(d: nat, a: nat)
    ensures Mul(d, a + 1) == Mul(d, a) + d && Mul(d, 1) == d && Mul(d, 0) == 0
  {
  }

  lemma MulAssoc(a: nat, b: nat, c: nat)
    ensures Mul(Mul(a, b), c) == Mul(a, Mul(b, c))
  {
    assert (a * b) * c == a * (b * c);
  }

  lemma MulAdd(a: nat, b: nat, c: nat)
    ensures Mul(a, b + c) == Mul(a, b) + Mul(a, c)
  {
  }

  lemma DivUnique(x: nat, d: nat, k: nat, r: nat)
    requires d > 0 && x == Mul(d, k) + r && r < d
    ensures Div(x, d) == k && Mod(x, d) == r
  {
    hide Mul, Div, Mod;
    DivMod(x, d);
    var q := Div(x, d);
    if q < k {
      MulSucc(d, q);
      MulLe(d, q + 1, k);
    } else if q > k {
      MulSucc(d, k);
      MulLe(d, k + 1, q);
    }
  }

  lemma MulPositive(a: nat, b: nat)
    requires a > 0 && b > 0
    ensures Mul(a, b) > 0
  {
  }

  /** Dividing by `b` and then by `q` is dividing by their product, and so for the remainders. */
  lemma DivTwice(v: nat, b: nat, q: nat)
    requires b > 0 && q > 0
    ensures Mul(b, q) > 0
    ensures Div(Div(v, b), q) == Div(v, Mul(b, q)) && Mod(Div(v, b), q) == Div(Mod(v, Mul(b, q)), b)
    ensures Mod(Mod(v, Mul(b, q)), b) == Mod(v, b)
  {
    hide Mul, Div, Mod;
    MulPositive(b, q);
    var k, r := Div(v, Mul(b, q)), Mod(v, Mul(b, q));
    var r1, r0 := Div(r, b), Mod(r, b);
    DivMod(v, Mul(b, q));
    DivMod(r, b);
    MulAssoc(b, q, k);
    MulAdd(b, Mul(q, k), r1);
    DivUnique(v, b, Mul(q, k) + r1, r0);
    if r1 >= q { MulLe(b, q, r1); }
    DivUnique(Mul(q, k) + r1, q, k, r1);
  }

  lemma DivBelow(v: nat, b: nat, p: nat)
    requires b > 0 && v < Mul(b, p)
    ensures Div(v, b) < p
  {
    hide Mul, Div, Mod;
    DivMod(v, b);
    if Div(v, b) >= p { MulLe(b, p, Div(v, b)); }
  }

  lemma DivAtLeast(v: nat, b: nat, p: nat)
    requires b > 0 && Mul(b, p) <= v
    ensures p <= Div(v, b)
  {
    hide Mul, Div, Mod;
    DivMod(v, b);
    if Div(v, b) < p { MulLe(b, Div(v, b) + 1, p); MulSucc(b, Div(v, b)); }
  }

  lemma DivShrinks(v: nat, b: nat)
    requires b >= 2 && v >= b
    ensures Div(v, b) < v
  {
  }

  // ----- numerals

  function Pow(b: nat, n: nat): (r: nat)
    requires b > 0
    ensures r > 0
  {
    if n == 0 then 1 else MulPositive(b, Pow(b, n - 1)); Mul(b, Pow(b, n - 1))
  }

  /** The digits of `v`, most significant first, without a leading zero. */
  function Numeral(v: nat, b: nat): (r: seq<nat>)
    requires b >= 2
    ensures r != [] && forall i :: 0 <= i < |r| ==> r[i] < b
  {
    if v < b then [v] else DivShrinks(v, b); Numeral(Div(v, b), b) + [Mod(v, b)]
  }

  /** The number that digits stand for. */
  function Value(ds: seq<nat>, b: nat): nat {
    if ds == [] then 0 else Mul(b, Value(ds[..|ds| - 1], b)) + ds[|ds| - 1]
  }

  lemma {:induction false} ValueOfNumeral(v: nat, b: nat)
    requires b >= 2
    ensures Value(Numeral(v, b), b) == v
  {
    hide Mul, Div, Mod;
    if v >= b {
      DivShrinks(v, b);
      DivMod(v, b);
      ValueOfNumeral(Div(v, b), b);
      assert Numeral(v, b)[..|Numeral(v, b)| - 1] == Numeral(Div(v, b), b);
    } else {
      MulSucc(b, 0);
      assert [v][..0] == [];
    }
  }

  /** Exactly `n` digits. */
  function Fixed(v: nat, b: nat, n: nat): (r: seq<nat>)
    requires b >= 2
    ensures |r| == n && forall i :: 0 <= i < n ==> r[i] < b
    decreases n
  {
    if n == 0 then [] else Fixed(Div(v, b), b, n - 1) + [Mod(v, b)]
  }

  lemma DivSmall(v: nat, b: nat)
    requires v < b
    ensures Div(v, b) == 0 && Mod(v, b) == v && Div(v, 1) == v && Mod(v, 1) == 0
  {
  }

  lemma {:induction false} FixedHead(v: nat, b: nat, n: nat)
    requires b >= 2 && n > 0 && v < Pow(b, n)
    ensures Fixed(v, b, n) == [Div(v, Pow(b, n - 1))] + Fixed(Mod(v, Pow(b, n - 1)), b, n - 1)
    decreases n
  {
    hide Mul, Div, Mod;
    MulSucc(b, 0);
    if n == 1 {
      assert Pow(b, 0) == 1 && Pow(b, 1) == b;
      DivSmall(v, b);
      assert Fixed(v, b, 1) == Fixed(Div(v, b), b, 0) + [Mod(v, b)];
    } else {
      var p := Pow(b, n - 2);
      assert Pow(b, n - 1) == Mul(b, p) && Pow(b, n) == Mul(b, Pow(b, n - 1));
      DivTwice(v, b, p);
      DivBelow(v, b, Pow(b, n - 1));
      FixedHead(Div(v, b), b, n - 1);
      var w := Mod(v, Mul(b, p));
      assert Fixed(w, b, n - 1) == Fixed(Div(w, b), b, n - 2) + [Mod(w, b)];
    }
  }

  /** `n` digits are the numeral when the leading one is not zero. */
  lemma {:induction false} NumeralIsFixed(v: nat, b: nat, n: nat)
    requires b >= 2 && n > 0 && v < Pow(b, n) && (n > 1 ==> Pow(b, n - 1) <= v)
    ensures Numeral(v, b) == Fixed(v, b, n)
    decreases n
  {
    hide Mul, Div, Mod;
    MulSucc(b, 0);
    if n == 1 {
      assert Pow(b, 1) == Mul(b, Pow(b, 0)) == b;
      DivSmall(v, b);
      assert Fixed(v, b, 1) == Fixed(Div(v, b), b, 0) + [Mod(v, b)];
    } else {
      assert Pow(b, n) == Mul(b, Pow(b, n - 1)) && Pow(b, n - 1) == Mul(b, Pow(b, n - 2));
      MulLe(b, 1, Pow(b, n - 2));
      DivBelow(v, b, Pow(b, n - 1));
      DivAtLeast(v, b, Pow(b, n - 2));
      NumeralIsFixed(Div(v, b), b, n - 1);
    }
  }

  // ----- the field

  function DigitChar(d: nat, upper: bool): char
    requires d < 16
  {
    if d <= 9 then '0' + d as char else (if upper then 'A' else 'a') + (d - 10) as char
  }

  function Chars(ds: seq<nat>, upper: bool): (r: string)
    requires forall i :: 0 <= i < |ds| ==> ds[i] < 16
    ensures |r| == |ds|
  {
    if ds == [] then "" else Chars(ds[..|ds| - 1], upper) + [DigitChar(ds[|ds| - 1], upper)]
  }

  function Repeat(c: char, n: int): (r: string)
    ensures |r| == if n > 0 then n else 0
    decreases n
  {
    if n <= 0 then "" else Repeat(c, n - 1) + [c]
  }

  /** How a directive asks for its number to be printed; `width` is -1 when it gives none. */
  datatype Format = Format(base: nat, isSigned: bool, leadingZero: bool, width: int, upper: bool) {
    ghost predicate Valid() {
      base == 8 || base == 10 || base == 16
    }
  }

  predicate Negative(f: Format, v: u32) { f.isSigned && v >= SIGN }

  /** The magnitude that is printed after the sign. */
  function Magnitude(f: Format, v: u32): u32 {
    if Negative(f, v) then WORD - v else v
  }

  /** The number that a 32-bit word stands for under the format: two's complement if signed. */
  function Meaning(f: Format, v: u32): int {
    if f.isSigned then (v + SIGN) % WORD - SIGN else v
  }

  /** What comes before the digits. */
  function Leading(f: Format, sign: string, digits: nat): string {
    var pad := f.width - digits - |sign|;
    if f.leadingZero then sign + Repeat('0', pad) else Repeat(' ', pad) + sign
  }

  function Field(f: Format, v: u32): string
    requires f.Valid()
  {
    var digits := Chars(Numeral(Magnitude(f, v), f.base), f.upper);
    Leading(f, if Negative(f, v) then "-" else "", |digits|) + digits
  }

  /**
   * Every position of the field. The digits stand at the right. With leading zeros a sign comes
   * first and zeros fill up behind it; without, blanks come first and the sign stands right before
   * the digits. A number that is not negative has no sign.
   */
  lemma FieldIs(f: Format, v: u32, i: nat)
    requires f.Valid() && i < |Field(f, v)|
    ensures var s, digits, sign :=
        Field(f, v), Chars(Numeral(Magnitude(f, v), f.base), f.upper), if Negative(f, v) then 1 else 0;
      var pad := |s| - |digits| - sign;
      && |digits| + sign <= |s| && |s| == (if f.width > |digits| + sign then f.width else |digits| + sign)
      && s[|s| - |digits|..] == digits
      && (i < |s| - |digits| ==>
            s[i] == if f.leadingZero then if i < sign then '-' else '0' else if i < pad then ' ' else '-')
  {
    hide Numeral, Magnitude, Chars;
    var digits := Chars(Numeral(Magnitude(f, v), f.base), f.upper);
    var sign := if Negative(f, v) then "-" else "";
    var pad := f.width - |digits| - |sign|;
    var fill := Repeat(if f.leadingZero then '0' else ' ', pad);
    var at := if f.leadingZero then i - |sign| else i;
    if 0 <= at < |fill| { RepeatAt(if f.leadingZero then '0' else ' ', pad, at); }
    hide Negative;
  }

  // ----- reading a field back

  function DigitOf(c: char): int {
    if '0' <= c <= '9' then c as int - '0' as int
    else if 'a' <= c <= 'f' then c as int - 'a' as int + 10
    else if 'A' <= c <= 'F' then c as int - 'A' as int + 10
    else -1
  }

  function Times(a: int, b: int): int { a * b }

  function ReadDigits(s: string, b: nat): int {
    if s == "" then 0 else Times(b, ReadDigits(s[..|s| - 1], b)) + DigitOf(s[|s| - 1])
  }

  /** Skip blanks, then an optional minus sign, then the digits. */
  function Read(s: string, b: nat): int {
    if s != "" && s[0] == ' ' then Read(s[1..], b)
    else if s != "" && s[0] == '-' then -ReadDigits(s[1..], b)
    else ReadDigits(s, b)
  }

  lemma DigitBack(d: nat, upper: bool)
    requires d < 16
    ensures DigitOf(DigitChar(d, upper)) == d && DigitChar(d, upper) != ' ' && DigitChar(d, upper) != '-'
  {
  }

  /** Letters among the digits are of the case asked for. */
  lemma {:induction false} CharsCase(ds: seq<nat>, upper: bool, i: nat)
    requires i < |ds| && forall k :: 0 <= k < |ds| ==> ds[k] < 16
    ensures ds[i] < 10 <==> '0' <= Chars(ds, upper)[i] <= '9'
    ensures ds[i] >= 10 && upper ==> 'A' <= Chars(ds, upper)[i] <= 'F'
    ensures ds[i] >= 10 && !upper ==> 'a' <= Chars(ds, upper)[i] <= 'f'
  {
    if i < |ds| - 1 { CharsCase(ds[..|ds| - 1], upper, i); }
  }

  lemma MulIsTimes(a: nat, b: nat)
    ensures Mul(a, b) == Times(a, b)
  {
  }

  lemma ZeroDigit(b: nat)
    ensures DigitOf('0') == 0 && Times(b, 0) == 0
  {
  }

  lemma {:induction false} CharsBack(ds: seq<nat>, upper: bool, b: nat, zeros: nat)
    requires forall i :: 0 <= i < |ds| ==> ds[i] < 16
    ensures ReadDigits(Repeat('0', zeros) + Chars(ds, upper), b) == Value(ds, b)
    ensures forall i :: 0 <= i < |ds| ==> Chars(ds, upper)[i] != ' ' && Chars(ds, upper)[i] != '-'
    decreases |ds|, zeros
  {
    hide Mul, Times, DigitOf, DigitChar;
    if ds == [] {
      assert Repeat('0', zeros) + Chars(ds, upper) == Repeat('0', zeros);
      ZeroDigit(b);
      if zeros > 0 {
        CharsBack(ds, upper, b, zeros - 1);
        assert Repeat('0', zeros - 1) + Chars(ds, upper) == Repeat('0', zeros - 1);
        assert Repeat('0', zeros)[..zeros - 1] == Repeat('0', zeros - 1);
      }
    } else {
      var init := ds[..|ds| - 1];
      MulIsTimes(b, Value(init, b));
      CharsBack(init, upper, b, zeros);
      DigitBack(ds[|ds| - 1], upper);
      var s := Repeat('0', zeros) + Chars(ds, upper);
      assert s[..|s| - 1] == Repeat('0', zeros) + Chars(init, upper);
    }
  }

  lemma {:induction false} RepeatAt(c: char, n: int, i: nat)
    requires i < |Repeat(c, n)|
    ensures Repeat(c, n)[i] == c
    decreases n
  {
    if i < n - 1 { RepeatAt(c, n - 1, i); }
  }

  lemma {:induction false} SkipBlanks(n: int, s: string, b: nat)
    ensures Read(Repeat(' ', n) + s, b) == Read(s, b)
    decreases n
  {
    if n <= 0 {
      assert Repeat(' ', n) + s == s;
    } else {
      RepeatAt(' ', n, 0);
      forall i | 0 <= i < n - 1 ensures Repeat(' ', n)[1..][i] == Repeat(' ', n - 1)[i] {
        RepeatAt(' ', n, i + 1);
        RepeatAt(' ', n - 1, i);
      }
      assert Repeat(' ', n)[1..] == Repeat(' ', n - 1);
      assert (Repeat(' ', n) + s)[1..] == Repeat(' ', n - 1) + s;
      SkipBlanks(n - 1, s, b);
    }
  }

  lemma ZeroPadded(sign: string, pad: int, digits: string, b: nat)
    requires (sign == "-" || sign == "") && digits != "" && digits[0] != ' ' && digits[0] != '-'
    ensures var n := ReadDigits(Repeat('0', if pad > 0 then pad else 0) + digits, b);
      Read(sign + Repeat('0', pad) + digits, b) == if sign == "-" then -n else n
  {
    hide Read, ReadDigits;
    var body := Repeat('0', pad) + digits;
    if pad > 0 { RepeatAt('0', pad, 0); }
    Regroup(sign, Repeat('0', pad), digits);
    ReadSigned(sign, body, b);
  }

  lemma BlankPadded(sign: string, pad: int, digits: string, b: nat)
    requires (sign == "-" || sign == "") && digits != "" && digits[0] != ' ' && digits[0] != '-'
    ensures var n := ReadDigits(digits, b);
      Read(Repeat(' ', pad) + sign + digits, b) == if sign == "-" then -n else n
  {
    hide Read, ReadDigits, Repeat;
    ReadSigned(sign, digits, b);
    SkipBlanks(pad, sign + digits, b);
    Regroup(Repeat(' ', pad), sign, digits);
  }

  /**
   * Reading a printed field gives back the number, for every word, base, sign mode, width and
   * padding, the smallest integer included; and the field is as wide as asked, or as needed.
   */
  lemma FieldReadsBack(f: Format, v: u32)
    requires f.Valid()
    ensures Read(Field(f, v), f.base) == Meaning(f, v)
    ensures var needed := |Numeral(Magnitude(f, v), f.base)| + if Negative(f, v) then 1 else 0;
      |Field(f, v)| == if f.width > needed then f.width else needed
  {
    hide Numeral, Chars, Value, Read, ReadDigits, Repeat;
    var ds := Numeral(Magnitude(f, v), f.base);
    var digits := Chars(ds, f.upper);
    var sign := if Negative(f, v) then "-" else "";
    var pad := f.width - |digits| - |sign|;
    ValueOfNumeral(Magnitude(f, v), f.base);
    CharsBack(ds, f.upper, f.base, 0);
    NoZeros(digits);
    if f.leadingZero {
      CharsBack(ds, f.upper, f.base, if pad > 0 then pad else 0);
      ZeroPadded(sign, pad, digits, f.base);
    } else {
      BlankPadded(sign, pad, digits, f.base);
    }
  }

  lemma NoZeros(digits: string)
    ensures Repeat('0', 0) + digits == digits
  {
  }

  lemma Regroup(a: string, b: string, c: string)
    ensures a + b + c == a + (b + c)
  {
  }

  lemma ReadSigned(sign: string, body: string, b: nat)
    requires sign == "-" || sign == ""
    requires body != "" && body[0] != ' ' && body[0] != '-'
    ensures Read(sign + body, b) == if sign == "-" then -ReadDigits(body, b) else ReadDigits(body, b)
  {
    if sign == "-" { assert (sign + body)[1..] == body; } else { assert sign + body == body; }
  }

  // ----- the printing routines as written

  class Console {
    var out: string

    constructor ()
      ensures out == ""
    {
      out := "";
    }

    method TxChar(c: char)
      modifies this
      ensures out == old(out) + [c]
    {
      out := out + [c];
    }

    method RepChar(c: char, r: int)
      modifies this
      ensures out == old(out) + Repeat(c, r)
    {
      var k := r;
      ghost var done := 0;
      while k > 0
        invariant if r > 0 then 0 <= k && done == r - k else k == r && done == 0
        invariant out == old(out) + Repeat(c, done)
        decreases k
      {
        RepeatMore(old(out), c, done);
        TxChar(c);
        k, done := k - 1, done + 1;
      }
      if r <= 0 { assert Repeat(c, r) == Repeat(c, 0); }
    }

    /** Leading characters and sign. */
    method Lead(f: Format, sign: bool, digitCount: nat)
      modifies this
      ensures out == old(out) + Leading(f, if sign then "-" else "", digitCount)
    {
      hide Repeat;
      var width := f.width - digitCount;
      if f.leadingZero {
        if sign {
          TxChar('-');
          width := width - 1;
        }
        RepChar('0', width);
      } else {
        if sign { width := width - 1; }
        RepChar(' ', width);
        if sign { TxChar('-'); }
      }
    }

    /** Count the digits and find the largest place value, which never overflows. */
    method LargestPlace(v: u32, base: nat) returns (p: u32, digitCount: nat)
      requires base == 8 || base == 10 || base == 16
      ensures digitCount > 0 && p == Pow(base, digitCount - 1) && v < Pow(base, digitCount)
      ensures digitCount > 1 ==> p <= v
    {
      hide Mul, Div, Mod;
      p, digitCount := 1, 1;
      var shrink: u32 := v / base;
      FirstPlace(v, base);
      while shrink > 0
        invariant digitCount > 0 && p == Pow(base, digitCount - 1) && shrink == Div(v, Pow(base, digitCount))
        invariant digitCount > 1 ==> p <= v
        decreases shrink
      {
        NextPlace(v, base, digitCount);
        p := p * base % WORD;
        shrink := shrink / base;
        digitCount := digitCount + 1;
      }
      DivZero(v, Pow(base, digitCount));
    }

    method PrintInteger(f: Format, word: u32)
      requires f.Valid()
      modifies this
      ensures out == old(out) + Field(f, word)
    {
      hide Mul, Div, Mod, Pow, Fixed, Chars, Repeat, Numeral, Leading;
      var v, sign := word, false;
      if f.isSigned && v >= SIGN {
        v := (WORD - 1 - v + 1) % WORD;
        sign := true;
      }
      var p, digitCount := LargestPlace(v, f.base);
      NumeralIsFixed(v, f.base, digitCount);
      Lead(f, sign, digitCount);
      PrintDigits(v, p, f.base, f.upper, digitCount);
      Regroup(old(out), Leading(f, if sign then "-" else "", digitCount), Chars(Numeral(v, f.base), f.upper));
    }

    /** The shorter printer of hexadecimal numbers: the same digits as the general one. */
    method PrintHex(v: u32)
      modifies this
      ensures out == old(out) + Chars(Numeral(v, 16), false)
      ensures out == old(out) + Field(Format(16, false, false, -1, false), v)
    {
      hide Mul, Div, Mod, Pow, Nibble, DigitChar;
      HexField(v);
      hide Field, Numeral, Chars;
      if v == 0 {
        ZeroNumeral();
        TxChar('0');
        return;
      }
      EightNibbles();
      var k := 7;
      while Nibble(v, k) == 0
        invariant 0 <= k < 8 && v < Pow(16, k + 1) && out == old(out)
        decreases k
      {
        LeadingNibble(v, k);
        PowZero();
        k := k - 1;
      }
      LeadingNibble(v, k);
      NibblesAre(v, k, 0);
      ghost var digits := Numeral(v, 16);
      var j := k;
      NoDigits(old(out), digits[..k - j]);
      while j >= 0
        invariant -1 <= j <= k && out == old(out) + Chars(digits[..k - j], false)
      {
        NibblesAre(v, k, j);
        OneMoreDigit(old(out), digits[..k - j], Nibble(v, j), false);
        assert digits[..k - j + 1] == digits[..k - j] + [Nibble(v, j)];
        TxChar(DigitChar(Nibble(v, j), false));
        j := j - 1;
      }
      assert digits[..k + 1] == digits;
    }

    /** The digits, by place value. */
    method PrintDigits(number: u32, place: u32, base: nat, upper: bool, ghost n: nat)
      requires base == 8 || base == 10 || base == 16
      requires n > 0 && place == Pow(base, n - 1) && number < Pow(base, n)
      modifies this
      ensures out == old(out) + Chars(Fixed(number, base, n), upper)
    {
      hide Mul, Div, Mod, Pow, Fixed, Chars, DigitChar;
      var v: u32, p: u32 := number, place;
      ghost var left: nat := n;
      ghost var done: seq<nat> := [];
      StartDigits(old(out), number, base, n, upper);
      while p > 0
        invariant p == (if left > 0 then Pow(base, left - 1) else 0) && v < Pow(base, left)
        invariant DigitsBelow(done, 16) && done + Fixed(v, base, left) == Fixed(number, base, n)
        invariant out == old(out) + Chars(done, upper)
        decreases left
      {
        var d := Div(v, p);
        DigitStep(v, p, base, left, done);
        OneMoreDigit(old(out), done, d, upper);
        TxChar(DigitChar(d, upper));
        done := done + [d];
        v := Mod(v, p);
        p := Div(p, base);
        left := left - 1;
      }
      EndDigits(v, base, left, done);
    }
  }

  /** Hexadecimal digit `k` of `v`, counted from the least significant: a mask and a shift. */
  function Nibble(v: nat, k: nat): (r: nat)
    ensures r < 16
  {
    Mod(Div(v, Pow(16, k)), 16)
  }

  lemma {:induction false} FixedAt(v: nat, b: nat, n: nat, i: nat)
    requires b >= 2 && i < n
    ensures Fixed(v, b, n)[i] == Mod(Div(v, Pow(b, n - 1 - i)), b)
    decreases n
  {
    hide Mul, Div, Mod;
    if i == n - 1 {
      DivSmall(0, 1);
      DivByOne(v);
    } else {
      FixedAt(Div(v, b), b, n - 1, i);
      var q := Pow(b, n - 2 - i);
      assert Pow(b, n - 1 - i) == Mul(b, q);
      DivTwice(v, b, q);
    }
  }

  lemma DivByOne(v: nat)
    ensures Div(v, 1) == v
  {
  }

  lemma EightNibbles()
    ensures Pow(16, 8) == WORD
  {
    assert Pow(16, 2) == 256 && Pow(16, 4) == 65536 && Pow(16, 6) == 0x100_0000;
  }

  /** A zero digit at the top means that the number fits in one digit less. */
  lemma LeadingNibble(v: nat, k: nat)
    requires v < Pow(16, k + 1)
    ensures Nibble(v, k) == 0 <==> v < Pow(16, k)
  {
    var p := Pow(16, k);
    assert Pow(16, k + 1) == Mul(16, p);
    hide Mul, Div, Mod, Pow;
    MulCommutes(16, p);
    DivBelow(v, p, 16);
    DivSmall(Div(v, p), 16);
    if v < p { DivSmall(v, p); } else { MulSucc(p, 0); DivAtLeast(v, p, 1); }
  }

  /** The digits from `k` down to zero are the numeral when digit `k` leads it. */
  lemma NibblesAre(v: nat, k: nat, i: nat)
    requires i <= k && v < Pow(16, k + 1) && (k > 0 ==> Pow(16, k) <= v)
    ensures |Numeral(v, 16)| == k + 1 && Numeral(v, 16)[k - i] == Nibble(v, i)
  {
    NumeralIsFixed(v, 16, k + 1);
    FixedAt(v, 16, k + 1, k - i);
  }

  ghost predicate DigitsBelow(ds: seq<nat>, b: nat) {
    forall i :: 0 <= i < |ds| ==> ds[i] < b
  }

  lemma RepeatMore(s: string, c: char, n: nat)
    ensures s + Repeat(c, n) + [c] == s + Repeat(c, n + 1)
  {
  }

  lemma FirstPlace(v: nat, b: nat)
    requires b > 0
    ensures Pow(b, 0) == 1 && Pow(b, 1) == b && v / b == Div(v, b)
  {
    assert Pow(b, 1) == Mul(b, Pow(b, 0));
  }

  lemma NextPlace(v: nat, b: nat, n: nat)
    requires b > 0 && n > 0 && Div(v, Pow(b, n)) > 0
    ensures Pow(b, n - 1) * b == Pow(b, n) <= v
    ensures Div(v, Pow(b, n)) / b == Div(v, Pow(b, n + 1))
  {
    var p := Pow(b, n);
    assert p == Pow(b, n - 1) * b && Mul(p, b) == Pow(b, n + 1) by { assert Pow(b, n + 1) == Mul(b, p); }
    DivTwice(v, p, b);
    DivMod(v, p);
    hide Mul, Div, Mod, Pow;
    MulLe(p, 1, Div(v, p));
    MulSucc(p, 0);
    DivIs(Div(v, p), b);
  }

  lemma DivIs(x: nat, d: nat)
    requires d > 0
    ensures x / d == Div(x, d) && x % d == Mod(x, d)
  {
  }

  lemma DivZero(v: nat, d: nat)
    requires d > 0 && Div(v, d) == 0
    ensures v < d
  {
  }

  /** One digit of the printing loop: the quotient, then the rest at the next lower place. */
  lemma DigitStep(v: nat, p: nat, b: nat, left: nat, done: seq<nat>)
    requires b >= 2 && left > 0 && p == Pow(b, left - 1) && v < Pow(b, left)
    ensures Div(v, p) < b && Div(p, b) <= p
    ensures done + Fixed(v, b, left) == (done + [Div(v, p)]) + Fixed(Mod(v, p), b, left - 1)
    ensures Div(p, b) == if left > 1 then Pow(b, left - 2) else 0
  {
    hide Mul, Div, Mod, Fixed;
    FixedHead(v, b, left);
    if left > 1 {
      MulSucc(b, 0);
      DivUnique(p, b, Pow(b, left - 2), 0);
      MulCommutes(b, Pow(b, left - 2));
      MulLe(Pow(b, left - 2), 1, b);
      MulSucc(Pow(b, left - 2), 0);
    } else {
      DivSmall(1, b);
    }
    MulCommutes(b, p);
    DivBelow(v, p, b);
  }

  lemma MulCommutes(a: nat, b: nat)
    ensures Mul(a, b) == Mul(b, a)
  {
  }

  lemma StartDigits(s: string, v: nat, b: nat, n: nat, upper: bool)
    requires b >= 2
    ensures s + Chars([], upper) == s && [] + Fixed(v, b, n) == Fixed(v, b, n)
  {
  }

  lemma OneMoreDigit(s: string, done: seq<nat>, d: nat, upper: bool)
    requires DigitsBelow(done, 16) && d < 16
    ensures DigitsBelow(done + [d], 16)
    ensures s + Chars(done, upper) + [DigitChar(d, upper)] == s + Chars(done + [d], upper)
  {
    assert (done + [d])[..|done|] == done;
  }

  lemma EndDigits(v: nat, b: nat, left: nat, done: seq<nat>)
    requires b >= 2 && (if left > 0 then Pow(b, left - 1) else 0) == 0
    ensures done + Fixed(v, b, left) == done
  {
  }

  lemma HexField(v: u32)
    ensures Field(Format(16, false, false, -1, false), v) == Chars(Numeral(v, 16), false)
  {
  }

  lemma ZeroNumeral()
    ensures Chars(Numeral(0, 16), false) == "0"
  {
    assert Numeral(0, 16) == [0];
    assert [0][..0] == [];
    assert Chars([], false) == "";
  }

  lemma PowZero()
    ensures Pow(16, 0) == 1
  {
  }

  lemma NoDigits(s: string, ds: seq<nat>)
    requires |ds| == 0
    ensures s + Chars(ds, false) == s
  {
  }
}
