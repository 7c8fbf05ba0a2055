// What the two programs of the USB test say to each other: headers, checksummed packets, reply.
module UsbFormat {
  import opened Words

  const COUNT: nat := 10000

  function Ascii(text: string): (r: seq<byte>)
    requires forall i :: 0 <= i < |text| ==> text[i] as int < 128
    ensures |r| == |text| && forall i :: 0 <= i < |text| ==> r[i] == text[i] as int
  {
    seq(|text|, i requires 0 <= i < |text| => text[i] as int)
  }

  const START: seq<byte> := Ascii("START\n")
  const NIOS2PC: seq<byte> := Ascii("NIOS2PC\n")
  const PC2NIOS: seq<byte> := Ascii("PC2NIOS\n")
  const VERDICT: seq<byte> := Ascii("NIOS_RX PASS")
  const NEWLINE: byte := 10

  lemma Headers()
    ensures |START| == 6 && |NIOS2PC| == 8 && |PC2NIOS| == 8
    ensures forall i :: 0 <= i < 6 ==> START[i] != PC2NIOS[0]
  {
  }

  function Sum(s: seq<byte>): nat {
    if s == [] then 0 else Sum(s[..|s| - 1]) + s[|s| - 1]
  }

  function Checksum(s: seq<byte>): byte {
    Sum(s) % 256
  }

  lemma {:induction false} SumOfBoth(a: seq<byte>, b: seq<byte>)
    ensures Sum(a + b) == Sum(a) + Sum(b)
    decreases |b|
  {
    if b == [] {
      assert a + b == a;
    } else {
      assert (a + b)[..|a + b| - 1] == a + b[..|b| - 1];
      SumOfBoth(a, b[..|b| - 1]);
    }
  }

  lemma SumOfOne(b: byte)
    ensures Sum([b]) == b && Sum([]) == 0
  {
    assert [b][..0] == [];
  }

  /** The checksum is the low byte of the sum: 0 of nothing, a byte of itself, and it adds up. */
  lemma ChecksumLaws(a: seq<byte>, b: seq<byte>, c: byte)
    ensures Checksum([]) == 0 && Checksum([c]) == c
    ensures Checksum(a + b) == (Checksum(a) + Checksum(b)) % 256
  {
    SumOfOne(c);
    SumOfBoth(a, b);
    AddLowBytes(Sum(a), Sum(b));
  }

  lemma AddLowBytes(m: nat, n: nat)
    ensures (m + n) % 256 == (m % 256 + n % 256) % 256
  {
  }

  /** Changing any one byte, at any place and to any other value, changes the checksum. */
  lemma ChangeIsCaught(s: seq<byte>, i: nat, b: byte)
    requires i < |s| && s[i] != b
    ensures Checksum(s[i := b]) != Checksum(s)
  {
    var front, back := s[..i], s[i + 1..];
    assert s == front + [s[i]] + back && s[i := b] == front + [b] + back;
    SumOfBoth(front + [s[i]], back);
    SumOfBoth(front + [b], back);
    SumOfBoth(front, [s[i]]);
    SumOfBoth(front, [b]);
    SumOfOne(s[i]);
    SumOfOne(b);
    Apart(Sum(front) + Sum(back), s[i], b);
  }

  lemma Apart(m: nat, a: byte, b: byte)
    requires a != b
    ensures (m + a) % 256 != (m + b) % 256
  {
  }

  function Packet(header: seq<byte>, payload: seq<byte>): seq<byte> {
    header + payload + [Checksum(payload)]
  }

  lemma PacketAt(header: seq<byte>, payload: seq<byte>, i: nat)
    requires i <= |header| + |payload|
    ensures |Packet(header, payload)| == |header| + |payload| + 1
    ensures Packet(header, payload)[i] ==
            if i < |header| then header[i]
            else if i < |header| + |payload| then payload[i - |header|]
            else Checksum(payload)
  {
    hide Checksum;
  }

  function HexDigit(v: nat): byte
    requires v < 16
  {
    if v < 10 then 48 + v else 55 + v
  }

  function Hex(b: byte): seq<byte> {
    [HexDigit(b / 16), HexDigit(b % 16)]
  }

  function ReplyText(pass: bool): (r: seq<byte>)
    ensures |r| == 32
  {
    if pass then Ascii("NIOS_RX PASS count=10000 calc=0x") else Ascii("NIOS_RX FAIL count=10000 calc=0x")
  }

  // ----- the reply, in five pieces whose writes are not looked at

  /** The pieces of the reply to `data` followed by the checksum `crc`. */
  function Piece(data: seq<byte>, crc: byte, piece: nat): (r: seq<byte>)
    requires piece < 5
    ensures |r| == Length(piece)
  {
    match piece
    case 0 => ReplyText(Checksum(data) == crc)
    case 1 => Hex(Checksum(data))
    case 2 => Ascii(" pc=0x")
    case 3 => Hex(crc)
    case 4 => Ascii("\r\n")
  }

  function Length(piece: nat): nat
    requires piece < 5
  {
    match piece case 0 => 32 case 1 => 2 case 2 => 6 case 3 => 2 case 4 => 2
  }

  /** How much of each piece got out: a write that times out ends its piece. */
  datatype Cut = Cut(head: nat, computed: nat, middle: nat, received: nat, tail: nat) {
    ghost predicate Valid() {
      head <= 32 && computed <= 2 && middle <= 6 && received <= 2 && tail <= 2
    }

    function Of(piece: nat): nat
      requires piece < 5
    {
      match piece case 0 => head case 1 => computed case 2 => middle case 3 => received case 4 => tail
    }

    /** One more byte of the piece. */
    function Plus(piece: nat): Cut
      requires piece < 5
    {
      match piece
      case 0 => this.(head := head + 1)
      case 1 => this.(computed := computed + 1)
      case 2 => this.(middle := middle + 1)
      case 3 => this.(received := received + 1)
      case 4 => this.(tail := tail + 1)
    }

    /** Nothing of the pieces after `piece` is out. */
    ghost predicate UpTo(piece: nat) {
      forall k :: piece < k < 5 ==> Of(k) == 0
    }

    /** The pieces before `piece` are out completely. */
    ghost predicate Full(piece: nat) {
      forall k :: 0 <= k < piece && k < 5 ==> Of(k) == Length(k)
    }
  }

  const NOTHING: Cut := Cut(0, 0, 0, 0, 0)

  function Reply(cut: Cut, data: seq<byte>, crc: byte): seq<byte>
    requires cut.Valid()
  {
    Piece(data, crc, 0)[..cut.head] + Piece(data, crc, 1)[..cut.computed] + Piece(data, crc, 2)[..cut.middle]
    + Piece(data, crc, 3)[..cut.received] + Piece(data, crc, 4)[..cut.tail]
  }

  lemma FiveParts(a: seq<byte>, b: seq<byte>, c: seq<byte>, d: seq<byte>, e: seq<byte>, x: seq<byte>)
    ensures a + b + c + d + (e + x) == a + b + c + d + e + x
    ensures e == [] ==> a + b + c + (d + x) + e == a + b + c + d + e + x
    ensures d == [] && e == [] ==> a + b + (c + x) + d + e == a + b + c + d + e + x
    ensures c == [] && d == [] && e == [] ==> a + (b + x) + c + d + e == a + b + c + d + e + x
    ensures b == [] && c == [] && d == [] && e == [] ==> (a + x) + b + c + d + e == a + b + c + d + e + x
  {
  }

  /** One more byte of the current piece is one more byte of the reply. */
  lemma ReplyGrows(cut: Cut, data: seq<byte>, crc: byte, piece: nat)
    requires cut.Valid() && piece < 5 && cut.UpTo(piece) && cut.Of(piece) < Length(piece)
    ensures cut.Plus(piece).Valid() && cut.Plus(piece).UpTo(piece)
    ensures Reply(cut.Plus(piece), data, crc) == Reply(cut, data, crc) + [Piece(data, crc, piece)[cut.Of(piece)]]
  {
    hide Piece;
    assert forall k :: piece < k < 5 ==> cut.Of(k) == 0 && cut.Plus(piece).Of(k) == 0;
    assert cut.Of(1) == cut.computed && cut.Of(2) == cut.middle && cut.Of(3) == cut.received && cut.Of(4) == cut.tail;
    var p := Piece(data, crc, piece);
    var n := cut.Of(piece);
    assert p[..n + 1] == p[..n] + [p[n]];
    FiveParts(Piece(data, crc, 0)[..cut.head], Piece(data, crc, 1)[..cut.computed], Piece(data, crc, 2)[..cut.middle],
              Piece(data, crc, 3)[..cut.received], Piece(data, crc, 4)[..cut.tail], [p[n]]);
  }

  lemma NoReply(data: seq<byte>, crc: byte)
    ensures Reply(NOTHING, data, crc) == []
  {
  }

  /** The reply is as long as what got out of its pieces. */
  lemma ReplyLength(cut: Cut, data: seq<byte>, crc: byte)
    requires cut.Valid()
    ensures |Reply(cut, data, crc)| == cut.head + cut.computed + cut.middle + cut.received + cut.tail
  {
    hide Piece;
  }

  function DecimalValue(s: seq<byte>): int
    decreases |s|
  {
    if s == [] then 0 else 10 * DecimalValue(s[..|s| - 1]) + s[|s| - 1] - 48
  }

  lemma OneDigitMore(s: seq<byte>, c: byte)
    ensures DecimalValue(s + [c]) == 10 * DecimalValue(s) + c - 48
  {
    assert (s + [c])[..|s|] == s;
  }

  lemma CountInReply(pass: bool)
    ensures ReplyText(pass)[19..24] == [] + [49] + [48] + [48] + [48] + [48]
  {
  }

  /** The reply names the number of bytes of a payload. */
  lemma ReplyNamesCount(pass: bool)
    ensures DecimalValue(ReplyText(pass)[19..24]) == COUNT
  {
    hide ReplyText, Ascii;
    CountInReply(pass);
    OneDigitMore([], 49);
    OneDigitMore([49], 48);
    OneDigitMore([49] + [48], 48);
    OneDigitMore([49] + [48] + [48], 48);
    OneDigitMore([49] + [48] + [48] + [48], 48);
  }

  function HexValue(c: byte): int {
    if 48 <= c <= 57 then c - 48 else if 65 <= c <= 70 then c - 55 else -1
  }

  /** The two digits of a checksum in the reply read back as its value, in upper case. */
  lemma HexReadsBack(b: byte)
    ensures 16 * HexValue(Hex(b)[0]) + HexValue(Hex(b)[1]) == b
  {
  }

  ghost predicate Contains(text: seq<byte>, word: seq<byte>) {
    exists i :: ContainsAt(text, word, i)
  }

  ghost predicate ContainsAt(text: seq<byte>, word: seq<byte>, i: int) {
    0 <= i <= |text| - |word| && text[i..i + |word|] == word
  }
}
