/** The Ethernet/IPv4/TCP frames the proxy builds and parses, and their Internet checksums. */
module TcpFrame {
  import opened Basics
  import opened Arith

  function Be16(x: U16): (b: seq<Byte>)
    ensures |b| == 2
  {
    [x / 256, x % 256]
  }

  function Be32(x: U32): (b: seq<Byte>)
    ensures |b| == 4
  {
    [x / 0x100_0000, x / 0x1_0000 % 256, x / 256 % 256, x % 256]
  }

  function FromBe16(hi: Byte, lo: Byte): U16 { 256 * hi + lo }

  function FromBe32(b: seq<Byte>): U32
    requires |b| == 4
  {
    0x100_0000 * (b[0] as int) + 0x1_0000 * (b[1] as int) + 256 * (b[2] as int) + b[3]
  }

  // ---------------------------------------------------------------------------
  // Internet checksum (section 1 of RFC 1071)
  // ---------------------------------------------------------------------------

  /** Sum of the big-endian 16-bit words, an odd last byte padded with zero. */
  function WordSum(data: seq<Byte>): nat {
    if data == [] then 0
    else if |data| == 1 then 256 * data[0]
    else FromBe16(data[0], data[1]) + WordSum(data[2..])
  }

  /** End-around carry until 16 bits remain. */
  function Fold(sum: nat): (r: U16) {
    if sum <= 0xFFFF then sum else Fold(sum % 0x1_0000 + sum / 0x1_0000)
  }

  /** Folding keeps the sum modulo 65535 and keeps zero apart from the other multiples. */
  lemma {:induction false} FoldIsResidue(sum: nat)
    ensures Fold(sum) <= sum && (sum - Fold(sum)) % 0xFFFF == 0
    ensures Fold(sum) == 0 <==> sum == 0
  {
    if sum > 0xFFFF {
      var next := sum % 0x1_0000 + sum / 0x1_0000;
      FoldIsResidue(next);
      assert sum - Fold(sum) == (next - Fold(next)) + 0xFFFF * (sum / 0x1_0000);
      DivAddMultiple(0xFFFF, sum / 0x1_0000, next - Fold(next));
    }
  }

  /** Data that holds the complement of the sum of the rest sums to all ones. */
  lemma ComplementCancels(sum: nat)
    ensures Fold(sum + (0xFFFF - Fold(sum))) == 0xFFFF
  {
    FoldIsResidue(sum);
    var total := sum + (0xFFFF - Fold(sum));
    FoldIsResidue(total);
    DivAddMultiple(0xFFFF, 1, sum - Fold(sum));
    assert total % 0xFFFF == 0;
    var f := Fold(total);
    assert total == 0xFFFF * (total / 0xFFFF) && total - f == 0xFFFF * ((total - f) / 0xFFFF);
    assert f == 0xFFFF * (total / 0xFFFF - (total - f) / 0xFFFF);
  }

  lemma {:induction false} WordSumAppend(a: seq<Byte>, b: seq<Byte>)
    requires |a| % 2 == 0
    ensures WordSum(a + b) == WordSum(a) + WordSum(b)
    decreases |a|
  {
    if a == [] {
      assert a + b == b;
    } else {
      WordSumAppend(a[2..], b);
      assert (a + b)[2..] == a[2..] + b;
    }
  }

  lemma {:induction false} WordSumBound(data: seq<Byte>)
    ensures WordSum(data) <= 0xFFFF * ((|data| + 1) / 2)
    decreases |data|
  {
    if |data| >= 2 { WordSumBound(data[2..]); }
  }

  // ---------------------------------------------------------------------------
  // The sum as a residue of the data read as one number
  // ---------------------------------------------------------------------------

  /** The data with a zero byte after an odd last one. */
  function Padded(data: seq<Byte>): seq<Byte> { if |data| % 2 == 1 then data + [0] else data }

  lemma {:induction false} PaddingKeepsSum(data: seq<Byte>)
    ensures WordSum(Padded(data)) == WordSum(data)
    decreases |data|
  {
    if |data| >= 2 {
      PaddingKeepsSum(data[2..]);
      assert Padded(data)[2..] == Padded(data[2..]);
    } else if |data| == 1 {
      assert Padded(data)[2..] == [];
    }
  }

  lemma FoldResidue(sum: nat)
    ensures sum % 0xFFFF == Fold(sum) % 0xFFFF
  {
    FoldIsResidue(sum);
    DivAddMultiple(0xFFFF, (sum - Fold(sum)) / 0xFFFF, Fold(sum));
  }

  /** Numbers with the same residue modulo 65535 fold alike, if both are zero or neither. */
  lemma SameFold(a: nat, b: nat)
    requires a % 0xFFFF == b % 0xFFFF && (a == 0 <==> b == 0)
    ensures Fold(a) == Fold(b)
  {
    FoldResidue(a);
    FoldResidue(b);
    FoldIsResidue(a);
    FoldIsResidue(b);
  }

  lemma ResidueOfSum(n: nat, m: nat, w: nat)
    requires n % 0xFFFF == m % 0xFFFF
    ensures (n + w) % 0xFFFF == (m + w) % 0xFFFF
  {
  }

  /** 2^16 is 1 modulo 65535. */
  lemma FoldCarries(n: nat, m: nat, w: nat)
    requires Fold(n) == Fold(m)
    ensures Fold(0x1_0000 * n + w) == Fold(m + w)
  {
    FoldResidue(n);
    FoldResidue(m);
    FoldIsResidue(n);
    FoldIsResidue(m);
    ResidueOfSum(n, m, w);
    DivAddMultiple(0xFFFF, n, n + w);
    SameFold(0x1_0000 * n + w, m + w);
  }

  lemma LastWord(data: seq<Byte>)
    requires |data| >= 2 && |data| % 2 == 0
    ensures var n := |data| - 2; var front, word := data[..n], FromBe16(data[n], data[n + 1]);
            WordSum(data) == WordSum(front) + word && BigEndian(data) == 0x1_0000 * BigEndian(front) + word
  {
    var n := |data| - 2;
    assert data[..n] + data[n..] == data && data[n..][2..] == [];
    WordSumAppend(data[..n], data[n..]);
    assert data[..n + 1][..n] == data[..n];
    assert BigEndian(data) == 256 * BigEndian(data[..n + 1]) + data[n + 1];
  }

  lemma {:induction false} EvenSumIsNumber(data: seq<Byte>)
    requires |data| % 2 == 0
    ensures Fold(WordSum(data)) == Fold(BigEndian(data))
    decreases |data|
  {
    if data != [] {
      var n := |data| - 2;
      EvenSumIsNumber(data[..n]);
      LastWord(data);
      FoldCarries(BigEndian(data[..n]), WordSum(data[..n]), FromBe16(data[n], data[n + 1]));
    }
  }

  /** The checksum of the data is that of the padded data read as one number. */
  lemma ChecksumOfNumber(data: seq<Byte>)
    ensures Checksum(WordSum(data)) == Checksum(BigEndian(Padded(data)))
  {
    PaddingKeepsSum(data);
    EvenSumIsNumber(Padded(data));
  }

  /** A 16-bit field at an even offset adds its value to the sum. */
  lemma FieldInSum(before: seq<Byte>, field: U16, after: seq<Byte>)
    requires |before| % 2 == 0
    ensures WordSum(before + Be16(field) + after) == WordSum(before + Be16(0) + after) + field
  {
    WordSumAppend(before + Be16(field), after);
    WordSumAppend(before, Be16(field));
    WordSumAppend(before + Be16(0), after);
    WordSumAppend(before, Be16(0));
    assert Be16(field)[2..] == [] && Be16(0)[2..] == [];
  }

  function Checksum(sum: nat): U16 { 0xFFFF - Fold(sum) }

  /** Sum of the pseudo-header of a TCP segment, its length cut to 32 bits. */
  function PseudoSum(src: seq<Byte>, dst: seq<Byte>, len: nat): nat
    requires |src| == 4 && |dst| == 4
  {
    FromBe16(src[0], src[1]) + FromBe16(src[2], src[3]) + FromBe16(dst[0], dst[1]) + FromBe16(dst[2], dst[3])
    + 6 + len % TWO32
  }

  /** The 12 bytes of the pseudo-header of a segment (section 3.1 of RFC 793): the addresses, a zero, the protocol
      and the length. */
  predicate PseudoHeader(h: seq<Byte>, src: seq<Byte>, dst: seq<Byte>, len: nat) {
    |h| == 12 && h[..4] == src && h[4..8] == dst && h[8] == 0 && h[9] == 6 && BigEndian(h[10..]) == len
  }

  lemma PseudoHeaderSum(h: seq<Byte>, src: seq<Byte>, dst: seq<Byte>, len: nat)
    requires |src| == 4 && |dst| == 4 && PseudoHeader(h, src, dst, len)
    ensures WordSum(h) == PseudoSum(src, dst, len)
  {
    assert h == src + (dst + h[8..]);
    WordSumAppend(src, dst + h[8..]);
    WordSumAppend(dst, h[8..]);
    FourBytes(src);
    FourBytes(dst);
    FourBytes(h[8..]);
    TwoBytes(h[10..]);
  }

  lemma ShortSumFits32(data: seq<Byte>)
    requires |data| <= 131_074
    ensures WordSum(data) < TWO32
  {
    WordSumBound(data);
  }

  lemma SumAsNumber(sum: nat, whole: seq<Byte>)
    requires sum == WordSum(whole) && |whole| <= 131_074
    ensures sum < TWO32 && Checksum(sum) == Checksum(BigEndian(Padded(whole)))
  {
    ShortSumFits32(whole);
    ChecksumOfNumber(whole);
  }

  /** The sum over a segment that IPv4 can carry is that of the bytes of its pseudo-header followed by its own, and
      does not wrap; by `ChecksumOfNumber` the checksum is that of those bytes read as one number. */
  lemma PseudoHeaderIsSummed(src: seq<Byte>, dst: seq<Byte>, segment: seq<Byte>, h: seq<Byte>)
    requires |src| == 4 && |dst| == 4 && PseudoHeader(h, src, dst, |segment|)
    ensures PseudoSum(src, dst, |segment|) + WordSum(segment) == WordSum(h + segment) < TWO32
  {
    assert |segment| < 0x1_0000 by { TwoBytes(h[10..]); }
    PseudoHeaderSum(h, src, dst, |segment|);
    WordSumAppend(h, segment);
    ShortSumFits32(h + segment);
  }

  lemma FourBytes(b: seq<Byte>)
    requires |b| == 4
    ensures WordSum(b) == FromBe16(b[0], b[1]) + FromBe16(b[2], b[3])
  {
    assert WordSum(b[2..]) == FromBe16(b[2], b[3]) by { assert b[2..][2..] == []; }
  }

  lemma WrappedAdd(a: nat, b: nat)
    ensures (a % TWO32 + b) % TWO32 == (a + b) % TWO32
  {
  }

  /** Adds the words of `data` in a 32-bit accumulator that wraps. */
  method AddWords(data: seq<Byte>, start: U32) returns (sum: U32)
    ensures sum == (start + WordSum(data)) % TWO32
  {
    sum := start;
    var i := 0;
    while i + 1 < |data|
      invariant 0 <= i <= |data|
      invariant (sum + WordSum(data[i..])) % TWO32 == (start + WordSum(data)) % TWO32
    {
      assert data[i..][2..] == data[i + 2..];
      WrappedAdd(sum + FromBe16(data[i], data[i + 1]), WordSum(data[i + 2..]));
      sum := (sum + FromBe16(data[i], data[i + 1])) % TWO32;
      i := i + 2;
    }
    if i < |data| {
      assert data[i..] == [data[i]];
      sum := (sum + 256 * (data[i] as int)) % TWO32;
    } else {
      assert data[i..] == [];
    }
  }

  method FoldLoop(start: U32) returns (sum: U16)
    ensures sum == Fold(start)
  {
    var s := start;
    while s > 0xFFFF
      invariant Fold(s) == Fold(start)
    {
      s := s % 0x1_0000 + s / 0x1_0000;
    }
    sum := s;
  }

  /** Up to 131074 bytes the accumulator cannot wrap. */
  method ComputeChecksum(data: seq<Byte>) returns (c: U16)
    ensures c == Checksum(WordSum(data) % TWO32)
    ensures |data| <= 131_074 ==> c == Checksum(WordSum(data))
    ensures |data| <= 131_074 ==> c == Checksum(BigEndian(Padded(data)))
  {
    if |data| <= 131_074 { SumAsNumber(WordSum(data), data); }
    var sum := AddWords(data, 0);
    var folded := FoldLoop(sum);
    c := 0xFFFF - folded;
  }

  method ComputeTcpChecksum(src: seq<Byte>, dst: seq<Byte>, segment: seq<Byte>) returns (c: U16)
    requires |src| == 4 && |dst| == 4
    ensures c == Checksum((PseudoSum(src, dst, |segment|) + WordSum(segment)) % TWO32)
  {
    var pseudo := PseudoSum(src, dst, |segment|);
    WrappedAdd(pseudo, WordSum(segment));
    var sum := AddWords(segment, pseudo % TWO32);
    var folded := FoldLoop(sum);
    c := 0xFFFF - folded;
  }

  // ---------------------------------------------------------------------------
  // Frames
  // ---------------------------------------------------------------------------

  const GATEWAY_MAC: seq<Byte> := [0x52, 0x54, 0x00, 0x12, 0x34, 0x56]

  /** What `build_tcp_packet` is given. */
  datatype Fields = Fields(dstMac: seq<Byte>, dstIp: seq<Byte>, dstPort: U16, srcIp: seq<Byte>, srcPort: U16,
                           seqNum: U32, ackNum: U32, flags: Byte, payload: seq<Byte>)
  {
    predicate Ok() { |dstMac| == 6 && |dstIp| == 4 && |srcIp| == 4 }
  }

  function EthernetHeader(f: Fields): seq<Byte> { f.dstMac + GATEWAY_MAC + [0x08, 0x00] }

  function IpHeader(f: Fields, checksum: U16): seq<Byte> {
    IpStart(f) + Be16(checksum) + f.srcIp + f.dstIp
  }

  function IpStart(f: Fields): (s: seq<Byte>)
    ensures |s| == 10
  {
    [0x45, 0] + Be16((40 + |f.payload|) % 0x1_0000) + [0, 0, 0x40, 0x00, 64, 6]
  }

  function TcpStart(f: Fields): (s: seq<Byte>)
    ensures |s| == 16
  {
    Be16(f.srcPort) + Be16(f.dstPort) + Be32(f.seqNum) + Be32(f.ackNum) + [0x50, f.flags] + Be16(8192)
  }

  function TcpSegment(f: Fields, checksum: U16): seq<Byte> {
    TcpStart(f) + Be16(checksum) + [0, 0] + f.payload
  }

  function IpChecksum(f: Fields): U16 { Checksum(WordSum(IpHeader(f, 0))) }

  /** Sum of pseudo-header and segment. */
  function TcpSum(f: Fields, checksum: U16): nat
    requires f.Ok()
  {
    PseudoSum(f.srcIp, f.dstIp, 20 + |f.payload|) + WordSum(TcpSegment(f, checksum))
  }

  function TcpChecksum(f: Fields): U16
    requires f.Ok()
  {
    Checksum(TcpSum(f, 0) % TWO32)
  }

  /** The finished frame. */
  function Frame(f: Fields): seq<Byte>
    requires f.Ok()
  {
    EthernetHeader(f) + IpHeader(f, IpChecksum(f)) + TcpSegment(f, TcpChecksum(f))
  }

  lemma IpChecksumVerifies(f: Fields)
    requires f.Ok()
    ensures Checksum(WordSum(IpHeader(f, IpChecksum(f)))) == 0
  {
    var c := IpChecksum(f);
    assert WordSum(IpHeader(f, c)) == WordSum(IpHeader(f, 0)) + c by {
      assert forall x: U16 :: IpHeader(f, x) == IpStart(f) + Be16(x) + (f.srcIp + f.dstIp);
      FieldInSum(IpStart(f), c, f.srcIp + f.dstIp);
    }
    ComplementCancels(WordSum(IpHeader(f, 0)));
  }

  /** Folds to all ones exactly when it is a positive multiple of 65535. */
  lemma FoldIsOnesIff(total: nat)
    requires total > 0
    ensures Fold(total) == 0xFFFF <==> total % 0xFFFF == 0
  {
    FoldIsResidue(total);
    var f := Fold(total);
    assert total == 0xFFFF * ((total - f) / 0xFFFF) + f;
    DivAddMultiple(0xFFFF, (total - f) / 0xFFFF, f);
  }

  /** Each wrap of the accumulator loses one, modulo 65535. */
  lemma WrappedComplementIff(sum: nat)
    ensures Fold(sum + (0xFFFF - Fold(sum % TWO32))) == 0xFFFF <==> sum / TWO32 % 0xFFFF == 0
  {
    var w, s := sum / TWO32, sum % TWO32;
    FoldIsResidue(s);
    var m := (s - Fold(s)) / 0xFFFF;
    var total := sum + (0xFFFF - Fold(s));
    assert total == 0xFFFF * (0x1_0001 * w + m + 1) + w;
    DivAddMultiple(0xFFFF, 0x1_0001 * w + m + 1, w);
    FoldIsOnesIff(total);
  }

  lemma TcpChecksumVerifiesIff(f: Fields)
    requires f.Ok()
    ensures Checksum(TcpSum(f, TcpChecksum(f))) == 0 <==> TcpSum(f, 0) / TWO32 % 0xFFFF == 0
  {
    var c := TcpChecksum(f);
    assert WordSum(TcpSegment(f, c)) == WordSum(TcpSegment(f, 0)) + c by {
      assert forall x: U16 :: TcpSegment(f, x) == TcpStart(f) + Be16(x) + ([0, 0] + f.payload);
      FieldInSum(TcpStart(f), c, [0, 0] + f.payload);
    }
    WrappedComplementIff(TcpSum(f, 0));
  }

  /** A payload of up to 130000 bytes, twice what IPv4 allows, cannot wrap the accumulator. */
  lemma ShortSumFits(f: Fields)
    requires f.Ok() && |f.payload| <= 130_000
    ensures TcpSum(f, 0) < TWO32
  {
    WordSumBound(TcpSegment(f, 0));
  }

  function Ones(n: nat): seq<Byte> { seq(n, _ => 0xFF) }

  lemma {:induction false} OnesSum(k: nat)
    ensures WordSum(Ones(2 * k)) == 0xFFFF * k
  {
    if k > 0 {
      OnesSum(k - 1);
      assert Ones(2 * k)[2..] == Ones(2 * (k - 1));
    }
  }

  lemma OneWrap(sum: nat)
    requires TWO32 <= sum < 2 * TWO32
    ensures sum / TWO32 == 1
  {
  }

  /** With 140000 bytes of ones the accumulator wraps once. */
  lemma LongSumWraps(f: Fields, k: nat)
    requires f.Ok() && k == 70_000 && f.payload == Ones(2 * k)
    ensures TcpSum(f, 0) / TWO32 == 1
  {
    assert WordSum(TcpSegment(f, 0)) == WordSum(TcpSegment(f, 0)[..20]) + 0xFFFF * k by {
      assert TcpSegment(f, 0)[..20] + f.payload == TcpSegment(f, 0);
      WordSumAppend(TcpSegment(f, 0)[..20], f.payload);
      OnesSum(k);
    }
    WordSumBound(TcpSegment(f, 0)[..20]);
    OneWrap(TcpSum(f, 0));
  }

  /** What `handle_tcp` reads from a frame. */
  datatype Parsed =
    | TooShort
    | Parsed(srcMac: seq<Byte>, srcIp: seq<Byte>, dstIp: seq<Byte>, srcPort: U16, dstPort: U16,
             seqNum: U32, ackNum: U32, syn: bool, ack: bool, fin: bool, rst: bool, payload: seq<Byte>)

  /** The fields of a segment, from its first byte on. */
  function ParseSegment(srcMac: seq<Byte>, srcIp: seq<Byte>, dstIp: seq<Byte>, s: seq<Byte>): Parsed
    requires |s| >= 20
  {
    var flags, start := s[13], (s[12] / 16) as int * 4;
    Parsed(srcMac, srcIp, dstIp, FromBe16(s[0], s[1]), FromBe16(s[2], s[3]), FromBe32(s[4..8]), FromBe32(s[8..12]),
           flags / 2 % 2 == 1, flags / 16 % 2 == 1, flags % 2 == 1, flags / 4 % 2 == 1,
           if |s| > start then s[start..] else [])
  }

  function Parse(frame: seq<Byte>): Parsed {
    if |frame| < 54 then TooShort
    else
      var tcp := 14 + (frame[14] % 16) as int * 4;
      if |frame| < tcp + 20 then TooShort
      else ParseSegment(frame[6..12], frame[26..30], frame[30..34], frame[tcp..])
  }

  /** Fields are numbers written most significant byte first. */
  lemma BigEndianFields(x: U16, y: U32, b: seq<Byte>)
    requires |b| == 4
    ensures BigEndian(Be16(x)) == x && BigEndian(Be32(y)) == y
    ensures FromBe16(b[0], b[1]) == BigEndian(b[..2]) && FromBe32(b) == BigEndian(b)
  {
    TwoBytes(Be16(x));
    TwoBytes(b[..2]);
    BigEndianOfFour(b);
    BigEndianOfFour(Be32(y));
    BigEndianRoundTrip(x, y);
  }

  lemma TwoBytes(b: seq<Byte>)
    requires |b| == 2
    ensures BigEndian(b) == FromBe16(b[0], b[1])
  {
    assert b[..1][..0] == [];
    assert BigEndian(b[..1]) == 256 * BigEndian(b[..1][..0]) + b[0];
  }

  lemma BigEndianOfFour(b: seq<Byte>)
    requires |b| == 4
    ensures FromBe32(b) == BigEndian(b)
  {
    TwoBytes(b[..2]);
    assert b[..3][..2] == b[..2];
    assert BigEndian(b[..3]) == 256 * BigEndian(b[..3][..2]) + b[2];
  }

  lemma BigEndianRoundTrip(x: U16, y: U32)
    ensures FromBe16(Be16(x)[0], Be16(x)[1]) == x
    ensures FromBe32(Be32(y)) == y
  {
    assert y == 256 * (y / 256) + y % 256;
    assert y / 256 == 256 * (y / 0x1_0000) + y / 256 % 256;
    assert y / 0x1_0000 == 256 * (y / 0x100_0000) + y / 0x1_0000 % 256;
  }

  /** Where the fields lie in a built frame. */
  lemma FrameLayout(f: Fields)
    requires f.Ok()
    ensures var frame := Frame(f);
            && |frame| == 54 + |f.payload|
            && frame[6..12] == GATEWAY_MAC && frame[14] == 0x45
            && frame[14..34] == IpHeader(f, IpChecksum(f)) && frame[26..30] == f.srcIp && frame[30..34] == f.dstIp
            && frame[34..] == TcpSegment(f, TcpChecksum(f))
  {
  }

  lemma EthernetReads(f: Fields)
    requires f.Ok()
    ensures var e := EthernetHeader(f);
            |e| == 14 && e[..6] == f.dstMac && e[6..12] == GATEWAY_MAC && BigEndian(e[12..]) == 0x0800
  {
    TwoBytes(EthernetHeader(f)[12..]);
  }

  lemma IpReads(f: Fields)
    ensures var s, len := IpStart(f), 40 + |f.payload|;
            && s[0] / 16 == 4 && s[0] % 16 * 4 == 20 && s[9] == 6 && s[6] / 64 == 1 && BigEndian(s[6..8]) % 0x2000 == 0
            && (BigEndian(s[2..4]) == len <==> len < 0x1_0000)
  {
    TwoBytes(IpStart(f)[2..4]);
    TwoBytes(IpStart(f)[6..8]);
  }

  lemma TcpReads(f: Fields)
    ensures var s := TcpStart(f); s[12] / 16 * 4 == 20 && s[13] == f.flags && BigEndian(s[14..]) == 8192
  {
    TwoBytes(TcpStart(f)[14..]);
  }

  lemma PortsRead(f: Fields)
    ensures var s := TcpStart(f);
            && BigEndian(s[..2]) == f.srcPort && BigEndian(s[2..4]) == f.dstPort
            && BigEndian(s[4..8]) == f.seqNum && BigEndian(s[8..12]) == f.ackNum
  {
    var s := TcpStart(f);
    assert s[..2] == Be16(f.srcPort) && s[2..4] == Be16(f.dstPort);
    assert s[4..8] == Be32(f.seqNum) && s[8..12] == Be32(f.ackNum);
    BigEndianFields(f.srcPort, f.seqNum, s[4..8]);
    BigEndianFields(f.dstPort, f.ackNum, s[8..12]);
  }

  lemma FrameParts(f: Fields)
    requires f.Ok()
    ensures |Frame(f)| == 54 + |f.payload|
    ensures Frame(f)[..14] == EthernetHeader(f) && Frame(f)[14..24] == IpStart(f) && Frame(f)[34..50] == TcpStart(f)
    ensures Frame(f)[26..30] == f.srcIp && Frame(f)[30..34] == f.dstIp && Frame(f)[54..] == f.payload
  {
    FrameLayout(f);
    assert Frame(f)[14..24] == Frame(f)[14..34][..10] && Frame(f)[34..50] == Frame(f)[34..][..16];
    assert Frame(f)[54..] == Frame(f)[34..][20..];
  }

  /** What a receiver reads in the headers of a built frame: addressed to the VM, an IPv4 header of 20 bytes that may
      not be fragmented and carries TCP, the length of the datagram exactly if 16 bits hold it, the addresses, and a
      TCP header of 20 bytes with ports, numbers, flags and window where RFC 793 puts them, and then the payload. */
  lemma HeadersRead(f: Fields)
    requires f.Ok()
    ensures |Frame(f)| == 54 + |f.payload|
    ensures var e := Frame(f)[..14];
            e[..6] == f.dstMac && e[6..12] == GATEWAY_MAC && BigEndian(e[12..]) == 0x0800
    ensures var ip, len := Frame(f)[14..24], |Frame(f)| - 14;
            && ip[0] / 16 == 4 && ip[0] % 16 * 4 == 20 && ip[9] == 6
            && ip[6] / 64 == 1 && BigEndian(ip[6..8]) % 0x2000 == 0
            && (BigEndian(ip[2..4]) == len <==> len < 0x1_0000)
    ensures Frame(f)[26..30] == f.srcIp && Frame(f)[30..34] == f.dstIp && Frame(f)[54..] == f.payload
    ensures var tcp := Frame(f)[34..50];
            && BigEndian(tcp[..2]) == f.srcPort && BigEndian(tcp[2..4]) == f.dstPort
            && BigEndian(tcp[4..8]) == f.seqNum && BigEndian(tcp[8..12]) == f.ackNum
            && tcp[12] / 16 * 4 == 20 && tcp[13] == f.flags && BigEndian(tcp[14..]) == 8192
  {
    FrameParts(f);
    PortsRead(f);
    EthernetReads(f);
    IpReads(f);
    TcpReads(f);
  }

  /** The IP checksum of a built frame verifies: recomputed over the finished header it gives zero. So does the
      TCP checksum, exactly when its sum wrapped a multiple of 65535 times: never, for up to 130000 bytes. */
  lemma ChecksumsVerify(f: Fields)
    requires f.Ok()
    ensures |Frame(f)| == 54 + |f.payload|
    ensures Checksum(WordSum(Frame(f)[14..34])) == 0
    ensures Checksum(PseudoSum(f.srcIp, f.dstIp, |Frame(f)[34..]|) + WordSum(Frame(f)[34..])) == 0
            <==> TcpSum(f, 0) / TWO32 % 0xFFFF == 0
    ensures |f.payload| <= 130_000 ==> TcpSum(f, 0) / TWO32 == 0
  {
    FrameLayout(f);
    IpChecksumVerifies(f);
    TcpChecksumVerifiesIff(f);
    if |f.payload| <= 130_000 { ShortSumFits(f); }
  }

  /** 140000 bytes of ones: the TCP checksum of the frame does not verify. */
  lemma LongPayloadFails(f: Fields, k: nat)
    requires f.Ok() && k == 70_000 && f.payload == Ones(2 * k)
    ensures |Frame(f)| == 54 + 2 * k
    ensures Checksum(PseudoSum(f.srcIp, f.dstIp, |Frame(f)[34..]|) + WordSum(Frame(f)[34..])) != 0
  {
    LongSumWraps(f, k);
    ChecksumsVerify(f);
  }

  lemma SegmentLayout(f: Fields, c: U16)
    ensures var s := TcpSegment(f, c);
            && |s| == 20 + |f.payload|
            && s[0..2] == Be16(f.srcPort) && s[2..4] == Be16(f.dstPort)
            && s[4..8] == Be32(f.seqNum) && s[8..12] == Be32(f.ackNum)
            && s[12] == 0x50 && s[13] == f.flags && s[20..] == f.payload
  {
  }

  /** What the parser should find in a frame built from these fields. */
  function Sent(f: Fields): Parsed {
    var bits := FlagsOf(f.flags);
    Parsed(GATEWAY_MAC, f.srcIp, f.dstIp, f.srcPort, f.dstPort, f.seqNum, f.ackNum,
           bits.syn, bits.ack, bits.fin, bits.rst, f.payload)
  }

  lemma ParseInvertsSegment(f: Fields, c: U16)
    ensures |TcpSegment(f, c)| >= 20 && ParseSegment(GATEWAY_MAC, f.srcIp, f.dstIp, TcpSegment(f, c)) == Sent(f)
  {
    SegmentLayout(f, c);
    var s := TcpSegment(f, c);
    BigEndianRoundTrip(f.srcPort, f.seqNum);
    BigEndianRoundTrip(f.dstPort, f.ackNum);
    assert s[0] == s[0..2][0] && s[1] == s[0..2][1] && s[2] == s[2..4][0] && s[3] == s[2..4][1];
  }

  /** The parser recovers from a built frame everything that went into it. */
  lemma ParseInvertsFrame(f: Fields)
    requires f.Ok()
    ensures Parse(Frame(f)) == Sent(f)
  {
    FrameLayout(f);
    ParseInvertsSegment(f, TcpChecksum(f));
  }

  /** `copy_from_slice` into a part of the frame; nothing from `rest` on is touched. */
  method Put(frame: array<Byte>, at: nat, bytes: seq<Byte>, ghost rest: nat)
    requires at + |bytes| <= rest <= frame.Length
    modifies frame
    ensures frame[..at + |bytes|] == old(frame[..at]) + bytes
    ensures frame[rest..] == old(frame[rest..])
  {
    for k := 0 to |bytes|
      invariant frame[..at + k] == old(frame[..at]) + bytes[..k]
      invariant frame[rest..] == old(frame[rest..])
    {
      frame[at + k] := bytes[k];
    }
  }

  /** Writes `bytes` over a part of the frame whose surroundings are known. */
  method Patch(frame: array<Byte>, at: nat, field: U16, ghost before: seq<Byte>, ghost after: seq<Byte>)
    requires at + 2 <= frame.Length && |before| == at && frame[..] == before + Be16(0) + after
    modifies frame
    ensures frame[..] == before + Be16(field) + after
  {
    frame[at], frame[at + 1] := field / 256, field % 256;
  }

  method WriteIpStart(frame: array<Byte>, f: Fields)
    requires frame.Length >= 34
    modifies frame
    ensures frame[..24] == old(frame[..14]) + IpStart(f) && frame[34..] == old(frame[34..])
  {
    Put(frame, 14, [0x45, 0], 34);
    Put(frame, 16, Be16((40 + |f.payload|) % 0x1_0000), 34);
    Put(frame, 18, [0, 0, 0x40, 0x00, 64, 6], 34);
    assert frame[..24] == old(frame[..14]) + IpStart(f);
  }

  /** The header with a zero checksum field. */
  method WriteIpUnsummed(frame: array<Byte>, f: Fields)
    requires f.Ok() && frame.Length >= 34
    modifies frame
    ensures frame[..34] == old(frame[..14]) + IpHeader(f, 0) && frame[34..] == old(frame[34..])
  {
    ghost var start := frame[..14] + IpStart(f);
    WriteIpStart(frame, f);
    Put(frame, 24, [0, 0], 34);
    Put(frame, 26, f.srcIp, 34);
    Put(frame, 30, f.dstIp, 34);
    assert frame[..34] == start + [0, 0] + f.srcIp + f.dstIp;
  }

  lemma IpHeaderAround(f: Fields, front: seq<Byte>, c: U16, tail: seq<Byte>)
    ensures front + IpHeader(f, c) + tail == (front + IpStart(f)) + Be16(c) + (f.srcIp + f.dstIp + tail)
    ensures (front + IpHeader(f, c))[|front|..] == IpHeader(f, c)
  {
  }

  method WriteIpHeader(frame: array<Byte>, f: Fields)
    requires f.Ok() && frame.Length == 54 + |f.payload|
    modifies frame
    ensures frame[..] == old(frame[..14]) + IpHeader(f, IpChecksum(f)) + old(frame[34..])
  {
    ghost var front, tail := frame[..14], frame[34..];
    WriteIpUnsummed(frame, f);
    IpHeaderAround(f, front, 0, tail);
    assert frame[..] == frame[..34] + frame[34..] && frame[14..34] == frame[..34][14..];
    var c := ComputeChecksum(frame[14..34]);
    Patch(frame, 24, c, front + IpStart(f), f.srcIp + f.dstIp + tail);
    IpHeaderAround(f, front, c, tail);
  }

  method WriteTcpStart(frame: array<Byte>, f: Fields)
    requires frame.Length >= 54
    modifies frame
    ensures frame[..50] == old(frame[..34]) + TcpStart(f)
  {
    Put(frame, 34, Be16(f.srcPort), frame.Length);
    Put(frame, 36, Be16(f.dstPort), frame.Length);
    Put(frame, 38, Be32(f.seqNum), frame.Length);
    Put(frame, 42, Be32(f.ackNum), frame.Length);
    Put(frame, 46, [0x50, f.flags], frame.Length);
    Put(frame, 48, Be16(8192), frame.Length);
    assert frame[..50] == old(frame[..34]) + TcpStart(f);
  }

  /** The segment with a zero checksum field. */
  method WriteTcpUnsummed(frame: array<Byte>, f: Fields)
    requires f.Ok() && frame.Length == 54 + |f.payload|
    modifies frame
    ensures frame[..] == old(frame[..34]) + TcpSegment(f, 0)
  {
    ghost var start := frame[..34] + TcpStart(f);
    WriteTcpStart(frame, f);
    Put(frame, 50, [0, 0], frame.Length);
    Put(frame, 52, [0, 0], frame.Length);
    Put(frame, 54, f.payload, frame.Length);
    assert frame[..] == frame[..54 + |f.payload|] == start + [0, 0] + [0, 0] + f.payload;
  }

  lemma SegmentAround(f: Fields, front: seq<Byte>, c: U16)
    ensures front + TcpSegment(f, c) == (front + TcpStart(f)) + Be16(c) + ([0, 0] + f.payload)
    ensures (front + TcpSegment(f, c))[|front|..] == TcpSegment(f, c)
  {
  }

  method WriteTcpSegment(frame: array<Byte>, f: Fields)
    requires f.Ok() && frame.Length == 54 + |f.payload|
    modifies frame
    ensures frame[..] == old(frame[..34]) + TcpSegment(f, TcpChecksum(f))
  {
    ghost var start := frame[..34] + TcpStart(f);
    WriteTcpUnsummed(frame, f);
    assert frame[34..] == frame[..][34..];
    var c := ComputeTcpChecksum(f.srcIp, f.dstIp, frame[34..]);
    SegmentAround(f, old(frame[..34]), 0);
    Patch(frame, 50, c, start, [0, 0] + f.payload);
    SegmentAround(f, old(frame[..34]), c);
  }

  /** `build_tcp_packet`. */
  method BuildTcpPacket(f: Fields) returns (frame: array<Byte>)
    requires f.Ok()
    ensures fresh(frame) && frame[..] == Frame(f)
  {
    frame := new Byte[54 + |f.payload|](_ => 0);
    Put(frame, 0, f.dstMac, 14);
    Put(frame, 6, GATEWAY_MAC, 14);
    Put(frame, 12, [0x08, 0x00], 14);
    assert frame[..14] == EthernetHeader(f);
    WriteIpHeader(frame, f);
    assert frame[..34] == EthernetHeader(f) + IpHeader(f, IpChecksum(f));
    WriteTcpSegment(frame, f);
  }
}
