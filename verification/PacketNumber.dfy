/** Packet numbers on the wire: the low bytes only, and their recovery from the next number expected. */
module PacketNumber {
  import opened Words
  import opened Modular
  import opened Bytes

  /** Writes the low bytes of a packet number, most significant first. */
  method Encode(packetNumber: u64, length: nat, buffer: array<byte>)
    requires 1 <= length <= 4 && length <= buffer.Length
    modifies buffer
    ensures buffer[..length] == ToBE(packetNumber, length)
    ensures buffer[length..] == old(buffer[length..])
  {
    var bytes := ToLE(packetNumber, 8);
    for i := 0 to length
      invariant forall j :: length - i <= j < length ==> buffer[j] == bytes[length - 1 - j]
      invariant buffer[length..] == old(buffer[length..])
    {
      buffer[length - i - 1] := bytes[i];
    }
    forall j | 0 <= j < length ensures buffer[j] == ToBE(packetNumber, length)[j] {
      BytesMirror(packetNumber, length, length - 1 - j);
      LowBytes(packetNumber, length, 8, length - 1 - j);
    }
  }

  /** Overwrites the low bytes of a number already in place with bytes most significant first. */
  method Decode(length: nat, buffer: array<byte>, initial: u64) returns (packetNumber: u64)
    requires 1 <= length <= 4 && length <= buffer.Length
    ensures Pow(256, length) > 0
    ensures packetNumber == initial / Pow(256, length) * Pow(256, length) + FromBE(buffer[..length])
  {
    var bytes := ToLE(initial, 8);
    for i := 0 to length
      invariant |bytes| == 8
      invariant forall j :: 0 <= j < i ==> bytes[j] == buffer[length - 1 - j]
      invariant forall j :: i <= j < 8 ==> bytes[j] == ToLE(initial, 8)[j]
    {
      bytes := bytes[i := buffer[length - i - 1]];
    }
    var low, high := bytes[..length], bytes[length..];
    assert bytes == low + high && high == ToLE(initial, 8)[length..];
    FromLEConcat(low, high);
    FromLEMirror(low, buffer[..length]);
    EightBytes();
    HighBytes(initial, 8, length);
    FromLEBound(bytes);
    packetNumber := FromLE(bytes);
  }

  lemma EightBytes()
    ensures Pow(256, 8) == TWO_64
  {
    assert Pow(256, 2) == 65536;
    PowAdd(256, 2, 2);
    PowAdd(256, 4, 4);
  }

  /** What is written is read back as the number's residue. */
  lemma {:induction false} WireRoundTrip(packetNumber: nat, length: nat)
    ensures Pow(256, length) > 0
    ensures FromBE(ToBE(packetNumber, length)) == packetNumber % Pow(256, length)
    decreases length
  {
    if length > 0 {
      WireRoundTrip(packetNumber / 256, length - 1);
      assert ToBE(packetNumber, length)[..length - 1] == ToBE(packetNumber / 256, length - 1);
      RemainderByDigits(packetNumber, Pow(256, length - 1));
    }
  }

  lemma RemainderByDigits(v: nat, p: nat)
    requires p > 0
    ensures v % (256 * p) == 256 * (v / 256 % p) + v % 256
  {
    var q, r := v / 256 / p, v / 256 % p;
    assert v == q * (256 * p) + (256 * r + v % 256) by {
      assert v / 256 == q * p + r;
      assert 256 * (q * p) == q * (256 * p);
    }
    RemainderIsUnique(v, q, 256 * r + v % 256, 256 * p);
  }

  // ---- Decompression

  /** The distance between numbers with the same low bytes: one more than the largest compressed number. */
  function Window(bytes: nat): (w: nat)
    ensures w > 0 && (bytes > 0 ==> w % 2 == 0)
  {
    PowMonotone(256, 0, bytes);
    Pow(256, bytes)
  }

  /** The expected number with its low bytes replaced: the mask keeps its high bytes, and the compressed number, being
      shorter than the window, fills the bits the mask cleared. */
  function Candidate(expected: u64, compressed: u64, bytes: nat): int {
    expected / Window(bytes) * Window(bytes) + compressed
  }

  /** Moves the candidate by one window if that brings it closer to the expected number; the sum wraps at 64 bits. */
  function MoveCloser(packetNumber: int, expected: int, inc: int): int {
    if packetNumber < expected then
      var high := expected - packetNumber;
      var low := inc - high;
      if low >= high then packetNumber
      else if packetNumber + inc >= TWO_64 then packetNumber + inc - TWO_64 else packetNumber + inc
    else
      var low := packetNumber - expected;
      var high := inc - low;
      if high <= low && packetNumber >= inc then packetNumber - inc else packetNumber
  }

  function Decompress(expected: u64, compressed: u64, bytes: nat): u64
    requires bytes < 8 && compressed < Window(bytes)
  {
    CandidateIsNear(expected, compressed, bytes);
    MoveCloser(Candidate(expected, compressed, bytes), expected, Window(bytes))
  }

  lemma CandidateIsNear(expected: u64, compressed: u64, bytes: nat)
    requires bytes < 8 && compressed < Window(bytes)
    ensures var c := Candidate(expected, compressed, bytes);
            && 0 <= c && expected - Window(bytes) < c < expected + Window(bytes)
            && c % Window(bytes) == compressed
            && c < TWO_64
  {
    hide Window;
    var inc := Window(bytes);
    WindowDividesWord(bytes);
    NearMultiple(expected, compressed, inc, TWO_64 / inc);
  }

  lemma WindowDividesWord(bytes: nat)
    requires bytes < 8
    ensures TWO_64 / Window(bytes) * Window(bytes) == TWO_64
  {
    EightBytes();
    PowAdd(256, 8 - bytes, bytes);
    RemainderIsUnique(TWO_64, Pow(256, 8 - bytes), 0, Window(bytes));
  }

  /** Replacing the remainder of a number below k * w leaves it there, less than w away. */
  lemma NearMultiple(x: nat, r: nat, w: nat, k: nat)
    requires w > 0 && r < w && x < k * w
    ensures var c := x / w * w + r;
            0 <= c && x - w < c < x + w && c % w == r && c < k * w
  {
    var q := x / w;
    RemainderIsUnique(q * w + r, q, r, w);
    QuotientBelow(q, k, w, x);
  }

  lemma QuotientBelow(q: nat, k: nat, w: nat, x: nat)
    requires w > 0 && q * w <= x < k * w
    ensures q * w + w <= k * w
  {
    var d := k - q;
    assert d * w == k * w - q * w;
    ProductBound(d - 1, w);
    assert (d - 1) * w == d * w - w;
    ProductBound(d, w);
  }

  function Distance(a: int, b: int): nat {
    if a >= b then a - b else b - a
  }

  /** Numbers with the same low bytes as the candidate are whole windows away from it. */
  lemma WholeWindowsAway(c: int, p: int, w: nat)
    requires w > 0 && c % w == p % w
    ensures p == c || p >= c + w || p <= c - w
  {
    var d := p / w - c / w;
    assert p - c == d * w;
    assert d >= 1 ==> d * w >= w;
    assert d <= -1 ==> d * w <= -1 * w;
  }

  lemma WindowFits(bytes: nat)
    requires bytes < 8
    ensures Window(bytes) <= 0x100_0000_0000_0000
  {
    PowMonotone(256, bytes, 7);
    assert Pow(256, 1) == 256;
    PowAdd(256, 1, 1);
    PowAdd(256, 2, 1);
    PowAdd(256, 3, 4);
    PowAdd(256, 2, 2);
  }

  /** For expected packet numbers of 62 bits, decompression returns the number with the given low bytes that is closest
      to the expected one, among all of them that are not negative; of two at the same distance, the lower. */
  lemma DecompressIsClosest(expected: u64, compressed: u64, bytes: nat, other: nat)
    requires 1 <= bytes < 8 && compressed < Window(bytes) && expected < TWO_62
    requires other % Window(bytes) == compressed
    ensures var r := Decompress(expected, compressed, bytes);
            && r % Window(bytes) == compressed
            && (r == other || Distance(r, expected) < Distance(other, expected)
                || (Distance(r, expected) == Distance(other, expected) && r < other))
  {
    hide Window, Decompress;
    var w, r := Window(bytes), Decompress(expected, compressed, bytes);
    DecompressHasLowBytes(expected, compressed, bytes);
    WholeWindowsAway(r, other, w);
  }

  /** The result has the given low bytes and lies within half a window of the expected number, at the lower end
      inclusively; or it is the smallest such number. */
  lemma DecompressHasLowBytes(expected: u64, compressed: u64, bytes: nat)
    requires 1 <= bytes < 8 && compressed < Window(bytes) && expected < TWO_62
    ensures var r, w := Decompress(expected, compressed, bytes), Window(bytes);
            && r % w == compressed
            && ((expected <= r + w / 2 && r < expected + w / 2) || (r < w && r >= expected + w / 2))
  {
    hide Window, Candidate, MoveCloser;
    var w, c := Window(bytes), Candidate(expected, compressed, bytes);
    CandidateIsNear(expected, compressed, bytes);
    WindowFits(bytes);
    MoveCloserLands(c, expected, w);
    AddMultiple(c, 1, w);
    AddMultiple(c, -1, w);
  }

  lemma MoveCloserLands(c: int, expected: int, w: int)
    requires 0 <= c && expected - w < c < expected + w && w % 2 == 0 && w <= 0x100_0000_0000_0000
    requires 0 <= expected < TWO_62
    ensures var r := MoveCloser(c, expected, w);
            && (r == c || r == c + w || r == c - w)
            && ((expected <= r + w / 2 && r < expected + w / 2) || (r < w && r >= expected + w / 2))
  {
  }

  /** For expected packet numbers of 64 bits the result still has the given low bytes; where it is not the closest number,
      2^64 more than it is. */
  lemma DecompressWraps(expected: u64, compressed: u64, bytes: nat)
    requires 1 <= bytes < 8 && compressed < Window(bytes)
    ensures var r, w := Decompress(expected, compressed, bytes), Window(bytes);
            && r % w == compressed
            && exists p: int :: (p == r || p == r + TWO_64)
                 && p % w == compressed
                 && ((expected <= p + w / 2 && p < expected + w / 2) || (p < w && p >= expected + w / 2))
  {
    hide Window, Candidate, MoveCloser;
    var w, c := Window(bytes), Candidate(expected, compressed, bytes);
    CandidateIsNear(expected, compressed, bytes);
    WindowFits(bytes);
    WindowDividesWord(bytes);
    AddMultiple(c, 1, w);
    AddMultiple(c, -1, w);
    var p := MoveCloserWraps(c, expected, w);
    WordLess(p, w);
    assert p % w == compressed;
  }

  lemma WordLess(p: int, w: nat)
    requires w > 0 && TWO_64 / w * w == TWO_64
    ensures (p - TWO_64) % w == p % w
  {
    var q := TWO_64 / w;
    assert -q * w == -TWO_64;
    AddMultiple(p, -q, w);
  }

  lemma MoveCloserWraps(c: int, expected: int, w: int) returns (p: int)
    requires 0 <= c < TWO_64 && expected - w < c < expected + w && w % 2 == 0 && 0 < w <= 0x100_0000_0000_0000
    requires 0 <= expected < TWO_64
    ensures var r := MoveCloser(c, expected, w);
            && (p == c || p == c + w || p == c - w)
            && (p == r || p == r + TWO_64)
            && ((expected <= p + w / 2 && p < expected + w / 2) || (p < w && p >= expected + w / 2))
  {
    var r := MoveCloser(c, expected, w);
    p := if r == c || r == c - w || r == c + w then r else r + TWO_64;
  }

  /** So every packet number in the half-open window around the expected one is recovered from its low bytes. */
  lemma DecompressRecovers(expected: u64, packetNumber: u64, compressed: u64, bytes: nat)
    requires 1 <= bytes < 8 && expected < TWO_62
    requires compressed < Window(bytes) && compressed == packetNumber % Window(bytes)
    requires expected - Window(bytes) / 2 <= packetNumber < expected + Window(bytes) / 2
    ensures Decompress(expected, compressed, bytes) == packetNumber
  {
    hide Window, Decompress;
    DecompressHasLowBytes(expected, compressed, bytes);
    WholeWindowsAway(packetNumber, Decompress(expected, compressed, bytes), Window(bytes));
  }

  /** The sample algorithm of appendix A.3 of RFC 9000, from the candidate on. */
  function RfcMove(candidate: int, expected: int, window: int): int {
    var half := window / 2;
    if candidate <= expected - half && candidate < TWO_62 - window then candidate + window
    else if candidate > expected + half && candidate >= window then candidate - window
    else candidate
  }

  function RfcDecode(expected: u64, truncated: u64, bytes: nat): int {
    RfcMove(expected / Window(bytes) * Window(bytes) + truncated, expected, Window(bytes))
  }

  /** The code and that algorithm agree except at a tie, which the code resolves downward and the algorithm upward, and
      just below 2^62, which the algorithm will not cross. */
  lemma AgreesWithRfcExactlyWhen(expected: u64, compressed: u64, bytes: nat)
    requires 1 <= bytes < 8 && compressed < Window(bytes) && expected < TWO_62
    ensures var w, c := Window(bytes), Candidate(expected, compressed, bytes);
            Decompress(expected, compressed, bytes) == RfcDecode(expected, compressed, bytes)
            <==> !( || (c + w / 2 == expected && c < TWO_62 - w)
                    || (c == expected + w / 2 && c >= w)
                    || (c + w / 2 < expected && c >= TWO_62 - w))
  {
    hide Window, MoveCloser, RfcMove;
    CandidateIsNear(expected, compressed, bytes);
    WindowFits(bytes);
    MovesAgreeExactlyWhen(Candidate(expected, compressed, bytes), expected, Window(bytes));
  }

  lemma MovesAgreeExactlyWhen(c: int, expected: int, w: int)
    requires 0 <= c && expected - w < c < expected + w && w % 2 == 0 && w <= 0x100_0000_0000_0000
    requires 0 <= expected < TWO_62
    ensures MoveCloser(c, expected, w) == RfcMove(c, expected, w)
            <==> !( || (c + w / 2 == expected && c < TWO_62 - w)
                    || (c == expected + w / 2 && c >= w)
                    || (c + w / 2 < expected && c >= TWO_62 - w))
  {
  }

  /** The whole path: the low bytes written for a packet number in the window are read into a cleared number and
      decompressed to it. */
  method SendAndReceive(expected: u64, packetNumber: u64, length: nat) returns (received: u64)
    requires 1 <= length <= 4 && expected < TWO_62
    requires expected - Window(length) / 2 <= packetNumber < expected + Window(length) / 2
    ensures received == packetNumber
  {
    var wire := new byte[length];
    Encode(packetNumber, length, wire);
    var compressed := Decode(length, wire, 0);
    WireRoundTrip(packetNumber, length);
    DecompressRecovers(expected, packetNumber, compressed, length);
    received := Decompress(expected, compressed, length);
  }
}
