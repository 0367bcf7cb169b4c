/** Variable-length integers (section 16 of RFC 9000): the two high bits of the first byte give the length. */
module VarInt {
  import opened Words
  import opened Modular
  import opened Bytes

  /** QuicVarIntSize */
  function Size(value: nat): (n: nat)
    ensures n == 1 || n == 2 || n == 4 || n == 8
  {
    if value < 0x40 then 1 else if value < 0x4000 then 2 else if value < 0x4000_0000 then 4 else 8
  }

  /** The length tag of an encoding of n bytes, as a number above the bits left for the value. */
  function Tag(n: nat): nat
    requires n == 1 || n == 2 || n == 4 || n == 8
  {
    if n == 1 then 0 else if n == 2 then 0x4000 else if n == 4 then 0x8000_0000 else 0xc000_0000_0000_0000
  }

  /** How many values n bytes can hold. */
  function Capacity(n: nat): nat
    requires n == 1 || n == 2 || n == 4 || n == 8
  {
    if n == 1 then 0x40 else if n == 2 then 0x4000 else if n == 4 then 0x4000_0000 else TWO_62
  }

  /** The length of a value's encoding holds it, and no shorter length does: 1, 2, 4 and 8 bytes hold values of 6, 14, 30
      and 62 bits. */
  lemma SizeIsLeast(value: nat, n: nat)
    requires value < TWO_62 && (n == 1 || n == 2 || n == 4 || n == 8)
    ensures value < Capacity(Size(value))
    ensures value < Capacity(n) ==> Size(value) <= n
    ensures Capacity(n) == (if n == 1 then 64 else if n == 2 then 16384 else if n == 4 then 1073741824
                            else 4611686018427387904)
  {
  }

  /** A value encoded in n bytes. */
  function EncodedIn(value: nat, n: nat): (b: seq<byte>)
    requires (n == 1 || n == 2 || n == 4 || n == 8) && value < Capacity(n)
    ensures |b| == n
  {
    ToBE(Tag(n) + value, n)
  }

  function Encoding(value: nat): (b: seq<byte>)
    requires value < TWO_62
    ensures |b| == Size(value)
  {
    EncodedIn(value, Size(value))
  }

  method Store(bytes: seq<byte>, buffer: array<byte>, at: nat)
    requires at + |bytes| <= buffer.Length
    modifies buffer
    ensures buffer[..] == old(buffer[..at]) + bytes + old(buffer[at + |bytes|..])
  {
    for i := 0 to |bytes|
      invariant buffer[..] == old(buffer[..at]) + bytes[..i] + old(buffer[at + i..])
    {
      buffer[at + i] := bytes[i];
      assert bytes[..i + 1] == bytes[..i] + [bytes[i]];
    }
    assert bytes[..|bytes|] == bytes;
  }

  /** QuicVarIntEncode: tags the value, brings it to network order and copies it; returns the position after it. */
  method Encode(value: u64, buffer: array<byte>, at: nat) returns (next: nat)
    requires value < TWO_62 && at + Size(value) <= buffer.Length
    modifies buffer
    ensures next == at + Size(value)
    ensures buffer[..] == old(buffer[..at]) + Encoding(value) + old(buffer[next..])
  {
    if value < 0x40 {
      Store(ToBE(value, 1), buffer, at);
      next := at + 1;
    } else if value < 0x4000 {
      Store(ToBE(0x4000 + value, 2), buffer, at);
      next := at + 2;
    } else if value < 0x4000_0000 {
      Store(ToBE(0x8000_0000 + value, 4), buffer, at);
      next := at + 4;
    } else {
      Store(ToBE(0xc000_0000_0000_0000 + value, 8), buffer, at);
      next := at + 8;
    }
  }

  // ---- Decoding

  /** The length that a first byte announces. */
  function Announced(first: byte): (n: nat)
    ensures n == 1 || n == 2 || n == 4 || n == 8
  {
    if first < 0x40 then 1 else if first < 0x80 then 2 else if first < 0xc0 then 4 else 8
  }

  /** The value at an offset and the offset after it; None if the announced bytes are not all there. */
  function DecodeAt(buffer: seq<byte>, offset: nat): Option<(nat, nat)> {
    if offset >= |buffer| then None
    else
      var n := Announced(buffer[offset]);
      if offset + n > |buffer| then None
      else Some((FromBE(buffer[offset..offset + n]) % Capacity(n), offset + n))
  }

  /** QuicVarIntDecode: offset and length are 16-bit; a failing call leaves the offset alone. */
  method Decode(bufferLength: u16, buffer: array<byte>, offset: u16) returns (ok: bool, offset': u16, value: u64)
    requires bufferLength <= buffer.Length
    ensures ok <==> DecodeAt(buffer[..bufferLength], offset).Some?
    ensures ok ==> DecodeAt(buffer[..bufferLength], offset).value == (value, offset')
    ensures !ok ==> offset' == offset
  {
    ghost var b := buffer[..bufferLength];
    if bufferLength < 1 + offset {
      return false, offset, 0;
    }
    if buffer[offset] < 0x40 {
      OneByte(b[offset..offset + 1]);
      return true, offset + 1, buffer[offset];
    } else if buffer[offset] < 0x80 {
      if bufferLength < 2 + offset {
        return false, offset, 0;
      }
      TwoBytes(b[offset..offset + 2]);
      var high: int := buffer[offset] % 0x40;
      return true, offset + 2, high * 256 + buffer[offset + 1];
    } else if buffer[offset] < 0xc0 {
      if bufferLength < 4 + offset {
        return false, offset, 0;
      }
      assert buffer[offset..offset + 4] == b[offset..offset + 4];
      return true, offset + 4, FromBE(buffer[offset..offset + 4]) % 0x4000_0000;
    } else {
      if bufferLength < 8 + offset {
        return false, offset, 0;
      }
      assert buffer[offset..offset + 8] == b[offset..offset + 8];
      return true, offset + 8, FromBE(buffer[offset..offset + 8]) % TWO_62;
    }
  }

  lemma OneByte(b: seq<byte>)
    requires |b| == 1
    ensures FromBE(b) == b[0]
  {
    assert b[..0] == [];
  }

  lemma TwoBytes(b: seq<byte>)
    requires |b| == 2
    ensures var high: int := b[0] % 0x40; FromBE(b) % 0x4000 == high * 256 + b[1]
  {
    OneByte(b[..1]);
  }

  // ---- Round trips

  lemma TagFits(value: nat, n: nat)
    requires (n == 1 || n == 2 || n == 4 || n == 8) && value < Capacity(n)
    ensures Tag(n) + value < Pow(256, n)
    ensures (Tag(n) + value) % Capacity(n) == value
  {
    assert Pow(256, 1) == 256;
    PowAdd(256, 1, 1);
    PowAdd(256, 2, 2);
    PowAdd(256, 4, 4);
  }

  /** The first byte of a number in n bytes. */
  lemma FirstByte(v: nat, n: nat)
    requires n > 0 && v < Pow(256, n)
    ensures Pow(256, n - 1) > 0 && ToBE(v, n)[0] == v / Pow(256, n - 1)
  {
    BytesMirror(v, n, n - 1);
    HighBytes(v, n, n - 1);
    var top := ToLE(v, n)[n - 1..];
    assert top == [ToLE(v, n)[n - 1]];
    assert top[1..] == [];
  }

  lemma EncodingAnnouncesItself(value: nat, n: nat)
    requires (n == 1 || n == 2 || n == 4 || n == 8) && value < Capacity(n)
    ensures Announced(EncodedIn(value, n)[0]) == n
  {
    TagFits(value, n);
    FirstByte(Tag(n) + value, n);
    SmallPowers();
  }

  /** The format, as a number in network byte order: the two highest bits are 0, 1, 2 or 3 for 1, 2, 4 or 8 bytes, and the
      others hold the value. */
  lemma FormatIsTagAndValue(value: nat, n: nat)
    requires (n == 1 || n == 2 || n == 4 || n == 8) && value < Capacity(n)
    ensures n == 1 ==> EncodedIn(value, n) == [value]
    ensures n == 2 ==> EncodedIn(value, n) == [64 + value / 256, value % 256]
    ensures n == 4 ==> FromBE(EncodedIn(value, n)) == 2 * 0x4000_0000 + value && EncodedIn(value, n)[0] / 64 == 2
    ensures n == 8 ==> FromBE(EncodedIn(value, n)) == 3 * TWO_62 + value && EncodedIn(value, n)[0] / 64 == 3
  {
    hide ToBE, FromBE, Pow;
    TagFits(value, n);
    BERoundTrip(Tag(n) + value, n);
    FirstByte(Tag(n) + value, n);
    SmallPowers();
    var b := EncodedIn(value, n);
    if n == 1 {
      assert b == [b[0]];
    } else if n == 2 {
      BigEndianDigits(0x4000 + value, 2, 1);
      assert b == [b[0], b[1]];
    } else if n == 4 {
      TopBits(value, 0x100_0000, 2);
    } else {
      TopBits(value, 0x100_0000_0000_0000, 3);
    }
  }

  lemma TopBits(value: nat, p: nat, k: nat)
    requires p > 0 && value < 64 * p
    ensures (k * 64 * p + value) / p / 64 == k
  {
    RemainderIsUnique(k * 64 * p + value, k * 64 + value / p, value % p, p);
    assert value / p < 64 by {
      assert value == value / p * p + value % p;
      if value / p >= 64 {
        ProductAtLeast(value / p, 64, p);
      }
    }
  }

  lemma ProductAtLeast(a: nat, b: nat, p: nat)
    requires a >= b
    ensures a * p >= b * p
  {
    assert (a - b) * p >= 0;
  }

  /** A value in any of the lengths that can hold it is decoded again, wherever it stands in the buffer. */
  lemma DecodeUndoesEncode(before: seq<byte>, value: nat, n: nat, after: seq<byte>)
    requires (n == 1 || n == 2 || n == 4 || n == 8) && value < Capacity(n)
    ensures DecodeAt(before + EncodedIn(value, n) + after, |before|) == Some((value, |before| + n))
  {
    hide ToBE, FromBE;
    var b := before + EncodedIn(value, n) + after;
    EncodingAnnouncesItself(value, n);
    assert b[|before|] == EncodedIn(value, n)[0];
    assert b[|before|..|before| + n] == EncodedIn(value, n);
    TagFits(value, n);
    BERoundTrip(Tag(n) + value, n);
  }

  /** QUIC_VAR_INT */
  type Value = v: nat | v < 0x4000_0000_0000_0000

  function EncodeAll(values: seq<Value>): seq<byte> {
    if values == [] then [] else Encoding(values[0]) + EncodeAll(values[1..])
  }

  function TotalSize(values: seq<Value>): nat {
    if values == [] then 0 else Size(values[0]) + TotalSize(values[1..])
  }

  /** count values decoded one after the other. */
  function DecodeMany(buffer: seq<byte>, offset: nat, count: nat): Option<(seq<nat>, nat)>
    decreases count
  {
    if count == 0 then Some(([], offset))
    else match DecodeAt(buffer, offset)
      case None => None
      case Some((v, next)) =>
        match DecodeMany(buffer, next, count - 1)
        case None => None
        case Some((vs, end)) => Some(([v] + vs, end))
  }

  /** Values encoded back to back decode to the same values, ending after the sum of their sizes. */
  lemma {:induction false} ListRoundTrip(before: seq<byte>, values: seq<Value>, after: seq<byte>)
    ensures DecodeMany(before + EncodeAll(values) + after, |before|, |values|)
         == Some((values, |before| + TotalSize(values)))
    decreases |values|
  {
    hide DecodeAt, Encoding;
    if values != [] {
      var v: Value, rest := values[0], values[1..];
      var b := before + EncodeAll(values) + after;
      assert b == before + Encoding(v) + (EncodeAll(rest) + after);
      assert b == (before + Encoding(v)) + EncodeAll(rest) + after;
      DecodeOne(before, v, EncodeAll(rest) + after);
      ListRoundTrip(before + Encoding(v), rest, after);
      assert [v] + rest == values;
    } else {
      assert values == [];
    }
  }

  lemma DecodeOne(before: seq<byte>, value: nat, after: seq<byte>)
    requires value < TWO_62
    ensures DecodeAt(before + Encoding(value) + after, |before|) == Some((value, |before| + Size(value)))
  {
    DecodeUndoesEncode(before, value, Size(value), after);
  }

  /** The other way round: the bytes decoded are an encoding of the value in the announced length, and they are the
      encoder's own bytes exactly if no shorter length holds the value. */
  lemma EncodeUndoesDecode(buffer: seq<byte>, offset: nat)
    requires DecodeAt(buffer, offset).Some?
    ensures var (value, next) := DecodeAt(buffer, offset).value;
            && offset < next <= |buffer| && value < TWO_62
            && Announced(buffer[offset]) == next - offset
            && value < Capacity(next - offset)
            && buffer[offset..next] == EncodedIn(value, next - offset)
            && (buffer[offset..next] == Encoding(value) <==>
                  forall k :: (k == 1 || k == 2 || k == 4 || k == 8) && k < next - offset ==> value >= Capacity(k))
  {
    hide ToBE, FromBE;
    var (value, next) := DecodeAt(buffer, offset).value;
    var n, b := next - offset, buffer[offset..next];
    BEInverse(b);
    LeadingDigit(b);
    SizeIsLeast(value, n);
    if n != Size(value) {
      assert Size(value) < n;
    }
  }

  /** Some value's encoding, in a length that holds it, stands at the offset. */
  ghost predicate EncodingStartsAt(buffer: seq<byte>, offset: nat) {
    exists value: nat, n: nat :: IsEncodingAt(buffer, offset, value, n)
  }

  predicate IsEncodingAt(buffer: seq<byte>, offset: nat, value: nat, n: nat) {
    && (n == 1 || n == 2 || n == 4 || n == 8) && value < Capacity(n)
    && offset + n <= |buffer| && buffer[offset..offset + n] == EncodedIn(value, n)
  }

  /** Decoding fails exactly if no value is encoded at the offset, and otherwise finds the one that is. */
  lemma DecodeFailsExactlyWhenNoneStarts(buffer: seq<byte>, offset: nat)
    ensures DecodeAt(buffer, offset).None? <==> !EncodingStartsAt(buffer, offset)
    ensures forall value: nat, n: nat :: IsEncodingAt(buffer, offset, value, n) ==>
              DecodeAt(buffer, offset) == Some((value, offset + n))
  {
    hide DecodeAt, EncodedIn;
    if DecodeAt(buffer, offset).Some? {
      var (value, next) := DecodeAt(buffer, offset).value;
      EncodeUndoesDecode(buffer, offset);
      var starts := IsEncodingAt(buffer, offset, value, next - offset);
    }
    forall value: nat, n: nat | IsEncodingAt(buffer, offset, value, n)
      ensures DecodeAt(buffer, offset) == Some((value, offset + n))
    {
      assert buffer == buffer[..offset] + EncodedIn(value, n) + buffer[offset + n..];
      DecodeUndoesEncode(buffer[..offset], value, n, buffer[offset + n..]);
    }
  }

  /** No encoding is a proper prefix of another, so one that is cut short is never mistaken for a value. */
  lemma EncodingsArePrefixFree(before: seq<byte>, value: nat, n: nat, k: nat)
    requires (n == 1 || n == 2 || n == 4 || n == 8) && value < Capacity(n) && k < n
    ensures DecodeAt(before + EncodedIn(value, n)[..k], |before|).None?
    ensures !EncodingStartsAt(before + EncodedIn(value, n)[..k], |before|)
  {
    hide EncodedIn;
    var cut := before + EncodedIn(value, n)[..k];
    EncodingAnnouncesItself(value, n);
    assert k > 0 ==> cut[|before|] == EncodedIn(value, n)[0];
    DecodeFailsExactlyWhenNoneStarts(cut, |before|);
  }

  lemma LeadingDigit(b: seq<byte>)
    requires b != [] && |b| == Announced(b[0])
    ensures FromBE(b) % Capacity(|b|) + Tag(|b|) == FromBE(b)
  {
    hide FromBE, ToBE, Pow;
    var v, n := FromBE(b), |b|;
    FromBEBound(b);
    BEInverse(b);
    FirstByte(v, n);
    SmallPowers();
    TagFromFirstByte(v, n, b[0]);
    RemainderIsUnique(v, Tag(n) / Capacity(n), v - Tag(n), Capacity(n));
  }

  lemma TagFromFirstByte(v: nat, n: nat, first: byte)
    requires n == Announced(first)
    requires n == 1 ==> first == v
    requires n == 2 ==> first == v / 0x100
    requires n == 4 ==> first == v / 0x100_0000
    requires n == 8 ==> first == v / 0x100_0000_0000_0000
    ensures 0 <= v - Tag(n) < Capacity(n)
  {
  }

  lemma SmallPowers()
    ensures Pow(256, 0) == 1 && Pow(256, 1) == 0x100 && Pow(256, 3) == 0x100_0000
    ensures Pow(256, 7) == 0x100_0000_0000_0000
  {
    assert Pow(256, 0) == 1;
    assert Pow(256, 1) == 256;
    PowAdd(256, 1, 2);
    PowAdd(256, 1, 1);
    PowAdd(256, 3, 4);
    PowAdd(256, 2, 2);
  }
}
