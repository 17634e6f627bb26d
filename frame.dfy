/**
 * One 25-byte frame from the sensor (`MeasurementPoint`): the framing test
 * `check_validity`, the field readers `get_channel_data` and `get_id`, and the
 * dispatch on the message type. Like the source, the decoder works on the
 * hexadecimal tokens of the frame; the lemmas restate each result in terms of
 * the bytes themselves.
 */
module FrameDecoder {
  import opened Outcomes
  import opened Hex

  const FrameLength := 25
  const StartMarker: byte := 0x68
  /** The payload length the frame declares, twice, at offsets 1 and 2. */
  const PayloadLength: byte := 19
  const StopMarker: byte := 0x16
  /** The checksum covers offsets ChecksumFrom .. ChecksumTo - 1 and is stored at ChecksumTo. */
  const ChecksumFrom := 4
  const ChecksumTo := 23
  const StopOffset := 24
  const TypeOffset := 4
  const DataMessage := 4
  const ErrorMessage := 5
  const ChannelCount := 6
  const FirstChannelOffset := 5
  const TemperatureOffset := 17
  const IdOffset := 19

  /** The outcome of `check_validity`, with the failure its diagnostic names. */
  datatype Check = Valid | StartByteError | LenByteError | StopByteError | ChecksumMismatch

  /**
   * What the constructor leaves behind: a data reading, a device error code
   * (the tokens at offsets 10 and 11), or nothing usable (Invalid carries the
   * framing verdict; Valid there means an unknown message type).
   */
  datatype Decoded =
    | Data(channels: seq<int>, temperature: real, id: int)
    | DeviceError(code: seq<string>)
    | Invalid(check: Check)

  /** Every token is two hexadecimal digits, as `hexlify` produces them. */
  predicate ByteTokens(ts: seq<string>) {
    forall i :: 0 <= i < |ts| ==> |ts[i]| == 2 && IsHexString(ts[i])
  }

  lemma TokeniseByteTokens(bs: seq<byte>)
    ensures ByteTokens(Tokenise(bs))
  {
  }

  /** A two-digit token reads as a byte value. */
  function TokenValue(t: string): (b: byte)
    requires |t| == 2 && IsHexString(t)
  {
    assert ParseHex(t[..1]) == DigitValue(t[0]);
    ParseHex(t)
  }

  /** `np.sum([int(data[i], 16) for i in range(lo, hi)])`. */
  function TokenSum(ts: seq<string>, lo: nat, hi: nat): (n: nat)
    requires ByteTokens(ts) && lo <= hi <= |ts|
    decreases hi - lo
  {
    if lo == hi then 0 else TokenValue(ts[lo]) + TokenSum(ts, lo + 1, hi)
  }

  /** `check_validity`: the framing tests in source order, first failure wins. */
  function CheckValidity(ts: seq<string>): Raises<Check>
    requires ByteTokens(ts)
  {
    if |ts| < 4 then Raised(IndexError)
    else if ts[0] != "68" || ts[3] != "68" then Returns(StartByteError)
    else if TokenValue(ts[1]) != 19 || TokenValue(ts[2]) != 19 then Returns(LenByteError)
    else if |ts| < 25 then Raised(IndexError)
    else if ts[24] != "16" then Returns(StopByteError)
    else if LastTwo(PyHex(TokenSum(ts, 4, 23))) != ts[23] then Returns(ChecksumMismatch)
    else Returns(Valid)
  }

  /**
   * `get_channel_data`: a big-endian 16-bit field read as two's complement.
   * The result always fits a signed 16-bit integer, so the source's
   * "out of range" test for 65535 can never fire.
   */
  function GetChannelData(ts: seq<string>, start: nat): (v: int)
    requires ByteTokens(ts) && start + 1 < |ts|
    ensures -32768 <= v <= 32767 && v != 65535
  {
    var data := (TokenValue(ts[start]) as int) * 256 + TokenValue(ts[start + 1]) as int;
    if data > 32767 then data - 65536 else data
  }

  /** `get_id`: a big-endian unsigned 32-bit field. */
  function GetId(ts: seq<string>, start: nat): (v: int)
    requires ByteTokens(ts) && start + 3 < |ts|
    ensures 0 <= v < 0x1_0000_0000
  {
    (TokenValue(ts[start]) as int) * 0x100_0000 + (TokenValue(ts[start + 1]) as int) * 0x1_0000
      + (TokenValue(ts[start + 2]) as int) * 0x100 + TokenValue(ts[start + 3]) as int
  }

  /** The fields of a data message: six channels, the temperature in sixteenths of a degree, the id. */
  function ReadData(ts: seq<string>): (d: Decoded)
    requires ByteTokens(ts) && |ts| >= FrameLength
    ensures d.Data? && |d.channels| == ChannelCount
  {
    Data(ReadChannels(ts), GetChannelData(ts, TemperatureOffset) as real / 16.0, GetId(ts, IdOffset))
  }

  /** `[get_channel_data(i * 2 + 5) for i in range(0, 6)]`. */
  function ReadChannels(ts: seq<string>): (chs: seq<int>)
    requires ByteTokens(ts) && |ts| >= FrameLength
    ensures |chs| == ChannelCount
    ensures forall i :: 0 <= i < ChannelCount ==> chs[i] == GetChannelData(ts, i * 2 + FirstChannelOffset)
  {
    seq(ChannelCount, i requires 0 <= i < ChannelCount => GetChannelData(ts, i * 2 + FirstChannelOffset))
  }

  /** The constructor of `MeasurementPoint` on the token list, minus its timestamp and diagnostics. */
  function DecodeTokens(ts: seq<string>): Raises<Decoded>
    requires ByteTokens(ts)
  {
    match CheckValidity(ts)
    case Raised(e) => Raised(e)
    case Returns(validity) =>
      if |ts| <= TypeOffset then Raised(IndexError)
      else
        var messageType := TokenValue(ts[TypeOffset]);
        if messageType == DataMessage && validity == Valid then Returns(ReadData(ts))
        else if messageType == ErrorMessage && validity == Valid then Returns(DeviceError(ts[10..12]))
        else Returns(Invalid(validity))
  }

  /** Decoding a frame as received: its tokens, then the constructor. */
  function Decode(bs: seq<byte>): Raises<Decoded> {
    TokeniseByteTokens(bs);
    DecodeTokens(Tokenise(bs))
  }

  // ---------------------------------------------------------------------------
  // The same frame, stated on bytes

  function ByteSum(bs: seq<byte>): (n: nat) {
    if bs == [] then 0 else bs[0] + ByteSum(bs[1..])
  }

  predicate StartOk(bs: seq<byte>) requires |bs| >= 4 {
    bs[0] == StartMarker && bs[3] == StartMarker
  }

  predicate LengthOk(bs: seq<byte>) requires |bs| >= 4 {
    bs[1] == PayloadLength && bs[2] == PayloadLength
  }

  predicate StopOk(bs: seq<byte>) requires |bs| >= FrameLength {
    bs[StopOffset] == StopMarker
  }

  /**
   * The checksum test as the source performs it: `hex(sum)[-2:]` against the
   * token at offset 23. A sum below 16 prints as '0xN', whose last two
   * characters never equal a token, so such a frame always fails.
   */
  predicate ChecksumOk(bs: seq<byte>) requires |bs| >= FrameLength {
    var sum := ByteSum(bs[ChecksumFrom..ChecksumTo]);
    sum >= 16 && sum % 256 == bs[ChecksumTo]
  }

  predicate WellFramed(bs: seq<byte>) {
    |bs| >= FrameLength && StartOk(bs) && LengthOk(bs) && StopOk(bs) && ChecksumOk(bs)
  }

  lemma {:induction false} TokenSumBytes(bs: seq<byte>, lo: nat, hi: nat)
    requires lo <= hi <= |bs|
    ensures ByteTokens(Tokenise(bs)) && TokenSum(Tokenise(bs), lo, hi) == ByteSum(bs[lo..hi])
    decreases hi - lo
  {
    TokeniseByteTokens(bs);
    if lo < hi {
      TokenSumBytes(bs, lo + 1, hi);
      ParseHexToken(bs[lo]);
      assert bs[lo..hi][1..] == bs[lo + 1..hi];
    }
  }

  /**
   * The framing verdict computed directly on the bytes: the same tests in the
   * same order, each a comparison of byte values, and the same IndexError
   * where the source indexes past the end of a short frame.
   */
  function FrameCheck(bs: seq<byte>): Raises<Check> {
    if |bs| < 4 then Raised(IndexError)
    else if !StartOk(bs) then Returns(StartByteError)
    else if !LengthOk(bs) then Returns(LenByteError)
    else if |bs| < FrameLength then Raised(IndexError)
    else if !StopOk(bs) then Returns(StopByteError)
    else if !ChecksumOk(bs) then Returns(ChecksumMismatch)
    else Returns(Valid)
  }

  /** `check_validity` on the tokens of a frame gives the byte-level verdict. */
  lemma CheckValidityBytes(bs: seq<byte>)
    ensures ByteTokens(Tokenise(bs))
    ensures CheckValidity(Tokenise(bs)) == FrameCheck(bs)
  {
    var ts := Tokenise(bs);
    TokeniseByteTokens(bs);
    if |bs| >= 4 {
      assert HexToken(StartMarker) == "68";
      HexTokenInjective(bs[0], StartMarker);
      HexTokenInjective(bs[3], StartMarker);
      ParseHexToken(bs[1]);
      ParseHexToken(bs[2]);
      if |bs| >= FrameLength {
        assert HexToken(StopMarker) == "16";
        HexTokenInjective(bs[24], StopMarker);
        TokenSumBytes(bs, 4, 23);
        PyHexSuffixMatches(ByteSum(bs[4..23]), bs[23]);
      }
    }
  }

  /** A frame passes `check_validity` exactly when it is well framed. */
  lemma ValidIffWellFramed(bs: seq<byte>)
    ensures ByteTokens(Tokenise(bs))
    ensures CheckValidity(Tokenise(bs)) == Returns(Valid) <==> WellFramed(bs)
  {
    CheckValidityBytes(bs);
  }

  /** Extra bytes after the stop marker never change the verdict. */
  lemma CheckValidityIgnoresTail(bs: seq<byte>, tail: seq<byte>)
    requires |bs| == FrameLength
    ensures CheckValidity(Tokenise(bs + tail)) == CheckValidity(Tokenise(bs))
  {
    var long := bs + tail;
    assert long[..FrameLength] == bs;
    assert long[ChecksumFrom..ChecksumTo] == bs[ChecksumFrom..ChecksumTo];
    CheckValidityBytes(bs);
    CheckValidityBytes(long);
  }

  // ---------------------------------------------------------------------------
  // Fields and their encodings

  predicate IsInt16(v: int) { -32768 <= v <= 32767 }

  /** The two bytes, most significant first, that carry v in two's complement. */
  function EncodeInt16(v: int): (bs: seq<byte>)
    requires IsInt16(v)
    ensures |bs| == 2
  {
    var u := if v < 0 then v + 65536 else v;
    [u / 256, u % 256]
  }

  /** The four bytes, most significant first, that carry v. */
  function EncodeUInt32(v: int): (bs: seq<byte>)
    requires 0 <= v < 0x1_0000_0000
    ensures |bs| == 4
  {
    [v / 0x100_0000, (v / 0x1_0000) % 256, (v / 0x100) % 256, v % 256]
  }

  /** The decoded channel re-encodes to exactly the two bytes it was read from. */
  lemma ChannelBytes(bs: seq<byte>, start: nat)
    requires start + 1 < |bs|
    ensures ByteTokens(Tokenise(bs))
    ensures EncodeInt16(GetChannelData(Tokenise(bs), start)) == bs[start..start + 2]
  {
    TokeniseByteTokens(bs);
    ParseHexToken(bs[start]);
    ParseHexToken(bs[start + 1]);
  }

  /** Decoding the encoding of any signed 16-bit value gives that value back. */
  lemma ChannelRoundTrip(v: int, bs: seq<byte>, start: nat)
    requires IsInt16(v) && start + 1 < |bs| && bs[start..start + 2] == EncodeInt16(v)
    ensures ByteTokens(Tokenise(bs)) && GetChannelData(Tokenise(bs), start) == v
  {
    TokeniseByteTokens(bs);
    assert bs[start] == EncodeInt16(v)[0] && bs[start + 1] == EncodeInt16(v)[1];
    ParseHexToken(bs[start]);
    ParseHexToken(bs[start + 1]);
  }

  /** Quotient and remainder are determined by x == q * m + r with 0 <= r < m. */
  lemma DivModUnique(x: int, m: int, q: int, r: int)
    requires m > 0 && 0 <= r < m && x == q * m + r
    ensures x / m == q && x % m == r
  {
    var q', r' := x / m, x % m;
    assert (q - q') * m == r' - r by {
      assert x == q' * m + r';
    }
    if q != q' {
      var k := if q > q' then q - q' else q' - q;
      MulAtLeast(k, m);
    }
  }

  lemma MulAtLeast(k: int, m: int)
    requires k >= 1 && m > 0
    ensures k * m >= m
  {
  }

  /** A value below 2^32 is the sum of its four bytes at their weights. */
  lemma UInt32Weights(v: int)
    requires 0 <= v < 0x1_0000_0000
    ensures var e := EncodeUInt32(v);
            (e[0] as int) * 0x100_0000 + (e[1] as int) * 0x1_0000 + (e[2] as int) * 0x100 + e[3] as int == v
  {
    var a, r1 := v / 0x100_0000, v % 0x100_0000;
    var b, r2 := r1 / 0x1_0000, r1 % 0x1_0000;
    var c, d := r2 / 0x100, r2 % 0x100;
    DivModUnique(v, 0x1_0000, a * 0x100 + b, r2);
    DivModUnique(a * 0x100 + b, 0x100, a, b);
    DivModUnique(v, 0x100, a * 0x1_0000 + b * 0x100 + c, d);
    DivModUnique(a * 0x1_0000 + b * 0x100 + c, 0x100, a * 0x100 + b, c);
  }

  /** Four bytes at their weights re-encode to themselves. */
  lemma UInt32Bytes(b0: byte, b1: byte, b2: byte, b3: byte)
    ensures var v := (b0 as int) * 0x100_0000 + (b1 as int) * 0x1_0000 + (b2 as int) * 0x100 + b3 as int;
            0 <= v < 0x1_0000_0000 && EncodeUInt32(v) == [b0, b1, b2, b3]
  {
    var v := (b0 as int) * 0x100_0000 + (b1 as int) * 0x1_0000 + (b2 as int) * 0x100 + b3 as int;
    DivModUnique(v, 0x100_0000, b0, (b1 as int) * 0x1_0000 + (b2 as int) * 0x100 + b3);
    DivModUnique(v, 0x1_0000, (b0 as int) * 0x100 + b1, (b2 as int) * 0x100 + b3);
    DivModUnique((b0 as int) * 0x100 + b1, 0x100, b0, b1);
    DivModUnique(v, 0x100, (b0 as int) * 0x1_0000 + (b1 as int) * 0x100 + b2, b3);
    DivModUnique((b0 as int) * 0x1_0000 + (b1 as int) * 0x100 + b2, 0x100, (b0 as int) * 0x100 + b1, b2);
  }

  /** The id read from a frame is its four bytes taken as a big-endian number. */
  lemma IdValue(bs: seq<byte>, start: nat)
    requires start + 3 < |bs|
    ensures ByteTokens(Tokenise(bs))
    ensures GetId(Tokenise(bs), start)
              == (bs[start] as int) * 0x100_0000 + (bs[start + 1] as int) * 0x1_0000
                 + (bs[start + 2] as int) * 0x100 + bs[start + 3] as int
  {
    TokeniseByteTokens(bs);
    ParseHexToken(bs[start]);
    ParseHexToken(bs[start + 1]);
    ParseHexToken(bs[start + 2]);
    ParseHexToken(bs[start + 3]);
  }

  /** The decoded id re-encodes to exactly the four bytes it was read from. */
  lemma IdBytes(bs: seq<byte>, start: nat)
    requires start + 3 < |bs|
    ensures ByteTokens(Tokenise(bs))
    ensures EncodeUInt32(GetId(Tokenise(bs), start)) == bs[start..start + 4]
  {
    IdValue(bs, start);
    var b0, b1, b2, b3 := bs[start], bs[start + 1], bs[start + 2], bs[start + 3];
    var window := bs[start..start + 4];
    assert window == [b0, b1, b2, b3];
    UInt32Bytes(b0, b1, b2, b3);
  }

  /** Decoding the encoding of any unsigned 32-bit value gives that value back. */
  lemma IdRoundTrip(v: int, bs: seq<byte>, start: nat)
    requires 0 <= v < 0x1_0000_0000 && start + 3 < |bs| && bs[start..start + 4] == EncodeUInt32(v)
    ensures ByteTokens(Tokenise(bs)) && GetId(Tokenise(bs), start) == v
  {
    TokeniseByteTokens(bs);
    var e := EncodeUInt32(v);
    assert bs[start] == e[0] && bs[start + 1] == e[1] && bs[start + 2] == e[2] && bs[start + 3] == e[3];
    ParseHexToken(bs[start]);
    ParseHexToken(bs[start + 1]);
    ParseHexToken(bs[start + 2]);
    ParseHexToken(bs[start + 3]);
    UInt32Weights(v);
  }

  // ---------------------------------------------------------------------------
  // What the constructor yields, stated on bytes

  /**
   * The decoder's outcome for every byte string: which frames raise, which
   * give data, which give a device error and with what code.
   */
  lemma DecodeOutcome(bs: seq<byte>)
    ensures Decode(bs) == Raised(IndexError) <==>
              |bs| <= TypeOffset || (|bs| < FrameLength && StartOk(bs) && LengthOk(bs))
    ensures Decode(bs).Returns? && Decode(bs).value.Data? <==>
              WellFramed(bs) && bs[TypeOffset] == DataMessage
    ensures Decode(bs).Returns? && Decode(bs).value.DeviceError? <==>
              WellFramed(bs) && bs[TypeOffset] == ErrorMessage
    ensures Decode(bs).Returns? && Decode(bs).value.DeviceError? ==>
              Decode(bs).value.code == [HexToken(bs[10]), HexToken(bs[11])]
    ensures Decode(bs).Returns? && Decode(bs).value.Invalid? ==>
              Decode(bs).value.check == FrameCheck(bs).value
  {
    var ts := Tokenise(bs);
    TokeniseByteTokens(bs);
    CheckValidityBytes(bs);
    if |bs| > TypeOffset {
      ParseHexToken(bs[TypeOffset]);
      if |bs| >= FrameLength {
        assert ts[10..12] == [HexToken(bs[10]), HexToken(bs[11])];
      }
    }
  }

  /** A data reading holds the fields read at their fixed offsets. */
  lemma DecodeDataValue(bs: seq<byte>)
    requires Decode(bs).Returns? && Decode(bs).value.Data?
    ensures |bs| >= FrameLength && ByteTokens(Tokenise(bs))
    ensures Decode(bs).value == ReadData(Tokenise(bs))
  {
    TokeniseByteTokens(bs);
    CheckValidityBytes(bs);
  }

  /** Each of the six channel fields of a frame re-encodes to the two bytes it was read from. */
  lemma ReadChannelsBytes(bs: seq<byte>)
    requires |bs| >= FrameLength
    ensures ByteTokens(Tokenise(bs))
    ensures var chs := ReadChannels(Tokenise(bs));
            forall i :: 0 <= i < ChannelCount ==>
              IsInt16(chs[i]) &&
              EncodeInt16(chs[i]) == bs[2 * i + FirstChannelOffset .. 2 * i + FirstChannelOffset + 2]
  {
    TokeniseByteTokens(bs);
    var chs := ReadChannels(Tokenise(bs));
    forall i | 0 <= i < ChannelCount
      ensures EncodeInt16(chs[i]) == bs[2 * i + FirstChannelOffset .. 2 * i + FirstChannelOffset + 2]
    {
      ChannelBytes(bs, 2 * i + FirstChannelOffset);
    }
  }

  /** Each channel of a data reading re-encodes to the two bytes it was read from. */
  lemma DecodeChannels(bs: seq<byte>)
    requires Decode(bs).Returns? && Decode(bs).value.Data?
    ensures var d := Decode(bs).value;
            && |d.channels| == ChannelCount
            && forall i :: 0 <= i < ChannelCount ==>
                 IsInt16(d.channels[i]) &&
                 EncodeInt16(d.channels[i]) == bs[2 * i + FirstChannelOffset .. 2 * i + FirstChannelOffset + 2]
  {
    DecodeDataValue(bs);
    ReadChannelsBytes(bs);
    assert Decode(bs).value.channels == ReadChannels(Tokenise(bs));
  }

  /**
   * The temperature of a data reading is a whole number of sixteenths whose
   * numerator re-encodes to the two bytes at offset 17.
   */
  lemma DecodeTemperature(bs: seq<byte>)
    requires Decode(bs).Returns? && Decode(bs).value.Data?
    ensures var t := Decode(bs).value.temperature;
            var raw := (t * 16.0).Floor;
            raw as real == t * 16.0 && IsInt16(raw) &&
            EncodeInt16(raw) == bs[TemperatureOffset..TemperatureOffset + 2]
  {
    DecodeDataValue(bs);
    var raw := GetChannelData(Tokenise(bs), TemperatureOffset);
    assert (Decode(bs).value.temperature * 16.0).Floor == raw;
    ChannelBytes(bs, TemperatureOffset);
  }

  /** The id of a data reading re-encodes to the four bytes at offset 19. */
  lemma DecodeId(bs: seq<byte>)
    requires Decode(bs).Returns? && Decode(bs).value.Data?
    ensures var id := Decode(bs).value.id;
            0 <= id < 0x1_0000_0000 && EncodeUInt32(id) == bs[IdOffset..IdOffset + 4]
  {
    DecodeDataValue(bs);
    IdBytes(bs, IdOffset);
  }

  /** The two's-complement encodings of a list of 16-bit values, back to back. */
  function Int16Fields(vs: seq<int>): (bs: seq<byte>)
    requires forall i :: 0 <= i < |vs| ==> IsInt16(vs[i])
    ensures |bs| == 2 * |vs|
    ensures forall i :: 0 <= i < |vs| ==> bs[2 * i .. 2 * i + 2] == EncodeInt16(vs[i])
  {
    if vs == [] then []
    else
      var rest := Int16Fields(vs[1..]);
      var bs := EncodeInt16(vs[0]) + rest;
      assert forall i :: 1 <= i < |vs| ==> bs[2 * i .. 2 * i + 2] == rest[2 * (i - 1) .. 2 * (i - 1) + 2];
      bs
  }

  /** The 19 bytes the checksum covers in a data frame: type, channels, temperature, id. */
  function DataPayload(channels: seq<int>, tempRaw: int, id: int): (p: seq<byte>)
    requires |channels| == ChannelCount && forall i :: 0 <= i < ChannelCount ==> IsInt16(channels[i])
    requires IsInt16(tempRaw) && 0 <= id < 0x1_0000_0000
    ensures |p| == ChecksumTo - ChecksumFrom
  {
    [DataMessage as byte] + Int16Fields(channels + [tempRaw]) + EncodeUInt32(id)
  }

  /** A data frame as the sensor sends it, with the checksum filled in. */
  function EncodeDataFrame(channels: seq<int>, tempRaw: int, id: int): (bs: seq<byte>)
    requires |channels| == ChannelCount && forall i :: 0 <= i < ChannelCount ==> IsInt16(channels[i])
    requires IsInt16(tempRaw) && 0 <= id < 0x1_0000_0000
    ensures |bs| == FrameLength
  {
    var payload := DataPayload(channels, tempRaw, id);
    [StartMarker, PayloadLength, PayloadLength, StartMarker] + payload + [ByteSum(payload) % 256, StopMarker]
  }

  /** A data frame built by EncodeDataFrame passes every framing test except, possibly, the checksum's lower bound. */
  lemma EncodedFrameShape(channels: seq<int>, tempRaw: int, id: int)
    requires |channels| == ChannelCount && forall i :: 0 <= i < ChannelCount ==> IsInt16(channels[i])
    requires IsInt16(tempRaw) && 0 <= id < 0x1_0000_0000
    ensures var bs := EncodeDataFrame(channels, tempRaw, id);
            var sum := ByteSum(DataPayload(channels, tempRaw, id));
            && bs[ChecksumFrom..ChecksumTo] == DataPayload(channels, tempRaw, id)
            && StartOk(bs) && LengthOk(bs) && StopOk(bs) && bs[TypeOffset] == DataMessage
            && bs[ChecksumTo] == sum % 256
            && (WellFramed(bs) <==> sum >= 16)
  {
    var bs := EncodeDataFrame(channels, tempRaw, id);
    assert bs[ChecksumFrom..ChecksumTo] == DataPayload(channels, tempRaw, id);
  }

  /** The channel, temperature and id fields sit where the decoder reads them. */
  lemma EncodedFrameFields(channels: seq<int>, tempRaw: int, id: int)
    requires |channels| == ChannelCount && forall i :: 0 <= i < ChannelCount ==> IsInt16(channels[i])
    requires IsInt16(tempRaw) && 0 <= id < 0x1_0000_0000
    ensures var bs := EncodeDataFrame(channels, tempRaw, id);
            && (forall i :: 0 <= i < ChannelCount ==>
                  bs[2 * i + FirstChannelOffset .. 2 * i + FirstChannelOffset + 2] == EncodeInt16(channels[i]))
            && bs[TemperatureOffset..TemperatureOffset + 2] == EncodeInt16(tempRaw)
            && bs[IdOffset..IdOffset + 4] == EncodeUInt32(id)
  {
    var bs := EncodeDataFrame(channels, tempRaw, id);
    var fields := Int16Fields(channels + [tempRaw]);
    assert bs[FirstChannelOffset..IdOffset] == fields;
    forall i | 0 <= i < ChannelCount
      ensures bs[2 * i + FirstChannelOffset .. 2 * i + FirstChannelOffset + 2] == EncodeInt16(channels[i])
    {
      assert bs[2 * i + FirstChannelOffset .. 2 * i + FirstChannelOffset + 2] == fields[2 * i .. 2 * i + 2];
      assert (channels + [tempRaw])[i] == channels[i];
    }
    assert bs[TemperatureOffset..TemperatureOffset + 2] == fields[2 * 6 .. 2 * 6 + 2];
    assert (channels + [tempRaw])[6] == tempRaw;
  }

  /**
   * Round trip: a data frame whose checksum window sums to at least 16 decodes
   * to the channel values, temperature and id it was built from.
   */
  lemma DecodeEncodeData(channels: seq<int>, tempRaw: int, id: int)
    requires |channels| == ChannelCount && forall i :: 0 <= i < ChannelCount ==> IsInt16(channels[i])
    requires IsInt16(tempRaw) && 0 <= id < 0x1_0000_0000
    requires ByteSum(DataPayload(channels, tempRaw, id)) >= 16
    ensures Decode(EncodeDataFrame(channels, tempRaw, id)) == Returns(Data(channels, tempRaw as real / 16.0, id))
  {
    var bs := EncodeDataFrame(channels, tempRaw, id);
    EncodedFrameShape(channels, tempRaw, id);
    EncodedFrameFields(channels, tempRaw, id);
    DecodeWellFramedData(bs, channels, tempRaw, id);
  }

  /** A well-framed frame of type 4 yields the fields ReadData reads. */
  lemma DecodeIsReadData(bs: seq<byte>)
    requires WellFramed(bs) && bs[TypeOffset] == DataMessage
    ensures ByteTokens(Tokenise(bs)) && Decode(bs) == Returns(ReadData(Tokenise(bs)))
  {
    CheckValidityBytes(bs);
    ParseHexToken(bs[TypeOffset]);
  }

  /**
   * A well-framed data message decodes to exactly the values its fields
   * encode: the converse of DecodeChannels, DecodeTemperature and DecodeId.
   */
  lemma DecodeWellFramedData(bs: seq<byte>, channels: seq<int>, tempRaw: int, id: int)
    requires WellFramed(bs) && bs[TypeOffset] == DataMessage
    requires |channels| == ChannelCount
    requires forall i :: 0 <= i < ChannelCount ==>
               IsInt16(channels[i]) &&
               bs[2 * i + FirstChannelOffset .. 2 * i + FirstChannelOffset + 2] == EncodeInt16(channels[i])
    requires IsInt16(tempRaw) && bs[TemperatureOffset..TemperatureOffset + 2] == EncodeInt16(tempRaw)
    requires 0 <= id < 0x1_0000_0000 && bs[IdOffset..IdOffset + 4] == EncodeUInt32(id)
    ensures Decode(bs) == Returns(Data(channels, tempRaw as real / 16.0, id))
  {
    DecodeIsReadData(bs);
    ReadDataFields(bs, channels, tempRaw, id);
  }

  lemma ReadDataFields(bs: seq<byte>, channels: seq<int>, tempRaw: int, id: int)
    requires |bs| >= FrameLength && |channels| == ChannelCount
    requires forall i :: 0 <= i < ChannelCount ==>
               IsInt16(channels[i]) &&
               bs[2 * i + FirstChannelOffset .. 2 * i + FirstChannelOffset + 2] == EncodeInt16(channels[i])
    requires IsInt16(tempRaw) && bs[TemperatureOffset..TemperatureOffset + 2] == EncodeInt16(tempRaw)
    requires 0 <= id < 0x1_0000_0000 && bs[IdOffset..IdOffset + 4] == EncodeUInt32(id)
    ensures ByteTokens(Tokenise(bs)) && ReadData(Tokenise(bs)) == Data(channels, tempRaw as real / 16.0, id)
  {
    var ts := Tokenise(bs);
    TokeniseByteTokens(bs);
    var decoded := ReadChannels(ts);
    forall i | 0 <= i < ChannelCount
      ensures decoded[i] == channels[i]
    {
      ChannelRoundTrip(channels[i], bs, i * 2 + FirstChannelOffset);
    }
    assert decoded == channels;
    ChannelRoundTrip(tempRaw, bs, TemperatureOffset);
    IdRoundTrip(id, bs, IdOffset);
  }

  /** Two signed 16-bit values with the same encoding are equal. */
  lemma Int16Injective(u: int, v: int)
    requires IsInt16(u) && IsInt16(v) && EncodeInt16(u) == EncodeInt16(v)
    ensures u == v
  {
  }

  /**
   * A correctly summed data frame whose checksum window adds up to less than
   * 16 is still rejected.
   */
  lemma SmallChecksumRejected(channels: seq<int>, tempRaw: int, id: int)
    requires |channels| == ChannelCount && forall i :: 0 <= i < ChannelCount ==> IsInt16(channels[i])
    requires IsInt16(tempRaw) && 0 <= id < 0x1_0000_0000
    requires ByteSum(DataPayload(channels, tempRaw, id)) < 16
    ensures var bs := EncodeDataFrame(channels, tempRaw, id);
            bs[ChecksumTo] == ByteSum(bs[ChecksumFrom..ChecksumTo]) % 256 &&
            Decode(bs) == Returns(Invalid(ChecksumMismatch))
  {
    var bs := EncodeDataFrame(channels, tempRaw, id);
    EncodedFrameShape(channels, tempRaw, id);
    CheckValidityBytes(bs);
    DecodeOutcome(bs);
  }

  lemma {:induction false} ByteSumZero(bs: seq<byte>)
    requires forall i :: 0 <= i < |bs| ==> bs[i] == 0
    ensures ByteSum(bs) == 0
  {
    if bs != [] {
      ByteSumZero(bs[1..]);
    }
  }

  /** Such frames exist: an all-zero reading from device 0 sums to 4. */
  lemma ZeroReadingSumsToFour()
    ensures ByteSum(DataPayload([0, 0, 0, 0, 0, 0], 0, 0)) == 4
  {
    var zeros := [0, 0, 0, 0, 0, 0];
    var fields := Int16Fields(zeros + [0]);
    var p := DataPayload(zeros, 0, 0);
    assert p == [4] + fields + EncodeUInt32(0);
    forall j | 0 <= j < |fields| ensures fields[j] == 0 {
      var i := j / 2;
      assert (zeros + [0])[i] == 0;
      assert fields[2 * i .. 2 * i + 2] == EncodeInt16(0) == [0, 0];
      assert fields[j] == fields[2 * i .. 2 * i + 2][j - 2 * i];
    }
    assert p[1..] == fields + EncodeUInt32(0);
    ByteSumZero(p[1..]);
  }

  /** Any change to the checksum byte of a well-framed frame makes it invalid. */
  lemma CorruptChecksumRejected(bs: seq<byte>, b: byte)
    requires WellFramed(bs) && b != bs[ChecksumTo]
    ensures Decode(bs[ChecksumTo := b]) == Returns(Invalid(ChecksumMismatch))
  {
    var bad := bs[ChecksumTo := b];
    assert bad[ChecksumFrom..ChecksumTo] == bs[ChecksumFrom..ChecksumTo];
    CheckValidityBytes(bad);
    DecodeOutcome(bad);
  }
}
