# Glucose sensor acquisition core, modelled in Dafny

The acquisition script reads 25-byte frames from a glucose sensor over a
serial port. It turns each frame into a glucose reading, using the
calibration record delivered with the device, and smooths the readings with a
running median. This project models the three parts of that pipeline that
carry logic:

- **`FrameDecoder`** (`MeasurementPoint`) decodes one frame. The frame is
  hex-encoded and cut into two-character tokens. The decoder checks the start
  markers (0x68 at offsets 0 and 3), the declared payload length (19 at
  offsets 1 and 2), the stop marker (0x16 at offset 24) and the checksum. The
  checksum test compares the last two characters of `hex()` of the sum of
  offsets 4..22 with the token at offset 23. The message type at offset 4
  then selects:
  - type 4: a data reading of six signed 16-bit channels, a temperature in
    sixteenths of a degree and a big-endian 32-bit id;
  - type 5: a device error code;
  - anything else: nothing.

  Short frames raise IndexError, as the source's list indexing does.
- **`Calibration`** (`calibrationData`, `calc_glucose`) loads the eight-line
  calibration text. It finds the column labelled `"Glucose"` in line 4 and
  takes that column from lines 1, 5 and 7. `CalcGlucose` converts a reading
  into a glucose value and a temperature-compensated value. Python's list
  indexing, negative positions included, is modelled exactly.
- **`MedianFilter`** and **`Acquisition`**: a `Measurement` object keeps the
  last `medianfiltwin` = 10 compensated values in its `prevmeasurements`
  field. `Push` appends below capacity, or drops the oldest value and
  appends, then returns `np.median` of the window. `AppendMeasurement` is one
  pass of `append_measurement`, from the frame's bytes to the returned
  reading.

Supporting modules: `Hex` covers `binascii.hexlify`, `int(t, 16)` and `hex()`.
`Outcomes` represents exceptions as values: `Raises<T>` is either
`Returns(v)` or `Raised(IndexError | ValueError | AttributeError)`.

The decoder works on tokens, as the source does. Lemmas restate every verdict
and field on the bytes themselves, and a frame encoder (`EncodeDataFrame`)
gives the round trip.

One behaviour of the checksum test is stated as such rather than corrected.
`hex(s)[-2:]` of a sum below 16 is `'xN'`, which never equals a two-digit
token. So a frame whose checksum window sums to less than 16 is always
rejected, even when its checksum byte is right. `ChecksumOk`,
`SmallChecksumRejected` and `ZeroReadingSumsToFour` show this (an all-zero
reading from device 0 sums to 4).

## Model

| member | source | states |
|---|---|---|
| Hex.Tokenise | read_data_nolog.py:95-96 | hexlify plus two-character chunking gives exactly one token per byte, and token i is the hex form of byte i |
| Hex.Chunks | read_data_nolog.py:96 | the list comprehension `[s[i:i+2] for i in range(0, len(s), 2)]`: (len+1)/2 chunks, chunk i is `s[2i:min(2i+2, len)]` |
| Hex.ParseHexToken | read_data_nolog.py:99 | `int(token, 16)` recovers the byte a token was written for |
| Hex.HexTokenInjective | read_data_nolog.py:119 | comparing tokens compares bytes, in both directions |
| Hex.HexDigits | read_data_nolog.py:131 | the digits `hex()` writes for n parse back to n |
| Hex.PyHexSuffix | read_data_nolog.py:131 | `hex(n)[-2:]` is the token of n's low byte when n >= 16, and 'x' then one digit otherwise |
| Hex.PyHexSuffixMatches | read_data_nolog.py:131-132 | `hex(n)[-2:]` equals the token of b iff n >= 16 and n mod 256 == b |
| FrameDecoder.CheckValidityBytes | read_data_nolog.py:112-135 | `check_validity` on the tokens gives the byte-level verdict `FrameCheck`: same tests, same order, IndexError where a short frame is indexed |
| FrameDecoder.ValidIffWellFramed | read_data_nolog.py:112-135 | a frame passes `check_validity` iff its markers, lengths, stop byte and checksum are right |
| FrameDecoder.CheckValidityIgnoresTail | read_data_nolog.py:117-132 | bytes after offset 24 never change the verdict |
| FrameDecoder.TokenSumBytes | read_data_nolog.py:131 | the summed token values are the sum of the bytes |
| FrameDecoder.GetChannelData | read_data_nolog.py:137-155 | a channel value is a signed 16-bit number, so the 65535 diagnostic can never fire |
| FrameDecoder.ChannelBytes | read_data_nolog.py:137-155 | a channel value re-encodes, in two's complement, to the two bytes it was read from |
| FrameDecoder.ChannelRoundTrip | read_data_nolog.py:137-155 | reading the encoding of any signed 16-bit value gives that value |
| FrameDecoder.Int16Injective | read_data_nolog.py:137-155 | distinct 16-bit values have distinct encodings |
| FrameDecoder.GetId | read_data_nolog.py:157-167 | the id is an unsigned 32-bit number |
| FrameDecoder.IdValue | read_data_nolog.py:157-167 | the id is the four bytes taken big-endian |
| FrameDecoder.IdBytes | read_data_nolog.py:157-167 | the id re-encodes to the four bytes it was read from |
| FrameDecoder.IdRoundTrip | read_data_nolog.py:157-167 | reading the encoding of any 32-bit value gives that value |
| FrameDecoder.UInt32Weights | read_data_nolog.py:163-167 | the four bytes of a 32-bit value, recombined with the shifts' weights, give the value |
| FrameDecoder.ReadChannelsBytes | read_data_nolog.py:103 | each of the six channels re-encodes to its two bytes |
| FrameDecoder.DecodeOutcome | read_data_nolog.py:92-110 | for every byte string: exactly which frames raise IndexError, which give a data reading (well framed and type 4) and which give a device error (well framed and type 5), the error code's two tokens, and the verdict an invalid frame carries |
| FrameDecoder.DecodeDataValue | read_data_nolog.py:100-105 | a data reading holds the fields read at their fixed offsets |
| FrameDecoder.DecodeIsReadData | read_data_nolog.py:97-105 | every well-framed type-4 frame gives a data reading |
| FrameDecoder.DecodeChannels | read_data_nolog.py:103 | each channel of a data reading re-encodes to its bytes at offset 5 + 2i |
| FrameDecoder.DecodeTemperature | read_data_nolog.py:104 | the temperature is a whole number of sixteenths whose numerator re-encodes to the bytes at offset 17 |
| FrameDecoder.DecodeId | read_data_nolog.py:105 | the id re-encodes to the bytes at offset 19 |
| FrameDecoder.EncodedFrameShape | read_data_nolog.py:117-132 | an encoded data frame has correct markers, length and type, and is well framed iff its checksum window sums to at least 16 |
| FrameDecoder.EncodedFrameFields | read_data_nolog.py:103-105 | an encoded data frame carries each field at the offset the decoder reads |
| FrameDecoder.DecodeEncodeData | read_data_nolog.py:92-167 | round trip: decoding an encoded data frame whose checksum window sums to at least 16 gives back its channels, temperature and id |
| FrameDecoder.DecodeWellFramedData | read_data_nolog.py:97-105 | a well-framed type-4 frame decodes to exactly the values its fields encode |
| FrameDecoder.ReadDataFields | read_data_nolog.py:103-105 | the field readers invert the field encodings |
| FrameDecoder.SmallChecksumRejected | read_data_nolog.py:131-133 | a correctly summed data frame whose sum is below 16 is still rejected with a checksum mismatch |
| FrameDecoder.ZeroReadingSumsToFour | read_data_nolog.py:131 | such frames exist: an all-zero reading from device 0 sums to 4 |
| FrameDecoder.CorruptChecksumRejected | read_data_nolog.py:131-133 | changing the checksum byte of a well-framed frame makes it invalid |
| Calibration.Split | read_data_nolog.py:59-64 | `str.split` on one character: at least one part, and no part holds the separator |
| Calibration.JoinSplit | read_data_nolog.py:59-64 | joining the parts of a split gives the text back |
| Calibration.SplitLastEnds | read_data_nolog.py:64 | the last part of a split ends with the text's last character |
| Calibration.ReadLines | read_data_nolog.py:58 | `readlines()`: every line is non-empty, every line but the last ends in a newline, and no line holds a newline before its end; with ConcatReadLines this fixes the cut |
| Calibration.ConcatReadLines | read_data_nolog.py:58 | the lines put back together are the text |
| Calibration.IndexOf | read_data_nolog.py:64 | `list.index`: the first position holding the value, or none (ValueError) exactly when the value is absent |
| Calibration.ParseAll | read_data_nolog.py:59-61 | a list comprehension of `float`/`int`: ValueError when some field does not parse, otherwise one converted value per field |
| Calibration.LoadedRecord | read_data_nolog.py:54-74 | a loaded record comes from an eight-line text whose lines 1, 5 and 7 parse in every field; its glucose channel is the first `"Glucose"` field of line 4, and its subtracted channel, conversion and temperature constants are that column of lines 5, 1 and 7 (less 1, over 100, over 100), with field 7 of line 7 as the reference temperature |
| Calibration.LoadSucceeds | read_data_nolog.py:54-74 | loading succeeds iff the text has eight lines, every field of lines 1, 5 and 7 parses, line 4 holds the label, and the label's first column exists in lines 1, 5 and 7 with line 7 reaching field 7 |
| Calibration.BadFieldFails | read_data_nolog.py:59-61 | a field that does not parse, in any column of lines 1, 5 or 7, makes loading raise ValueError |
| Calibration.LoadNeedsEightLines | read_data_nolog.py:58 | a text without exactly eight lines raises ValueError |
| Calibration.GlucoseNotLast | read_data_nolog.py:58-64 | line 4 keeps its newline, so its last field is never the label |
| Calibration.GlucoseOnlyLastFails | read_data_nolog.py:58-64 | a text whose label appears only in the last field of line 4 never loads |
| Calibration.PyIndex | read_data_nolog.py:83 | Python indexing: defined iff -len <= i < len, IndexError otherwise, and the element is the one at i modulo len (negative positions count from the end) |
| Calibration.CalcGlucoseValue | read_data_nolog.py:83-84 | with both indices in range, the glucose value is the scaled channel difference and the compensated value is that divided by the factor; the two have the same sign, and a factor of 1 leaves the value unchanged |
| Calibration.CalcGlucoseRaises | read_data_nolog.py:83 | `calc_glucose` raises, always IndexError, iff the glucose or subtracted channel does not exist |
| Calibration.GlucoseDependsOnDifference | read_data_nolog.py:83-84 | two readings whose selected channels differ by the same amount give the same result |
| Calibration.ZeroCoefficientUncompensated | read_data_nolog.py:83-84 | with a zero temperature coefficient and `exp(0) == 1`, the compensated value equals the raw glucose value at every temperature |
| MedianFilter.Insert | read_data_nolog.py:313 | insertion keeps the sequence sorted and adds exactly one copy of the value |
| MedianFilter.Sort | read_data_nolog.py:313 | the sort `np.median` performs: sorted, and a permutation of the window |
| MedianFilter.SortedUnique | read_data_nolog.py:313 | two sorted permutations of the same values are equal |
| MedianFilter.MedianOrderFree | read_data_nolog.py:313 | the median depends only on which values the window holds, not on their order |
| MedianFilter.MedianBounds | read_data_nolog.py:313 | the median lies between the window's smallest and largest values |
| MedianFilter.MedianSplitsWindow | read_data_nolog.py:313 | at least half the window (rounded up) is at most the median, and at least half is at least the median |
| MedianFilter.MedianSingle | read_data_nolog.py:313 | the median of one value is that value |
| MedianFilter.Window | read_data_nolog.py:45 | the window never holds more than `medianfiltwin` values |
| MedianFilter.WindowPush | read_data_nolog.py:309-312 | the append-or-shift rule turns the window of a history into the window of the history extended by one value |
| Acquisition.Measurement.constructor | read_data_nolog.py:277-279 | a new measurement keeps its calibration and starts with an empty window |
| Acquisition.Measurement.Push | read_data_nolog.py:309-313 | keeps `prevmeasurements` equal to the last 10 values pushed; the window ends with the new value; the result is its median, between its extremes and splitting it in half; the first value's median is itself |
| Acquisition.Measurement.AppendMeasurement | read_data_nolog.py:290-330 | a frame that raises propagates its exception, a non-data frame raises AttributeError, and a failing `calc_glucose` propagates IndexError, each leaving the window unchanged; a data frame pushes its compensated value and returns temperature, compensated value and median; with a zero temperature coefficient the compensated value is the raw one |

## Left out

- Serial port I/O: opening the port, `reset_input_buffer` and `read(25)`. `AppendMeasurement` receives the bytes read instead.
- Timestamps: `datetime.now` and `strftime`. The returned reading leaves out the timestamp and `theoretical_conc`, which is always NaN.
- The CSV output file, the plotter, the multiprocessing pipe and `main`. These are I/O and process plumbing around the core.
- `print` diagnostics are left out, and so is the low-pass filter (`lpf`), which the script has commented out.
- Floating point: `float` values are modelled as mathematical reals, so rounding is not modelled.
- `float()` and `int()` on a calibration field: these are parameters of `Load` (`toFloat`, `toInt`) that return None where Python raises ValueError. Python's numeric literal grammar is not modelled.
- `np.exp`: `CalcGlucose` takes the compensation factor `exp(tempconstant * (temperature - defaulttemp))` as a positive parameter. `AppendMeasurement` takes `exp` as a function that is positive everywhere and gives 1 at 0.
- Opening the calibration file: `Load` works on the file's text. The universal-newline translation `open()` performs (`\r\n` to `\n`) is not modelled.
- Measurement.constructor: receives the loaded calibration record instead of reading the file, and does not open the serial port or the output file.
- FrameDecoder.GetId: assumes numpy's default 64-bit integer. Where numpy's default integer is 32 bits, `b0 << 24` overflows for a first id byte of 0x80 or more, and that wrap-around is not modelled.
- The `MeasurementPoint` constructor on a non-data frame leaves `channels`, `temperature` and `validData` unset. The model represents such a frame by `DeviceError` or `Invalid`, and `AppendMeasurement` raises AttributeError for it as the source does.
- Acquisition.Measurement.Push: `np.hstack` turns the window from a list into a numpy array once it is full. The model keeps a sequence in both cases, since only the values matter to the median.
