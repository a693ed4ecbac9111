/**
 * The sending side of the covert channel (code/sec/sender.py). Four characters
 * of the covert message become one fake router address; the addresses fill a
 * Loose Source and Record Route option (section 3.1 of RFC 791); a message
 * longer than MAX_CHARS is cut into chunks, one packet each. The visible UDP
 * payload carries the covert/visible flag, the message id and its length.
 */
module Sender {
  import opened Outcomes
  import opened Text

  /** Largest chunk of covert text one packet carries: nine addresses. */
  const MAX_CHARS: nat := 36
  /** LSRR option type: copy flag set, option class 0, option number 3. */
  const LSRR_TYPE: nat := 131
  /** Type, length and offset bytes in front of the addresses. */
  const LSRR_HEADER: nat := 3
  /** The offset byte, 4, names the first address slot. */
  const LSRR_OFFSET: nat := 4
  /** Bytes available for options in an IPv4 header (60 minus the fixed 20). */
  const IPV4_OPTIONS_SPACE: nat := 40
  /** Longest covert text one option can carry: 3 + 4 * 63 = 255 fits the one-byte length field. */
  const MAX_OPTION_CHARS: nat := 252

  type Octet = x: nat | x < 256

  /** Why a send raises: `struct.error` from unpacking or packing, or `ValueError` from `int`. */
  datatype SendError =
    | NonAsciiCharacter   // a window whose UTF-8 encoding is longer than four bytes
    | OptionTooLong       // the length byte 3 + 4n does not fit in one byte
    | MalformedAddress    // an address that is not four numbers below 256

  /** A packet as the sender builds it: the LSRR option bytes and the UDP payload. */
  datatype Packet = Packet(option: seq<Octet>, payload: string)

  /** The code points of an ASCII text, one byte each. */
  function CodePoints(s: string): (bytes: seq<Octet>)
    requires IsAscii(s)
    ensures |bytes| == |s|
  {
    seq(|s|, i requires 0 <= i < |s| => s[i] as int)
  }

  /** `c.encode()`: the UTF-8 bytes of one character. */
  function Utf8(c: char): (bytes: seq<Octet>)
    ensures 1 <= |bytes| <= 4
    ensures |bytes| == 1 <==> c as int < 128
    ensures c as int < 128 ==> bytes == [c as int]
  {
    var v := c as int;
    if v < 0x80 then [v]
    else if v < 0x800 then [0xC0 + v / 0x40, 0x80 + v % 0x40]
    else if v < 0x1_0000 then [0xE0 + v / 0x1000, 0x80 + (v / 0x40) % 0x40, 0x80 + v % 0x40]
    else [0xF0 + v / 0x4_0000, 0x80 + (v / 0x1000) % 0x40, 0x80 + (v / 0x40) % 0x40, 0x80 + v % 0x40]
  }

  /**
   * `s.encode()`: UTF-8, character after character. It is exactly one byte per
   * character, the code point itself, precisely when the text is ASCII.
   */
  function Utf8Encode(s: string): (bytes: seq<Octet>)
    ensures |bytes| >= |s|
    ensures |bytes| == |s| <==> IsAscii(s)
    ensures IsAscii(s) ==> bytes == CodePoints(s)
  {
    if s == [] then []
    else
      var bytes := Utf8(s[0]) + Utf8Encode(s[1..]);
      assert IsAscii(s) ==> IsAscii(s[1..]) && CodePoints(s) == [s[0] as int] + CodePoints(s[1..]);
      bytes
  }

  /** `struct.unpack("BBBB", data)`: four bytes, or `struct.error`. */
  function Unpack4(data: seq<Octet>): Option<seq<Octet>> {
    if |data| == 4 then Some(data) else None
  }

  /** Number of addresses for a text of n characters: ceil(n / 4). */
  function AddressCount(n: nat): nat {
    (n + 3) / 4
  }

  /** `message.ljust((len(message) + 3) // 4 * 4, '\x00')`. */
  function Padded(message: string): (padded: string)
    ensures |padded| == 4 * AddressCount(|message|)
    ensures forall i :: 0 <= i < |padded| ==> padded[i] == if i < |message| then message[i] else '\0'
  {
    message + seq(4 * AddressCount(|message|) - |message|, _ => '\0')
  }

  /** The octet the encoding places at position i: the code point of message[i], 0 past the end. */
  function OctetAt(message: string, i: nat): Octet
    requires IsAscii(message)
  {
    if i < |message| then message[i] as int else 0
  }

  /** The four octets of address k: characters 4k .. 4k+3. */
  function Quad(message: string, k: nat): seq<Octet>
    requires IsAscii(message)
  {
    [OctetAt(message, 4 * k), OctetAt(message, 4 * k + 1), OctetAt(message, 4 * k + 2), OctetAt(message, 4 * k + 3)]
  }

  /** The addresses `encode_message_to_ips` returns for an ASCII message. */
  function EncodedAddresses(message: string): seq<string>
    requires IsAscii(message)
  {
    seq(AddressCount(|message|), k requires 0 <= k => Dotted(Quad(message, k)))
  }

  /** Window k of the padded message is what Quad describes. */
  lemma PaddedWindow(message: string, k: nat)
    requires IsAscii(message)
    requires k < AddressCount(|message|)
    ensures IsAscii(Padded(message)[4 * k .. 4 * k + 4])
    ensures CodePoints(Padded(message)[4 * k .. 4 * k + 4]) == Quad(message, k)
  {
  }

  /**
   * encode_message_to_ips: pad with NULs to a multiple of four, then render each
   * four-character window as a dotted quad of its byte values. A window with a
   * non-ASCII character encodes to more than four bytes and the unpack raises.
   */
  method EncodeMessageToIps(message: string) returns (r: Result<seq<string>, SendError>)
    ensures r.Failure? <==> !IsAscii(message)
    ensures r.Failure? ==> r.error == NonAsciiCharacter
    ensures r.Success? ==> IsAscii(message) && r.value == EncodedAddresses(message)
  {
    var padded := Padded(message);
    var ips: seq<string> := [];
    var i := 0;
    while i < |padded|
      invariant 0 <= i <= |padded| && i % 4 == 0
      invariant forall j :: 0 <= j < i ==> padded[j] as int < 128
      invariant |ips| == i / 4
      invariant forall k :: 0 <= k < i / 4 ==>
        IsAscii(padded[4 * k .. 4 * k + 4]) && ips[k] == Dotted(CodePoints(padded[4 * k .. 4 * k + 4]))
    {
      var chunk := padded[i .. i + 4];
      var parts := Unpack4(Utf8Encode(chunk));
      if parts.None? {
        assert !IsAscii(chunk);
        var j :| 0 <= j < 4 && chunk[j] as int >= 128;
        assert padded[i + j] == chunk[j];
        return Failure(NonAsciiCharacter);
      }
      assert IsAscii(chunk) && parts.value == CodePoints(chunk);
      assert forall j :: i <= j < i + 4 ==> padded[j] == chunk[j - i];
      ghost var n := i / 4;
      assert 4 * n == i && (i + 4) / 4 == n + 1;
      ips := ips + [Dotted(parts.value)];
      assert ips[n] == Dotted(CodePoints(padded[4 * n .. 4 * n + 4]));
      i := i + 4;
    }
    assert IsAscii(message) by {
      forall j | 0 <= j < |message| ensures message[j] as int < 128 {
        assert padded[j] == message[j];
      }
    }
    assert ips == EncodedAddresses(message) by {
      WindowsAreEncoded(message, ips);
    }
    return Success(ips);
  }

  /** Addresses read window by window from the padded message are the encoded addresses. */
  lemma WindowsAreEncoded(message: string, ips: seq<string>)
    requires IsAscii(message)
    requires |ips| == |Padded(message)| / 4
    requires forall k :: 0 <= k < |ips| ==> ips[k] == Dotted(CodePoints(Padded(message)[4 * k .. 4 * k + 4]))
    ensures ips == EncodedAddresses(message)
  {
    forall k | 0 <= k < |ips| ensures ips[k] == EncodedAddresses(message)[k] {
      PaddedWindow(message, k);
    }
  }

  /** Every address of an encoded message reads back, field by field, as its four octets. */
  lemma EncodedAddressValues(message: string, k: nat)
    requires IsAscii(message)
    requires k < AddressCount(|message|)
    ensures DottedValues(EncodedAddresses(message)[k]) == Some(Quad(message, k))
    ensures IsQuadAddress(EncodedAddresses(message)[k])
  {
    DottedRoundTrip(Quad(message, k));
  }

  /** `struct.pack("!4B", *values)`: four numbers, each below 256, else `struct.error`. */
  function Pack4(values: seq<nat>): Option<seq<Octet>> {
    if |values| == 4 && forall j :: 0 <= j < 4 ==> values[j] < 256 then Some(values) else None
  }

  /** An address the option builder accepts: `int` reads every field and `pack` takes the four values. */
  predicate IsQuadAddress(ip: string) {
    DottedValues(ip).Some? && Pack4(DottedValues(ip).value).Some?
  }

  /** The four bytes the option builder packs for an address. */
  function AddressOctets(ip: string): seq<Octet>
    requires IsQuadAddress(ip)
  {
    Pack4(DottedValues(ip).value).value
  }

  predicate AllQuadAddresses(ips: seq<string>) {
    forall k :: 0 <= k < |ips| ==> IsQuadAddress(ips[k])
  }

  /** The address bytes of an option, four per address, in order. */
  function AddressBytes(ips: seq<string>): seq<Octet>
    requires AllQuadAddresses(ips)
  {
    if ips == [] then [] else AddressBytes(ips[..|ips| - 1]) + AddressOctets(ips[|ips| - 1])
  }

  /** The bytes of an LSRR option: type, length 3 + 4n, offset, then the addresses. */
  function LsrrOption(ips: seq<string>): seq<Octet>
    requires LSRR_HEADER + 4 * |ips| < 256
    requires AllQuadAddresses(ips)
  {
    [LSRR_TYPE, LSRR_HEADER + 4 * |ips|, LSRR_OFFSET] + AddressBytes(ips)
  }

  /** Byte 4k + j of the address bytes is octet j of address k. */
  lemma {:induction false} AddressBytesLayout(ips: seq<string>)
    requires AllQuadAddresses(ips)
    ensures |AddressBytes(ips)| == 4 * |ips|
    ensures forall k, j :: 0 <= k < |ips| && 0 <= j < 4 ==> AddressBytes(ips)[4 * k + j] == AddressOctets(ips[k])[j]
  {
    if ips != [] {
      var init := ips[..|ips| - 1];
      AddressBytesLayout(init);
      forall k, j | 0 <= k < |ips| && 0 <= j < 4
        ensures AddressBytes(ips)[4 * k + j] == AddressOctets(ips[k])[j]
      {
        if k < |init| {
          assert ips[k] == init[k];
        }
      }
    }
  }

  /**
   * The option starts with 131, 3 + 4n and 4, is exactly 3 + 4n bytes long,
   * and carries octet j of address k at byte 3 + 4k + j.
   */
  lemma LsrrOptionLayout(ips: seq<string>)
    requires LSRR_HEADER + 4 * |ips| < 256
    requires AllQuadAddresses(ips)
    ensures var option := LsrrOption(ips);
      && |option| == LSRR_HEADER + 4 * |ips|
      && option[0] == LSRR_TYPE && option[1] == |option| && option[2] == LSRR_OFFSET
      && forall k, j :: 0 <= k < |ips| && 0 <= j < 4 ==> option[LSRR_HEADER + 4 * k + j] == AddressOctets(ips[k])[j]
  {
    AddressBytesLayout(ips);
  }

  /**
   * The option-building block of send_covert_packet: pack the three header
   * bytes, then each address as `int` reads its fields.
   */
  method BuildLsrrOption(ips: seq<string>) returns (r: Result<seq<Octet>, SendError>)
    ensures r.Success? <==> LSRR_HEADER + 4 * |ips| < 256 && AllQuadAddresses(ips)
    ensures LSRR_HEADER + 4 * |ips| >= 256 ==> r == Failure(OptionTooLong)
    ensures LSRR_HEADER + 4 * |ips| < 256 && !AllQuadAddresses(ips) ==> r == Failure(MalformedAddress)
    ensures r.Success? ==> r.value == LsrrOption(ips)
  {
    if LSRR_HEADER + 4 * |ips| >= 256 {
      return Failure(OptionTooLong);
    }
    var optionData: seq<Octet> := [LSRR_TYPE, LSRR_HEADER + 4 * |ips|, LSRR_OFFSET];
    for k := 0 to |ips|
      invariant AllQuadAddresses(ips[..k])
      invariant optionData == [LSRR_TYPE, LSRR_HEADER + 4 * |ips|, LSRR_OFFSET] + AddressBytes(ips[..k])
    {
      var values := DottedValues(ips[k]);
      if values.None? || Pack4(values.value).None? {
        return Failure(MalformedAddress);
      }
      assert ips[..k + 1][..k] == ips[..k];
      optionData := optionData + Pack4(values.value).value;
    }
    assert ips[..|ips|] == ips;
    return Success(optionData);
  }

  /** Every address of an encoded message is one the option builder accepts. */
  lemma EncodedAddressesAreQuads(message: string)
    requires IsAscii(message)
    ensures AllQuadAddresses(EncodedAddresses(message))
  {
    var ips := EncodedAddresses(message);
    forall k | 0 <= k < |ips| ensures IsQuadAddress(ips[k]) {
      EncodedAddressValues(message, k);
    }
  }

  /** The bytes packed for the addresses of a message are its NUL-padded code points. */
  lemma EncodedAddressBytes(message: string)
    requires IsAscii(message)
    ensures AllQuadAddresses(EncodedAddresses(message))
    ensures AddressBytes(EncodedAddresses(message)) == CodePoints(Padded(message))
  {
    var ips := EncodedAddresses(message);
    EncodedAddressesAreQuads(message);
    AddressBytesLayout(ips);
    var bytes := AddressBytes(ips);
    var padded := Padded(message);
    assert IsAscii(padded);
    forall i | 0 <= i < |bytes| ensures bytes[i] == CodePoints(padded)[i] {
      var k, j := i / 4, i % 4;
      assert i == 4 * k + j;
      AddressByteAt(message, k, j);
      assert bytes[i] == AddressOctets(ips[k])[j];
      assert CodePoints(padded)[i] == OctetAt(message, i);
    }
  }

  /** Octet j of encoded address k is the code point of character 4k + j, or 0 past the end. */
  lemma AddressByteAt(message: string, k: nat, j: nat)
    requires IsAscii(message) && k < AddressCount(|message|) && j < 4
    ensures IsQuadAddress(EncodedAddresses(message)[k])
    ensures AddressOctets(EncodedAddresses(message)[k])[j] == OctetAt(message, 4 * k + j)
  {
    EncodedAddressValues(message, k);
  }

  /**
   * For an ASCII message of at most 252 characters the option is well formed,
   * and the bytes after its three-byte header are exactly the NUL-padded
   * message bytes, in order.
   */
  lemma OptionCarriesMessage(message: string)
    requires IsAscii(message) && |message| <= MAX_OPTION_CHARS
    ensures AllQuadAddresses(EncodedAddresses(message))
    ensures LSRR_HEADER + 4 * |EncodedAddresses(message)| < 256
    ensures LsrrOption(EncodedAddresses(message))
      == [LSRR_TYPE, LSRR_HEADER + 4 * AddressCount(|message|), LSRR_OFFSET] + CodePoints(Padded(message))
  {
    EncodedAddressBytes(message);
  }

  /** The UDP payload of send_covert_packet: flag, message id, declared length, visible text. */
  function Payload(isCovert: bool, msgId: int, msgLen: int, visibleMsg: string): (p: string)
    ensures |p| > |visibleMsg| + 3 && p[..3] == "is_"
    ensures p[|p| - |visibleMsg|..] == visibleMsg
  {
    var header := (if isCovert then "is_covert_" else "is_visible_") + IntToDecimal(msgId) + "_" + IntToDecimal(msgLen) + "_";
    assert header[..3] == "is_";
    header + visibleMsg
  }

  lemma IntToDecimalHasNoUnderscore(n: int)
    ensures '_' !in IntToDecimal(n)
  {
    var d := Decimal(if n < 0 then -n else n);
    assert AllDigits(d);
    assert IntToDecimal(n) == if n < 0 then "-" + d else d;
  }

  /**
   * Splitting the payload on '_' gives "is", the flag word, the message id,
   * the declared length, and then the pieces of the visible text, which
   * rejoin to it even when it contains '_' itself.
   */
  lemma PayloadFields(isCovert: bool, msgId: int, msgLen: int, visibleMsg: string)
    ensures var fields := Split(Payload(isCovert, msgId, msgLen, visibleMsg), '_');
      && |fields| >= 5
      && fields[0] == "is"
      && fields[1] == (if isCovert then "covert" else "visible")
      && fields[2] == IntToDecimal(msgId)
      && fields[3] == IntToDecimal(msgLen)
      && Join(fields[4..], '_') == visibleMsg
  {
    var flag := if isCovert then "covert" else "visible";
    var id, len := IntToDecimal(msgId), IntToDecimal(msgLen);
    IntToDecimalHasNoUnderscore(msgId);
    IntToDecimalHasNoUnderscore(msgLen);
    PayloadShape(isCovert, msgId, msgLen, visibleMsg);
    SplitFourFields("is", flag, id, len, visibleMsg, '_');
    var fields := Split(Payload(isCovert, msgId, msgLen, visibleMsg), '_');
    assert fields[4..] == Split(visibleMsg, '_');
    JoinSplit(visibleMsg, '_');
  }

  /** The payload as its four '_'-closed fields followed by the visible text. */
  lemma PayloadShape(isCovert: bool, msgId: int, msgLen: int, visibleMsg: string)
    ensures Payload(isCovert, msgId, msgLen, visibleMsg)
      == "is" + ['_'] + (if isCovert then "covert" else "visible") + ['_']
         + IntToDecimal(msgId) + ['_'] + IntToDecimal(msgLen) + ['_'] + visibleMsg
  {
    var flag := if isCovert then "covert" else "visible";
    assert (if isCovert then "is_covert_" else "is_visible_") == "is" + ['_'] + flag + ['_'];
  }

  /** Four pieces without separators, each closed by a separator, come out of a split as four fields. */
  lemma SplitFourFields(a: string, b: string, c: string, d: string, rest: string, sep: char)
    requires sep !in a && sep !in b && sep !in c && sep !in d
    ensures Split(a + [sep] + b + [sep] + c + [sep] + d + [sep] + rest, sep) == [a, b, c, d] + Split(rest, sep)
  {
    var tail3 := d + [sep] + rest;
    var tail2 := c + [sep] + tail3;
    var tail1 := b + [sep] + tail2;
    assert a + [sep] + b + [sep] + c + [sep] + d + [sep] + rest == a + [sep] + tail1;
    SplitAfterPiece(a, tail1, sep);
    SplitAfterPiece(b, tail2, sep);
    SplitAfterPiece(c, tail3, sep);
    SplitAfterPiece(d, rest, sep);
  }

  /** The packet send_covert_packet builds for an ASCII chunk that fits one option. */
  function CovertPacket(covertMsg: string, isCovert: bool, msgId: int, msgLen: int, visibleMsg: string): Packet
    requires IsAscii(covertMsg) && |covertMsg| <= MAX_OPTION_CHARS
  {
    OptionCarriesMessage(covertMsg);
    Packet(LsrrOption(EncodedAddresses(covertMsg)), Payload(isCovert, msgId, msgLen, visibleMsg))
  }

  /**
   * send_covert_packet without the scapy layers: encode the covert text,
   * build the option and the payload. The clock reading that forms the
   * visible text is a parameter.
   */
  method SendCovertPacket(covertMsg: string, visibleMsg: string, isCovert: bool := true, msgId: int := 0, msgLen: int := 12)
    returns (r: Result<Packet, SendError>)
    ensures r.Success? <==> IsAscii(covertMsg) && |covertMsg| <= MAX_OPTION_CHARS
    ensures !IsAscii(covertMsg) ==> r == Failure(NonAsciiCharacter)
    ensures IsAscii(covertMsg) && |covertMsg| > MAX_OPTION_CHARS ==> r == Failure(OptionTooLong)
    ensures r.Success? ==> r.value == CovertPacket(covertMsg, isCovert, msgId, msgLen, visibleMsg)
    ensures r.Success? ==>
      r.value.option == [LSRR_TYPE, LSRR_HEADER + 4 * AddressCount(|covertMsg|), LSRR_OFFSET] + CodePoints(Padded(covertMsg))
  {
    var encodedIps := EncodeMessageToIps(covertMsg);
    if encodedIps.Failure? {
      return Failure(encodedIps.error);
    }
    if |covertMsg| <= MAX_OPTION_CHARS {
      OptionCarriesMessage(covertMsg);
    } else {
      assert LSRR_HEADER + 4 * |encodedIps.value| >= 256;
    }
    var optionData := BuildLsrrOption(encodedIps.value);
    if optionData.Failure? {
      return Failure(optionData.error);
    }
    return Success(Packet(optionData.value, Payload(isCovert, msgId, msgLen, visibleMsg)));
  }

  /**
   * A chunk of at most MAX_CHARS characters needs at most nine addresses, so
   * its option is at most 39 bytes and fits the 40-byte IPv4 options area.
   */
  lemma ChunkOptionFits(chunk: string)
    requires IsAscii(chunk) && |chunk| <= MAX_CHARS
    ensures AddressCount(|chunk|) <= 9
    ensures |EncodedAddresses(chunk)| == AddressCount(|chunk|)
    ensures AllQuadAddresses(EncodedAddresses(chunk))
    ensures |LsrrOption(EncodedAddresses(chunk))| == LSRR_HEADER + 4 * AddressCount(|chunk|) <= 39 < IPV4_OPTIONS_SPACE
  {
    OptionCarriesMessage(chunk);
  }

  function Min(a: int, b: int): int {
    if a <= b then a else b
  }

  /** Number of chunks for a text of n characters: ceil(n / MAX_CHARS). */
  function ChunkCount(n: nat): nat {
    (n + MAX_CHARS - 1) / MAX_CHARS
  }

  /** split_into_chunks: the slices starting at 0, 36, 72, ... each at most 36 long. */
  function SplitIntoChunks(msg: string): (chunks: seq<string>)
    ensures |chunks| == ChunkCount(|msg|)
    ensures forall k :: 0 <= k < |chunks| ==> 1 <= |chunks[k]| <= MAX_CHARS
    ensures forall k :: 0 <= k < |chunks| - 1 ==> |chunks[k]| == MAX_CHARS
  {
    seq(ChunkCount(|msg|), k requires 0 <= k < ChunkCount(|msg|) => msg[k * MAX_CHARS .. Min(k * MAX_CHARS + MAX_CHARS, |msg|)])
  }

  /** The first chunk, then the chunks of the rest. */
  lemma SplitIntoChunksUnfold(msg: string)
    requires |msg| > 0
    ensures SplitIntoChunks(msg) == [msg[..Min(MAX_CHARS, |msg|)]] + SplitIntoChunks(msg[Min(MAX_CHARS, |msg|)..])
  {
    var chunks, rest := SplitIntoChunks(msg), SplitIntoChunks(msg[Min(MAX_CHARS, |msg|)..]);
    assert |chunks| == 1 + |rest|;
    forall k | 1 <= k < |chunks| ensures chunks[k] == rest[k - 1] {
      ChunkOfRest(msg, k);
    }
  }

  /** Chunk k of a message is chunk k - 1 of the message without its first chunk. */
  lemma ChunkOfRest(msg: string, k: nat)
    requires |msg| > MAX_CHARS && 1 <= k < ChunkCount(|msg|)
    ensures msg[MAX_CHARS..][(k - 1) * MAX_CHARS .. Min((k - 1) * MAX_CHARS + MAX_CHARS, |msg| - MAX_CHARS)]
      == msg[k * MAX_CHARS .. Min(k * MAX_CHARS + MAX_CHARS, |msg|)]
  {
    var lo, hi := (k - 1) * MAX_CHARS, Min((k - 1) * MAX_CHARS + MAX_CHARS, |msg| - MAX_CHARS);
    assert lo + MAX_CHARS == k * MAX_CHARS;
    assert hi + MAX_CHARS == Min(k * MAX_CHARS + MAX_CHARS, |msg|);
  }

  /**
   * The chunks put back together give the message; there are ceil(len / 36)
   * of them, none is empty, none is longer than 36, and all but the last are
   * exactly 36 long.
   */
  lemma {:induction false} SplitIntoChunksPartition(msg: string)
    ensures var chunks := SplitIntoChunks(msg);
      && Concat(chunks) == msg
      && |chunks| == ChunkCount(|msg|)
      && (forall k :: 0 <= k < |chunks| ==> 1 <= |chunks[k]| <= MAX_CHARS)
      && (forall k :: 0 <= k < |chunks| - 1 ==> |chunks[k]| == MAX_CHARS)
    decreases |msg|
  {
    if msg != [] {
      var cut := Min(MAX_CHARS, |msg|);
      SplitIntoChunksUnfold(msg);
      SplitIntoChunksPartition(msg[cut..]);
      var chunks := SplitIntoChunks(msg);
      assert chunks[1..] == SplitIntoChunks(msg[cut..]);
      assert msg == msg[..cut] + msg[cut..];
    }
  }

  /** The chunks of an ASCII message are ASCII. */
  lemma ChunksOfAscii(msg: string)
    ensures IsAscii(msg) ==> forall k :: 0 <= k < |SplitIntoChunks(msg)| ==> IsAscii(SplitIntoChunks(msg)[k])
  {
  }

  /** A message whose chunks are all ASCII is ASCII: every character lies in some chunk. */
  lemma AsciiOfChunks(msg: string)
    requires forall k :: 0 <= k < |SplitIntoChunks(msg)| ==> IsAscii(SplitIntoChunks(msg)[k])
    ensures IsAscii(msg)
  {
    var chunks := SplitIntoChunks(msg);
    forall i | 0 <= i < |msg| ensures msg[i] as int < 128 {
      var k := i / MAX_CHARS;
      assert chunks[k][i - k * MAX_CHARS] == msg[i];
    }
  }

  /** p is the packet sent for an ASCII chunk of at most MAX_CHARS characters, within 39 option bytes. */
  predicate IsChunkPacket(p: Packet, chunk: string, isCovert: bool, msgId: int, msgLen: int, visibleMsg: string) {
    && IsAscii(chunk) && |chunk| <= MAX_CHARS
    && p == CovertPacket(chunk, isCovert, msgId, msgLen, visibleMsg)
    && |p.option| <= 39
  }

  lemma ChunkPacket(p: Packet, chunk: string, isCovert: bool, msgId: int, msgLen: int, visibleMsg: string)
    requires IsAscii(chunk) && |chunk| <= MAX_CHARS
    requires p == CovertPacket(chunk, isCovert, msgId, msgLen, visibleMsg)
    ensures IsChunkPacket(p, chunk, isCovert, msgId, msgLen, visibleMsg)
  {
    ChunkOptionFits(chunk);
  }

  /** Appending the packet for the next chunk keeps every sent packet matched to its chunk. */
  lemma SentPacketsStep(sent: seq<Packet>, chunks: seq<string>, p: Packet, isCovert: bool, msgId: int, msgLen: int, visibleMsg: string)
    requires |sent| < |chunks|
    requires forall m :: 0 <= m < |sent| ==> IsChunkPacket(sent[m], chunks[m], isCovert, msgId, msgLen, visibleMsg)
    requires IsChunkPacket(p, chunks[|sent|], isCovert, msgId, msgLen, visibleMsg)
    ensures forall m :: 0 <= m <= |sent| ==> IsChunkPacket((sent + [p])[m], chunks[m], isCovert, msgId, msgLen, visibleMsg)
  {
  }

  /**
   * send_large_covert_message without the pause between packets: one packet
   * per chunk, in order. The first chunk that cannot be encoded raises, so the
   * packets already sent are the ones for the chunks before it.
   */
  method SendLargeCovertMessage(fullCovertMsg: string, visibleMsg: string, isCovert: bool := true, msgId: int := 0, msgLen: int := 12)
    returns (sent: seq<Packet>, failure: Option<SendError>)
    ensures failure.None? <==> IsAscii(fullCovertMsg)
    ensures failure.Some? ==> failure.value == NonAsciiCharacter
    ensures var chunks := SplitIntoChunks(fullCovertMsg);
      && |sent| <= |chunks|
      && (failure.None? ==> |sent| == |chunks|)
      && (failure.Some? ==> |sent| < |chunks| && !IsAscii(chunks[|sent|]))
      && forall k :: 0 <= k < |sent| ==> IsChunkPacket(sent[k], chunks[k], isCovert, msgId, msgLen, visibleMsg)
  {
    var chunks := SplitIntoChunks(fullCovertMsg);
    sent := [];
    for k := 0 to |chunks|
      invariant |sent| == k
      invariant forall m :: 0 <= m < k ==> IsChunkPacket(sent[m], chunks[m], isCovert, msgId, msgLen, visibleMsg)
    {
      var packet := SendCovertPacket(chunks[k], visibleMsg, isCovert, msgId, msgLen);
      if packet.Failure? {
        assert !IsAscii(chunks[k]);
        ChunksOfAscii(fullCovertMsg);
        return sent, Some(packet.error);
      }
      ChunkPacket(packet.value, chunks[k], isCovert, msgId, msgLen, visibleMsg);
      SentPacketsStep(sent, chunks, packet.value, isCovert, msgId, msgLen, visibleMsg);
      sent := sent + [packet.value];
    }
    assert forall m :: 0 <= m < |chunks| ==> IsAscii(chunks[m]);
    AsciiOfChunks(fullCovertMsg);
    return sent, None;
  }
}
