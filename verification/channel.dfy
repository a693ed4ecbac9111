/**
 * The two ends of the covert channel together: what decode_ips_to_message
 * (code/insec/receiver.py) makes of what encode_message_to_ips and
 * split_into_chunks (code/sec/sender.py) produce.
 */
module Channel {
  import opened Outcomes
  import opened Text
  import opened Sender
  import opened Receiver

  /** The text with its NUL characters taken out. */
  function WithoutNuls(s: string): string {
    if s == [] then [] else (if s[0] == '\0' then [] else [s[0]]) + WithoutNuls(s[1..])
  }

  predicate HasNoNul(s: string) {
    forall i :: 0 <= i < |s| ==> s[i] != '\0'
  }

  /** The texts the channel carries unchanged: code points 1 to 127. */
  predicate IsCarriable(s: string) {
    IsAscii(s) && HasNoNul(s)
  }

  lemma {:induction false} WithoutNulsAppend(a: string, b: string)
    ensures WithoutNuls(a + b) == WithoutNuls(a) + WithoutNuls(b)
  {
    if a == [] {
      assert a + b == b;
    } else {
      var ab := a + b;
      assert ab[0] == a[0] && ab[1..] == a[1..] + b;
      WithoutNulsAppend(a[1..], b);
      assert WithoutNuls(ab) == (if a[0] == '\0' then [] else [a[0]]) + WithoutNuls(a[1..] + b);
      assert WithoutNuls(a) == (if a[0] == '\0' then [] else [a[0]]) + WithoutNuls(a[1..]);
    }
  }

  /** Removing NULs keeps a text without NULs as it is, and makes a text with one strictly shorter. */
  lemma {:induction false} WithoutNulsEffect(s: string)
    ensures HasNoNul(s) ==> WithoutNuls(s) == s
    ensures !HasNoNul(s) ==> |WithoutNuls(s)| < |s|
    ensures |WithoutNuls(s)| <= |s|
  {
    if s != [] {
      WithoutNulsEffect(s[1..]);
      assert HasNoNul(s) ==> HasNoNul(s[1..]);
      assert !HasNoNul(s) && s[0] != '\0' ==> !HasNoNul(s[1..]);
      assert [s[0]] + s[1..] == s;
    }
  }

  /** The non-zero code points of an ASCII text give back the text without its NULs. */
  lemma {:induction false} NonZeroCharsOfText(s: string)
    requires IsAscii(s)
    ensures NonZeroChars(CodePoints(s)) == Some(WithoutNuls(s))
  {
    if s != [] {
      NonZeroCharsOfText(s[1..]);
      assert CodePoints(s)[1..] == CodePoints(s[1..]);
      assert Chr(s[0] as int) == Some(s[0]);
      assert KeptChar(s[0] as int) == Some(if s[0] == '\0' then [] else [s[0]]);
    }
  }

  /** Zero values at the end add nothing. */
  lemma {:induction false} TrailingZerosDropped(values: seq<nat>, n: nat)
    ensures NonZeroChars(values + seq(n, _ => 0)) == NonZeroChars(values)
  {
    if n > 0 {
      TrailingZerosDropped(values, n - 1);
      ZeroDropped(values + seq(n - 1, _ => 0), []);
      assert values + seq(n - 1, _ => 0) + [0] + [] == values + seq(n, _ => 0);
      assert values + seq(n - 1, _ => 0) + [] == values + seq(n - 1, _ => 0);
    } else {
      assert values + seq(n, _ => 0) == values;
    }
  }

  /** Address k of an encoded message decodes to the non-NUL characters of window k. */
  lemma AddressDecodes(message: string, k: nat)
    requires IsAscii(message)
    requires k < AddressCount(|message|)
    ensures AddressChars(EncodedAddresses(message)[k])
      == Some(WithoutNuls(message[4 * k .. Min(4 * k + 4, |message|)]))
  {
    var window := message[4 * k .. Min(4 * k + 4, |message|)];
    EncodedAddressValues(message, k);
    assert Quad(message, k) == CodePoints(window) + seq(4 - |window|, _ => 0);
    TrailingZerosDropped(CodePoints(window), 4 - |window|);
    NonZeroCharsOfText(window);
  }

  /** The addresses after the first are those of the text after the first four characters. */
  lemma EncodedAddressesUnfold(message: string)
    requires IsAscii(message) && message != []
    ensures var cut := Min(4, |message|);
      EncodedAddresses(message) == [EncodedAddresses(message)[0]] + EncodedAddresses(message[cut..])
  {
    var cut := Min(4, |message|);
    var ips, rest := EncodedAddresses(message), EncodedAddresses(message[cut..]);
    assert |ips| == 1 + |rest|;
    forall k | 1 <= k < |ips| ensures ips[k] == rest[k - 1] {
      assert Quad(message, k) == Quad(message[cut..], k - 1);
    }
  }

  /** Decoding the addresses of a message: the first address, then the addresses of the rest. */
  lemma DecodedFirstAddress(message: string)
    requires IsAscii(message) && message != []
    ensures Decoded(EncodedAddresses(message))
      == Then(AddressChars(EncodedAddresses(message)[0]), Decoded(EncodedAddresses(message[Min(4, |message|)..])))
  {
    var ips := EncodedAddresses(message);
    EncodedAddressesUnfold(message);
    assert ips[1..] == EncodedAddresses(message[Min(4, |message|)..]);
  }

  /**
   * Decoding the encoding of any ASCII message gives the message back, less
   * its NUL characters: the receiver cannot tell a NUL from padding.
   */
  lemma {:induction false} DecodeEncode(message: string)
    requires IsAscii(message)
    ensures Decoded(EncodedAddresses(message)) == Some(WithoutNuls(message))
    decreases |message|
  {
    if message == [] {
      assert EncodedAddresses(message) == [];
    } else {
      var cut := Min(4, |message|);
      var head, tail := message[..cut], message[cut..];
      DecodedFirstAddress(message);
      DecodeEncode(tail);
      AddressDecodes(message, 0);
      assert message[0 .. cut] == head;
      assert Decoded(EncodedAddresses(message)) == Some(WithoutNuls(head) + WithoutNuls(tail));
      WithoutNulsAppend(head, tail);
      assert message == head + tail;
    }
  }

  /** Round trip: a message of code points 1 to 127 is decoded to itself. */
  lemma RoundTrip(message: string)
    requires IsCarriable(message)
    ensures Decoded(EncodedAddresses(message)) == Some(message)
  {
    DecodeEncode(message);
    WithoutNulsEffect(message);
  }

  /** A message holding a NUL does not survive the round trip: the NUL is taken for padding. */
  lemma NulIsLost(message: string)
    requires IsAscii(message) && '\0' in message
    ensures Decoded(EncodedAddresses(message)) != Some(message)
    ensures Decoded(EncodedAddresses(message)).Some? && |Decoded(EncodedAddresses(message)).value| < |message|
  {
    DecodeEncode(message);
    WithoutNulsEffect(message);
  }

  /** The smallest such message, "\0", decodes to the empty text. */
  lemma LoneNulDecodesToEmpty()
    ensures EncodedAddresses("\0") == ["0.0.0.0"]
    ensures Decoded(EncodedAddresses("\0")) == Some("")
  {
    var ips := EncodedAddresses("\0");
    assert |ips| == 1;
    assert Quad("\0", 0) == [0, 0, 0, 0];
    assert Decimals([0, 0, 0, 0]) == ["0", "0", "0", "0"];
    assert Dotted([0, 0, 0, 0]) == "0.0.0.0";
    assert ips == ["0.0.0.0"];
    DecodeEncode("\0");
    assert "\0"[1..] == [];
    assert WithoutNuls("\0") == [] + WithoutNuls([]) == [];
  }

  /** "test" is carried by the single address 116.101.115.116 and decodes back to "test". */
  lemma TestMessageExample()
    ensures EncodedAddresses("test") == ["116.101.115.116"]
    ensures Decoded(["116.101.115.116"]) == Some("test")
  {
    var ips := EncodedAddresses("test");
    assert |ips| == 1;
    assert Quad("test", 0) == [116, 101, 115, 116];
    TestAddressText();
    assert ips == ["116.101.115.116"];
    RoundTrip("test");
  }

  lemma TestAddressText()
    ensures Dotted([116, 101, 115, 116]) == "116.101.115.116"
  {
    var texts := Decimals([116, 101, 115, 116]);
    TestDecimals();
    assert Join(texts, '.') == "116" + "." + Join(texts[1..], '.');
    assert texts[1..] == ["101", "115", "116"];
    assert Join(["115", "116"], '.') == "115.116";
    assert Join(["101", "115", "116"], '.') == "101.115.116";
  }

  lemma TestDecimals()
    ensures Decimals([116, 101, 115, 116]) == ["116", "101", "115", "116"]
  {
    assert Decimal(116) == "116";
    assert Decimal(101) == "101";
    assert Decimal(115) == "115";
  }

  /** The address lists of the chunks, one list per packet. */
  function ChunkAddresses(chunks: seq<string>): seq<seq<string>>
    requires forall k :: 0 <= k < |chunks| ==> IsAscii(chunks[k])
  {
    if chunks == [] then [] else [EncodedAddresses(chunks[0])] + ChunkAddresses(chunks[1..])
  }

  lemma {:induction false} DecodedChunks(chunks: seq<string>)
    requires forall k :: 0 <= k < |chunks| ==> IsAscii(chunks[k]) && HasNoNul(chunks[k])
    ensures Decoded(Concat(ChunkAddresses(chunks))) == Some(Concat(chunks))
  {
    if chunks != [] {
      DecodedChunks(chunks[1..]);
      RoundTrip(chunks[0]);
      DecodedAppend(EncodedAddresses(chunks[0]), Concat(ChunkAddresses(chunks[1..])));
    } else {
      assert Concat(ChunkAddresses(chunks)) == [];
    }
  }

  /**
   * The chunked round trip: every chunk of a message of code points 1 to 127
   * decodes to itself, the chunks rejoin to the message, and decoding the
   * addresses of all the packets in order gives the whole message.
   */
  lemma ChunkedRoundTrip(message: string)
    requires IsCarriable(message)
    ensures var chunks := SplitIntoChunks(message);
      && (forall k :: 0 <= k < |chunks| ==> IsCarriable(chunks[k]))
      && (forall k :: 0 <= k < |chunks| ==> Decoded(EncodedAddresses(chunks[k])) == Some(chunks[k]))
      && Concat(chunks) == message
      && Decoded(Concat(ChunkAddresses(chunks))) == Some(message)
  {
    var chunks := SplitIntoChunks(message);
    SplitIntoChunksPartition(message);
    forall k | 0 <= k < |chunks| ensures IsCarriable(chunks[k]) && Decoded(EncodedAddresses(chunks[k])) == Some(chunks[k]) {
      RoundTrip(chunks[k]);
    }
    DecodedChunks(chunks);
  }
}
