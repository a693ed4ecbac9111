/**
 * The receiving side of the covert channel (code/insec/receiver.py): every
 * field of every recovered router address is read as a number, zeros (the
 * sender's padding) are dropped and the rest become characters again.
 */
module Receiver {
  import opened Outcomes
  import opened Text

  /**
   * `chr(o)`: the character with code point o; `None` where `chr` raises
   * (o at or above 0x110000) and for the surrogate range, which a Dafny
   * character cannot hold.
   */
  function Chr(o: nat): (c: Option<char>)
    ensures c.Some? <==> o < 0xD800 || 0xE000 <= o < 0x11_0000
    ensures c.Some? ==> c.value as int == o
  {
    if o < 0xD800 || 0xE000 <= o < 0x11_0000 then Some(o as char) else None
  }

  /** Two partial results one after the other; `None` if either raised. */
  function Then(a: Option<string>, b: Option<string>): Option<string> {
    match (a, b)
    case (Some(x), Some(y)) => Some(x + y)
    case _ => None
  }

  lemma ThenAssociative(a: Option<string>, b: Option<string>, c: Option<string>)
    ensures Then(a, Then(b, c)) == Then(Then(a, b), c)
  {
    if a.Some? && b.Some? && c.Some? {
      assert a.value + (b.value + c.value) == (a.value + b.value) + c.value;
    }
  }

  lemma ThenEmpty(a: Option<string>)
    ensures Then(a, Some([])) == a && Then(Some([]), a) == a
  {
    if a.Some? {
      assert a.value + [] == a.value && [] + a.value == a.value;
    }
  }

  /** What one value contributes: nothing for a zero, else its character. */
  function KeptChar(o: nat): Option<string> {
    if o == 0 then Some([])
    else match Chr(o)
      case Some(c) => Some([c])
      case None => None
  }

  /** `[chr(o) for o in octets if o != 0]`. */
  function NonZeroChars(octets: seq<nat>): Option<string> {
    if octets == [] then Some([]) else Then(KeptChar(octets[0]), NonZeroChars(octets[1..]))
  }

  /** The characters one address contributes, or `None` where reading it raises. */
  function AddressChars(ip: string): Option<string> {
    match DottedValues(ip)
    case Some(octets) => NonZeroChars(octets)
    case None => None
  }

  /** What decode_ips_to_message returns for a list of addresses; `None` where it raises. */
  function Decoded(ipList: seq<string>): Option<string> {
    if ipList == [] then Some([]) else Then(AddressChars(ipList[0]), Decoded(ipList[1..]))
  }

  /**
   * Decoding is a homomorphism: decoding two address lists one after the other
   * is decoding their concatenation.
   */
  lemma {:induction false} DecodedAppend(a: seq<string>, b: seq<string>)
    ensures Decoded(a + b) == Then(Decoded(a), Decoded(b))
  {
    if a == [] {
      assert a + b == b;
      ThenEmpty(Decoded(b));
    } else {
      DecodedAppend(a[1..], b);
      assert (a + b)[1..] == a[1..] + b;
      ThenAssociative(AddressChars(a[0]), Decoded(a[1..]), Decoded(b));
    }
  }

  /**
   * decode_ips_to_message: for each address, read its fields with `int` and
   * append the characters of the non-zero ones, then join.
   */
  method DecodeIpsToMessage(ipList: seq<string>) returns (r: Option<string>)
    ensures r == Decoded(ipList)
  {
    var chars: string := [];
    for k := 0 to |ipList|
      invariant Decoded(ipList[..k]) == Some(chars)
    {
      DecodedAppend(ipList[..k], [ipList[k]]);
      assert [ipList[k]][1..] == [];
      ThenEmpty(AddressChars(ipList[k]));
      assert ipList[..k] + [ipList[k]] == ipList[..k + 1];
      DecodedAppend(ipList[..k + 1], ipList[k + 1..]);
      assert ipList[..k + 1] + ipList[k + 1..] == ipList;
      var octets := DottedValues(ipList[k]);
      if octets.None? {
        return None;
      }
      var kept := NonZeroChars(octets.value);
      if kept.None? {
        return None;
      }
      chars := chars + kept.value;
    }
    assert ipList[..|ipList|] == ipList;
    return Some(chars);
  }

  /** The non-zero values, in order. */
  function NonZeroValues(octets: seq<nat>): seq<nat> {
    if octets == [] then [] else (if octets[0] == 0 then [] else [octets[0]]) + NonZeroValues(octets[1..])
  }

  /**
   * The characters of the non-zero values, in order: one per non-zero value,
   * character j being the j-th non-zero value, so none of them is NUL.
   */
  lemma {:induction false} NonZeroCharsMeaning(octets: seq<nat>)
    requires NonZeroChars(octets).Some?
    ensures var s := NonZeroChars(octets).value;
      && |s| == |NonZeroValues(octets)| <= |octets|
      && (forall j :: 0 <= j < |s| ==> s[j] as int == NonZeroValues(octets)[j])
      && '\0' !in s
  {
    if octets != [] {
      NonZeroCharsMeaning(octets[1..]);
      var s := NonZeroChars(octets).value;
      var tail := NonZeroChars(octets[1..]).value;
      var values, rest := NonZeroValues(octets), NonZeroValues(octets[1..]);
      if octets[0] == 0 {
        assert s == tail && values == rest;
      } else {
        assert s == [s[0]] + tail && values == [octets[0]] + rest;
        assert s[0] as int == octets[0];
        forall j | 1 <= j < |s| ensures s[j] as int == values[j] {
          assert s[j] == tail[j - 1] && values[j] == rest[j - 1];
        }
      }
      assert forall j :: 0 <= j < |s| ==> s[j] as int == values[j] > 0;
    }
  }

  /** A zero anywhere among the values changes nothing: it is padding, wherever it sits. */
  lemma {:induction false} ZeroDropped(before: seq<nat>, after: seq<nat>)
    ensures NonZeroChars(before + [0] + after) == NonZeroChars(before + after)
  {
    var withZero := before + [0] + after;
    if before == [] {
      assert withZero == [0] + after && before + after == after;
      assert withZero[1..] == after;
      assert NonZeroChars(withZero) == Then(Some([]), NonZeroChars(after));
      ThenEmpty(NonZeroChars(after));
    } else {
      var without := before + after;
      ZeroDropped(before[1..], after);
      assert withZero[1..] == before[1..] + [0] + after;
      assert without[1..] == before[1..] + after;
      assert NonZeroChars(withZero) == Then(KeptChar(before[0]), NonZeroChars(withZero[1..]));
      assert NonZeroChars(without) == Then(KeptChar(before[0]), NonZeroChars(without[1..]));
    }
  }

  /** How many fields of the addresses are non-zero numbers, over the whole list. */
  function NonZeroFieldCount(ipList: seq<string>): nat {
    if ipList == [] then 0
    else
      (match DottedValues(ipList[0]) case Some(values) => |NonZeroValues(values)| case None => 0)
      + NonZeroFieldCount(ipList[1..])
  }

  /**
   * The decoded text has one character per non-zero field of the whole list,
   * and never a NUL; with four fields per address that is at most four
   * characters per address.
   */
  lemma {:induction false} DecodedLength(ipList: seq<string>)
    requires Decoded(ipList).Some?
    ensures |Decoded(ipList).value| == NonZeroFieldCount(ipList)
    ensures '\0' !in Decoded(ipList).value
    ensures (forall k :: 0 <= k < |ipList| ==> DottedValues(ipList[k]).Some? && |DottedValues(ipList[k]).value| == 4)
      ==> |Decoded(ipList).value| <= 4 * |ipList|
  {
    if ipList != [] {
      DecodedLength(ipList[1..]);
      NonZeroCharsMeaning(DottedValues(ipList[0]).value);
    }
  }
}
