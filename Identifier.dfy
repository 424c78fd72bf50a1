/** The composite file identifier "<message_id>:<token>".

    The store finds the record of a message by the prefix "<message_id>:",
    where the message id is rendered the way Python's f-string renders an
    int. This module defines that rendering, the prefix test, and a decoding
    of the message id from a file id, and proves that a file id carries the
    prefix of at most one message id. */
module Identifier {
  import opened Wrappers

  predicate IsDigit(c: char) {
    '0' <= c <= '9'
  }

  function DigitChar(d: nat): (c: char)
    requires d < 10
    ensures IsDigit(c) && c as int - '0' as int == d
  {
    (d + '0' as int) as char
  }

  /** Decimal digits of a natural number, most significant first, no leading zeros. */
  function NatDigits(n: nat): (s: string)
    ensures |s| > 0
    ensures forall i :: 0 <= i < |s| ==> IsDigit(s[i])
    decreases n
  {
    if n < 10 then [DigitChar(n)] else NatDigits(n / 10) + [DigitChar(n % 10)]
  }

  /** `f"{n}"` for a Python int: an optional minus sign followed by digits. */
  function DecimalString(n: int): (s: string)
    ensures |s| > 0
    ensures ':' !in s
    ensures n >= 0 <==> IsDigit(s[0])
  {
    if n < 0 then "-" + NatDigits(-n) else NatDigits(n)
  }

  /** The lookup prefix `f"{message_id}:"`. */
  function MessagePrefix(messageId: int): (p: string)
    ensures |p| >= 2 && p[|p| - 1] == ':'
    ensures ':' !in p[..|p| - 1]
  {
    var d := DecimalString(messageId);
    assert (d + ":")[..|d|] == d;
    d + ":"
  }

  predicate StartsWith(s: string, prefix: string) {
    |prefix| <= |s| && s[..|prefix|] == prefix
  }

  /** The store's `file_id LIKE '<message_id>:%'`. Apart from the trailing
      '%', the pattern holds only digits, '-' and ':', none of them a LIKE
      wildcard or a letter, so the match is exactly a prefix test. */
  predicate HasMessagePrefix(fileId: string, messageId: int) {
    StartsWith(fileId, MessagePrefix(messageId))
  }

  /** Index of the first ':' in `s`, if any. */
  function ColonIndex(s: string): (r: Option<nat>)
    ensures r.Some? ==> r.value < |s| && s[r.value] == ':' && ':' !in s[..r.value]
    ensures r.None? ==> ':' !in s
  {
    if |s| == 0 then None
    else if s[0] == ':' then Some(0)
    else
      match ColonIndex(s[1..])
      case None => None
      case Some(k) =>
        assert s[..k + 1] == [s[0]] + s[1..][..k];
        Some(k + 1)
  }

  /** Value of a non-empty run of decimal digits (leading zeros allowed). */
  function DigitsValue(s: string): (r: Option<nat>)
    ensures r.Some? ==> |s| > 0 && forall i :: 0 <= i < |s| ==> IsDigit(s[i])
  {
    if |s| == 0 || !IsDigit(s[|s| - 1]) then None
    else if |s| == 1 then Some(s[0] as int - '0' as int)
    else
      match DigitsValue(s[..|s| - 1])
      case None => None
      case Some(v) => Some(10 * v + (s[|s| - 1] as int - '0' as int))
  }

  /** Reads back an optionally signed decimal integer. */
  function ParseDecimal(s: string): Option<int> {
    if |s| > 0 && s[0] == '-' then
      match DigitsValue(s[1..])
      case None => None
      case Some(v) => var w: int := v; Some(-w)
    else
      match DigitsValue(s)
      case None => None
      case Some(v) => Some(v)
  }

  /** The message id a file id is keyed by: the decimal text before its first ':'. */
  function MessageIdOf(fileId: string): Option<int> {
    match ColonIndex(fileId)
    case None => None
    case Some(k) => ParseDecimal(fileId[..k])
  }

  lemma {:induction false} DigitsRoundTrip(n: nat)
    ensures DigitsValue(NatDigits(n)) == Some(n)
    decreases n
  {
    if n >= 10 {
      var s := NatDigits(n);
      assert s[..|s| - 1] == NatDigits(n / 10);
      DigitsRoundTrip(n / 10);
    }
  }

  /** Reading back the rendering of any int gives that int. */
  lemma ParseDecimalRoundTrip(n: int)
    ensures ParseDecimal(DecimalString(n)) == Some(n)
  {
    if n < 0 {
      assert DecimalString(n)[1..] == NatDigits(-n);
      DigitsRoundTrip(-n);
    } else {
      DigitsRoundTrip(n);
    }
  }

  /** Distinct message ids render to distinct strings. */
  lemma DecimalStringInjective(a: int, b: int)
    requires DecimalString(a) == DecimalString(b)
    ensures a == b
  {
    ParseDecimalRoundTrip(a);
    ParseDecimalRoundTrip(b);
  }

  /** A file id matched by the lookup prefix of `messageId` decodes to `messageId`. */
  lemma MessageIdOfPrefixed(fileId: string, messageId: int)
    requires HasMessagePrefix(fileId, messageId)
    ensures MessageIdOf(fileId) == Some(messageId)
  {
    var d := DecimalString(messageId);
    var p := MessagePrefix(messageId);
    assert p[..|d|] == d;
    assert fileId[..|d|] == d;
    assert fileId[|d|] == ':';
    assert ColonIndex(fileId) == Some(|d|);
    ParseDecimalRoundTrip(messageId);
  }

  /** A file id carries the lookup prefix of at most one message id:
      the rendering never contains ':', so "4:" cannot match "42:abc". */
  lemma MessagePrefixUnique(fileId: string, a: int, b: int)
    requires HasMessagePrefix(fileId, a) && HasMessagePrefix(fileId, b)
    ensures a == b
  {
    MessageIdOfPrefixed(fileId, a);
    MessageIdOfPrefixed(fileId, b);
  }

  lemma PrefixExample()
    ensures HasMessagePrefix("42:abc", 42)
    ensures !HasMessagePrefix("42:abc", 4)
  {
    assert DigitChar(4) == '4' && DigitChar(2) == '2';
    assert NatDigits(4) == "4";
    assert NatDigits(42) == NatDigits(4) + [DigitChar(2)] == "42";
    assert MessagePrefix(42) == "42:";
    assert MessagePrefix(4) == "4:";
    assert "42:abc"[..3] == "42:";
  }
}
