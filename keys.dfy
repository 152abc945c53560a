/**
  The keys of the ITEMS bucket: the decimal text of an item's identifier, as
  strconv.FormatUint and strconv.Itoa write it, and the conversions between
  Go's int and uint64 that the gateway applies before formatting.
 */
module Keys {
  import opened Model

  predicate IsDigit(c: char) {
    '0' <= c <= '9'
  }

  function DigitChar(d: nat): (c: char)
    requires d < 10
    ensures IsDigit(c)
  {
    ('0' as int + d) as char
  }

  function DigitValue(c: char): (d: nat)
    requires IsDigit(c)
    ensures d < 10 && DigitChar(d) == c
  {
    c as int - '0' as int
  }

  predicate AllDigits(s: string) {
    forall i | 0 <= i < |s| :: IsDigit(s[i])
  }

  /** A shortest decimal numeral: digits only, and no leading zero unless it is "0". */
  predicate IsCanonical(s: string) {
    |s| >= 1 && AllDigits(s) && (|s| > 1 ==> s[0] != '0')
  }

  /** strconv.FormatUint(n, 10). */
  function FormatUint(n: nat): (s: string)
    ensures IsCanonical(s)
    ensures s[0] == '0' <==> n == 0
    decreases n
  {
    if n < 10 then [DigitChar(n)] else FormatUint(n / 10) + [DigitChar(n % 10)]
  }

  /** The value of a numeral; the inverse of FormatUint on canonical numerals. */
  function ParseUint(s: string): nat
    requires AllDigits(s)
    decreases |s|
  {
    if s == [] then 0 else ParseUint(s[..|s| - 1]) * 10 + DigitValue(s[|s| - 1])
  }

  /** strconv.Itoa(i): a minus sign before the digits of a negative number. */
  function Itoa(i: int): (s: string)
    ensures |s| > 0 && (s[0] == '-' <==> i < 0)
  {
    if i < 0 then "-" + FormatUint(-i) else FormatUint(i)
  }

  /** Go's conversion uint64(i): the two's complement bits of i read as unsigned. */
  function ToUint64(i: Int64): (u: Uint64)
    ensures u % 0x1_0000_0000_0000_0000 == i % 0x1_0000_0000_0000_0000
    ensures 0 <= i <==> u <= MaxInt64
  {
    if i < 0 then i + 0x1_0000_0000_0000_0000 else i
  }

  /** Go's conversion int(u) on a 64-bit platform; ToUint64 undoes it. */
  function Int64Of(u: Uint64): (i: Int64)
    ensures ToUint64(i) == u
    ensures u <= MaxInt64 ==> i == u
  {
    if u <= MaxInt64 then u else u - 0x1_0000_0000_0000_0000
  }

  /** The key `Find` and `Delete` build for an identifier: FormatUint(uint64(id), 10). */
  function IdKey(id: Int64): (key: string)
    ensures IsCanonical(key)
  {
    FormatUint(ToUint64(id))
  }

  lemma {:induction false} ParseFormatUint(n: nat)
    ensures ParseUint(FormatUint(n)) == n
    decreases n
  {
    if n >= 10 {
      var s := FormatUint(n);
      assert s[..|s| - 1] == FormatUint(n / 10);
      ParseFormatUint(n / 10);
    }
  }

  lemma {:induction false} FormatParseUint(s: string)
    requires IsCanonical(s)
    ensures FormatUint(ParseUint(s)) == s
    decreases |s|
  {
    if |s| > 1 {
      var p := s[..|s| - 1];
      var d := DigitValue(s[|s| - 1]);
      assert IsCanonical(p) by { assert p[0] == s[0]; }
      FormatParseUint(p);
      var v := ParseUint(s);
      assert v == ParseUint(p) * 10 + d;
      assert ParseUint(p) != 0;
      assert v / 10 == ParseUint(p) && v % 10 == d;
      assert s == p + [DigitChar(d)];
    } else {
      assert s == [DigitChar(DigitValue(s[0]))];
    }
  }

  /** Decimal keys are injective: two identifiers share a key only if they are equal. */
  lemma FormatUintInjective(a: nat, b: nat)
    ensures FormatUint(a) == FormatUint(b) <==> a == b
  {
    ParseFormatUint(a);
    ParseFormatUint(b);
  }

  /**
    `Update` builds its key with Itoa(id), `Find` and `Delete` with
    FormatUint(uint64(id)): the two agree exactly on the non-negative identifiers.
   */
  lemma ItoaAgreesWithIdKey(id: Int64)
    ensures Itoa(id) == IdKey(id) <==> id >= 0
  {
    if id < 0 {
      assert Itoa(id)[0] == '-';
      assert IsDigit(IdKey(id)[0]);
    }
  }

  /**
    `Insert` files the record for sequence value ns under FormatUint(ns) and
    gives it the identifier int(ns): `Find` and `Delete` reach that key with the
    identifier, and `Update` reaches it exactly when int(ns) did not overflow.
   */
  lemma InsertedKeyIsReachable(ns: Uint64)
    ensures IdKey(Int64Of(ns)) == FormatUint(ns)
    ensures Itoa(Int64Of(ns)) == FormatUint(ns) <==> ns <= MaxInt64
  {
    ItoaAgreesWithIdKey(Int64Of(ns));
  }
}
