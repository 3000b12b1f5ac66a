/**
 * Values shared by every collection script: optional values (JSON fields
 * that may be missing, responses that may fail), the match winner, and
 * Python's `str(int)` rendering of hero ids.
 */
module Common {

  datatype Option<T> = None | Some(value: T) {
    /** `d.get(field, default)` */
    function GetOr(default: T): T {
      match this
      case Some(v) => v
      case None => default
    }
  }

  /** The winner column, stored as the strings "Radiant" and "Dire". */
  datatype Winner = Radiant | Dire

  /** `"Radiant" if radiant_win else "Dire"` */
  function WinnerOf(radiantWin: bool): (w: Winner)
    ensures w == Radiant <==> radiantWin
  {
    if radiantWin then Radiant else Dire
  }

  predicate IsDigit(c: char) {
    '0' <= c <= '9'
  }

  function DigitChar(d: nat): (c: char)
    requires d < 10
    ensures IsDigit(c)
  {
    (d + '0' as int) as char
  }

  function DigitValue(c: char): int {
    c as int - '0' as int
  }

  /** Decimal rendering of a natural number, without leading zeros. */
  function NatToString(n: nat): (s: string)
    ensures |s| >= 1
    ensures forall i :: 0 <= i < |s| ==> IsDigit(s[i])
    ensures s[0] == '0' ==> n == 0
    decreases n
  {
    if n < 10 then [DigitChar(n)] else NatToString(n / 10) + [DigitChar(n % 10)]
  }

  /** Python's `str(n)` for an integer `n`. */
  function IntToString(n: int): string {
    if n < 0 then "-" + NatToString(-n) else NatToString(n)
  }

  /** Reads back a string of decimal digits (an inverse of NatToString). */
  function ParseNat(s: string): int
    decreases |s|
  {
    if |s| == 0 then 0 else ParseNat(s[..|s| - 1]) * 10 + DigitValue(s[|s| - 1])
  }

  /** Reads back an optionally signed decimal numeral (an inverse of IntToString). */
  function ParseInt(s: string): int {
    if |s| > 0 && s[0] == '-' then -ParseNat(s[1..]) else ParseNat(s)
  }

  lemma {:induction false} ParseNatToString(n: nat)
    ensures ParseNat(NatToString(n)) == n
    decreases n
  {
    if n >= 10 {
      var s := NatToString(n);
      assert s[..|s| - 1] == NatToString(n / 10);
      ParseNatToString(n / 10);
    }
  }

  /** `str(n)` loses nothing: the id can always be read back from its rendering. */
  lemma IntToStringRoundTrip(n: int)
    ensures ParseInt(IntToString(n)) == n
  {
    if n < 0 {
      var s := IntToString(n);
      assert s[1..] == NatToString(-n);
      ParseNatToString(-n);
    } else {
      ParseNatToString(n);
    }
  }

  /** Distinct hero ids never share a fallback rendering. */
  lemma IntToStringInjective(a: int, b: int)
    requires IntToString(a) == IntToString(b)
    ensures a == b
  {
    IntToStringRoundTrip(a);
    IntToStringRoundTrip(b);
  }

  // Loops that scan successive batches and record the prefix they examined.

  /** Examining one more element of `rows` after the same prefix. */
  lemma PrefixSnoc<T>(before: seq<T>, rows: seq<T>, j: int)
    requires 0 <= j < |rows|
    ensures (before + rows[..j]) + [rows[j]] == before + rows[..j + 1]
  {
    assert rows[..j + 1] == rows[..j] + [rows[j]];
  }

  /**
   * Scanning a prefix of the next batch of `rows` keeps the rows examined a
   * prefix of all rows, and scanning all of them leaves `rest`.
   */
  lemma PrefixStep<T>(before: seq<T>, rows: seq<T>, rest: seq<T>, all: seq<T>, examined: seq<T>)
    requires before + (rows + rest) == all
    requires |before| <= |examined| <= |before| + |rows| && examined == before + rows[..|examined| - |before|]
    ensures examined <= all
    ensures examined == before + rows ==> examined + rest == all
  {
    assert all[..|examined|] == examined;
  }
}
