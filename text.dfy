/** String building used by the generator: `sep.join(parts)`, runs of tabs, and
    the decimal text `json.dumps` gives an `int`. */
module Text {

  /** `sep.join(parts)`. */
  function Join(sep: string, parts: seq<string>): string
  {
    if parts == [] then ""
    else if |parts| == 1 then parts[0]
    else Join(sep, parts[..|parts| - 1]) + sep + parts[|parts| - 1]
  }

  /** `'\t' * n`. */
  function Tabs(n: nat): (r: string)
    ensures |r| == n && forall i | 0 <= i < n :: r[i] == '\t'
  {
    seq(n, _ => '\t')
  }

  predicate IsDigit(c: char)
  {
    '0' <= c <= '9'
  }

  function DigitChar(d: nat): (c: char)
    requires d < 10
    ensures IsDigit(c) && c as int - '0' as int == d
  {
    ('0' as int + d) as char
  }

  /** Decimal digits of `n`, most significant first, without leading zeros. */
  function NatText(n: nat): (r: string)
    ensures |r| > 0 && forall i | 0 <= i < |r| :: IsDigit(r[i])
    ensures r[0] == '0' ==> n == 0
  {
    if n < 10 then [DigitChar(n)] else NatText(n / 10) + [DigitChar(n % 10)]
  }

  /** `json.dumps(i)` for an `int`: an optional minus sign and the digits of |i|. */
  function IntText(i: int): string
  {
    if i < 0 then "-" + NatText(-i) else NatText(i)
  }

  /** Decimal digits without a leading zero, or the single digit `0`. */
  predicate IsDecimal(d: string)
  {
    && |d| > 0
    && (forall i | 0 <= i < |d| :: IsDigit(d[i]))
    && (d[0] == '0' ==> d == "0")
  }

  /** JSON's text of an integer: decimal digits, with a `-` before a non-zero value. */
  predicate IsIntText(s: string)
  {
    IsDecimal(s) || (|s| >= 2 && s[0] == '-' && s[1] != '0' && IsDecimal(s[1..]))
  }

  /** Reading decimal digits back, as a JSON or GraphQL parser does. */
  function ParseNat(s: string): nat
  {
    if s == [] then 0
    else
      var c := s[|s| - 1];
      ParseNat(s[..|s| - 1]) * 10 + (if IsDigit(c) then c as int - '0' as int else 0)
  }

  function ParseInt(s: string): int
  {
    if |s| > 0 && s[0] == '-' then -(ParseNat(s[1..]) as int) else ParseNat(s)
  }

  lemma {:induction false} NatTextRoundTrip(n: nat)
    ensures ParseNat(NatText(n)) == n
  {
    if n >= 10 {
      NatTextRoundTrip(n / 10);
      var s := NatText(n);
      assert s[..|s| - 1] == NatText(n / 10);
    }
  }

  /** The text of an integer is canonical JSON integer text, and it reads back
      as that integer. */
  lemma IntTextRoundTrip(i: int)
    ensures IsIntText(IntText(i))
    ensures ParseInt(IntText(i)) == i
    ensures IntText(i)[0] == '-' <==> i < 0
  {
    if i < 0 {
      NatTextRoundTrip(-i);
      assert IntText(i)[1..] == NatText(-i);
    } else {
      NatTextRoundTrip(i);
      if i == 0 {
        assert IntText(0) == "0";
      }
    }
  }

  /** With a non-empty separator, a join is empty only when there is nothing to
      join or a single empty part. */
  lemma JoinEmpty(sep: string, parts: seq<string>)
    requires sep != []
    ensures Join(sep, parts) == [] <==> parts == [] || parts == [[]]
  {
    if |parts| > 1 {
      assert |Join(sep, parts)| >= |sep|;
    }
  }
}
