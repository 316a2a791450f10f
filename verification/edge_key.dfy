/** The generator's duplicate check keys an edge by the string `u + "-" + v`,
    Java's decimal rendering of the two endpoints around a dash. The key is
    injective on the non-negative endpoints the generator draws, so the set
    of keys is an exact stand-in for the set of edges. */
module EdgeKey {

  predicate IsDigit(c: char) {
    '0' <= c <= '9'
  }

  /** The character of a decimal digit. */
  function Digit(d: nat): (c: char)
    requires d < 10
    ensures IsDigit(c)
  {
    (('0' as int) + d) as char
  }

  /** The value of a digit character. */
  function DigitValue(c: char): (d: nat)
    requires IsDigit(c)
    ensures d < 10
  {
    (c as int) - ('0' as int)
  }

  /** `Integer.toString(n)` for a non-negative `n`: its decimal digits, most
      significant first, without leading zeros. */
  function Decimal(n: nat): (s: string)
    ensures 1 <= |s|
    ensures forall k :: 0 <= k < |s| ==> IsDigit(s[k])
    ensures n < 10 <==> |s| == 1
    decreases n
  {
    if n < 10 then [Digit(n)] else Decimal(n / 10) + [Digit(n % 10)]
  }

  /** Reads a string of digits back as a number (`Integer.parseInt` on a
      non-negative decimal). */
  function DecimalValue(s: string): (n: nat)
    requires forall k :: 0 <= k < |s| ==> IsDigit(s[k])
    decreases |s|
  {
    if s == [] then 0 else DecimalValue(s[..|s| - 1]) * 10 + DigitValue(s[|s| - 1])
  }

  /** `DecimalValue` undoes `Decimal`. */
  lemma {:induction false} DecimalRoundTrip(n: nat)
    ensures DecimalValue(Decimal(n)) == n
    decreases n
  {
    var s := Decimal(n);
    if n >= 10 {
      assert s[..|s| - 1] == Decimal(n / 10);
      DecimalRoundTrip(n / 10);
    }
  }

  /** Distinct numbers have distinct decimal renderings. */
  lemma DecimalInjective(a: nat, b: nat)
    ensures Decimal(a) == Decimal(b) <==> a == b
  {
    if Decimal(a) == Decimal(b) {
      DecimalRoundTrip(a);
      DecimalRoundTrip(b);
    }
  }

  /** The key `u + "-" + v` the generator stores for the edge from `u` to `v`. */
  function Key(u: nat, v: nat): (k: string)
    ensures |k| == |Decimal(u)| + 1 + |Decimal(v)|
    ensures k[|Decimal(u)|] == '-'
    ensures forall p :: 0 <= p < |Decimal(u)| ==> k[p] == Decimal(u)[p] != '-'
  {
    Decimal(u) + "-" + Decimal(v)
  }

  /** Two edges have the same key exactly when they have the same endpoints. */
  lemma KeyInjective(u: nat, v: nat, u': nat, v': nat)
    ensures Key(u, v) == Key(u', v') <==> u == u' && v == v'
  {
    if Key(u, v) == Key(u', v') {
      var k := Key(u, v);
      var a, a' := |Decimal(u)|, |Decimal(u')|;
      assert a == a' by {
        assert k[a] == '-' && Key(u', v')[a'] == '-';
      }
      assert Decimal(u) == k[..a] == Decimal(u');
      assert Decimal(v) == k[a + 1..] == Decimal(v');
      DecimalInjective(u, u');
      DecimalInjective(v, v');
    }
  }
}
