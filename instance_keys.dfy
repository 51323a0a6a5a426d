/**
 * The property name under which a widget class stores its instances on
 * elements: "_" + widget name + timestamp, where the timestamp is the
 * decimal text of a clock reading and both parts are memoised on the class.
 */
module InstanceKeys {

  /** The character of a decimal digit. */
  function Digit(d: nat): (c: char)
    requires d < 10
    ensures '0' <= c <= '9'
  {
    ('0' as int + d) as char
  }

  /** The value of a decimal digit character. */
  function DigitValue(c: char): (d: nat)
    requires '0' <= c <= '9'
    ensures d < 10
  {
    c as int - '0' as int
  }

  predicate IsDigits(s: string) {
    forall i :: 0 <= i < |s| ==> '0' <= s[i] <= '9'
  }

  /** `n + ''` for a non-negative integer `n`: its decimal text, most significant digit first. */
  function DecimalString(n: nat): (s: string)
    ensures s != [] && IsDigits(s)
    ensures |s| > 1 ==> s[0] != '0'
    decreases n
  {
    if n < 10 then [Digit(n)] else DecimalString(n / 10) + [Digit(n % 10)]
  }

  /** The number a string of decimal digits denotes. */
  function DecimalValue(s: string): nat
    requires IsDigits(s)
    decreases |s|
  {
    if s == [] then 0 else DecimalValue(s[..|s| - 1]) * 10 + DigitValue(s[|s| - 1])
  }

  /** Reading back the decimal text of a clock value gives that value. */
  lemma {:induction false} DecimalRoundTrip(n: nat)
    ensures DecimalValue(DecimalString(n)) == n
    decreases n
  {
    if n >= 10 {
      var s := DecimalString(n / 10);
      DecimalRoundTrip(n / 10);
      assert (s + [Digit(n % 10)])[..|s|] == s;
    }
  }

  /** Different clock readings give different timestamps. */
  lemma DecimalInjective(a: nat, b: nat)
    requires DecimalString(a) == DecimalString(b)
    ensures a == b
  {
    DecimalRoundTrip(a);
    DecimalRoundTrip(b);
  }

  /**
   * A memo slot read with JavaScript truthiness: a cached non-empty string is
   * returned as is, otherwise the freshly computed value is.
   */
  function Memo(cached: string, computed: string): (r: string)
    ensures cached != "" ==> r == cached
    ensures r == cached || r == computed
    ensures r == "" <==> cached == "" && computed == ""
  {
    if cached != "" then cached else computed
  }

  /** Once a timestamp has been memoised, later clock readings no longer matter. */
  lemma TimestampFixedOnFirstUse(cached: string, first: nat, later: nat)
    ensures Memo(cached, DecimalString(first)) != ""
    ensures Memo(Memo(cached, DecimalString(first)), DecimalString(later)) == Memo(cached, DecimalString(first))
  {
  }

  /** The template `_${name}${timestamp}`. */
  function InstanceKey(name: string, timestamp: string): (k: string)
    ensures |k| == |name| + |timestamp| + 1 && k[0] == '_'
    ensures k[1..|name| + 1] == name && k[|name| + 1..] == timestamp
  {
    "_" + name + timestamp
  }

  /**
   * Keys built with timestamps of equal width determine the widget name and
   * the timestamp they were built from.
   */
  lemma InstanceKeyInjective(name1: string, ts1: string, name2: string, ts2: string)
    requires |ts1| == |ts2|
    requires InstanceKey(name1, ts1) == InstanceKey(name2, ts2)
    ensures name1 == name2 && ts1 == ts2
  {
  }

  /** Two classes with the same name whose timestamps come from different clock readings get different keys. */
  lemma DistinctTimestampsDistinctKeys(name: string, a: nat, b: nat)
    requires a != b
    ensures InstanceKey(name, DecimalString(a)) != InstanceKey(name, DecimalString(b))
  {
    var ka, kb := InstanceKey(name, DecimalString(a)), InstanceKey(name, DecimalString(b));
    if ka == kb {
      assert DecimalString(a) == ka[|name| + 1..] == kb[|name| + 1..] == DecimalString(b);
      DecimalInjective(a, b);
      assert false;
    }
  }
}
