/**
 * Pattern keys: a pattern is identified by its dots written in decimal and
 * joined with "-" (so [0, 1, 2] is "0-1-2"); the key is what the set of
 * rejected patterns stores.  Decode is the inverse that shows the key loses
 * nothing: different patterns always get different keys.
 */
module PatternKey {
  import opened Wrappers
  import opened PatternEngine

  predicate IsDigit(c: char) { '0' <= c <= '9' }

  predicate AllDigits(s: string) {
    forall i :: 0 <= i < |s| ==> IsDigit(s[i])
  }

  function DigitChar(d: nat): (c: char)
    requires d < 10
    ensures IsDigit(c)
  {
    (('0' as int) + d) as char
  }

  function DigitValue(c: char): (d: nat)
    requires IsDigit(c)
    ensures d < 10
  {
    (c as int) - ('0' as int)
  }

  /** The decimal numeral of `n`, as JavaScript writes the dot values 0..9. */
  function NatToString(n: nat): (s: string)
    ensures |s| > 0 && AllDigits(s)
    ensures n < 10 <==> |s| == 1
    decreases n
  {
    if n < 10 then [DigitChar(n)] else NatToString(n / 10) + [DigitChar(n % 10)]
  }

  /** The value of a string of decimal digits. */
  function StringToNat(s: string): (n: nat)
    requires AllDigits(s)
    decreases |s|
  {
    if s == [] then 0 else 10 * StringToNat(s[..|s| - 1]) + DigitValue(s[|s| - 1])
  }

  lemma {:induction false} NatToStringInverse(n: nat)
    ensures StringToNat(NatToString(n)) == n
    decreases n
  {
    if n >= 10 {
      NatToStringInverse(n / 10);
      var s := NatToString(n);
      assert s[..|s| - 1] == NatToString(n / 10);
    }
  }

  /** encodePattern: `pattern.join("-")`. */
  function Encode(p: Pattern): (k: string)
    ensures p == [] <==> k == []
    decreases |p|
  {
    if |p| == 0 then ""
    else if |p| == 1 then NatToString(p[0])
    else NatToString(p[0]) + "-" + Encode(p[1..])
  }

  /** Position of the first `c` in `s`, or |s| when there is none. */
  function IndexOf(s: string, c: char): (i: nat)
    ensures i <= |s|
    ensures i < |s| ==> s[i] == c
    ensures forall j :: 0 <= j < i ==> s[j] != c
    decreases |s|
  {
    if s == [] then 0 else if s[0] == c then 0 else 1 + IndexOf(s[1..], c)
  }

  function ParseNat(t: string): (r: Option<nat>)
  {
    if t != [] && AllDigits(t) then Some(StringToNat(t)) else None
  }

  /** Splits a non-empty key at each "-" and reads every piece as a number. */
  function DecodeItems(s: string): (r: Option<Pattern>)
    decreases |s|
  {
    var i := IndexOf(s, '-');
    match ParseNat(s[..i])
    case None => None
    case Some(n) =>
      if i == |s| then Some([n])
      else
        match DecodeItems(s[i + 1..])
        case None => None
        case Some(rest) => Some([n] + rest)
  }

  /** The inverse of Encode; None for a string no pattern encodes to. */
  function Decode(k: string): (r: Option<Pattern>) {
    if k == "" then Some([]) else DecodeItems(k)
  }

  /** A numeral ends where the first "-" after it stands. */
  lemma IndexOfAfterNumeral(t: string, rest: string)
    requires t != [] && AllDigits(t)
    requires rest == [] || rest[0] == '-'
    ensures IndexOf(t + rest, '-') == |t|
    ensures (t + rest)[..|t|] == t
  {
  }

  lemma {:induction false} DecodeItemsEncode(p: Pattern)
    requires p != []
    ensures DecodeItems(Encode(p)) == Some(p)
    decreases |p|
  {
    var t := NatToString(p[0]);
    NatToStringInverse(p[0]);
    if |p| == 1 {
      IndexOfAfterNumeral(t, "");
      assert t + "" == t && t[..|t|] == t;
      assert ParseNat(t) == Some(p[0]);
      assert Encode(p) == t && p == [p[0]];
    } else {
      var rest := Encode(p[1..]);
      var k := t + ("-" + rest);
      assert Encode(p) == k;
      IndexOfAfterNumeral(t, "-" + rest);
      assert k[|t| + 1..] == rest;
      DecodeItemsEncode(p[1..]);
      assert [p[0]] + p[1..] == p;
    }
  }

  /** Round trip: every key decodes back to the pattern it came from. */
  lemma DecodeEncode(p: Pattern)
    ensures Decode(Encode(p)) == Some(p)
  {
    if p != [] {
      DecodeItemsEncode(p);
    }
  }

  /** Hence keys identify patterns: equal keys mean equal patterns. */
  lemma EncodeInjective(p: Pattern, q: Pattern)
    ensures Encode(p) == Encode(q) <==> p == q
  {
    DecodeEncode(p);
    DecodeEncode(q);
  }

  /** Keys depend on the order of the dots. */
  lemma EncodeOrderSensitive()
    ensures Encode([0, 1, 2]) == "0-1-2"
    ensures Encode([0, 1, 2]) != Encode([2, 1, 0])
  {
    EncodeInjective([0, 1, 2], [2, 1, 0]);
  }
}
