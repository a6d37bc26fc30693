/** Object identities as text: decimal formatting, Rust's integer parsing and the
    canonical `<kind>:<id>` names. */
module Ids {
  import opened Bytes
  import opened Wire

  function Digit(d: nat): char
    requires d < 10
  {
    (d + 48) as char
  }

  function DigitValue(c: char): Option<nat> {
    if '0' <= c <= '9' then Some(c as nat - 48) else None
  }

  /** `to_string` of an unsigned integer. */
  function Dec(n: nat): (s: string)
    ensures s != [] && forall i :: 0 <= i < |s| ==> '0' <= s[i] <= '9'
  {
    if n < 10 then [Digit(n)] else Dec(n / 10) + [Digit(n % 10)]
  }

  /** The value of a string of decimal digits. */
  function DigitsValue(s: string): Option<nat> {
    if s == [] then Some(0)
    else
      var high := DigitsValue(s[..|s| - 1]);
      var low := DigitValue(s[|s| - 1]);
      if high.None? || low.None? then None else Some(10 * high.value + low.value)
  }

  /** `str::parse::<u64>`: an optional plus sign, at least one digit, no overflow. */
  function ParseU64(s: string): Option<U64> {
    var digits := if s != [] && s[0] == '+' then s[1..] else s;
    var v := if digits == [] then None else DigitsValue(digits);
    if v.Some? && v.value < 0x1_0000_0000_0000_0000 then Some(v.value as U64) else None
  }

  lemma {:induction false} DigitsOfDec(n: nat)
    ensures DigitsValue(Dec(n)) == Some(n)
  {
    if n < 10 {
      assert Dec(n)[..0] == [];
    } else {
      DigitsOfDec(n / 10);
      assert Dec(n)[..|Dec(n)| - 1] == Dec(n / 10);
    }
  }

  /** The sum of the digits, each times its power of ten: the first one weighs most. */
  function PlaceValue(s: string): nat {
    if s == [] then 0 else Worth(s[0]) * Pow10(|s| - 1) + PlaceValue(s[1..])
  }

  function Worth(c: char): nat {
    if '0' <= c <= '9' then c as nat - '0' as nat else 0
  }

  function Pow10(n: nat): nat {
    if n == 0 then 1 else 10 * Pow10(n - 1)
  }

  lemma {:induction false} PlaceValueSnoc(s: string, c: char)
    ensures PlaceValue(s + [c]) == 10 * PlaceValue(s) + Worth(c)
  {
    hide Worth;
    if s == [] {
      assert (s + [c])[1..] == [];
    } else {
      PlaceValueSnoc(s[1..], c);
      assert (s + [c])[1..] == s[1..] + [c];
      TenTimes(Worth(s[0]), Pow10(|s| - 1));
    }
  }

  lemma TenTimes(a: nat, b: nat)
    ensures a * (10 * b) == 10 * (a * b)
  {
  }

  /** Formatting writes the number in decimal, without leading zeros. */
  lemma {:induction false} DecIsDecimal(n: nat)
    ensures PlaceValue(Dec(n)) == n
    ensures n > 0 ==> Dec(n)[0] != '0'
  {
    if n < 10 {
      PlaceValueSnoc([], Digit(n));
      assert [] + [Digit(n)] == Dec(n);
    } else {
      DecIsDecimal(n / 10);
      PlaceValueSnoc(Dec(n / 10), Digit(n % 10));
    }
  }

  predicate AllDigits(s: string) {
    forall i :: 0 <= i < |s| ==> '0' <= s[i] <= '9'
  }

  lemma {:induction false} DigitsValueIs(s: string)
    ensures DigitsValue(s) == if AllDigits(s) then Some(PlaceValue(s)) else None
  {
    if s != [] {
      var front, last := s[..|s| - 1], s[|s| - 1];
      DigitsValueIs(front);
      assert s == front + [last];
      if '0' <= last <= '9' {
        PlaceValueSnoc(front, last);
      }
    }
  }

  /** A string parses exactly if it is digits, at least one, after at most one plus sign, and names
      a number that fits; and then to that number. */
  lemma ParseExactly(s: string, v: U64)
    ensures ParseU64(s) == Some(v) <==>
            exists digits :: (s == digits || s == "+" + digits) && digits != [] && AllDigits(digits) &&
                             PlaceValue(digits) == v
  {
    var digits := if s != [] && s[0] == '+' then s[1..] else s;
    assert s == digits || s == "+" + digits;
    DigitsValueIs(digits);
    hide DigitsValue, PlaceValue;
    forall other | (s == other || s == "+" + other) && other != [] && AllDigits(other) ensures other == digits {
      if s == "+" + other {
        assert s[0] == '+' && s[1..] == other;
      }
    }
  }

  /** Parsing undoes formatting, so formatting is injective. */
  lemma ParseDec(n: U64)
    ensures ParseU64(Dec(n)) == Some(n)
  {
    DigitsOfDec(n);
  }

  function StripPrefix(s: string, prefix: string): Option<string> {
    if prefix <= s then Some(s[|prefix|..]) else None
  }

  function ParseName(s: string, prefix: string): Option<U64> {
    var rest := StripPrefix(s, prefix);
    if rest.None? then None else ParseU64(rest.value)
  }

  function Name(prefix: string, id: U64): string {
    prefix + Dec(id)
  }

  lemma ParseNameOfName(prefix: string, id: U64)
    ensures ParseName(Name(prefix, id), prefix) == Some(id)
  {
    ParseDec(id);
    assert Name(prefix, id)[|prefix|..] == Dec(id);
  }

  lemma NameInjective(prefix: string, a: U64, b: U64)
    requires Name(prefix, a) == Name(prefix, b)
    ensures a == b
  {
    ParseNameOfName(prefix, a);
    ParseNameOfName(prefix, b);
  }

  /** `rsplit(':').next()`: what follows the last colon, the whole string without one. */
  function LastSegment(s: string): string {
    if s == [] then []
    else if s[|s| - 1] == ':' then []
    else LastSegment(s[..|s| - 1]) + [s[|s| - 1]]
  }

  lemma LastSegmentStep(s: string, c: char)
    ensures LastSegment(s + [c]) == if c == ':' then [] else LastSegment(s) + [c]
  {
    assert (s + [c])[..|s|] == s;
  }

  lemma {:induction false} LastSegmentOf(s: string, tail: string)
    requires forall i :: 0 <= i < |tail| ==> tail[i] != ':'
    ensures LastSegment(s + [':'] + tail) == tail
    ensures LastSegment(tail) == tail
  {
    if tail == [] {
      LastSegmentStep(s, ':');
      assert s + [':'] + tail == s + [':'];
    } else {
      hide LastSegment;
      var shorter, last := tail[..|tail| - 1], tail[|tail| - 1];
      LastSegmentOf(s, shorter);
      assert tail == shorter + [last] && s + [':'] + tail == (s + [':'] + shorter) + [last];
      LastSegmentStep(shorter, last);
      LastSegmentStep(s + [':'] + shorter, last);
    }
  }

  /** The last segment has no colon, and stands at the end, behind a colon if anything is before it. */
  lemma {:induction false} LastSegmentIsLast(s: string)
    ensures var tail := LastSegment(s);
            && ':' !in tail && |tail| <= |s| && s[|s| - |tail|..] == tail
            && (|tail| < |s| ==> s[|s| - |tail| - 1] == ':')
  {
    if s != [] && s[|s| - 1] != ':' {
      var front, tail := s[..|s| - 1], LastSegment(s);
      LastSegmentIsLast(front);
      assert front[|front| - |LastSegment(front)|..] == s[|s| - |tail|..|s| - 1];
    }
  }

  /** The id a loosely named object refers to: the digits after the last colon. */
  function ParseLast(s: string): Option<U64> {
    ParseU64(LastSegment(s))
  }

  lemma ParseLastOfName(kind: string, id: U64)
    ensures ParseLast(Name(kind + [':'], id)) == Some(id)
    ensures ParseLast(Dec(id)) == Some(id)
  {
    ParseDec(id);
    LastSegmentOf(kind, Dec(id));
  }
}
