/** The JavaScript value semantics the pages rely on: truthiness, `parseInt` on decimal
    text, the decimal rendering of an integer, ASCII `toLowerCase`, `includes`, and the
    local calendar day of a millisecond timestamp. */
module JsValues {
  import opened Wrappers

  /** A form field as the pages hold it: the text of an input, a number copied from a
      stored record, or null. */
  datatype FieldValue = Text(text: string) | Number(n: int) | Null

  /** JavaScript truthiness of a field: the empty string, 0 and null are falsy. */
  predicate Truthy(v: FieldValue)
  {
    match v
    case Text(t) => t != ""
    case Number(n) => n != 0
    case Null => false
  }

  /** Truthiness of a stored nullable number (`if (s.seat_no)`). */
  predicate TruthyNum(o: Option<int>)
  {
    o.Some? && o.value != 0
  }

  predicate IsDigit(c: char)
  {
    '0' <= c <= '9'
  }

  predicate AllDigits(s: string)
  {
    forall i :: 0 <= i < |s| ==> IsDigit(s[i])
  }

  function DigitValue(c: char): nat
    requires IsDigit(c)
  {
    (c as int) - ('0' as int)
  }

  function DigitChar(d: nat): (c: char)
    requires d < 10
    ensures IsDigit(c) && DigitValue(c) == d
  {
    ((('0' as int) + d) as char)
  }

  /** The length of the longest prefix of `s` made of decimal digits. */
  function LeadingDigits(s: string): (k: nat)
    ensures k <= |s|
    ensures AllDigits(s[..k])
    ensures k < |s| ==> !IsDigit(s[k])
  {
    if s == [] || !IsDigit(s[0]) then 0 else 1 + LeadingDigits(s[1..])
  }

  function DecimalValue(ds: string): nat
    requires AllDigits(ds)
  {
    if ds == [] then 0 else DecimalValue(ds[..|ds| - 1]) * 10 + DigitValue(ds[|ds| - 1])
  }

  function ParseDigits(s: string): Option<nat>
  {
    var k := LeadingDigits(s);
    if k == 0 then None else Some(DecimalValue(s[..k]))
  }

  /** `parseInt(s)` on decimal text: an optional sign, then the longest run of digits;
      None stands for NaN (no digit where the number should start). */
  function ParseInt(s: string): Option<int>
  {
    if |s| > 0 && s[0] == '-' then
      match ParseDigits(s[1..])
      case None => None
      case Some(v) => Some(-(v as int))
    else if |s| > 0 && s[0] == '+' then
      match ParseDigits(s[1..])
      case None => None
      case Some(v) => Some(v)
    else
      match ParseDigits(s)
      case None => None
      case Some(v) => Some(v)
  }

  /** `parseInt(v)` for a field: a number is already an integer. */
  function ParseField(v: FieldValue): Option<int>
  {
    match v
    case Text(t) => ParseInt(t)
    case Number(n) => Some(n)
    case Null => None
  }

  /** The idiom `v ? parseInt(v) : null` used when a form is saved. NaN is kept as None:
      both are falsy and neither equals a room id or seat number, so the allocator, the
      seat map and the room lookups treat them alike; only the text a page prints for
      them differs. */
  function IntOrNull(v: FieldValue): (r: Option<int>)
    ensures !Truthy(v) ==> r == None
    ensures Truthy(v) ==> r == ParseField(v)
  {
    if Truthy(v) then ParseField(v) else None
  }

  /** The decimal text of a natural number, as `String(n)` writes it. */
  function ShowNat(n: nat): (r: string)
    ensures |r| > 0 && AllDigits(r)
  {
    if n < 10 then [DigitChar(n)] else ShowNat(n / 10) + [DigitChar(n % 10)]
  }

  function ShowInt(n: int): (r: string)
    ensures |r| > 0
  {
    if n < 0 then "-" + ShowNat(-n) else ShowNat(n)
  }

  /** A nullable number inside a template literal: null renders as "null". */
  function ShowNullable(o: Option<int>): string
  {
    match o
    case None => "null"
    case Some(n) => ShowInt(n)
  }

  lemma {:induction false} DecimalValueOfShow(n: nat)
    ensures DecimalValue(ShowNat(n)) == n
  {
    if n >= 10 {
      var a := ShowNat(n / 10);
      var s := a + [DigitChar(n % 10)];
      assert s[..|s| - 1] == a;
      DecimalValueOfShow(n / 10);
    }
  }

  lemma {:induction false} LeadingDigitsAppend(d: string, t: string)
    requires AllDigits(d)
    ensures LeadingDigits(d + t) == |d| + LeadingDigits(t)
  {
    if d == [] {
      assert d + t == t;
    } else {
      assert (d + t)[1..] == d[1..] + t;
      LeadingDigitsAppend(d[1..], t);
    }
  }

  /** `parseInt` reads back what `String(n)` wrote, and stops at the first character that
      is not a digit (so "12.5" and "12" both give 12). */
  lemma ParseIntOfShow(n: int, tail: string)
    requires tail == [] || !IsDigit(tail[0])
    ensures ParseInt(ShowInt(n) + tail) == Some(n)
  {
    var m: nat := if n < 0 then -n else n;
    var d := ShowNat(m);
    LeadingDigitsAppend(d, tail);
    assert LeadingDigits(tail) == 0;
    assert (d + tail)[..|d|] == d;
    DecimalValueOfShow(m);
    assert ParseDigits(d + tail) == Some(m);
    if n < 0 {
      assert ShowInt(n) + tail == "-" + (d + tail);
      assert ("-" + (d + tail))[1..] == d + tail;
    } else {
      assert IsDigit(d[0]);
    }
  }

  /** `parseInt(String(n)) == n`. */
  lemma ParseIntRoundTrip(n: int)
    ensures ParseInt(ShowInt(n)) == Some(n)
  {
    ParseIntOfShow(n, []);
    assert ShowInt(n) + [] == ShowInt(n);
  }

  function LowerChar(c: char): char
  {
    if 'A' <= c <= 'Z' then (c as int + 32) as char else c
  }

  /** `toLowerCase()` on ASCII letters. */
  function ToLower(s: string): (r: string)
    ensures |r| == |s|
    ensures forall i :: 0 <= i < |s| ==> r[i] == LowerChar(s[i])
  {
    if s == [] then [] else [LowerChar(s[0])] + ToLower(s[1..])
  }

  /** `s.includes(q)`: `q` occurs in `s` as a contiguous block. */
  predicate Includes(s: string, q: string)
  {
    q <= s || (|s| > 0 && Includes(s[1..], q))
  }

  /** `q` occurs in `s` starting at index `i`. */
  predicate OccursAt(s: string, q: string, i: int)
  {
    0 <= i && i + |q| <= |s| && s[i..i + |q|] == q
  }

  /** `includes` holds exactly when the query occurs at some position. */
  lemma {:induction false} IncludesSpec(s: string, q: string)
    ensures Includes(s, q) <==> exists i :: OccursAt(s, q, i)
  {
    if q <= s {
      assert OccursAt(s, q, 0);
    } else if |s| == 0 {
      assert !Includes(s, q);
    } else {
      IncludesSpec(s[1..], q);
      if exists i :: OccursAt(s, q, i) {
        var i :| OccursAt(s, q, i);
        assert i != 0;
        OccursInTail(s, q, i);
      }
      if Includes(s[1..], q) {
        var i :| OccursAt(s[1..], q, i);
        OccursFromTail(s, q, i);
      }
    }
  }

  lemma OccursInTail(s: string, q: string, i: int)
    requires OccursAt(s, q, i) && i > 0
    ensures OccursAt(s[1..], q, i - 1)
  {
    assert s[1..][i - 1..i - 1 + |q|] == s[i..i + |q|];
  }

  lemma OccursFromTail(s: string, q: string, i: int)
    requires |s| > 0 && OccursAt(s[1..], q, i)
    ensures OccursAt(s, q, i + 1)
  {
    assert s[1..][i..i + |q|] == s[i + 1..i + 1 + |q|];
  }

  const MsPerDay: int := 86400000

  /** The local calendar day a timestamp falls on (`toDateString()`), for a time zone
      `tz` milliseconds ahead of UTC. */
  function LocalDay(t: int, tz: int): int
  {
    (t + tz) / MsPerDay
  }

  /** `d.setHours(0,0,0,0)`: the local midnight that starts the day of `t`. */
  function LocalMidnight(t: int, tz: int): (m: int)
    ensures (m + tz) % MsPerDay == 0
    ensures m <= t < m + MsPerDay
    ensures LocalDay(m, tz) == LocalDay(t, tz)
  {
    t - (t + tz) % MsPerDay
  }

  /** Every instant from one local midnight up to the next lies on the same local day. */
  lemma SameLocalDay(t: int, d: int, tz: int)
    requires LocalMidnight(t, tz) <= d < LocalMidnight(t, tz) + MsPerDay
    ensures LocalDay(d, tz) == LocalDay(t, tz)
  {
    var m := LocalMidnight(t, tz);
    assert (m + tz) % MsPerDay == 0;
    var q := (m + tz) / MsPerDay;
    assert m + tz == q * MsPerDay;
    assert q * MsPerDay <= d + tz < q * MsPerDay + MsPerDay;
  }
}
