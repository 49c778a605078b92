/** Values and string operations of the JavaScript runtime that several
    source files of the add-on rely on: null-or-value, Number-to-string
    conversion, hexadecimal digits, and the case-insensitive literal search
    that an escaped regular expression with the "i" flag performs.
    Strings are sequences of `char`; case folding is ASCII only. */
module Common {

  datatype Option<T> = None | Some(value: T)

  // ----- hexadecimal and decimal digits -----

  predicate IsHexDigit(c: char) {
    ('0' <= c <= '9') || ('a' <= c <= 'f') || ('A' <= c <= 'F')
  }

  predicate IsDecimalDigit(c: char) {
    '0' <= c <= '9'
  }

  /** The value of one hexadecimal digit, either case. */
  function HexDigitValue(c: char): (v: nat)
    requires IsHexDigit(c)
    ensures v < 16
  {
    if '0' <= c <= '9' then c as int - '0' as int
    else if 'a' <= c <= 'f' then c as int - 'a' as int + 10
    else c as int - 'A' as int + 10
  }

  /** The digit Number.prototype.toString(16) prints for 0..15 (lower case). */
  function HexDigit(d: nat): (c: char)
    requires d < 16
    ensures IsHexDigit(c) && HexDigitValue(c) == d
    ensures !('A' <= c <= 'F')
  {
    if d < 10 then ('0' as int + d) as char else ('a' as int + d - 10) as char
  }

  /** The digit Number.prototype.toString() prints for 0..9. */
  function DecimalDigit(d: nat): (c: char)
    requires d < 10
    ensures IsDecimalDigit(c) && c as int - '0' as int == d
  {
    ('0' as int + d) as char
  }

  predicate AllHex(s: string) {
    forall i :: 0 <= i < |s| ==> IsHexDigit(s[i])
  }

  /** The number a string of hexadecimal digits denotes, most significant first. */
  function HexValue(s: string): nat
    requires AllHex(s)
  {
    if |s| == 0 then 0 else HexValue(s[..|s| - 1]) * 16 + HexDigitValue(s[|s| - 1])
  }

  /** n.toString(16) for a non-negative integer n. */
  function Hex(n: nat): (s: string)
    ensures |s| > 0 && AllHex(s)
    ensures forall i :: 0 <= i < |s| ==> !('A' <= s[i] <= 'F')
  {
    if n < 16 then [HexDigit(n)] else Hex(n / 16) + [HexDigit(n % 16)]
  }

  /** Digits of a non-negative integer in base ten. */
  function DecimalDigits(n: nat): (s: string)
    ensures |s| > 0
    ensures forall i :: 0 <= i < |s| ==> IsDecimalDigit(s[i])
  {
    if n < 10 then [DecimalDigit(n)] else DecimalDigits(n / 10) + [DecimalDigit(n % 10)]
  }

  /** n.toString() for a safe integer (|n| < 2^53, as tab ids and tab counts
      are): a minus sign, then the digits. */
  function Decimal(n: int): (s: string)
    ensures |s| > 0
    ensures n >= 0 ==> forall i :: 0 <= i < |s| ==> IsDecimalDigit(s[i])
    ensures n < 0 ==> s[0] == '-'
  {
    if n < 0 then "-" + DecimalDigits(-n) else DecimalDigits(n)
  }

  /** The value of one decimal digit. */
  function DecimalDigitValue(c: char): (v: nat)
    requires IsDecimalDigit(c)
    ensures v < 10
  {
    c as int - '0' as int
  }

  predicate AllDecimal(s: string) {
    forall i :: 0 <= i < |s| ==> IsDecimalDigit(s[i])
  }

  /** The number a string of decimal digits denotes, most significant first. */
  function DecimalValue(s: string): nat
    requires AllDecimal(s)
  {
    if |s| == 0 then 0 else DecimalValue(s[..|s| - 1]) * 10 + DecimalDigitValue(s[|s| - 1])
  }

  /** The text of an integer: digits, after a minus sign when negative. */
  predicate IsDecimalText(s: string) {
    && |s| > 0
    && (if s[0] == '-' then |s| > 1 && AllDecimal(s[1..]) else AllDecimal(s))
  }

  /** The integer such a text denotes. */
  function DecimalNumber(s: string): int
    requires IsDecimalText(s)
  {
    if s[0] == '-' then -(DecimalValue(s[1..]) as int) else DecimalValue(s)
  }

  /** The base-ten digits read back to the number they were made from. */
  lemma {:induction false} DecimalDigitsRoundTrip(n: nat)
    ensures AllDecimal(DecimalDigits(n)) && DecimalValue(DecimalDigits(n)) == n
  {
    if n >= 10 {
      DecimalDigitsRoundTrip(n / 10);
      var s := DecimalDigits(n);
      assert s[..|s| - 1] == DecimalDigits(n / 10);
    }
  }

  /** The text Decimal gives reads back to n; for a safe integer that text
      is n.toString(). */
  lemma DecimalRoundTrip(n: int)
    ensures IsDecimalText(Decimal(n)) && DecimalNumber(Decimal(n)) == n
  {
    if n < 0 {
      DecimalDigitsRoundTrip(-n);
      assert Decimal(n)[1..] == DecimalDigits(-n);
    } else {
      DecimalDigitsRoundTrip(n);
    }
  }

  /** Number.prototype.toString(16) and reading the digits back agree. */
  lemma {:induction false} HexRoundTrip(n: nat)
    ensures HexValue(Hex(n)) == n
  {
    if n >= 16 {
      HexRoundTrip(n / 16);
      var s := Hex(n);
      assert s[..|s| - 1] == Hex(n / 16);
    }
  }

  /** Hex(n) has at most k digits when n < 16^k; here for the six digits of a colour. */
  lemma {:induction false} HexLength(n: nat, k: nat)
    requires k > 0 && n < Pow16(k)
    ensures |Hex(n)| <= k
  {
    if n >= 16 {
      assert k > 1;
      HexLength(n / 16, k - 1);
    }
  }

  function Pow16(k: nat): (p: nat)
    ensures p >= 1
  {
    if k == 0 then 1 else 16 * Pow16(k - 1)
  }

  // ----- case-insensitive literal search -----

  /** ASCII lower-casing of one character. */
  function Lower(c: char): (d: char)
    ensures 'A' <= c <= 'Z' ==> d as int == c as int + 32
    ensures !('A' <= c <= 'Z') ==> d == c
  {
    if 'A' <= c <= 'Z' then (c as int + 32) as char else c
  }

  /** Two characters are equal under the "i" flag (ASCII folding). */
  predicate SameCI(a: char, b: char) {
    Lower(a) == Lower(b)
  }

  /** `needle` occurs in `hay` at position `k`, ignoring ASCII case. */
  predicate OccursAtCI(hay: string, needle: string, k: nat) {
    k + |needle| <= |hay| && forall j :: 0 <= j < |needle| ==> SameCI(hay[k + j], needle[j])
  }

  /** The first position at or after `from` where `needle` occurs in `hay`,
      ignoring ASCII case: what String.prototype.search returns for the
      escaped, case-insensitive pattern of `needle`. */
  function SearchCIFrom(hay: string, needle: string, from: nat): (r: Option<nat>)
    decreases |hay| - from
    ensures r.Some? ==> from <= r.value && OccursAtCI(hay, needle, r.value)
    ensures r.Some? ==> forall k :: from <= k < r.value ==> !OccursAtCI(hay, needle, k)
    ensures r.None? ==> forall k: nat :: from <= k ==> !OccursAtCI(hay, needle, k)
  {
    if from + |needle| > |hay| then None
    else if OccursAtCI(hay, needle, from) then Some(from)
    else SearchCIFrom(hay, needle, from + 1)
  }

  function SearchCI(hay: string, needle: string): (r: Option<nat>)
    ensures r.Some? ==> OccursAtCI(hay, needle, r.value)
    ensures r.Some? ==> forall k: nat :: k < r.value ==> !OccursAtCI(hay, needle, k)
    ensures r.None? <==> forall k: nat :: !OccursAtCI(hay, needle, k)
  {
    SearchCIFrom(hay, needle, 0)
  }

  /** hay.search(new RegExp(escapeRegex(needle), "i")) !== -1 */
  predicate ContainsCI(hay: string, needle: string) {
    SearchCI(hay, needle).Some?
  }

  // ----- string order -----

  /** Code-point lexicographic order: the total order that stands in for
      String.prototype.localeCompare, whose locale rules are not modelled. */
  predicate LexLe(a: string, b: string) {
    |a| == 0 || (|b| > 0 && (a[0] < b[0] || (a[0] == b[0] && LexLe(a[1..], b[1..]))))
  }

  lemma {:induction false} LexTotal(a: string, b: string)
    ensures LexLe(a, b) || LexLe(b, a)
  {
    if |a| > 0 && |b| > 0 && a[0] == b[0] {
      LexTotal(a[1..], b[1..]);
    }
  }

  lemma {:induction false} LexTransitive(a: string, b: string, c: string)
    requires LexLe(a, b) && LexLe(b, c)
    ensures LexLe(a, c)
  {
    if |a| > 0 && |b| > 0 && |c| > 0 && a[0] == b[0] && b[0] == c[0] {
      LexTransitive(a[1..], b[1..], c[1..]);
    }
  }

  // ----- Array.prototype operations -----

  /** Array.prototype.indexOf: the first position of `x`, or -1. */
  function IndexOf<T(==)>(s: seq<T>, x: T): (i: int)
    ensures -1 <= i < |s|
    ensures i == -1 <==> x !in s
    ensures 0 <= i ==> s[i] == x && x !in s[..i]
  {
    if |s| == 0 then -1
    else if s[0] == x then 0
    else
      var j := IndexOf(s[1..], x);
      if j == -1 then -1 else j + 1
  }

  /** The position where splice(start, ...) acts on an array of length `len`:
      a negative start counts from the end, and both ends are clamped. */
  function SpliceStart(start: int, len: nat): (k: nat)
    ensures k <= len
  {
    if start < 0 then (if len + start < 0 then 0 else len + start)
    else if start > len then len else start
  }

  /** s.splice(i, 0, x) for 0 <= i <= |s|. */
  function InsertAt<T>(s: seq<T>, i: nat, x: T): (r: seq<T>)
    requires i <= |s|
    ensures |r| == |s| + 1 && r[i] == x && r[..i] == s[..i] && r[i + 1..] == s[i..]
  {
    s[..i] + [x] + s[i..]
  }

  /** Merging a map whose keys the right-hand map all has yields the right-hand map. */
  lemma MergeCovered<K, V>(a: map<K, V>, b: map<K, V>)
    requires a.Keys <= b.Keys
    ensures a + b == b
  {
    assert (a + b).Keys == b.Keys;
  }

  /** Concatenation regroups freely. */
  lemma ConcatAssociates<T>(a: seq<T>, b: seq<T>, c: seq<T>)
    ensures a + (b + c) == (a + b) + c
  {
  }

  /** The multiset of a non-empty sequence splits off its last element. */
  lemma MultisetSnoc<T>(s: seq<T>)
    requires |s| > 0
    ensures multiset(s) == multiset(s[..|s| - 1]) + multiset{s[|s| - 1]}
  {
    assert s == s[..|s| - 1] + [s[|s| - 1]];
  }

  /** Splicing an element in adds it to the multiset of elements. */
  lemma InsertAtMultiset<T>(s: seq<T>, i: nat, x: T)
    requires i <= |s|
    ensures multiset(InsertAt(s, i, x)) == multiset(s) + multiset{x}
  {
    assert s == s[..i] + s[i..];
  }

  /** s.splice(i, 1) for 0 <= i < |s|. */
  function RemoveAt<T>(s: seq<T>, i: nat): (r: seq<T>)
    requires i < |s|
    ensures |r| == |s| - 1 && r[..i] == s[..i] && r[i..] == s[i + 1..]
  {
    s[..i] + s[i + 1..]
  }

  /** Splicing an element out removes it from the multiset of elements. */
  lemma RemoveAtMultiset<T>(s: seq<T>, i: nat)
    requires i < |s|
    ensures multiset(RemoveAt(s, i)) + multiset{s[i]} == multiset(s)
  {
    assert s == s[..i] + [s[i]] + s[i + 1..];
  }

  /** No element is listed twice. */
  predicate NoRepeats<T(==)>(s: seq<T>) {
    forall i, j :: 0 <= i < j < |s| ==> s[i] != s[j]
  }
}
