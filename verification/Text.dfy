/** C string helpers shared by the components: searching, splitting and
    decimal printing. A C string is the sequence of its characters, without
    the terminator. */
module Text {

  datatype Option<+T> = None | Some(value: T)

  const U32: nat := 0x1_0000_0000

  type u32 = x: nat | x < 0x1_0000_0000

  lemma Associative<T>(a: seq<T>, b: seq<T>, c: seq<T>)
    ensures a + (b + c) == a + b + c
  {
  }

  /** `strchr` from a position; the length of `s` stands for "not found". */
  function IndexOf(s: string, c: char, from: nat): (i: nat)
    requires from <= |s|
    ensures from <= i <= |s|
    ensures forall k :: from <= k < i ==> s[k] != c
    ensures i < |s| ==> s[i] == c
    decreases |s| - from
  {
    if from == |s| || s[from] == c then from else IndexOf(s, c, from + 1)
  }

  /** The first separator after a piece that does not contain it. */
  lemma IndexOfPiece(before: string, piece: string, c: char, after: string)
    requires c !in piece
    ensures IndexOf(before + piece + [c] + after, c, |before|) == |before| + |piece|
  {
    var s := before + piece + [c] + after;
    assert forall k :: |before| <= k < |before| + |piece| ==> s[k] == piece[k - |before|] && piece[k - |before|] in piece;
    assert s[|before| + |piece|] == c;
  }

  /** The pieces of `s` between the separators; there is always at least one. */
  function Split(s: string, c: char): (parts: seq<string>)
    ensures |parts| > 0
    ensures forall p :: p in parts ==> c !in p
    decreases |s|
  {
    var i := IndexOf(s, c, 0);
    if i == |s| then [s] else [s[..i]] + Split(s[i + 1..], c)
  }

  /** Inverse of Split. */
  function Join(parts: seq<string>, c: char): (s: string)
    requires |parts| > 0
  {
    if |parts| == 1 then parts[0] else parts[0] + [c] + Join(parts[1..], c)
  }

  lemma SplitHead(head: string, rest: string, c: char)
    requires c !in head
    ensures Split(head + [c] + rest, c) == [head] + Split(rest, c)
  {
    var s := head + [c] + rest;
    assert forall k :: 0 <= k < |head| ==> s[k] == head[k] && head[k] in head;
    assert s[|head|] == c;
    assert s[..|head|] == head && s[|head| + 1..] == rest;
  }

  lemma SplitSingle(s: string, c: char)
    requires c !in s
    ensures Split(s, c) == [s]
  {
  }

  /** Splitting at a separator in the middle. */
  lemma {:induction false} SplitConcat(a: string, b: string, c: char)
    ensures Split(a + [c] + b, c) == Split(a, c) + Split(b, c)
    decreases |a|
  {
    var i := IndexOf(a, c, 0);
    if i == |a| {
      SplitHead(a, b, c);
    } else {
      var head, tail := a[..i], a[i + 1..];
      assert a == head + [c] + tail;
      assert a + [c] + b == head + [c] + (tail + [c] + b);
      SplitHead(head, tail + [c] + b, c);
      SplitConcat(tail, b, c);
      Associative([head], Split(tail, c), Split(b, c));
    }
  }

  lemma {:induction false} SplitJoin(parts: seq<string>, c: char)
    requires |parts| > 0 && forall i :: 0 <= i < |parts| ==> c !in parts[i]
    ensures Split(Join(parts, c), c) == parts
  {
    if |parts| == 1 {
      SplitSingle(parts[0], c);
    } else {
      SplitHead(parts[0], Join(parts[1..], c), c);
      SplitJoin(parts[1..], c);
    }
  }

  function DigitChar(d: nat): (c: char)
    requires d < 10
    ensures IsDigit(c) && DigitValue(c) == d
  {
    "0123456789"[d]
  }

  predicate IsDigit(c: char) {
    '0' <= c <= '9'
  }

  function DigitValue(c: char): (d: nat)
    requires IsDigit(c)
    ensures d < 10
  {
    c as int - '0' as int
  }

  predicate AllDigits(s: string) {
    forall i :: 0 <= i < |s| ==> IsDigit(s[i])
  }

  /** What `%u` prints. */
  function Decimal(n: nat): (s: string)
    ensures |s| > 0 && AllDigits(s)
    ensures s[0] == '0' ==> n == 0 && s == "0"
  {
    if n < 10 then [DigitChar(n)] else Decimal(n / 10) + [DigitChar(n % 10)]
  }

  /** The number a run of decimal digits denotes. */
  function DecimalValue(s: string): nat
    requires AllDigits(s)
  {
    if s == "" then 0 else 10 * DecimalValue(s[..|s| - 1]) + DigitValue(s[|s| - 1])
  }

  lemma {:induction false} DecimalRoundTrip(n: nat)
    ensures DecimalValue(Decimal(n)) == n
  {
    var s := Decimal(n);
    if n < 10 {
      assert s[..0] == "";
    } else {
      DecimalRoundTrip(n / 10);
      assert s[..|s| - 1] == Decimal(n / 10);
    }
  }

  lemma DecimalInjective(m: nat, n: nat)
    requires Decimal(m) == Decimal(n)
    ensures m == n
  {
    DecimalRoundTrip(m);
    DecimalRoundTrip(n);
  }

  lemma DecimalByte(n: nat)
    requires n < 256
    ensures |Decimal(n)| <= 3
  {
    if n >= 10 {
      assert |Decimal(n)| == |Decimal(n / 10)| + 1;
      assert n / 10 >= 10 ==> |Decimal(n / 10)| == |Decimal(n / 10 / 10)| + 1;
    }
  }

  /** What `snprintf` leaves in a buffer of `size` bytes. */
  function Snprintf(size: nat, text: string): string
    requires size > 0
  {
    if |text| < size then text else text[..size - 1]
  }

  function Lower(c: char): char {
    if 'A' <= c <= 'Z' then c - 'A' + 'a' else c
  }

  /** `strcasecmp` and `strncasecmp`. */
  predicate SameNoCase(a: string, b: string) {
    |a| == |b| && forall i :: 0 <= i < |a| ==> Lower(a[i]) == Lower(b[i])
  }

  /** Two texts are the same but for case exactly when each pair of characters is
      equal or a letter in its two forms. */
  lemma SameNoCaseIff(a: string, b: string)
    ensures SameNoCase(a, b) <==>
      |a| == |b| && forall i :: 0 <= i < |a| ==> a[i] == b[i] || TwoForms(a[i], b[i]) || TwoForms(b[i], a[i])
  {
    assert forall c, d :: Lower(c) == Lower(d) <==> c == d || TwoForms(c, d) || TwoForms(d, c);
  }

  ghost predicate TwoForms(upper: char, lower: char) {
    'A' <= upper <= 'Z' && lower as int == upper as int + 32
  }
}
