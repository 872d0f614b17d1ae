/** Byte strings with the semantics of Go's `strings`, `path/filepath` and `%d`
    formatting, one `char` per byte, as the catalogue helpers use them. */
module Text {

  predicate HasPrefix(s: string, p: string) {
    |p| <= |s| && s[..|p|] == p
  }

  predicate HasSuffix(s: string, p: string) {
    |p| <= |s| && s[|s| - |p|..] == p
  }

  /** strings.TrimSuffix: drops one copy of `suffix` from the end, if it is there. */
  function TrimSuffix(s: string, suffix: string): (r: string)
    ensures HasSuffix(s, suffix) ==> r + suffix == s
    ensures !HasSuffix(s, suffix) ==> r == s
  {
    if HasSuffix(s, suffix) then s[..|s| - |suffix|] else s
  }

  /** strings.Replace(s, [a], [b], -1) for one-byte old and new strings. */
  function ReplaceChar(s: string, a: char, b: char): (r: string)
    ensures |r| == |s|
    ensures forall i :: 0 <= i < |s| ==> r[i] == if s[i] == a then b else s[i]
  {
    if s == [] then [] else [if s[0] == a then b else s[0]] + ReplaceChar(s[1..], a, b)
  }

  lemma ReplaceCharRemoves(s: string, a: char, b: char)
    requires a != b
    ensures a !in ReplaceChar(s, a, b)
  {
    var r := ReplaceChar(s, a, b);
    assert forall i :: 0 <= i < |r| ==> r[i] != a;
  }

  /** strings.LastIndex for a one-byte separator: -1, or the position of the last `c`. */
  function LastIndex(s: string, c: char): (i: int)
    ensures -1 <= i < |s|
    ensures i == -1 <==> c !in s
    ensures 0 <= i ==> s[i] == c && c !in s[i + 1..]
  {
    if s == [] then -1
    else if s[|s| - 1] == c then |s| - 1
    else
      assert s == s[..|s| - 1] + [s[|s| - 1]];
      LastIndex(s[..|s| - 1], c)
  }

  /** The last position of `c` is the one after which no `c` follows. */
  lemma LastIndexUnique(s: string, c: char, i: int)
    requires -1 <= i < |s| && (0 <= i ==> s[i] == c)
    requires forall k :: i < k < |s| ==> s[k] != c
    ensures LastIndex(s, c) == i
  {
  }

  /** strings.Split for a one-byte separator: the pieces between the separators,
      a single piece when there is none. */
  function Split(s: string, c: char): (parts: seq<string>)
    ensures |parts| == multiset(s)[c] + 1
    ensures forall k :: 0 <= k < |parts| ==> c !in parts[k]
    decreases |s|
  {
    var i := LastIndex(s, c);
    if i < 0 then [s]
    else
      assert s == s[..i] + [c] + s[i + 1..];
      Split(s[..i], c) + [s[i + 1..]]
  }

  /** strings.Join with a one-byte separator. */
  function Join(parts: seq<string>, c: char): string {
    if |parts| == 0 then ""
    else if |parts| == 1 then parts[0]
    else Join(parts[..|parts| - 1], c) + [c] + parts[|parts| - 1]
  }

  lemma {:induction false} JoinSplit(s: string, c: char)
    ensures Join(Split(s, c), c) == s
    decreases |s|
  {
    var i := LastIndex(s, c);
    if 0 <= i {
      var front := Split(s[..i], c);
      var parts := front + [s[i + 1..]];
      assert parts[..|parts| - 1] == front;
      JoinSplit(s[..i], c);
      assert s == s[..i] + [c] + s[i + 1..];
    }
  }

  /** The last piece of a split is what follows the last separator. */
  lemma SplitLast(s: string, c: char)
    ensures Split(s, c)[|Split(s, c)| - 1] == s[LastIndex(s, c) + 1..]
  {
  }

  /** path/filepath.Ext on a slash-separated path: the suffix from the final dot
      of the final element, or "" when that element has no dot. */
  function Ext(path: string): (r: string)
    ensures r == "" || (r[0] == '.' && HasSuffix(path, r) && '/' !in r && '.' !in r[1..])
    ensures '.' in path[LastIndex(path, '/') + 1..] ==> r != ""
  {
    var d := LastIndex(path, '.');
    if 0 <= d && '/' !in path[d..] then path[d..] else ""
  }

  function LowerChar(c: char): char {
    if 'A' <= c <= 'Z' then (c as int - 'A' as int + 'a' as int) as char else c
  }

  /** strings.ToLower on ASCII letters. */
  function ToLower(s: string): (r: string)
    ensures |r| == |s|
    ensures forall i :: 0 <= i < |s| ==> r[i] == LowerChar(s[i])
  {
    if s == [] then [] else [LowerChar(s[0])] + ToLower(s[1..])
  }

  /** Go's `<` on strings: bytewise lexicographic order. */
  predicate Less(a: string, b: string) {
    if a == [] then b != []
    else if b == [] then false
    else if a[0] == b[0] then Less(a[1..], b[1..])
    else a[0] < b[0]
  }

  lemma {:induction false} LessIrreflexive(a: string)
    ensures !Less(a, a)
  {
    if a != [] {
      LessIrreflexive(a[1..]);
    }
  }

  lemma {:induction false} LessTransitive(a: string, b: string, c: string)
    requires Less(a, b) && Less(b, c)
    ensures Less(a, c)
  {
    if a != [] && b != [] && c != [] && a[0] == b[0] && b[0] == c[0] {
      LessTransitive(a[1..], b[1..], c[1..]);
    }
  }

  lemma {:induction false} LessTotal(a: string, b: string)
    ensures a == b || Less(a, b) || Less(b, a)
  {
    if a != [] && b != [] && a[0] == b[0] {
      LessTotal(a[1..], b[1..]);
      if a[1..] == b[1..] {
        assert a == [a[0]] + a[1..] && b == [b[0]] + b[1..];
      }
    }
  }

  lemma {:induction false} LessAsymmetric(a: string, b: string)
    requires Less(a, b)
    ensures !Less(b, a)
  {
    if a != [] && b != [] && a[0] == b[0] {
      LessAsymmetric(a[1..], b[1..]);
    }
  }

  function Digit(d: nat): char
    requires d < 10
  {
    ('0' as int + d) as char
  }

  predicate IsDigit(c: char) {
    '0' as int <= c as int <= '9' as int
  }

  /** fmt's `%d` of a non-negative integer: decimal digits without leading zeros. */
  function Decimal(n: nat): (r: string)
    ensures r != [] && forall i :: 0 <= i < |r| ==> IsDigit(r[i])
    ensures |r| > 1 ==> r[0] != '0'
  {
    if n < 10 then [Digit(n)] else Decimal(n / 10) + [Digit(n % 10)]
  }

  /** The value of a string of decimal digits. */
  function DigitsValue(s: string): nat
    requires forall i :: 0 <= i < |s| ==> IsDigit(s[i])
  {
    if s == [] then 0
    else
      assert IsDigit(s[|s| - 1]);
      10 * DigitsValue(s[..|s| - 1]) + (s[|s| - 1] as int - '0' as int)
  }

  lemma {:induction false} DecimalRoundTrip(n: nat)
    ensures DigitsValue(Decimal(n)) == n
  {
    if 10 <= n {
      DecimalRoundTrip(n / 10);
      var r := Decimal(n);
      assert r[..|r| - 1] == Decimal(n / 10);
    }
  }

  /** fmt's `%d` of any integer. */
  function IntDecimal(i: int): (r: string)
    ensures r != []
    ensures i < 0 <==> r[0] == '-'
  {
    if i < 0 then "-" + Decimal(-i) else Decimal(i)
  }

  /** After the sign, `%d` writes the digits of the magnitude. */
  lemma IntDecimalRoundTrip(i: int)
    ensures var r := IntDecimal(i); var digits := if i < 0 then r[1..] else r;
      (forall k :: 0 <= k < |digits| ==> IsDigit(digits[k])) &&
      DigitsValue(digits) == if i < 0 then -i else i
  {
    var r := IntDecimal(i);
    if i < 0 {
      assert r[1..] == Decimal(-i);
    }
    DecimalRoundTrip(if i < 0 then -i else i);
  }
}
