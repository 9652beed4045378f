/**
 * Go strings are byte sequences: the lengths compared in user_handling.go
 * (`len(userAgent) > 256`) and the slices taken (`userAgent[:256]`) count bytes.
 * This module gives those byte strings and the few operations the handlers
 * apply to them.
 */
module Text {

  type Byte = b: int | 0 <= b < 256
  type Bytes = seq<Byte>

  /** The bytes of an ASCII string literal. */
  function Ascii(s: string): (r: Bytes)
    requires forall i :: 0 <= i < |s| ==> s[i] as int < 128
    ensures |r| == |s|
    ensures forall i :: 0 <= i < |s| ==> r[i] == s[i] as int
  {
    seq(|s|, i requires 0 <= i < |s| => s[i] as int)
  }

  predicate IsUpper(b: Byte) { 'A' as int <= b <= 'Z' as int }
  predicate IsLower(b: Byte) { 'a' as int <= b <= 'z' as int }
  predicate IsDigit(b: Byte) { '0' as int <= b <= '9' as int }
  predicate IsAlphanumeric(b: Byte) { IsUpper(b) || IsLower(b) || IsDigit(b) }

  function LowerByte(b: Byte): Byte
  {
    if IsUpper(b) then b + ('a' as int - 'A' as int) else b
  }

  /**
   * strings.ToLower on the ASCII range: every upper-case letter becomes its
   * lower-case letter, every other byte stays as it is.
   */
  function ToLower(s: Bytes): (r: Bytes)
    ensures |r| == |s|
    ensures forall i :: 0 <= i < |r| ==> !IsUpper(r[i])
    ensures forall i :: 0 <= i < |s| && !IsUpper(s[i]) ==> r[i] == s[i]
    ensures forall i :: 0 <= i < |s| && IsUpper(s[i]) ==> IsLower(r[i]) && r[i] - s[i] == 32
  {
    seq(|s|, i requires 0 <= i < |s| => LowerByte(s[i]))
  }

  /**
   * The defensive cut applied to client-supplied strings before they are
   * stored: the result is the longest prefix of `s` that is at most `n` bytes.
   */
  function Truncate(s: Bytes, n: nat): (r: Bytes)
    ensures |r| <= n
    ensures r <= s
    ensures |s| <= n ==> r == s
    ensures |s| > n ==> |r| == n
  {
    if |s| > n then s[..n] else s
  }

  /**
   * Byte-wise lexicographic order, the order a database sorts text in
   * under the "C" collation.
   */
  predicate LexLe(a: Bytes, b: Bytes)
  {
    |a| == 0 || (|b| > 0 && (a[0] < b[0] || (a[0] == b[0] && LexLe(a[1..], b[1..]))))
  }

  lemma {:induction false} LexLeTotal(a: Bytes, b: Bytes)
    ensures LexLe(a, b) || LexLe(b, a)
  {
    if |a| > 0 && |b| > 0 && a[0] == b[0] {
      LexLeTotal(a[1..], b[1..]);
    }
  }

  /** Two byte strings each at most the other are equal. */
  lemma {:induction false} LexLeAntisymmetric(a: Bytes, b: Bytes)
    ensures LexLe(a, b) && LexLe(b, a) ==> a == b
  {
    if |a| > 0 && |b| > 0 && a[0] == b[0] {
      LexLeAntisymmetric(a[1..], b[1..]);
      if LexLe(a, b) && LexLe(b, a) {
        assert a == [a[0]] + a[1..] && b == [b[0]] + b[1..];
      }
    }
  }

  lemma {:induction false} LexLeTransitive(a: Bytes, b: Bytes, c: Bytes)
    requires LexLe(a, b) && LexLe(b, c)
    ensures LexLe(a, c)
  {
    if |a| > 0 && a[0] == b[0] && b[0] == c[0] {
      LexLeTransitive(a[1..], b[1..], c[1..]);
    }
  }
}
