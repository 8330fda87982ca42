/**
 * The three operations on java.lang.String that the aggregation relies on:
 * compareTo (the tie-break between pickers), toUpperCase (article names),
 * and hashCode (through Objects.hash in Picker.hashCode).
 *
 * A Dafny char is a Unicode scalar value. For characters of the Basic
 * Multilingual Plane it is also the single UTF-16 code unit of a Java
 * string; characters outside that plane are not modelled as Java sees them.
 */
module JavaStrings {

  /** True when x fits in a Java int. */
  predicate IsInt32(x: int) {
    -0x8000_0000 <= x < 0x8000_0000
  }

  /** Java int arithmetic: x reduced to the 32-bit two's complement range. */
  function Wrap32(x: int): (r: int)
    ensures IsInt32(r)
    ensures (x - r) % 0x1_0000_0000 == 0
    ensures IsInt32(x) ==> r == x
  {
    (x + 0x8000_0000) % 0x1_0000_0000 - 0x8000_0000
  }

  /** String.hashCode: s[0]*31^(n-1) + ... + s[n-1], in int arithmetic. */
  function HashCode(s: string): (h: int)
    ensures IsInt32(h)
  {
    if s == [] then 0 else Wrap32(31 * HashCode(s[..|s| - 1]) + s[|s| - 1] as int)
  }

  /**
   * String.compareTo: the difference of the first pair of differing
   * characters, or the difference of the lengths when one string is a
   * prefix of the other.
   */
  function CompareTo(a: string, b: string): (r: int)
    ensures r == 0 <==> a == b
    ensures a != [] && b != [] && a[0] != b[0] ==> (r < 0 <==> a[0] < b[0])
  {
    if a == [] || b == [] then |a| - |b|
    else if a[0] != b[0] then a[0] as int - b[0] as int
    else CompareTo(a[1..], b[1..])
  }

  /** compareTo is antisymmetric: swapping the arguments negates the result. */
  lemma {:induction false} CompareToAntisymmetric(a: string, b: string)
    ensures CompareTo(b, a) == -CompareTo(a, b)
  {
    if a != [] && b != [] && a[0] == b[0] {
      CompareToAntisymmetric(a[1..], b[1..]);
    }
  }

  /** "less than" in the sense of compareTo is transitive. */
  lemma {:induction false} CompareToTransitive(a: string, b: string, c: string)
    requires CompareTo(a, b) < 0 && CompareTo(b, c) < 0
    ensures CompareTo(a, c) < 0
  {
    if a != [] && b != [] && c != [] && a[0] == b[0] && b[0] == c[0] {
      CompareToTransitive(a[1..], b[1..], c[1..]);
    }
  }

  /**
   * At the first index k where the strings differ, the sign of compareTo is
   * the order of the two characters there.
   */
  lemma {:induction false} CompareToFirstDifference(a: string, b: string, k: nat)
    requires k < |a| && k < |b| && a[..k] == b[..k] && a[k] != b[k]
    ensures CompareTo(a, b) < 0 <==> a[k] < b[k]
    ensures CompareTo(a, b) > 0 <==> a[k] > b[k]
  {
    if k > 0 {
      assert a[0] == a[..k][0] && b[0] == b[..k][0];
      assert a[1..][..k - 1] == a[..k][1..] && b[1..][..k - 1] == b[..k][1..];
      CompareToFirstDifference(a[1..], b[1..], k - 1);
    }
  }

  /** A proper prefix compares below the longer string. */
  lemma {:induction false} CompareToProperPrefix(a: string, b: string)
    requires |a| < |b| && b[..|a|] == a
    ensures CompareTo(a, b) < 0 && CompareTo(b, a) > 0
  {
    if a != [] {
      assert a[0] == b[..|a|][0];
      assert b[1..][..|a| - 1] == b[..|a|][1..];
      CompareToProperPrefix(a[1..], b[1..]);
    }
  }

  /** The order is lexicographic, not numeric: "10" comes before "9". */
  lemma LexicographicNotNumeric()
    ensures CompareTo("10", "9") < 0
    ensures CompareTo("1", "10") < 0
  {
    assert "10"[0] == '1' && "9"[0] == '9';
    assert "1"[1..] == [] && "10"[1..] == "0";
  }

  predicate IsLowerAscii(c: char) {
    'a' <= c <= 'z'
  }

  /** Upper-cases one character; only ASCII letters a-z change. */
  function ToUpperChar(c: char): (u: char)
  {
    if IsLowerAscii(c) then (c as int - 32) as char else c
  }

  /**
   * String.toUpperCase restricted to ASCII: every a-z becomes A-Z, every
   * other character is kept.
   */
  function ToUpperCase(s: string): (r: string)
    ensures |r| == |s|
    ensures forall i :: 0 <= i < |r| ==> !IsLowerAscii(r[i])
    ensures forall i :: 0 <= i < |r| && IsLowerAscii(s[i]) ==> 'A' <= r[i] <= 'Z' && r[i] as int == s[i] as int - 32
    ensures forall i :: 0 <= i < |r| && !IsLowerAscii(s[i]) ==> r[i] == s[i]
  {
    seq(|s|, i requires 0 <= i < |s| => ToUpperChar(s[i]))
  }

  /** Upper-casing twice is upper-casing once. */
  lemma ToUpperCaseIdempotent(s: string)
    ensures ToUpperCase(ToUpperCase(s)) == ToUpperCase(s)
  {
  }

  /** A string without lower-case ASCII letters is its own upper case. */
  lemma ToUpperCaseFixesUpper(s: string)
    requires forall i :: 0 <= i < |s| ==> !IsLowerAscii(s[i])
    ensures ToUpperCase(s) == s
  {
  }
}
