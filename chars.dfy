/**
  Character classes of JavaScript regular expressions without the `u` flag,
  `String.prototype.trim`, and the small scanning primitives every pattern
  of the scraper is built from.
 */
module Chars {

  /** `\s`, and the characters `trim` removes: WhiteSpace and LineTerminator of ECMAScript. */
  predicate IsSpace(c: char) {
    var n := c as int;
    n == 0x09 || n == 0x0A || n == 0x0B || n == 0x0C || n == 0x0D || n == 0x20
    || n == 0xA0 || n == 0x1680 || (0x2000 <= n <= 0x200A) || n == 0x2028 || n == 0x2029
    || n == 0x202F || n == 0x205F || n == 0x3000 || n == 0xFEFF
  }

  /** The characters `.` does not match (no `s` flag). */
  predicate IsLineTerminator(c: char) {
    c == '\n' || c == '\r' || c as int == 0x2028 || c as int == 0x2029
  }

  predicate IsDigit(c: char) { '0' <= c <= '9' }
  predicate IsUpper(c: char) { 'A' <= c <= 'Z' }
  predicate IsLower(c: char) { 'a' <= c <= 'z' }
  predicate IsLetter(c: char) { IsUpper(c) || IsLower(c) }

  /** `\w` without the `u` flag: ASCII `[A-Za-z0-9_]`. */
  predicate IsWordChar(c: char) { IsLetter(c) || IsDigit(c) || c == '_' }

  /** `toLowerCase` restricted to the ASCII letters (the only letters `\w` matches). */
  function ToLower(c: char): (r: char)
    ensures IsUpper(c) ==> IsLower(r) && r as int == c as int + 32
    ensures !IsUpper(c) ==> r == c
  {
    if IsUpper(c) then (c as int + 32) as char else c
  }

  /** `toUpperCase` restricted to the ASCII letters. */
  function ToUpper(c: char): (r: char)
    ensures IsLower(c) ==> IsUpper(r) && r as int == c as int - 32
    ensures !IsLower(c) ==> r == c
  {
    if IsLower(c) then (c as int - 32) as char else c
  }

  /**
    Character equality under the `i` flag without `u`: both sides are
    canonicalised with `toUpperCase`, except that a non-ASCII character is
    never mapped onto an ASCII one, so for the ASCII literals of this
    scraper ASCII case folding is exact.
   */
  predicate SameIgnoringCase(a: char, b: char) { ToUpper(a) == ToUpper(b) }

  /** The literal `lit` occurs in `s` at position `i`. */
  predicate LiteralAt(s: string, i: nat, lit: string) {
    i + |lit| <= |s| && s[i..i + |lit|] == lit
  }

  /** Where a literal occurs, its first character does. */
  lemma LiteralAtHead(s: string, i: nat, lit: string)
    requires LiteralAt(s, i, lit) && |lit| > 0
    ensures s[i] == lit[0]
  {
    assert s[i] == s[i..i + |lit|][0];
  }

  /** The literal `lit` occurs in `s` at position `i`, compared under the `i` flag. */
  predicate LiteralAtIgnoringCase(s: string, i: nat, lit: string) {
    i + |lit| <= |s| && forall k :: 0 <= k < |lit| ==> SameIgnoringCase(s[i + k], lit[k])
  }

  /** Every character of `s[a..b]` is whitespace. */
  predicate AllSpace(s: string, a: nat, b: nat)
    requires a <= b <= |s|
  {
    forall k :: a <= k < b ==> IsSpace(s[k])
  }

  /** No character of `s[a..b]` is a line terminator, so `.` can match all of it. */
  predicate NoLineTerminator(s: string, a: nat, b: nat)
    requires a <= b <= |s|
  {
    forall k :: a <= k < b ==> !IsLineTerminator(s[k])
  }

  /** The character classes a greedy run `\w+`, `\s+`, `\d+`, `[A-Z]+` or `[A-Za-z]+` consumes. */
  datatype CharClass = Word | Space | Digit | Upper | Letter

  predicate InClass(c: char, k: CharClass) {
    match k
    case Word => IsWordChar(c)
    case Space => IsSpace(c)
    case Digit => IsDigit(c)
    case Upper => IsUpper(c)
    case Letter => IsLetter(c)
  }

  /** Every character of `s[a..b]` is in class `k`. */
  predicate AllIn(s: string, a: nat, b: nat, k: CharClass)
    requires a <= b <= |s|
  {
    forall m :: a <= m < b ==> InClass(s[m], k)
  }

  /** Where a greedy run of class `k` that starts at `i` ends: the run is `s[i..j]` and cannot be extended. */
  function RunEnd(s: string, i: nat, k: CharClass): (j: nat)
    requires i <= |s|
    ensures i <= j <= |s|
    ensures forall m :: i <= m < j ==> InClass(s[m], k)
    ensures j == |s| || !InClass(s[j], k)
    decreases |s| - i
  {
    if i < |s| && InClass(s[i], k) then RunEnd(s, i + 1, k) else i
  }

  /** A run of class `k` from `i` that stops before `j` ends at `j`. */
  lemma {:induction false} RunEndAt(s: string, i: nat, j: nat, k: CharClass)
    requires i <= j <= |s|
    requires forall m :: i <= m < j ==> InClass(s[m], k)
    requires j == |s| || !InClass(s[j], k)
    ensures RunEnd(s, i, k) == j
    decreases j - i
  {
    if i < j {
      RunEndAt(s, i + 1, j, k);
    }
  }

  /** Where a run of class `k` that ends at `j` begins, scanning left but not below `lo`. */
  function RunStart(s: string, j: nat, k: CharClass, lo: nat): (i: nat)
    requires lo <= j <= |s|
    ensures lo <= i <= j
    ensures forall m :: i <= m < j ==> InClass(s[m], k)
    ensures i == lo || !InClass(s[i - 1], k)
    decreases j
  {
    if lo < j && InClass(s[j - 1], k) then RunStart(s, j - 1, k, lo) else j
  }

  /**
    `String.prototype.trim`: the leading and trailing whitespace is removed,
    and the result is the remaining middle of the input.
   */
  function Trim(s: string): (r: string)
    ensures |r| <= |s|
    ensures r == [] || (!IsSpace(r[0]) && !IsSpace(r[|r| - 1]))
    ensures exists a :: 0 <= a <= |s| - |r| && r == s[a..a + |r|]
                        && AllSpace(s, 0, a) && AllSpace(s, a + |r|, |s|)
  {
    var a := RunEnd(s, 0, Space);
    var b := RunStart(s, |s|, Space, a);
    assert AllSpace(s, 0, a) && AllSpace(s, b, |s|);
    s[a..b]
  }

  /** A search tries positions `i`, `i + 1`, ... up to `n`, and succeeds at the first position where `p` holds. */
  predicate SomeFrom(p: nat -> bool, i: nat, n: nat)
    decreases n - i
  {
    i <= n && (p(i) || (i < n && SomeFrom(p, i + 1, n)))
  }

  lemma {:induction false} SomeFromSpec(p: nat -> bool, i: nat, n: nat)
    ensures SomeFrom(p, i, n) <==> exists k :: i <= k <= n && p(k)
    decreases n - i
  {
    if i < n {
      SomeFromSpec(p, i + 1, n);
    }
  }
}
