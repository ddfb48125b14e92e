/**
 * The two C library calls the decoder builds its text with, on `char`
 * arrays: `sprintf` at an offset, which writes the text and a NUL and
 * returns the count, and `realloc`, which either fails and leaves the old
 * block alone or moves the contents into a block of the new size.
 */
module CStrings {
  const NUL: char := '\0'

  predicate NoNul(s: string)
  {
    forall i :: 0 <= i < |s| ==> s[i] != NUL
  }

  /** `strlen`: the number of characters before the first NUL, or all of them when there is none. */
  function StrLen(s: string): (n: nat)
    ensures n <= |s| && NoNul(s[..n])
    ensures n < |s| ==> s[n] == NUL
  {
    if s == [] || s[0] == NUL then 0
    else
      var n := 1 + StrLen(s[1..]);
      assert s[..n] == [s[0]] + s[1..][..n - 1];
      n
  }

  /**
   * `sprintf(&a[at], "%s", s)`: writes `s` and a terminating NUL at `at`
   * and returns `|s|`; nothing before `at` changes.
   */
  method Sprintf(a: array<char>, at: nat, s: string) returns (n: nat)
    requires at + |s| < a.Length
    modifies a
    ensures n == |s|
    ensures a[..at + n] == old(a[..at]) + s
    ensures a[at + n] == NUL
  {
    var k := 0;
    while k < |s|
      invariant 0 <= k <= |s|
      invariant a[..at + k] == old(a[..at]) + s[..k]
    {
      assert s[..k + 1] == s[..k] + [s[k]];
      a[at + k] := s[k];
      k := k + 1;
    }
    a[at + |s|] := NUL;
    n := |s|;
  }

  /**
   * `realloc(a, n)`. When `fails` the allocator refuses, `a` is returned
   * unchanged and `ok` is false; otherwise a fresh block of `n` characters
   * holds the first `min(a.Length, n)` characters of `a`.
   */
  method Realloc(a: array<char>, n: nat, fails: bool) returns (r: array<char>, ok: bool)
    ensures ok <==> !fails
    ensures !ok ==> r == a
    ensures ok ==> fresh(r) && r.Length == n
    ensures ok ==> r[..Min(a.Length, n)] == a[..Min(a.Length, n)]
  {
    if fails {
      return a, false;
    }
    r := new char[n](_ => NUL);
    var m := Min(a.Length, n);
    var k := 0;
    while k < m
      invariant 0 <= k <= m
      invariant r[..k] == a[..k]
    {
      r[k] := a[k];
      k := k + 1;
    }
    ok := true;
  }

  function Min(x: nat, y: nat): (m: nat)
    ensures m <= x && m <= y && (m == x || m == y)
  {
    if x < y then x else y
  }
}
