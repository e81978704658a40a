/**
 C strings as the kernel code uses them: buffers of characters that end at the first NUL.
 */
module CStrings {

  const NUL := '\0'

  function StrLen(b: seq<char>): (n: nat)
    requires NUL in b
    ensures n < |b| && b[n] == NUL && NUL !in b[..n]
  {
    if b[0] == NUL then 0
    else
      assert forall i :: 0 < i < |b| ==> b[i] == b[1..][i - 1];
      var n := 1 + StrLen(b[1..]);
      assert b[..n] == [b[0]] + b[1..][..n - 1];
      n
  }

  function CStr(b: seq<char>): (s: string)
    requires NUL in b
    ensures NUL !in s && s < b
  {
    b[..StrLen(b)]
  }

  lemma CStrOf(s: string, tail: seq<char>)
    requires NUL !in s
    ensures NUL in s + [NUL] + tail
    ensures CStr(s + [NUL] + tail) == s
  {
    var b := s + [NUL] + tail;
    assert b[|s|] == NUL;
    assert forall i :: 0 <= i < |s| ==> b[i] == s[i];
    assert forall i :: 0 <= i < StrLen(b) ==> b[..StrLen(b)][i] == b[i];
  }

  lemma NotYet(b: seq<char>, i: nat)
    requires NUL in b && i < StrLen(b)
    ensures b[i] != NUL
  {
    assert b[i] == b[..StrLen(b)][i];
  }

  // strncmp(a, b, n) == 0, comparing from position i on and stopping at the first NUL.
  predicate StrNCmpEqual(a: seq<char>, b: seq<char>, i: nat, n: nat)
    requires NUL in a && NUL in b && i <= StrLen(a) && i <= StrLen(b)
    decreases n
  {
    if n == 0 then true
    else if a[i] != b[i] then false
    else if a[i] == NUL then true
    else
      assert StrLen(a) != i && StrLen(b) != i;
      StrNCmpEqual(a, b, i + 1, n - 1)
  }

  // The n characters from position i on are the same, and none lies behind the end of a.
  ghost predicate SameFrom(a: seq<char>, b: seq<char>, i: nat, n: nat)
    requires NUL in a && i + n <= |b|
  {
    forall k :: i <= k < i + n ==> k < StrLen(a) && a[k] == b[k]
  }

  lemma {:induction false} StrNCmpByIndex(a: seq<char>, b: seq<char>, i: nat, n: nat)
    requires NUL in a && NUL in b && i <= StrLen(a) && i + n <= StrLen(b)
    ensures StrNCmpEqual(a, b, i, n) <==> SameFrom(a, b, i, n)
    decreases n
  {
    if n == 0 {
    } else if a[i] == b[i] {
      NotYet(b, i);
      StrNCmpByIndex(a, b, i + 1, n - 1);
    } else {
      assert !SameFrom(a, b, i, n);
    }
  }

  // Comparing at most as many characters as b has is a prefix test.
  lemma StrNCmpIsPrefix(a: seq<char>, b: seq<char>, n: nat)
    requires NUL in a && NUL in b && n <= StrLen(b)
    ensures StrNCmpEqual(a, b, 0, n) <==> b[..n] <= CStr(a)
  {
    StrNCmpByIndex(a, b, 0, n);
    var s := CStr(a);
    if b[..n] <= s {
      forall k | 0 <= k < n ensures k < StrLen(a) && a[k] == b[k] {
        assert b[..n][k] == s[k];
      }
    }
  }
}
