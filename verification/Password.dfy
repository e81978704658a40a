/**
 The way of a password: typed into the client's bounded line editor, copied into the kernel, hashed, written
 out in hexadecimal and compared with the stored string.
 */
module Password {
  import opened CStrings
  import opened Errno

  const MAX_PASS_LEN := 32
  const PASSW_LEN := 32
  const DEL := 127 as char

  // ---------------------------------------------------------------- the line editor

  // The line that a sequence of keys leaves: a key is appended, DEL takes the last character back.
  function Edited(keys: seq<char>): (line: seq<char>)
    decreases |keys|
  {
    if keys == [] then []
    else
      var line, c := Edited(keys[..|keys| - 1]), keys[|keys| - 1];
      if c != DEL then line + [c]
      else if line != [] then line[..|line| - 1]
      else line
  }

  // The editor takes the k-th key: not the end of input, not a newline, and room for it.
  predicate Takes(keys: seq<char>, sz: nat, k: nat) {
    k < |keys| && keys[k] != '\n' && (|Edited(keys[..k])| + 1 < sz || keys[k] == DEL)
  }

  // It has taken exactly the first n keys.
  ghost predicate StopsAt(keys: seq<char>, sz: nat, n: nat) {
    !Takes(keys, sz, n) && forall k :: 0 <= k < n ==> Takes(keys, sz, k)
  }

  // getpasswd on an existing buffer.
  method GetPassword(pw: array<char>, size: nat, keys: seq<char>) returns (ret: int, n: nat)
    requires pw.Length >= size || pw.Length >= MAX_PASS_LEN
    modifies pw
    ensures size == 0 ==> ret == -1 && pw[..] == old(pw[..])
    ensures size > 0 ==>
              var sz := if size > MAX_PASS_LEN then MAX_PASS_LEN else size;
              && StopsAt(keys, sz, n) && n <= |keys|
              && 0 <= ret < sz && ret < pw.Length
              && pw[..ret] == Edited(keys[..n]) && pw[ret] == NUL
  {
    n := 0;
    if size == 0 {
      return -1, 0;
    }
    var sz := if size > MAX_PASS_LEN then MAX_PASS_LEN else size;
    var idx := 0;
    while n < |keys| && ((keys[n] != '\n' && idx < sz - 1) || (idx == sz - 1 && keys[n] == DEL))
      invariant n <= |keys| && idx <= sz - 1
      invariant pw[..idx] == Edited(keys[..n])
      invariant forall k :: 0 <= k < n ==> Takes(keys, sz, k)
      decreases |keys| - n
    {
      assert keys[..n + 1][..n] == keys[..n];
      assert Takes(keys, sz, n);
      if keys[n] != DEL {
        pw[idx] := keys[n];
        idx := idx + 1;
      } else if idx > 0 {
        idx := idx - 1;
        pw[idx] := NUL;
      }
      n := n + 1;
    }
    pw[idx] := NUL;
    return idx, n;
  }

  // The keys up to the first newline or the end of input.
  function Line(keys: seq<char>): (line: seq<char>)
    ensures line <= keys && '\n' !in line && (|line| < |keys| ==> keys[|line|] == '\n')
  {
    if keys == [] || keys[0] == '\n' then [] else [keys[0]] + Line(keys[1..])
  }

  // At some point of the line the edited text does not fit below the terminator.
  ghost predicate Overflows(keys: seq<char>, sz: nat) {
    exists k :: 0 <= k <= |Line(keys)| && |Edited(keys[..k])| >= sz
  }

  lemma EditedStep(keys: seq<char>, k: nat)
    requires k < |keys|
    ensures |Edited(keys[..k + 1])| == if keys[k] != DEL then |Edited(keys[..k])| + 1
                                       else if Edited(keys[..k]) == [] then 0 else |Edited(keys[..k])| - 1
  {
    assert keys[..k + 1][..k] == keys[..k];
  }

  // The editor stops at the end of the line, with the whole line edited, if and only if the text always fits;
  // otherwise it stops early.
  lemma WholeLineTaken(keys: seq<char>, sz: nat, n: nat)
    requires sz > 0 && StopsAt(keys, sz, n)
    ensures n <= |Line(keys)|
    ensures n == |Line(keys)| <==> !Overflows(keys, sz)
    ensures |Edited(keys[..n])| < sz
  {
    var len := |Line(keys)|;
    assert !Takes(keys, sz, len);
    TextFits(keys, sz, n);
    if n < len {
      assert keys[n] == Line(keys)[n];
      EditedStep(keys, n);
      assert |Edited(keys[..n + 1])| >= sz;
    }
  }

  lemma {:induction false} TextFits(keys: seq<char>, sz: nat, n: nat)
    requires sz > 0 && n <= |keys| && forall k :: 0 <= k < n ==> Takes(keys, sz, k)
    ensures forall k :: 0 <= k <= n ==> |Edited(keys[..k])| < sz
  {
    if n == 0 {
    } else {
      TextFits(keys, sz, n - 1);
      EditedStep(keys, n - 1);
      assert Takes(keys, sz, n - 1);
    }
  }

  // The kernel copies 32 bytes and finds in them the line as typed, unless a NUL was typed into it.
  lemma KernelSeesLine(pw: seq<char>, line: seq<char>)
    requires |pw| == PASSW_LEN && |line| < PASSW_LEN && pw[..|line|] == line && pw[|line|] == NUL
    ensures NUL in pw && CStr(pw) <= line
    ensures CStr(pw) == line <==> NUL !in line
  {
    assert pw == line + [NUL] + pw[|line| + 1..];
    if NUL !in line {
      CStrOf(line, pw[|line| + 1..]);
    }
    assert forall i :: 0 <= i < StrLen(pw) ==> pw[..StrLen(pw)][i] == pw[i];
  }

  // ---------------------------------------------------------------- hexadecimal

  type Byte = x: int | 0 <= x < 256

  function Digit(n: nat): (c: char)
    requires n < 16
    ensures c != NUL
  {
    if n < 10 then ('0' as int + n) as char else ('a' as int + (n - 10)) as char
  }

  function Value(c: char): nat {
    if '0' <= c <= '9' then c as int - '0' as int
    else if 'a' <= c <= 'f' then 10 + c as int - 'a' as int
    else 0
  }

  // What sprintf writes for one byte, and back.
  function Pair(b: Byte): (p: string)
    ensures |p| == 2 && NUL !in p
  {
    [Digit(b / 16), Digit(b % 16)]
  }

  function FromPair(p: string): nat {
    if |p| == 2 then Value(p[0]) * 16 + Value(p[1]) else 0
  }

  lemma DigitValue(n: nat)
    requires n < 16
    ensures Value(Digit(n)) == n
  {
  }

  lemma PairRoundTrip(b: Byte)
    ensures FromPair(Pair(b)) == b
  {
    DigitValue(b / 16);
    DigitValue(b % 16);
  }

  function Hex(digest: seq<Byte>): (s: string)
    ensures |s| == 2 * |digest|
  {
    seq(2 * |digest|, i requires 0 <= i < 2 * |digest| => Pair(digest[i / 2])[i % 2])
  }

  function Unhex(s: string): (digest: seq<nat>) {
    seq(|s| / 2, i requires 0 <= i < |s| / 2 => FromPair([s[2 * i], s[2 * i + 1]]))
  }

  lemma HexAt(digest: seq<Byte>, i: nat)
    requires i < |digest|
    ensures [Hex(digest)[2 * i], Hex(digest)[2 * i + 1]] == Pair(digest[i])
  {
    assert 2 * i / 2 == i && 2 * i % 2 == 0 && (2 * i + 1) / 2 == i && (2 * i + 1) % 2 == 1;
  }

  // The encoding is invertible, twice as long as the digest, and a C string.
  lemma UnhexHex(digest: seq<Byte>)
    ensures Unhex(Hex(digest)) == digest
    ensures NUL !in Hex(digest)
  {
    forall i | 0 <= i < |digest| ensures Unhex(Hex(digest))[i] == digest[i] {
      HexAt(digest, i);
      PairRoundTrip(digest[i]);
    }
  }

  // The loop of encrypt_password: sprintf writes two digits and a terminator, which the next round overwrites.
  method WriteHex(digest: seq<Byte>, result: array<char>)
    requires result.Length == 2 * |digest| + 1 && digest != []
    modifies result
    ensures result[..] == Hex(digest) + [NUL]
  {
    var i := 0;
    while i < |digest|
      invariant i <= |digest|
      invariant forall j :: 0 <= j < 2 * i ==> result[j] == Hex(digest)[j]
      invariant i > 0 ==> result[2 * i] == NUL
    {
      var p := Pair(digest[i]);
      HexAt(digest, i);
      result[2 * i], result[2 * i + 1], result[2 * i + 2] := p[0], p[1], NUL;
      assert p == [Hex(digest)[2 * i], Hex(digest)[2 * i + 1]];
      i := i + 1;
    }
  }

  // ---------------------------------------------------------------- the check

  // SHA-256 is a parameter; only the length of its output matters here.
  type Sha = f: string -> seq<Byte> | forall s :: |f(s)| == 32 witness _ => seq(32, _ => 0)

  // encrypt_password.
  method Encrypt(sha: Sha, text: string) returns (result: array<char>)
    ensures fresh(result) && result[..] == Hex(sha(text)) + [NUL]
  {
    result := new char[65];
    WriteHex(sha(text), result);
  }

  // The string found from the 32 copied bytes on.  They are not terminated by the copy, so what lies behind them
  // up to the next NUL may belong to it.
  function CopiedText(user: seq<char>, beyond: seq<char>): (s: string) {
    assert (user + beyond + [NUL])[|user + beyond|] == NUL;
    CStr(user + beyond + [NUL])
  }

  // The memory behind the copy is without influence if and only if the caller terminated the string; a caller who
  // did not has all 32 bytes hashed, and possibly more.
  lemma CopiedTextWithin(user: seq<char>)
    ensures NUL in user ==> forall beyond :: CopiedText(user, beyond) == CStr(user)
    ensures NUL !in user ==> forall beyond :: user <= CopiedText(user, beyond)
    ensures NUL in user <==> forall beyond :: CopiedText(user, beyond) == CopiedText(user, [])
  {
    forall beyond ensures if NUL in user then CopiedText(user, beyond) == CStr(user) else user <= CopiedText(user, beyond) {
      CopiedTextIs(user, beyond);
    }
    if NUL !in user {
      CStrOf(user, []);
      CStrOf(user + ['x'], []);
      assert user + [] + [NUL] == user + [NUL] + [] && user + ['x'] + [NUL] == user + ['x'] + [NUL] + [];
      assert |CopiedText(user, ['x'])| != |CopiedText(user, [])|;
    }
  }

  lemma CopiedTextIs(user: seq<char>, beyond: seq<char>)
    ensures if NUL in user then CopiedText(user, beyond) == CStr(user) else user <= CopiedText(user, beyond)
  {
    var all := user + beyond + [NUL];
    assert all[|user + beyond|] == NUL;
    if NUL in user {
      var s := CStr(user);
      assert all == s + [NUL] + all[|s| + 1..];
      CStrOf(s, all[|s| + 1..]);
    } else {
      assert forall i :: 0 <= i < |user| ==> all[i] == user[i];
      assert StrLen(all) >= |user|;
    }
  }

  // password_check: 32 bytes are copied, the string found there is hashed and the hexadecimal strings compared.
  method PasswordCheck(sha: Sha, stored: seq<char>, user: seq<char>, beyond: seq<char>) returns (ret: int)
    requires |user| == PASSW_LEN
    requires exists d: seq<Byte> :: |d| == 32 && stored == Hex(d) + [NUL]
    ensures ret == if stored == Hex(sha(CopiedText(user, beyond))) + [NUL] then 0 else -EACCES
  {
    var encrypted := Encrypt(sha, CopiedText(user, beyond));
    ghost var d: seq<Byte> :| |d| == 32 && stored == Hex(d) + [NUL];
    HexString(d);
    HexString(sha(CopiedText(user, beyond)));
    if CStr(stored) != CStr(encrypted[..]) {
      return -EACCES;
    }
    return 0;
  }

  lemma HexString(d: seq<Byte>)
    ensures NUL in Hex(d) + [NUL] && CStr(Hex(d) + [NUL]) == Hex(d)
  {
    UnhexHex(d);
    CStrOf(Hex(d), []);
    assert Hex(d) + [NUL] + [] == Hex(d) + [NUL];
  }

  // The comparison of strings decides the comparison of digests.
  lemma StoredStringDecides(d: seq<Byte>, e: seq<Byte>)
    ensures Hex(d) + [NUL] == Hex(e) + [NUL] <==> d == e
  {
    UnhexHex(d);
    UnhexHex(e);
    assert (Hex(d) + [NUL])[..|Hex(d)|] == Hex(d) && (Hex(e) + [NUL])[..|Hex(e)|] == Hex(e);
  }
}
