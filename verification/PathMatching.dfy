/**
 How a pathname is compared with a blacklist entry.  The code compares NUL-terminated buffers; the meaning is a
 prefix test against the entry with one trailing slash dropped.
 */
module PathMatching {
  import opened CStrings

  // ---------------------------------------------------------------- the matcher

  function Trimmed(entry: string): (r: string) {
    if entry != "" && entry[|entry| - 1] == '/' then entry[..|entry| - 1] else entry
  }

  // What it means for an entry to protect a path.
  predicate Protects(entry: string, path: string) {
    Trimmed(entry) <= path
  }

  // The body of the walk's loop.  The index strlen - 1 is reached only when the entry is not empty.
  method MatchEntry(path: seq<char>, entry: seq<char>) returns (found: bool)
    requires NUL in path && NUL in entry
    ensures found <==> Protects(CStr(entry), CStr(path))
  {
    var n := StrLen(entry);
    StrNCmpIsPrefix(path, entry, n);
    if StrNCmpEqual(path, entry, 0, n) {
      assert Trimmed(CStr(entry)) <= CStr(path);
      return true;
    }
    assert n > 0;
    assert entry[n - 1] == CStr(entry)[n - 1];
    if entry[n - 1] == '/' {
      StrNCmpIsPrefix(path, entry, n - 1);
      assert entry[..n - 1] == Trimmed(CStr(entry));
      if StrNCmpEqual(path, entry, 0, n - 1) {
        return true;
      }
    }
    return false;
  }

  ghost predicate Blocked(list: seq<string>, path: string) {
    exists i :: 0 <= i < |list| && Protects(list[i], path)
  }

  // Protection covers every extension of a protected path.
  lemma BlockedExtends(list: seq<string>, path: string, longer: string)
    requires Blocked(list, path) && path <= longer
    ensures Blocked(list, longer)
  {
  }

  // ---------------------------------------------------------------- pathnames from dentries

  // A dentry's pathname and the byte its buffer held behind it.
  datatype Name = Name(path: string, left: char)

  // The string that is read from the buffer.
  function Seen(n: Name): string {
    if n.left == NUL then n.path else n.path + [n.left]
  }

  // get_path_from_dentry: `len` bytes are copied into a buffer of len + 2 whose last byte is cleared; the byte
  // in between keeps whatever the allocator left there.
  method PathFromDentry(raw: seq<char>, left: char) returns (buffer: array<char>)
    requires NUL in raw
    ensures fresh(buffer) && NUL in buffer[..]
    ensures CStr(buffer[..]) == Seen(Name(CStr(raw), left))
  {
    var len := StrLen(raw);
    buffer := new char[len + 2](_ => left);
    forall i | 0 <= i < len {
      buffer[i] := raw[i];
    }
    buffer[len + 1] := NUL;
    if left == NUL {
      assert buffer[..] == CStr(raw) + [NUL] + [NUL];
      CStrOf(CStr(raw), [NUL]);
    } else {
      assert buffer[..] == CStr(raw) + [left] + [NUL] + [];
      CStrOf(CStr(raw) + [left], []);
    }
  }

  // The stray byte never lifts a block; it adds one exactly when an entry spells the path with that byte.
  lemma StrayByte(list: seq<string>, path: string, stray: char)
    ensures Blocked(list, path + [stray]) <==>
            Blocked(list, path) || exists i :: 0 <= i < |list| && Trimmed(list[i]) == path + [stray]
  {
  }
}
