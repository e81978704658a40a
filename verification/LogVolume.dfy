/**
 The single-file log volume as a value: the bytes of the device and the file size the inode holds in memory.
 Blocks 0 and 1 hold the superblock and the inode, the file's bytes start at block 2.
 */
module LogVolume {
  import opened CStrings

  const BLOCK := 4096
  const DATA := 2 * BLOCK

  datatype Volume = Volume(image: seq<char>, size: nat)

  predicate Valid(v: Volume) {
    |v.image| % BLOCK == 0 && DATA + v.size <= |v.image|
  }

  // The bytes of the file.
  ghost function Content(v: Volume): seq<char>
    requires Valid(v)
  {
    v.image[DATA..DATA + v.size]
  }

  // ---------------------------------------------------------------- one append

  // Where a payload of n bytes goes: after the last byte if the rest of that block can take it, else at the
  // start of the next block.
  function Start(size: nat, n: nat): nat {
    if BLOCK - size % BLOCK < n then size + (BLOCK - size % BLOCK) else size
  }

  // sb_bread of the target block succeeds.
  predicate Fits(v: Volume, n: nat) {
    Start(v.size, n) / BLOCK + 2 < |v.image| / BLOCK
  }

  // A payload of at most one block stays inside the block it starts in.
  lemma StartInBlock(size: nat, n: nat)
    requires n <= BLOCK
    ensures Start(size, n) % BLOCK + n <= BLOCK
    ensures size <= Start(size, n)
    ensures Start(size, n) > size ==> Start(size, n) - size < n && Start(size, n) % BLOCK == 0
  {
  }

  lemma FitsEnd(v: Volume, n: nat)
    requires Valid(v) && n <= BLOCK && Fits(v, n)
    ensures DATA + Start(v.size, n) + n <= |v.image|
  {
  }

  // onefile_write: the payload is copied into the block that can take it, or nothing happens when the device
  // has no such block.
  function Append(v: Volume, data: seq<char>): (r: Volume)
    requires Valid(v) && |data| <= BLOCK
    ensures Valid(r) && |r.image| == |v.image|
  {
    if Fits(v, |data|) then
      FitsEnd(v, |data|);
      var at := DATA + Start(v.size, |data|);
      Volume(v.image[..at] + data + v.image[at + |data|..], Start(v.size, |data|) + |data|)
    else v
  }

  // Copying the payload byte by byte into place is an append.
  lemma CopyIsAppend(v: Volume, data: seq<char>, image: seq<char>)
    requires Valid(v) && |data| <= BLOCK && Fits(v, |data|) && |image| == |v.image|
    requires var at := DATA + Start(v.size, |data|);
             forall i :: 0 <= i < |image| ==>
               image[i] == if at <= i < at + |data| then data[i - at] else v.image[i]
    ensures Append(v, data) == Volume(image, Start(v.size, |data|) + |data|)
  {
  }

  // What lies beyond the file has never been written.
  ghost predicate Clean(v: Volume)
    requires Valid(v)
  {
    forall i :: DATA + v.size <= i < |v.image| ==> v.image[i] == NUL
  }

  function Zeros(n: nat): (z: seq<char>)
    ensures |z| == n && forall i :: 0 <= i < n ==> z[i] == NUL
  {
    seq(n, _ => NUL)
  }

  // The file after an append is the file before it, the skipped rest of a block, and the payload.
  lemma AppendContent(v: Volume, data: seq<char>)
    requires Valid(v) && |data| <= BLOCK && Fits(v, |data|)
    ensures DATA + Start(v.size, |data|) + |data| <= |v.image|
    ensures Content(Append(v, data)) == v.image[DATA..DATA + Start(v.size, |data|)] + data
    ensures Content(v) <= v.image[DATA..DATA + Start(v.size, |data|)]
    ensures Append(v, data).image[..DATA] == v.image[..DATA]
    ensures Clean(v) ==> Clean(Append(v, data))
    ensures Clean(v) ==>
              Content(Append(v, data)) == Content(v) + Zeros(Start(v.size, |data|) - v.size) + data
  {
  }

  // ---------------------------------------------------------------- runs of appends

  ghost predicate Payloads(rows: seq<seq<char>>) {
    forall i :: 0 <= i < |rows| ==> |rows[i]| <= BLOCK
  }

  ghost function AppendAll(v: Volume, rows: seq<seq<char>>): (r: Volume)
    requires Valid(v) && Payloads(rows)
    ensures Valid(r) && |r.image| == |v.image|
    decreases |rows|
  {
    if rows == [] then v else Append(AppendAll(v, rows[..|rows| - 1]), rows[|rows| - 1])
  }

  // Append-only over whole runs: the old file is a prefix of the new one, and the first two blocks are never
  // touched.
  lemma {:induction false} RunKeepsPrefix(v: Volume, rows: seq<seq<char>>)
    requires Valid(v) && Payloads(rows)
    ensures Content(v) <= Content(AppendAll(v, rows))
    ensures AppendAll(v, rows).image[..DATA] == v.image[..DATA]
    ensures Clean(v) ==> Clean(AppendAll(v, rows))
    decreases |rows|
  {
    if rows == [] {
    } else {
      var u, row := AppendAll(v, rows[..|rows| - 1]), rows[|rows| - 1];
      RunKeepsPrefix(v, rows[..|rows| - 1]);
      if Fits(u, |row|) {
        AppendContent(u, row);
      }
    }
  }

  lemma {:induction false} RunsCompose(v: Volume, a: seq<seq<char>>, b: seq<seq<char>>)
    requires Valid(v) && Payloads(a) && Payloads(b)
    ensures Payloads(a + b) && AppendAll(v, a + b) == AppendAll(AppendAll(v, a), b)
    decreases |b|
  {
    if b == [] {
      assert a + b == a;
    } else {
      RunsCompose(v, a, b[..|b| - 1]);
      assert (a + b)[..|a + b| - 1] == a + b[..|b| - 1];
    }
  }

  lemma PrefixSlice(a: seq<char>, b: seq<char>, i: nat, j: nat)
    requires a <= b && i <= j <= |a|
    ensures b[i..j] == a[i..j]
  {
  }

  lemma MiddleSlice(a: seq<char>, data: seq<char>, b: seq<char>, i: nat, j: nat)
    requires j <= |a| && i == |a| - j
    ensures (a + data + b)[j..|a| + |data|][i..i + |data|] == data
  {
    var s := (a + data + b)[j..|a| + |data|];
    assert forall k :: 0 <= k < |data| ==> s[i..i + |data|][k] == s[i + k] == (a + data + b)[|a| + k] == data[k];
  }

  // The image after an append is what lies before the payload, the payload, and what lies behind it.
  lemma AppendedRow(v: Volume, data: seq<char>)
    requires Valid(v) && |data| <= BLOCK && Fits(v, |data|)
    ensures var at := Start(v.size, |data|);
            && Append(v, data).size == at + |data|
            && Content(Append(v, data))[at..at + |data|] == data
  {
    FitsEnd(v, |data|);
    var at := Start(v.size, |data|);
    var before, behind := v.image[..DATA + at], v.image[DATA + at + |data|..];
    assert Append(v, data) == Volume(before + data + behind, at + |data|);
    MiddleSlice(before, data, behind, at, DATA);
  }

  lemma RowKept(v: Volume, rows: seq<seq<char>>, at: nat, row: seq<char>)
    requires Valid(v) && Payloads(rows) && at + |row| <= v.size && Content(v)[at..at + |row|] == row
    ensures at + |row| <= AppendAll(v, rows).size
    ensures Content(AppendAll(v, rows))[at..at + |row|] == row
  {
    RunKeepsPrefix(v, rows);
    PrefixSlice(Content(v), Content(AppendAll(v, rows)), at, at + |row|);
  }

  lemma RunSplits(v: Volume, a: seq<seq<char>>, row: seq<char>, b: seq<seq<char>>)
    requires Valid(v) && Payloads(a) && |row| <= BLOCK && Payloads(b)
    ensures Payloads(a + [row] + b)
    ensures AppendAll(v, a + [row] + b) == AppendAll(Append(AppendAll(v, a), row), b)
  {
    var front := a + [row];
    RunsCompose(v, front, b);
    assert front[..|front| - 1] == a && front[|front| - 1] == row;
  }

  // The row lies in the file at `at`, inside one block.
  ghost predicate StoredAt(v: Volume, at: nat, row: seq<char>)
    requires Valid(v)
  {
    at % BLOCK + |row| <= BLOCK && at + |row| <= v.size && Content(v)[at..at + |row|] == row
  }

  // A row written anywhere in a run is still there at the end, in one piece, inside one block, and the gap in
  // front of it is shorter than the row.
  lemma RowStaysInOneBlock(v: Volume, earlier: seq<seq<char>>, row: seq<char>, later: seq<seq<char>>)
    returns (at: nat)
    requires Valid(v) && Payloads(earlier) && |row| <= BLOCK && Payloads(later)
    requires Fits(AppendAll(v, earlier), |row|)
    ensures AppendAll(v, earlier).size <= at
    ensures at > AppendAll(v, earlier).size ==> at - AppendAll(v, earlier).size < |row|
    ensures Payloads(earlier + [row] + later) && StoredAt(AppendAll(v, earlier + [row] + later), at, row)
  {
    var u := AppendAll(v, earlier);
    at := Start(u.size, |row|);
    StartInBlock(u.size, |row|);
    RunSplits(v, earlier, row, later);
    WrittenRowStays(u, row, later);
  }

  lemma WrittenRowStays(v: Volume, row: seq<char>, later: seq<seq<char>>)
    requires Valid(v) && |row| <= BLOCK && Payloads(later) && Fits(v, |row|)
    ensures StoredAt(AppendAll(Append(v, row), later), Start(v.size, |row|), row)
  {
    StartInBlock(v.size, |row|);
    AppendedRow(v, row);
    RowKept(Append(v, row), later, Start(v.size, |row|), row);
  }

  ghost function Total(rows: seq<seq<char>>): nat
    decreases |rows|
  {
    if rows == [] then 0 else Total(rows[..|rows| - 1]) + |rows[|rows| - 1]|
  }

  // The gaps never cost more than the rows.
  lemma {:induction false} GrowthBound(v: Volume, rows: seq<seq<char>>)
    requires Valid(v) && Payloads(rows)
    ensures v.size <= AppendAll(v, rows).size <= v.size + 2 * Total(rows)
    decreases |rows|
  {
    if rows == [] {
    } else {
      GrowthBound(v, rows[..|rows| - 1]);
      StartInBlock(AppendAll(v, rows[..|rows| - 1]).size, |rows[|rows| - 1]|);
    }
  }

  // ---------------------------------------------------------------- the log text

  function Text(s: seq<char>): seq<char>
    decreases |s|
  {
    if s == [] then [] else Text(s[..|s| - 1]) + if s[|s| - 1] == NUL then [] else [s[|s| - 1]]
  }

  lemma {:induction false} TextConcat(a: seq<char>, b: seq<char>)
    ensures Text(a + b) == Text(a) + Text(b)
    decreases |b|
  {
    if b == [] {
      assert a + b == a;
    } else {
      TextConcat(a, b[..|b| - 1]);
      assert (a + b)[..|a + b| - 1] == a + b[..|b| - 1];
    }
  }

  lemma {:induction false} TextPlain(s: seq<char>)
    requires NUL !in s
    ensures Text(s) == s
    decreases |s|
  {
    if s == [] {
    } else {
      TextPlain(s[..|s| - 1]);
    }
  }

  lemma {:induction false} TextZeros(n: nat)
    ensures Text(Zeros(n)) == []
  {
    if n == 0 {
    } else {
      assert Zeros(n)[..n - 1] == Zeros(n - 1);
      TextZeros(n - 1);
    }
  }

  lemma TextOfAppend(before: seq<char>, gap: nat, row: seq<char>)
    requires NUL !in row
    ensures Text(before + Zeros(gap) + row) == Text(before) + row
  {
    TextConcat(before + Zeros(gap), row);
    TextConcat(before, Zeros(gap));
    TextZeros(gap);
    TextPlain(row);
  }

  lemma TextStep(v: Volume, row: seq<char>)
    requires Valid(v) && Clean(v) && |row| <= BLOCK && NUL !in row
    ensures Text(Content(Append(v, row))) == Text(Content(v)) + if Fits(v, |row|) then row else []
  {
    if Fits(v, |row|) {
      AppendContent(v, row);
      TextOfAppend(Content(v), Start(v.size, |row|) - v.size, row);
    }
  }

  // The rows the device had room for, one after the other.
  ghost function Accepted(v: Volume, rows: seq<seq<char>>): seq<char>
    requires Valid(v) && Payloads(rows)
    decreases |rows|
  {
    if rows == [] then []
    else Accepted(v, rows[..|rows| - 1])
         + if Fits(AppendAll(v, rows[..|rows| - 1]), |rows[|rows| - 1]|) then rows[|rows| - 1] else []
  }

  lemma Regroup(a: seq<char>, b: seq<char>, c: seq<char>)
    ensures (a + b) + c == a + (b + c)
  {
  }

  // Reading the file while skipping NUL bytes gives the old text followed by exactly the accepted rows, in
  // the order they were written.
  lemma {:induction false} LogText(v: Volume, rows: seq<seq<char>>)
    requires Valid(v) && Clean(v) && Payloads(rows)
    requires forall i :: 0 <= i < |rows| ==> NUL !in rows[i]
    ensures Text(Content(AppendAll(v, rows))) == Text(Content(v)) + Accepted(v, rows)
    decreases |rows|
  {
    if rows == [] {
    } else {
      var front, row := rows[..|rows| - 1], rows[|rows| - 1];
      var u := AppendAll(v, front);
      LogText(v, front);
      assert Clean(u) by { RunKeepsPrefix(v, front); }
      TextStep(u, row);
      Regroup(Text(Content(v)), Accepted(v, front), if Fits(u, |row|) then row else []);
    }
  }

  // ---------------------------------------------------------------- reading

  function Min(a: nat, b: nat): nat {
    if a < b then a else b
  }

  // How much onefilefs_read returns when the size it sampled before taking the mutex is `sampled`.
  function ReadLength(sampled: nat, off: nat, len: nat): nat {
    if off >= sampled then 0 else Min(Min(len, sampled - off), BLOCK - off % BLOCK)
  }

  // The bytes it copies: they come from one block of the device.
  function ReadBytes(image: seq<char>, sampled: nat, off: nat, len: nat): seq<char>
    requires DATA + sampled <= |image|
  {
    if off >= sampled then []
    else
      var at := (off / BLOCK + 2) * BLOCK + off % BLOCK;
      assert at == DATA + off;
      image[at..at + ReadLength(sampled, off, len)]
  }

  lemma SliceOfSlice(image: seq<char>, base: nat, end: nat, i: nat, j: nat)
    requires base <= end <= |image| && i <= j <= end - base
    ensures image[base..end][i..j] == image[base + i..base + j]
  {
    var a, b := image[base..end][i..j], image[base + i..base + j];
    assert forall k :: 0 <= k < j - i ==> a[k] == image[base..end][i + k] == image[base + (i + k)] == b[k];
  }

  lemma BlockAddress(off: nat)
    ensures (off / BLOCK + 2) * BLOCK + off % BLOCK == DATA + off
  {
  }

  lemma ReadIsSlice(v: Volume, sampled: nat, off: nat, len: nat)
    requires Valid(v) && sampled <= v.size
    ensures off < sampled ==> ReadBytes(v.image, sampled, off, len)
                              == Content(v)[off..off + ReadLength(sampled, off, len)]
  {
    if off < sampled {
      BlockAddress(off);
      SliceOfSlice(v.image, DATA, DATA + v.size, off, off + ReadLength(sampled, off, len));
    }
  }

  // Appends between sampling the size and taking the mutex do not change what is read.
  lemma StaleSizeRead(v: Volume, meanwhile: seq<seq<char>>, off: nat, len: nat)
    requires Valid(v) && Payloads(meanwhile)
    ensures DATA + v.size <= |AppendAll(v, meanwhile).image|
    ensures ReadBytes(AppendAll(v, meanwhile).image, v.size, off, len) == ReadBytes(v.image, v.size, off, len)
    ensures off < v.size ==> ReadBytes(v.image, v.size, off, len)
                             == Content(v)[off..off + ReadLength(v.size, off, len)]
  {
    var w := AppendAll(v, meanwhile);
    RunKeepsPrefix(v, meanwhile);
    assert v.size <= w.size by { GrowthBound(v, meanwhile); }
    if off < v.size {
      ReadIsSlice(v, v.size, off, len);
      ReadIsSlice(w, v.size, off, len);
      PrefixSlice(Content(v), Content(w), off, off + ReadLength(v.size, off, len));
    }
  }

  // A reader with its own offset, running beside the writers.
  datatype Step = Write(data: seq<char>) | Read(len: nat, meanwhile: seq<seq<char>>)

  datatype Session = Session(volume: Volume, off: nat, out: seq<char>)

  ghost predicate Allowed(steps: seq<Step>) {
    forall i :: 0 <= i < |steps| ==>
      match steps[i]
      case Write(d) => |d| <= BLOCK
      case Read(_, m) => Payloads(m)
  }

  ghost function StepSession(s: Session, step: Step): (r: Session)
    requires Valid(s.volume) && Allowed([step])
    ensures Valid(r.volume)
  {
    assert [step][0] == step;
    match step
    case Write(d) => s.(volume := Append(s.volume, d))
    case Read(len, meanwhile) =>
      var v' := AppendAll(s.volume, meanwhile);
      StaleSizeRead(s.volume, meanwhile, s.off, len);
      var bytes := ReadBytes(v'.image, s.volume.size, s.off, len);
      Session(v', s.off + |bytes|, s.out + bytes)
  }

  ghost function RunSession(s: Session, steps: seq<Step>): (r: Session)
    requires Valid(s.volume) && Allowed(steps)
    ensures Valid(r.volume)
    decreases |steps|
  {
    if steps == [] then s
    else
      assert Allowed([steps[|steps| - 1]]);
      StepSession(RunSession(s, steps[..|steps| - 1]), steps[|steps| - 1])
  }

  // However reads and writes interleave, a reader that started at offset 0 has at every point received exactly
  // the file's bytes up to its offset.
  lemma {:induction false} ReaderSeesPrefix(v: Volume, steps: seq<Step>)
    requires Valid(v) && Allowed(steps)
    ensures var s := RunSession(Session(v, 0, []), steps);
            s.off <= s.volume.size && s.out == Content(s.volume)[..s.off]
    decreases |steps|
  {
    if steps == [] {
      assert Content(v)[..0] == [];
    } else {
      var step := steps[|steps| - 1];
      var s := RunSession(Session(v, 0, []), steps[..|steps| - 1]);
      ReaderSeesPrefix(v, steps[..|steps| - 1]);
      assert Allowed([step]) && [step][0] == step;
      ReaderStep(s, step);
    }
  }

  lemma JoinSlices(s: seq<char>, i: nat, j: nat)
    requires i <= j <= |s|
    ensures s[..i] + s[i..j] == s[..j]
  {
  }

  // A slice read from a prefix continues what was read before it.
  lemma PrefixRead(a: seq<char>, b: seq<char>, i: nat, j: nat)
    requires a <= b && i <= j <= |a|
    ensures a[..i] + a[i..j] == b[..j]
  {
    PrefixSlice(a, b, 0, j);
    JoinSlices(a, i, j);
  }

  lemma ReadExtends(v: Volume, off: nat, len: nat, meanwhile: seq<seq<char>>)
    requires Valid(v) && Payloads(meanwhile) && off <= v.size
    ensures DATA + v.size <= |AppendAll(v, meanwhile).image|
    ensures var bytes := ReadBytes(AppendAll(v, meanwhile).image, v.size, off, len);
            && off + |bytes| <= v.size <= AppendAll(v, meanwhile).size
            && Content(v)[..off] + bytes == Content(AppendAll(v, meanwhile))[..off + |bytes|]
  {
    var after, n := AppendAll(v, meanwhile), ReadLength(v.size, off, len);
    RunKeepsPrefix(v, meanwhile);
    StaleSizeRead(v, meanwhile, off, len);
    PrefixRead(Content(v), Content(after), off, off + n);
  }

  lemma AppendKeepsPrefix(v: Volume, data: seq<char>)
    requires Valid(v) && |data| <= BLOCK
    ensures Content(v) <= Content(Append(v, data))
  {
  }

  lemma ReaderStep(s: Session, step: Step)
    requires Valid(s.volume) && Allowed([step])
    requires s.off <= s.volume.size && s.out == Content(s.volume)[..s.off]
    ensures var t := StepSession(s, step);
            t.off <= t.volume.size && t.out == Content(t.volume)[..t.off]
  {
    assert [step][0] == step;
    match step {
      case Write(d) =>
        AppendKeepsPrefix(s.volume, d);
        PrefixSlice(Content(s.volume), Content(Append(s.volume, d)), 0, s.off);
      case Read(len, meanwhile) =>
        ReadExtends(s.volume, s.off, len, meanwhile);
    }
  }

  // A read with a positive buffer comes back empty only at the end of the file as it was sampled, so a reader
  // that stops there has the whole file.
  lemma EmptyReadMeansEnd(s: Session, len: nat)
    requires Valid(s.volume) && len > 0
    requires s.off <= s.volume.size && s.out == Content(s.volume)[..s.off]
    ensures ReadBytes(s.volume.image, s.volume.size, s.off, len) == [] <==> s.off == s.volume.size
    ensures ReadBytes(s.volume.image, s.volume.size, s.off, len) == [] ==> s.out == Content(s.volume)
  {
  }
}
