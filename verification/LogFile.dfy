/**
 The log file system at work: mkfs writes the image, mounting checks the superblock, the lookup loads the file
 size from the inode, and the two file operations run on the device's bytes in place.
 */
module LogFile {
  import opened CStrings
  import opened LogVolume
  import opened LogCapacity
  import opened Errno

  const MAGIC := 0x42424242

  // The line mkfs writes, column by column.
  const IDS := "TID, TGID, UID, EUID, "
  const PROGRAM := "Offending program path, "
  const HEADER := IDS + PROGRAM + "Fingerprint\n"

  // ---------------------------------------------------------------- little-endian fields

  function Pow256(n: nat): nat {
    if n == 0 then 1 else 256 * Pow256(n - 1)
  }

  function Encode(n: nat, v: nat): (b: seq<char>)
    ensures |b| == n
  {
    if n == 0 then [] else [(v % 256) as char] + Encode(n - 1, v / 256)
  }

  function Decode(b: seq<char>): nat {
    if b == [] then 0 else b[0] as nat + 256 * Decode(b[1..])
  }

  lemma {:induction false} DecodeEncode(n: nat, v: nat)
    requires v < Pow256(n)
    ensures Decode(Encode(n, v)) == v
  {
    if n == 0 {
    } else {
      assert v / 256 < Pow256(n - 1);
      DecodeEncode(n - 1, v / 256);
      assert Encode(n, v)[1..] == Encode(n - 1, v / 256);
    }
  }

  // A device holds bytes.
  ghost predicate Octets(b: seq<char>) {
    forall i :: 0 <= i < |b| ==> b[i] as int < 256
  }

  lemma LowByte(low: nat, rest: nat)
    requires low < 256
    ensures (low + 256 * rest) % 256 == low && (low + 256 * rest) / 256 == rest
  {
  }

  lemma {:induction false} EncodeDecode(b: seq<char>)
    requires Octets(b)
    ensures Encode(|b|, Decode(b)) == b && Decode(b) < Pow256(|b|)
    decreases |b|
  {
    if b == [] {
    } else {
      EncodeDecode(b[1..]);
      LowByte(b[0] as nat, Decode(b[1..]));
      assert b == [b[0]] + b[1..];
    }
  }

  // A field of n bytes holds a value if and only if it is that value's encoding.
  lemma FieldHolds(b: seq<char>, v: nat)
    requires Octets(b) && v < Pow256(|b|)
    ensures Decode(b) == v <==> b == Encode(|b|, v)
  {
    EncodeDecode(b);
    DecodeEncode(|b|, v);
  }

  lemma WordBound()
    ensures Pow256(8) == 0x1_0000_0000_0000_0000
  {
  }

  // ---------------------------------------------------------------- mkfs

  // One write(2) at the current position of the device file.
  method Put(device: array<char>, pos: nat, bytes: seq<char>) returns (next: nat)
    requires pos + |bytes| <= device.Length
    modifies device
    ensures next == pos + |bytes|
    ensures device[..next] == old(device[..pos]) + bytes
    ensures forall i :: next <= i < device.Length ==> device[i] == old(device[i])
  {
    forall i | 0 <= i < |bytes| {
      device[pos + i] := bytes[i];
    }
    next := pos + |bytes|;
  }

  // The struct written as block 0: version, magic and block size, then fields nobody sets.
  function SuperBlock(junk: seq<char>): (b: seq<char>)
    requires |junk| == BLOCK - 24
    ensures |b| == BLOCK
  {
    Encode(8, 1) + Encode(8, MAGIC) + Encode(8, BLOCK) + junk
  }

  // The struct at the start of block 1: mode, number, unused block number, size; `junk` fills what is not set.
  function InodeRecord(junk: seq<char>): (b: seq<char>)
    requires |junk| == 12
    ensures |b| == 32
  {
    Encode(4, 0x8000) + junk[..4] + Encode(8, 1) + junk[4..] + Encode(8, |HEADER|)
  }

  ghost predicate FreshImage(image: seq<char>) {
    && |image| == IMAGE_BLOCKS * BLOCK
    && image[8..16] == Encode(8, MAGIC)
    && image[BLOCK + 24..BLOCK + 32] == Encode(8, |HEADER|)
    && image[DATA..DATA + |HEADER|] == HEADER
    && forall i :: DATA + |HEADER| <= i < |image| ==> image[i] == NUL
  }

  // The program run on the zeroed image; the three junk arguments are the memory it never initialises.
  method MakeFileSystem(device: array<char>, sbJunk: seq<char>, inodeJunk: seq<char>, padding: seq<char>)
    requires device.Length == IMAGE_BLOCKS * BLOCK && forall i :: 0 <= i < device.Length ==> device[i] == NUL
    requires |sbJunk| == BLOCK - 24 && |inodeJunk| == 12 && |padding| == BLOCK - 32
    modifies device
    ensures FreshImage(device[..])
  {
    ghost var sb, inode := SuperBlock(sbJunk), InodeRecord(inodeJunk);
    var pos := Put(device, 0, SuperBlock(sbJunk));
    assert device[..pos] == sb;
    pos := Put(device, pos, InodeRecord(inodeJunk));
    assert device[..pos] == sb + inode;
    pos := Put(device, pos, padding);
    assert device[..pos] == sb + inode + padding;
    pos := Put(device, pos, HEADER);
    ghost var rest := device[pos..];
    assert device[..] == device[..pos] + rest;
    ImageIsFresh(device[..], sbJunk, inodeJunk, padding, rest);
  }

  lemma ImageIsFresh(image: seq<char>, sbJunk: seq<char>, inodeJunk: seq<char>, padding: seq<char>, rest: seq<char>)
    requires |image| == IMAGE_BLOCKS * BLOCK
    requires |sbJunk| == BLOCK - 24 && |inodeJunk| == 12 && |padding| == BLOCK - 32
    requires image == SuperBlock(sbJunk) + InodeRecord(inodeJunk) + padding + HEADER + rest
    requires forall i :: 0 <= i < |rest| ==> rest[i] == NUL
    ensures FreshImage(image)
  {
    MagicField(sbJunk);
    SizeField(inodeJunk);
    ImageParts(SuperBlock(sbJunk), InodeRecord(inodeJunk), padding, HEADER, rest);
    forall i | DATA + |HEADER| <= i < |image| ensures image[i] == NUL {
      assert image[i] == image[DATA + |HEADER|..][i - DATA - |HEADER|];
    }
  }

  lemma MagicField(junk: seq<char>)
    requires |junk| == BLOCK - 24
    ensures SuperBlock(junk)[8..16] == Encode(8, MAGIC)
  {
    MiddleField(Encode(8, 1), Encode(8, MAGIC), Encode(8, BLOCK) + junk);
    assert SuperBlock(junk) == Encode(8, 1) + Encode(8, MAGIC) + (Encode(8, BLOCK) + junk);
  }

  lemma MiddleField(a: seq<char>, b: seq<char>, c: seq<char>)
    ensures (a + b + c)[|a|..|a| + |b|] == b
  {
  }

  lemma SizeField(junk: seq<char>)
    requires |junk| == 12
    ensures InodeRecord(junk)[24..32] == Encode(8, |HEADER|)
  {
  }

  // Where the pieces of the image lie.
  lemma ImageParts(sb: seq<char>, inode: seq<char>, padding: seq<char>, body: seq<char>, rest: seq<char>)
    requires |sb| == BLOCK && |inode| + |padding| == BLOCK && |inode| == 32
    ensures var image := sb + inode + padding + body + rest;
            && image[8..16] == sb[8..16]
            && image[BLOCK + 24..BLOCK + 32] == inode[24..32]
            && image[DATA..DATA + |body|] == body
            && image[DATA + |body|..] == rest
  {
  }

  lemma HeaderLine()
    ensures |HEADER| == HEADER_SIZE && NUL !in HEADER
  {
    assert NUL !in IDS;
    assert NUL !in PROGRAM;
    assert NUL !in "Fingerprint\n";
  }

  // ---------------------------------------------------------------- mount and lookup

  // singlefilefs_fill_super: on a device of bytes, mounting succeeds if and only if mkfs's magic number is in
  // place.
  method Mount(device: array<char>) returns (ret: int)
    requires device.Length >= BLOCK
    ensures ret == 0 || ret == -EBADF
    ensures Octets(device[8..16]) ==> (ret == 0 <==> device[8..16] == Encode(8, MAGIC))
    ensures FreshImage(device[..]) ==> ret == 0
  {
    WordBound();
    DecodeEncode(8, MAGIC);
    assert device[..][8..16] == device[8..16];
    if Octets(device[8..16]) {
      FieldHolds(device[8..16], MAGIC);
    }
    if Decode(device[8..16]) != MAGIC {
      return -EBADF;
    }
    return 0;
  }

  class OpenLog {
    const disk: array<char>
    var size: nat

    ghost function View(): Volume
      reads this, disk
    {
      Volume(disk[..], size)
    }

    ghost predicate Valid()
      reads this, disk
    {
      LogVolume.Valid(View())
    }

    // onefilefs_lookup: the size is the one that was encoded in the inode on the device.  The file is usable
    // exactly when that size fits the device, and on a fresh image it is the header line.
    constructor (device: array<char>)
      requires device.Length % BLOCK == 0 && device.Length >= DATA
      ensures disk == device
      ensures forall n: nat :: n < Pow256(8) && device[BLOCK + 24..BLOCK + 32] == Encode(8, n) ==> size == n
      ensures Valid() <==> DATA + size <= device.Length
      ensures FreshImage(device[..]) ==> Valid() && Clean(View()) && Content(View()) == HEADER
    {
      disk := device;
      size := Decode(device[BLOCK + 24..BLOCK + 32]);
      new;
      forall n: nat | n < Pow256(8) && device[BLOCK + 24..BLOCK + 32] == Encode(8, n) ensures size == n {
        DecodeEncode(8, n);
      }
      if FreshImage(device[..]) {
        assert device[..][BLOCK + 24..BLOCK + 32] == device[BLOCK + 24..BLOCK + 32];
        FreshLookup(device[..]);
      }
    }

    // onefile_write.
    method Write(data: seq<char>) returns (ret: int)
      requires Valid() && |data| <= BLOCK
      modifies this`size, disk
      ensures Valid() && View() == old(Append(View(), data))
      ensures ret == if old(Fits(View(), |data|)) then |data| else -EIO
    {
      var offset := size;
      var blockOffset := offset % BLOCK;
      var block := offset / BLOCK + 2;
      if BLOCK - blockOffset < |data| {
        block := block + 1;
        offset := offset + (BLOCK - blockOffset);
        blockOffset := 0;
      }
      assert offset == Start(size, |data|) && block == offset / BLOCK + 2 && blockOffset == offset % BLOCK;
      if block >= disk.Length / BLOCK {
        return -EIO;
      }
      FitsEnd(View(), |data|);
      assert block * BLOCK + blockOffset == DATA + offset;
      forall i | 0 <= i < |data| {
        disk[block * BLOCK + blockOffset + i] := data[i];
      }
      CopyIsAppend(old(View()), data, disk[..]);
      if offset + |data| > size {
        size := offset + |data|;
      }
      return |data|;
    }

    // onefilefs_read; `sampled` is the size read before the mutex was taken.
    method Read(sampled: nat, off: nat, len: nat) returns (bytes: seq<char>)
      requires Valid() && sampled <= size
      ensures bytes == ReadBytes(disk[..], sampled, off, len)
      ensures |bytes| == ReadLength(sampled, off, len)
    {
      if off >= sampled {
        return [];
      }
      var n := len;
      if off + n > sampled {
        n := sampled - off;
      }
      var offset := off % BLOCK;
      if offset + n > BLOCK {
        n := BLOCK - offset;
      }
      var block := off / BLOCK + 2;
      assert block * BLOCK + offset == DATA + off;
      bytes := disk[block * BLOCK + offset..block * BLOCK + offset + n];
    }

    // A reader that loops from offset 0 with whatever buffers it likes, until a read comes back empty.
    method ReadAll(buffer: nat -> nat) returns (out: seq<char>)
      requires Valid() && forall i :: buffer(i) > 0
      ensures out == Content(View())
    {
      out := [];
      var off, i := 0, 0;
      while true
        invariant off <= size && out == Content(View())[..off]
        decreases size - off
      {
        var bytes := Read(size, off, buffer(i));
        EmptyReadMeansEnd(Session(View(), off, out), buffer(i));
        if bytes == [] {
          return;
        }
        ReadIsSlice(View(), size, off, buffer(i));
        JoinSlices(Content(View()), off, off + |bytes|);
        out := out + bytes;
        off, i := off + |bytes|, i + 1;
      }
    }
  }

  lemma FreshLookup(image: seq<char>)
    requires FreshImage(image)
    ensures Decode(image[8..16]) == MAGIC
    ensures Decode(image[BLOCK + 24..BLOCK + 32]) == |HEADER|
    ensures |HEADER| == HEADER_SIZE
    ensures LogVolume.Valid(Volume(image, |HEADER|)) && Clean(Volume(image, |HEADER|))
    ensures Content(Volume(image, |HEADER|)) == HEADER
  {
    HeaderLine();
    WordBound();
    DecodeEncode(8, MAGIC);
    DecodeEncode(8, |HEADER|);
  }

  // From dd and mkfs through mount and lookup to a reader: the file is the header line, ready for appending.
  method FreshLog(sbJunk: seq<char>, inodeJunk: seq<char>, padding: seq<char>, buffer: nat -> nat)
    returns (log: OpenLog, text: seq<char>)
    requires |sbJunk| == BLOCK - 24 && |inodeJunk| == 12 && |padding| == BLOCK - 32
    requires forall i :: buffer(i) > 0
    ensures fresh(log) && log.Valid() && Clean(log.View())
    ensures log.size == HEADER_SIZE && log.disk.Length == IMAGE_BLOCKS * BLOCK
    ensures text == HEADER
  {
    var device := new char[IMAGE_BLOCKS * BLOCK](_ => NUL);
    MakeFileSystem(device, sbJunk, inodeJunk, padding);
    FreshLookup(device[..]);
    WordBound();
    assert device[..][BLOCK + 24..BLOCK + 32] == device[BLOCK + 24..BLOCK + 32];
    var ret := Mount(device);
    assert ret == 0;
    log := new OpenLog(device);
    text := log.ReadAll(buffer);
  }
}
