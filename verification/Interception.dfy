/**
 What the ten entry handlers decide.  A handler blocks an operation when a path it is about is protected; the
 open handler does so only for opens that could modify the file.
 */
module Interception {
  import opened CStrings
  import opened PathMatching

  const NUM_KRETPROBES := 10

  // The probed kernel functions with the dentries their handlers look at, in the order of the probe array.  A
  // removed directory's path is that of its parent and the rest of the name.
  datatype Operation =
    | Open(flags: bv32, file: Name)
    | Unlink(file: Name)
    | Create(file: Name)
    | Mkdir(file: Name)
    | Rename(source: Name, file: Name)
    | Rmdir(parent: Name, rest: string, left: char)
    | Link(source: Name, file: Name)
    | Symlink(file: Name)
    | Write(file: Name)
    | Lseek(file: Name)

  // The operation's place in the probe array.
  function Probe(op: Operation): (i: nat)
    ensures i < NUM_KRETPROBES
  {
    match op
    case Open(_, _) => 0
    case Unlink(_) => 1
    case Create(_) => 2
    case Mkdir(_) => 3
    case Rename(_, _) => 4
    case Rmdir(_, _, _) => 5
    case Link(_, _) => 6
    case Symlink(_) => 7
    case Write(_) => 8
    case Lseek(_) => 9
  }

  const O_WRONLY: bv32 := 0x1
  const O_RDWR: bv32 := 0x2
  const O_CREAT: bv32 := 0x40
  const O_TRUNC: bv32 := 0x200
  const O_APPEND: bv32 := 0x400

  predicate MayModify(flags: bv32) {
    || flags & O_WRONLY != 0
    || flags & O_RDWR != 0
    || flags & O_CREAT != 0
    || flags & O_APPEND != 0
    || flags & O_TRUNC != 0
  }

  // The directory an rmdir removes.
  function Directory(op: Operation): Name
    requires op.Rmdir?
  {
    Name(op.parent.path + op.rest, op.left)
  }

  // The entry handler's test, given what its first and its second call of is_blacklisted answer for each string.
  predicate EntryBlocks(first: string -> bool, second: string -> bool, op: Operation) {
    match op
    case Open(flags, file) => MayModify(flags) && first(Seen(file))
    case Unlink(file) => first(Seen(file))
    case Create(file) => first(Seen(file))
    case Mkdir(file) => first(Seen(file))
    case Rename(source, file) => first(Seen(source)) || second(Seen(file))
    case Rmdir(parent, _, _) => first(Seen(Directory(op))) || second(Seen(parent))
    case Link(source, file) => first(Seen(source)) || second(Seen(file))
    case Symlink(file) => first(Seen(file))
    case Write(file) => first(Seen(file))
    case Lseek(file) => first(Seen(file))
  }

  // The paths the operation would change.
  function Touched(op: Operation): set<string> {
    match op
    case Open(flags, file) => if MayModify(flags) then {file.path} else {}
    case Rename(source, file) => {source.path, file.path}
    case Link(source, file) => {source.path, file.path}
    case Rmdir(_, _, _) => {Directory(op).path}
    case _ => {op.file.path}
  }

  // The names the handler tests, in order: an rmdir handler looks at the parent too.
  function Tested(op: Operation): (names: seq<Name>)
    ensures |names| <= 2
  {
    match op
    case Open(flags, file) => if MayModify(flags) then [file] else []
    case Rename(source, file) => [source, file]
    case Link(source, file) => [source, file]
    case Rmdir(parent, _, _) => [Directory(op), parent]
    case _ => [op.file]
  }

  // A handler blocks exactly when one of its lookups, in order, finds the name it is for.
  lemma TestsInOrder(first: string -> bool, second: string -> bool, op: Operation)
    ensures EntryBlocks(first, second, op) <==>
            || (|Tested(op)| > 0 && first(Seen(Tested(op)[0])))
            || (|Tested(op)| > 1 && second(Seen(Tested(op)[1])))
  {
  }

  // An entry that spells a name together with the byte left behind it.
  ghost predicate SpelledOut(list: seq<string>, n: Name) {
    n.left != NUL && exists i :: 0 <= i < |list| && Trimmed(list[i]) == n.path + [n.left]
  }

  // Looking up what a handler reads instead of the path itself adds exactly the entries that spell it out.
  lemma SeenBlocks(list: seq<string>, n: Name)
    ensures Blocked(list, Seen(n)) <==> Blocked(list, n.path) || SpelledOut(list, n)
  {
    if n.left != NUL {
      StrayByte(list, n.path, n.left);
    }
  }

  // A list gives reason to block: it protects a path the operation would change, or an entry spells out a tested
  // name with the byte left behind it.
  ghost predicate Concerns(list: seq<string>, op: Operation) {
    || (exists p :: p in Touched(op) && Blocked(list, p))
    || (exists n :: n in Tested(op) && SpelledOut(list, n))
  }

  // The paths the operation would change are tested first; only the parent of a removed directory is tested besides.
  lemma TouchedInOrder(op: Operation, p: string)
    ensures p in Touched(op) ==> || (|Tested(op)| > 0 && p == Tested(op)[0].path)
                                 || (|Tested(op)| > 1 && p == Tested(op)[1].path)
    ensures forall n :: n in Tested(op) ==> n.path in Touched(op) || (op.Rmdir? && n == op.parent)
  {
  }

  // What any one of the handler's lookups finds gives reason to block; the parent test of the rmdir handler adds
  // nothing else.
  lemma FoundConcerns(list: seq<string>, op: Operation, n: Name)
    requires n in Tested(op) && Blocked(list, Seen(n))
    ensures Concerns(list, op)
  {
    SeenBlocks(list, n);
    TouchedInOrder(op, n.path);
    if Blocked(list, n.path) && n.path !in Touched(op) {
      BlockedExtends(list, n.path, Directory(op).path);
    }
  }

  // A reason to block is found by one of the lookups.
  lemma ConcernIsFound(list: seq<string>, op: Operation) returns (n: Name)
    requires Concerns(list, op)
    ensures n in Tested(op) && Blocked(list, Seen(n))
  {
    if p :| p in Touched(op) && Blocked(list, p) {
      TouchedInOrder(op, p);
      n := if p == Tested(op)[0].path then Tested(op)[0] else Tested(op)[1];
    } else {
      n :| n in Tested(op) && SpelledOut(list, n);
    }
    SeenBlocks(list, n);
  }

  // If every lookup answers for the same list, a handler blocks exactly when the list gives reason to.
  lemma BlocksExactly(list: seq<string>, blacklisted: string -> bool, op: Operation)
    requires forall p :: blacklisted(p) <==> Blocked(list, p)
    ensures EntryBlocks(blacklisted, blacklisted, op) <==> Concerns(list, op)
  {
    TestsInOrder(blacklisted, blacklisted, op);
    if Concerns(list, op) {
      var n := ConcernIsFound(list, op);
    } else if n :| n in Tested(op) && blacklisted(Seen(n)) {
      FoundConcerns(list, op, n);
    }
  }

  // The left byte can block by itself: removing /a/b with an x left behind the parent's name hits an entry /ax.
  lemma LeftByteBlocks() returns (list: seq<string>, op: Operation)
    ensures op.Rmdir? && op.left == NUL && Concerns(list, op)
    ensures forall p :: p in Touched(op) ==> !Blocked(list, p)
  {
    list, op := ["/ax"], Rmdir(Name("/a", 'x'), "/b", NUL);
    assert "/a" + "/b" == "/a/b" && Trimmed(list[0]) == list[0] && list[0][2] != "/a/b"[2];
    assert "/a" + ['x'] == "/ax";
    assert op.parent == Tested(op)[1] && SpelledOut(list, op.parent);
  }
}
