/**
 The reference monitor as its callers see it: the three reconfiguration system calls with their checks, the
 state they switch, the probes they enable and disable, and the blacklist they edit.
 */
module Monitor {
  import opened BlacklistStore
  import opened BlacklistRuns
  import opened CStrings
  import opened Lookup
  import opened Interception
  import opened ProbeLoops
  import opened Password
  import opened Errno
  import Blacklist

  // The 32 bytes copied from the caller.
  type Buffer = b: seq<char> | |b| == PASSW_LEN witness seq(PASSW_LEN, _ => NUL)

  // `beyond` is what lies in kernel memory between the copy and the next NUL.
  datatype Request =
    | Switch(to: int, password: Buffer, beyond: seq<char>, euid: nat)
    | AddPath(path: string, password: Buffer, beyond: seq<char>, euid: nat)
    | RemovePath(path: string, password: Buffer, beyond: seq<char>, euid: nat)

  datatype State = State(code: int, store: Store, probes: seq<bool>, digest: seq<Byte>)

  // ---------------------------------------------------------------- one system call

  predicate KnowsPassword(sha: Sha, digest: seq<Byte>, r: Request) {
    sha(CopiedText(r.password, r.beyond)) == digest
  }

  // A root caller whose password has the stored digest.
  predicate Authorised(sha: Sha, digest: seq<Byte>, r: Request) {
    KnowsPassword(sha, digest, r) && r.euid == 0
  }

  // The checks in the order the system calls make them: 0 when all pass.
  function Refusal(sha: Sha, code: int, digest: seq<Byte>, r: Request): int {
    if r.Switch? && (r.to < 0 || r.to > 3) then -EINVAL
    else if !r.Switch? && code < 2 then -EPERM
    else if !KnowsPassword(sha, digest, r) then -EACCES
    else if r.euid != 0 then -EPERM
    else 0
  }

  ghost function Serve(sha: Sha, m: State, r: Request): (State, int)
    requires WellLinked(m.store)
  {
    var no := Refusal(sha, m.code, m.digest, r);
    if no != 0 then (m, no)
    else match r
      case Switch(to, _, _, _) => (m.(code := to, probes := AllProbes(!Off(to))), to)
      case AddPath(p, _, _, _) => (m.(store := Add(m.store, p)), if Listed(m.store, p) then -EEXIST else 0)
      case RemovePath(p, _, _, _) => (m.(store := Remove(m.store, p)), if Listed(m.store, p) then 0 else 1)
  }

  // What every sequence of complete calls keeps.
  ghost predicate Invariant(m: State) {
    && RF_ON <= m.code <= RF_REC_OFF
    && Inv(m.store)
    && m.probes == AllProbes(!Off(m.code))
    && |m.digest| == 32
  }

  // init_module.
  ghost function Initial(digest: seq<Byte>): State {
    State(RF_OFF, EMPTY, AllProbes(false), digest)
  }

  lemma ServeKeeps(sha: Sha, m: State, r: Request)
    requires Invariant(m)
    ensures Invariant(Serve(sha, m, r).0) && Serve(sha, m, r).0.digest == m.digest
  {
    match r {
      case Switch(_, _, _, _) =>
      case AddPath(p, _, _, _) => AddRefines(m.store, p);
      case RemovePath(p, _, _, _) => RemoveRefines(m.store, p);
    }
  }

  // ---------------------------------------------------------------- the monitor on the heap

  class ReferenceMonitor {
    var code: int
    var password: seq<char>
    const list: Blacklist.List
    const probes: array<bool>
    const sha: Sha
    ghost var digest: seq<Byte>

    ghost predicate Valid()
      reads this, list, list.nodes, probes
    {
      && list.Valid()
      && probes.Length == NUM_KRETPROBES
      && password == Hex(digest) + [NUL]
      && Invariant(View())
    }

    ghost function View(): State
      reads this, list, probes
    {
      State(code, list.store, probes[..], digest)
    }

    // init_module, with kretprobe_init registering every probe as disabled.
    constructor (sha: Sha, secret: string)
      ensures Valid() && this.sha == sha && View() == Initial(sha(secret))
    {
      this.sha := sha;
      code := RF_OFF;
      list := new Blacklist.List();
      var encrypted := Encrypt(sha, secret);
      password := encrypted[..];
      digest := sha(secret);
      probes := new bool[NUM_KRETPROBES](_ => false);
      new;
      assert probes[..] == AllProbes(false);
      ChainAscends(list.store.entries, Null);
    }

    // enable_kprobes and disable_kprobes.
    method SetProbes(on: bool)
      requires probes.Length == NUM_KRETPROBES
      modifies probes
      ensures probes[..] == AllProbes(on)
    {
      var i := 0;
      while i < NUM_KRETPROBES
        invariant i <= NUM_KRETPROBES && forall j :: 0 <= j < i ==> probes[j] == on
      {
        probes[i] := on;
        i := i + 1;
      }
    }

    method CheckPassword(user: Buffer, beyond: seq<char>) returns (ret: int)
      requires Valid()
      ensures ret == if sha(CopiedText(user, beyond)) == digest then 0 else -EACCES
    {
      ret := PasswordCheck(sha, password, user, beyond);
      StoredStringDecides(digest, sha(CopiedText(user, beyond)));
    }

    // sys_switch_rf_state.
    method SwitchState(to: int, user: Buffer, beyond: seq<char>, euid: nat) returns (ret: int)
      requires Valid()
      modifies this`code, probes
      ensures Valid() && (View(), ret) == old(Serve(sha, View(), Switch(to, user, beyond, euid)))
    {
      if to < 0 || to > 3 {
        return -EINVAL;
      }
      ret := CheckPassword(user, beyond);
      if ret != 0 {
        return ret;
      }
      if euid != 0 {
        return -EPERM;
      }
      code := to;
      if to == 0 || to == 2 {
        SetProbes(true);
      } else {
        SetProbes(false);
      }
      return code;
    }

    // sys_add_to_blacklist.
    method AddToBlacklist(path: string, user: Buffer, beyond: seq<char>, euid: nat) returns (ret: int)
      requires Valid()
      modifies list, list.nodes
      ensures Valid() && (View(), ret) == old(Serve(sha, View(), AddPath(path, user, beyond, euid)))
    {
      if code < 2 {
        return -EPERM;
      }
      ret := CheckPassword(user, beyond);
      if ret != 0 {
        return ret;
      }
      if euid != 0 {
        return -EPERM;
      }
      ServeKeeps(sha, View(), AddPath(path, user, beyond, euid));
      ret := list.Add(path);
    }

    // sys_remove_from_blacklist.
    method RemoveFromBlacklist(path: string, user: Buffer, beyond: seq<char>, euid: nat) returns (ret: int)
      requires Valid()
      modifies list, list.nodes
      ensures Valid() && (View(), ret) == old(Serve(sha, View(), RemovePath(path, user, beyond, euid)))
    {
      if code < 2 {
        return -EPERM;
      }
      ret := CheckPassword(user, beyond);
      if ret != 0 {
        return ret;
      }
      if euid != 0 {
        return -EPERM;
      }
      ServeKeeps(sha, View(), RemovePath(path, user, beyond, euid));
      ret := list.Remove(path);
      if ret == -EINVAL {
        return 1;
      }
    }

    // is_blacklisted with nothing running between its steps.
    method IsBlacklisted(path: string) returns (found: bool)
      requires Valid()
      ensures found == AtomicAnswer(World(list.store, code), path)
    {
      if list.size == 0 {
        return false;
      }
      if code == RF_OFF || code == RF_REC_OFF {
        return false;
      }
      found := list.Walk(list.head, list.store.head, path);
    }
  }
}
