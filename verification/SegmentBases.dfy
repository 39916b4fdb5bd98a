/** engine.c, analysis.c and syscall_hook.c: the FS and GS bases are swapped between host and guest
    around every dispatch and every emulated system call. */
module SegmentBases {
  import opened Words

  datatype Bases = Bases(fs: Word, gs: Word)

  /** `inForce` is what the CPU uses, `guest` the engine's copy of the guest's bases. */
  datatype Swap = Swap(inForce: Bases, guest: Bases, host: Bases)

  /** What a dispatched branch asks for. `Other` is any hooked system call that goes through
      `do_syscall`; `Plain` is a branch that is no hooked system call. */
  datatype Request = Plain | Other | SetFs(addr: Word) | SetGs(addr: Word)

  /** What the kernel does with `arch_prctl`; it refuses some addresses. */
  function KernelSetFs(ok: Word -> bool, b: Bases, a: Word): Bases {
    if ok(a) then b.(fs := a) else b
  }

  function KernelSetGs(ok: Word -> bool, b: Bases, a: Word): Bases {
    if ok(a) then b.(gs := a) else b
  }

  /** `set_fs_gs`: a refused FS base ends it before GS is set. */
  function SetBoth(ok: Word -> bool, b: Bases, to: Bases): Bases {
    if ok(to.fs) then KernelSetGs(ok, KernelSetFs(ok, b, to.fs), to.gs) else b
  }

  // ----- the engine, in place -----

  class Swapper {
    const ok: Word -> bool
    const host: Bases
    var inForce: Bases
    var guest: Bases

    constructor (ok: Word -> bool, host: Bases, guest: Bases)
      ensures this.ok == ok && this.host == host && this.guest == guest && inForce == host
    {
      this.ok, this.host, this.guest, this.inForce := ok, host, guest, host;
    }

    ghost function View(): Swap
      reads this
    {
      Swap(inForce, guest, host)
    }

    method SetFsGs(to: Bases)
      modifies this`inForce
      ensures inForce == SetBoth(ok, old(inForce), to)
    {
      if ok(to.fs) {
        inForce := inForce.(fs := to.fs);
        if ok(to.gs) {
          inForce := inForce.(gs := to.gs);
        }
      }
    }

    /** The start of `_dispatcher`. */
    method Enter()
      modifies this
      ensures View() == Entered(ok, old(View()))
    {
      guest := inForce;
      SetFsGs(host);
    }

    /** The bracket of `__eval_target` around a hook, with `hook_arch_prctl` and `do_syscall` inside. */
    method Emulate(req: Request)
      modifies this
      ensures View() == Emulated(ok, old(View()), req)
    {
      if req.Plain? { return; }
      SetFsGs(guest);
      match req {
        case SetFs(a) =>
          guest := guest.(fs := a);
          inForce := KernelSetFs(ok, inForce, a);
          SetFsGs(host);
        case SetGs(a) =>
          guest := guest.(gs := a);
          inForce := KernelSetGs(ok, inForce, a);
        case Other =>
          SetFsGs(guest);
          SetFsGs(host);
        case Plain =>
      }
      SetFsGs(host);
    }

    /** The start of `continue_exec`. */
    method Continue()
      modifies this`inForce
      ensures View() == Continued(ok, old(View()))
    {
      SetFsGs(guest);
    }
  }

  function Entered(ok: Word -> bool, s: Swap): Swap {
    s.(guest := s.inForce, inForce := SetBoth(ok, s.inForce, s.host))
  }

  /** The engine's copy after the request; an address is recorded whether or not the kernel takes it. */
  function Recorded(b: Bases, req: Request): Bases {
    match req
    case SetFs(a) => b.(fs := a)
    case SetGs(a) => b.(gs := a)
    case _ => b
  }

  function Emulated(ok: Word -> bool, s: Swap, req: Request): Swap {
    if req.Plain? then s
    else
      var inside := SetBoth(ok, s.inForce, s.guest);
      var after := match req
        case SetFs(a) => SetBoth(ok, KernelSetFs(ok, inside, a), s.host)
        case SetGs(a) => KernelSetGs(ok, inside, a)
        case _ => SetBoth(ok, SetBoth(ok, inside, s.guest), s.host);
      Swap(SetBoth(ok, after, s.host), Recorded(s.guest, req), s.host)
  }

  function Continued(ok: Word -> bool, s: Swap): Swap {
    s.(inForce := SetBoth(ok, s.inForce, s.guest))
  }

  // ----- whole runs -----

  /** One round: the dispatch with its request, then the guest, which may load other bases itself. */
  datatype Turn = Turn(req: Request, loads: Bases)

  function AtResume(ok: Word -> bool, s: Swap, req: Request): Swap {
    Continued(ok, Emulated(ok, Entered(ok, s), req))
  }

  function Run(ok: Word -> bool, s: Swap, turns: seq<Turn>): Swap
    decreases |turns|
  {
    if turns == [] then s
    else Run(ok, AtResume(ok, s, turns[0].req).(inForce := turns[0].loads), turns[1..])
  }

  /** The bases of a guest that runs without the engine. */
  function Native(ok: Word -> bool, b: Bases, req: Request): Bases {
    match req
    case SetFs(a) => KernelSetFs(ok, b, a)
    case SetGs(a) => KernelSetGs(ok, b, a)
    case _ => b
  }

  predicate Accepted(ok: Word -> bool, b: Bases) {
    ok(b.fs) && ok(b.gs)
  }

  predicate Granted(ok: Word -> bool, req: Request) {
    match req
    case SetFs(a) => ok(a)
    case SetGs(a) => ok(a)
    case _ => true
  }

  /** After `__eval_target`, and so up to `continue_exec`, the host's bases are in force. */
  lemma HostInForce(ok: Word -> bool, s: Swap, req: Request)
    requires Accepted(ok, s.host)
    ensures Entered(ok, s).inForce == s.host && Emulated(ok, Entered(ok, s), req).inForce == s.host
  {
  }

  /** The guest resumes with the bases it last set, exactly when the kernel granted the request or the
      base it would fall back to happens to be the host's. */
  lemma ResumesWithOwnBases(ok: Word -> bool, s: Swap, req: Request)
    requires Accepted(ok, s.host) && Accepted(ok, s.inForce)
    ensures AtResume(ok, s, req).inForce == Native(ok, s.inForce, req)
            <==> Granted(ok, req) || (if req.SetFs? then s.inForce == s.host else s.inForce.gs == s.host.gs)
  {
  }

  /** In plain words: a granted request takes effect on its base and on no other, and nothing else changes a base. */
  lemma ResumesAsRequested(ok: Word -> bool, s: Swap, a: Word)
    requires Accepted(ok, s.host) && Accepted(ok, s.inForce) && ok(a)
    ensures AtResume(ok, s, SetFs(a)).inForce == Bases(a, s.inForce.gs)
    ensures AtResume(ok, s, SetGs(a)).inForce == Bases(s.inForce.fs, a)
    ensures AtResume(ok, s, Plain).inForce == s.inForce && AtResume(ok, s, Other).inForce == s.inForce
  {
  }

  /** Over every run whose requests are granted: whenever the guest resumes, in any round, the bases in
      force are those the uninstrumented guest would have. */
  ghost predicate Disciplined(ok: Word -> bool, s: Swap, turns: seq<Turn>)
    decreases |turns|
  {
    turns == [] ||
    (&& AtResume(ok, s, turns[0].req).inForce == Native(ok, s.inForce, turns[0].req)
     && Disciplined(ok, AtResume(ok, s, turns[0].req).(inForce := turns[0].loads), turns[1..]))
  }

  lemma {:induction false} RunsAreDisciplined(ok: Word -> bool, s: Swap, turns: seq<Turn>)
    requires Accepted(ok, s.host) && Accepted(ok, s.inForce)
    requires forall i :: 0 <= i < |turns| ==> Granted(ok, turns[i].req) && Accepted(ok, turns[i].loads)
    ensures Disciplined(ok, s, turns)
    ensures Run(ok, s, turns).host == s.host && Accepted(ok, Run(ok, s, turns).inForce)
    decreases |turns|
  {
    if turns != [] {
      ResumesWithOwnBases(ok, s, turns[0].req);
      assert Granted(ok, turns[0].req);
      RunsAreDisciplined(ok, AtResume(ok, s, turns[0].req).(inForce := turns[0].loads), turns[1..]);
    }
  }
}
