/** Hooks on functions of the process (overlay/HardHook_x86.cpp): setting one up, switching it on and
    off, and looking after it. */
module HardHooks {
  import opened Buffers
  import opened Bytes
  import opened CodePages
  import opened Trampolines
  import opened Wrappers

  // ----- What a hook does to the first bytes of its function

  datatype Hook = Hook(orig: seq<byte>, replace: seq<byte>, trampoline: bool)

  const NO_HOOK := Hook([0, 0, 0, 0, 0, 0], [0, 0, 0, 0, 0, 0], false)

  /** Calls on a hook that is set up.  `writable` says whether the system lets the code be written. */
  datatype Op =
    | Inject(force: bool, writable: bool)
    | Restore(force: bool, writable: bool)
    | Check(writable: bool)

  function Step(h: Hook, code: seq<byte>, op: Op): (r: seq<byte>)
    ensures |h.orig| == |h.replace| == |code| ==> |r| == |code|
  {
    match op
    case Inject(force, writable) => if (force || !h.trampoline) && writable then h.replace else code
    case Restore(force, writable) => if (force || !h.trampoline) && writable then h.orig else code
    case Check(writable) => if code == h.orig && writable then h.replace else code
  }

  function Run(h: Hook, code: seq<byte>, ops: seq<Op>): (r: seq<byte>)
    ensures |h.orig| == |h.replace| == |code| ==> |r| == |code|
  {
    if ops == [] then code else Step(h, Run(h, code, ops[..|ops| - 1]), ops[|ops| - 1])
  }

  /** The operations that have an effect on a function which holds one of the hook's two versions. */
  predicate Effective(h: Hook, op: Op) {
    op.writable && (op.Check? || op.force || !h.trampoline)
  }

  /** Over every run, the hooked bytes are the original ones or the replacement. */
  lemma {:induction false} OrigOrReplace(h: Hook, code: seq<byte>, ops: seq<Op>)
    requires code in [h.orig, h.replace]
    ensures Run(h, code, ops) in [h.orig, h.replace]
  {
    if ops != [] {
      OrigOrReplace(h, code, ops[..|ops| - 1]);
    }
  }

  /** And the last operation that has an effect decides which. */
  lemma {:induction false} LastEffectiveDecides(h: Hook, code: seq<byte>, before: seq<Op>, op: Op, after: seq<Op>)
    requires code in [h.orig, h.replace]
    requires Effective(h, op) && forall o | o in after :: !Effective(h, o)
    ensures Run(h, code, before + [op] + after) == if op.Restore? then h.orig else h.replace
    decreases |after|
  {
    var ops := before + [op] + after;
    if after == [] {
      assert ops[..|ops| - 1] == before && ops[|ops| - 1] == op;
      OrigOrReplace(h, code, before);
    } else {
      var last := after[|after| - 1];
      assert last in after && !Effective(h, last);
      OrigOrReplace(h, code, ops[..|ops| - 1]);
      assert ops[..|ops| - 1] == before + [op] + after[..|after| - 1] && ops[|ops| - 1] == last;
      LastEffectiveDecides(h, code, before, op, after[..|after| - 1]);
    }
  }

  /** Without such an operation nothing happens. */
  lemma {:induction false} IneffectiveRun(h: Hook, code: seq<byte>, ops: seq<Op>)
    requires forall o | o in ops :: !Effective(h, o)
    ensures Run(h, code, ops) == code
  {
    if ops != [] {
      assert ops[|ops| - 1] in ops;
      IneffectiveRun(h, code, ops[..|ops| - 1]);
    }
  }

  /** Bytes that somebody else has put there survive every check. */
  lemma {:induction false} CheckSparesOthers(h: Hook, code: seq<byte>, ops: seq<Op>)
    requires code !in [h.orig, h.replace] && forall o | o in ops :: o.Check?
    ensures Run(h, code, ops) == code
  {
    if ops != [] {
      assert ops[|ops| - 1] in ops;
      CheckSparesOthers(h, code, ops[..|ops| - 1]);
    }
  }

  /** Without a trampoline, a hook function that calls the original between restore() and inject() finds
      the original bytes there, and leaves the hook in place. */
  lemma OriginalIsCalledUnhooked(h: Hook, code: seq<byte>, before: seq<Op>)
    requires !h.trampoline && code in [h.orig, h.replace]
    ensures Run(h, code, before + [Restore(false, true)]) == h.orig
    ensures Run(h, code, before + [Restore(false, true), Inject(false, true)]) == h.replace
  {
    LastEffectiveDecides(h, code, before, Restore(false, true), []);
    assert before + [Restore(false, true)] + [] == before + [Restore(false, true)];
    LastEffectiveDecides(h, code, before + [Restore(false, true)], Inject(false, true), []);
    assert before + [Restore(false, true)] + [Inject(false, true)] + [] == before + [Restore(false, true), Inject(false, true)];
  }

  /** push of an immediate, then return: control goes to the address pushed. */
  function PushReturn(target: u32): (bs: seq<byte>)
    ensures |bs| == CODEREPLACESIZE
  {
    [0x68] + LittleEndian32(target) + [0xc3]
  }

  /** The bytes of the replacement: the opcode, the target with the low byte first, and the return. */
  lemma ReplacementBytes(target: u32)
    ensures PushReturn(target) ==
            [0x68, target % 0x100, target / 0x100 % 0x100, target / 0x1_0000 % 0x100, target / 0x100_0000, 0xc3]
  {
  }

  /** Where six bytes of code send control, if they push an immediate and return. */
  function ReturnsTo(bs: seq<byte>): Option<u32>
    requires |bs| == CODEREPLACESIZE
  {
    if bs[0] == 0x68 && bs[5] == 0xc3 then Some(FromLittleEndian32(bs[1..5])) else None
  }

  lemma ReplacementLeadsToTheHook(target: u32)
    ensures ReturnsTo(PushReturn(target)) == Some(target)
  {
    LittleEndian32RoundTrip(target);
    assert PushReturn(target)[1..5] == LittleEndian32(target);
  }

  // ----- The hook object

  lemma {:induction false} RunOneMore(h: Hook, code: seq<byte>, ops: seq<Op>, i: nat)
    requires i < |ops|
    ensures Run(h, code, ops[..i + 1]) == Step(h, Run(h, code, ops[..i]), ops[i])
  {
    assert ops[..i + 1][..i] == ops[..i];
  }

  lemma SpliceAgain(bs: seq<byte>, at: nat, d: seq<byte>, e: seq<byte>)
    requires at + |d| <= |bs| && |e| == |d|
    ensures Splice(bs, at, d)[at..at + |d|] == d
    ensures Splice(Splice(bs, at, d), at, e) == Splice(bs, at, e)
  {
  }

  lemma SpliceAll(bs: seq<byte>, d: seq<byte>)
    requires |bs| == |d|
    ensures Splice(bs, 0, d) == d
  {
  }

  lemma SpliceItself(bs: seq<byte>, at: nat)
    requires at + CODEREPLACESIZE <= |bs|
    ensures Splice(bs, at, bs[at..at + CODEREPLACESIZE]) == bs
  {
  }

  class HardHook {
    /** The process's code, which begins at address `origin`, and the page the trampolines are in. */
    const code: array<byte>
    const origin: u32
    const page: CodePage
    const orig: array<byte>
    const replace: array<byte>
    var baseptr: Option<nat>
    var bTrampoline: bool
    var call: Option<u32>

    ghost predicate Valid()
      reads this
    {
      && orig.Length == replace.Length == CODEREPLACESIZE
      && orig != replace && orig != code && replace != code
      && origin + code.Length <= 0x1_0000_0000
      && (baseptr.Some? ==> baseptr.value + CODEPROTECTSIZE <= code.Length)
    }

    /** The trampolines' pages are neither the code that is hooked nor part of a hook. */
    ghost predicate Apart()
      reads this, page
    {
      code !in page.pages && orig !in page.pages && replace !in page.pages
    }

    ghost function View(): Hook
      reads this, orig, replace
    {
      Hook(orig[..], replace[..], bTrampoline)
    }

    ghost function Hooked(): seq<byte>
      requires Valid() && baseptr.Some?
      reads this, code
    {
      code[baseptr.value..baseptr.value + CODEREPLACESIZE]
    }

    constructor (code: array<byte>, origin: u32, page: CodePage)
      requires origin + code.Length <= 0x1_0000_0000
      ensures Valid() && fresh(orig) && fresh(replace)
      ensures this.code == code && this.origin == origin && this.page == page
      ensures baseptr == None && call == None && View() == NO_HOOK
    {
      this.code, this.origin, this.page := code, origin, page;
      orig := new byte[CODEREPLACESIZE](_ => 0);
      replace := new byte[CODEREPLACESIZE](_ => 0);
      baseptr, bTrampoline, call := None, false, None;
    }

    /** Puts the replacement in, unless a trampoline makes that needless. */
    method Inject(force: bool, writable: bool)
      requires Valid()
      modifies code
      ensures baseptr.None? ==> code[..] == old(code[..])
      ensures baseptr.Some? ==>
                code[..] == Splice(old(code[..]), baseptr.value, Step(View(), old(Hooked()), Op.Inject(force, writable)))
      ensures baseptr.Some? && (force || !bTrampoline) && writable ==>
                code[baseptr.value..baseptr.value + 6] == replace[..]
      ensures (!force && bTrampoline) || !writable ==> code[..] == old(code[..])
    {
      if baseptr.None? {
        return;
      }
      SpliceItself(code[..], baseptr.value);
      if !force && bTrampoline {
        return;
      }
      if writable {
        CopyInto(code, baseptr.value, replace[..]);
      }
    }

    /** Puts the original bytes back, unless a trampoline makes that needless. */
    method Restore(force: bool, writable: bool)
      requires Valid()
      modifies code
      ensures baseptr.None? ==> code[..] == old(code[..])
      ensures baseptr.Some? ==>
                code[..] == Splice(old(code[..]), baseptr.value, Step(View(), old(Hooked()), Op.Restore(force, writable)))
      ensures baseptr.Some? && (force || !bTrampoline) && writable ==>
                code[baseptr.value..baseptr.value + 6] == orig[..]
      ensures (!force && bTrampoline) || !writable ==> code[..] == old(code[..])
    {
      if baseptr.None? {
        return;
      }
      SpliceItself(code[..], baseptr.value);
      if !force && bTrampoline {
        return;
      }
      if writable {
        CopyInto(code, baseptr.value, orig[..]);
      }
    }

    /** Puts the replacement back in when the original bytes have come back. */
    method Check(writable: bool)
      requires Valid() && baseptr.Some?
      modifies code
      ensures code[..] == Splice(old(code[..]), baseptr.value, Step(View(), old(Hooked()), Op.Check(writable)))
      ensures old(code[baseptr.value..baseptr.value + 6]) == orig[..] && writable ==>
                code[baseptr.value..baseptr.value + 6] == replace[..]
      ensures old(code[baseptr.value..baseptr.value + 6]) != orig[..] || !writable ==> code[..] == old(code[..])
    {
      SpliceItself(code[..], baseptr.value);
      var bytes := code[baseptr.value..baseptr.value + CODEREPLACESIZE];
      if bytes != replace[..] {
        if bytes == orig[..] {
          Inject(true, writable);
        }
      }
    }

    method Reset()
      requires Valid()
      modifies this, orig, replace
      ensures Valid() && baseptr == None && call == None && View() == NO_HOOK
    {
      baseptr, bTrampoline, call := None, false, None;
      CopyInto(orig, 0, NO_HOOK.orig);
      CopyInto(replace, 0, NO_HOOK.replace);
    }

    /** The way to the original function: the function itself, or one more trampoline `t`, made from the
        code `o` at offset `fptr`. */
    ghost predicate WayBack(func: int, fptr: int, t: seq<byte>, o: seq<byte>, issued: seq<Issued>)
      reads this`call, this`bTrampoline, page
    {
      if bTrampoline then
        && call.Some? && page.pCode != null && page.address <= call.value
        && page.issued == issued + [Issued(page.pCode, call.value - page.address, t)]
        && CopyOf(o, origin, fptr, t, call.value)
      else call == Some(origin + func) && page.issued == issued
    }

    /** Redirects the function at offset `func` of the code to the address `nptr`.  The other arguments are
        what the system answers: the page it gives, where the code may be read for copying and for the
        hook, and whether it may be written.  The function begins with at most `jumps` jumps, and `o` is
        what the code holds.  Gives where the hook goes, and the trampoline. */
    method Setup(func: int, nptr: u32, newPage: Option<u32>, copyable: int -> bool, readable: int -> bool,
                 writable: bool, ghost jumps: nat, ghost o: seq<byte>) returns (fptr: int, ghost t: seq<byte>)
      requires Valid() && page.Valid() && Apart() && 0 <= origin + func < 0x1_0000_0000
      requires o == code[..] && Mapped(|o|, copyable) && Mapped(|o|, readable)
      requires ChainEnd(o, origin, copyable, func, jumps).Some?
      requires newPage.Some? ==> newPage.value + PAGE <= 0x1_0000_0000
      modifies this, orig, replace, code, page, page.pCode
      ensures Valid() && page.Valid() && Apart()
      ensures old(baseptr).Some? ==> baseptr == old(baseptr) && call == old(call) && View() == old(View())
      ensures old(baseptr).Some? ==> code[..] == o && page.issued == old(page.issued)
      ensures old(baseptr).None? ==>
                && fptr == StartOf(o, origin, old(page.Paged(newPage)), copyable, func, jumps)
                && bTrampoline == CanCopy(o, old(page.Paged(newPage)), copyable, fptr)
                && WayBack(func, fptr, t, o, old(page.issued))
                && call.Some? && (!bTrampoline ==> call.value == origin + func)
      ensures old(baseptr).None? && readable(fptr) ==>
                && baseptr == Some(fptr)
                && View() == Hook(o[fptr..fptr + CODEREPLACESIZE], PushReturn(nptr), bTrampoline)
                && code[..] == if writable then Splice(o, fptr, PushReturn(nptr)) else o
      ensures old(baseptr).None? && !readable(fptr) ==>
                baseptr.None? && code[..] == o && View() == old(View()).(trampoline := bTrampoline)
    {
      if baseptr.Some? {
        return func, [];
      }
      fptr, t := MakeTrampoline(func, newPage, copyable, jumps, o);
      if readable(fptr) {
        Attach(fptr, nptr, writable);
      }
    }

    /** Sets the way back to the original function, and gives where the function is that the hook goes to. */
    method MakeTrampoline(func: int, newPage: Option<u32>, copyable: int -> bool, ghost jumps: nat, ghost o: seq<byte>)
        returns (fptr: int, ghost t: seq<byte>)
      requires Valid() && page.Valid() && Apart() && 0 <= origin + func < 0x1_0000_0000
      requires o == code[..] && Mapped(|o|, copyable)
      requires ChainEnd(o, origin, copyable, func, jumps).Some?
      requires newPage.Some? ==> newPage.value + PAGE <= 0x1_0000_0000
      modifies this`call, this`bTrampoline, page, page.pCode
      ensures Valid() && page.Valid() && Apart() && code[..] == o
      ensures fptr == StartOf(o, origin, old(page.Paged(newPage)), copyable, func, jumps)
      ensures bTrampoline == CanCopy(o, old(page.Paged(newPage)), copyable, fptr)
      ensures WayBack(func, fptr, t, o, old(page.issued))
    {
      var made;
      made, fptr, t := page.CloneCode(code, func, origin, newPage, copyable, jumps, o);
      assert page.Valid() && Apart();
      if made.Some? {
        call, bTrampoline := made, true;
      } else {
        call, bTrampoline := Some(origin + func), false;
      }
    }

    /** Saves the original bytes, prepares the replacement and puts it in. */
    method Attach(func: nat, nptr: u32, writable: bool)
      requires Valid() && page.Valid() && Apart() && func + CODEPROTECTSIZE <= code.Length
      modifies this`baseptr, orig, replace, code
      ensures Valid() && page.Valid() && Apart() && baseptr == Some(func)
      ensures View() == Hook(old(code[func..func + CODEREPLACESIZE]), PushReturn(nptr), bTrampoline)
      ensures code[..] == if writable then Splice(old(code[..]), func, PushReturn(nptr)) else old(code[..])
    {
      var bytes := code[func..func + CODEREPLACESIZE];
      SpliceAll(replace[..], PushReturn(nptr));
      CopyInto(replace, 0, PushReturn(nptr));
      SpliceAll(orig[..], bytes);
      CopyInto(orig, 0, bytes);
      baseptr := Some(func);
      SpliceItself(code[..], func);
      assert Hooked() == bytes && View() == Hook(bytes, PushReturn(nptr), bTrampoline);
      Inject(true, writable);
    }
  }

  method Perform(hook: HardHook, op: Op)
    requires hook.Valid() && hook.baseptr.Some?
    modifies hook.code
    ensures hook.View() == old(hook.View())
    ensures hook.code[..] ==
            Splice(old(hook.code[..]), hook.baseptr.value, Step(hook.View(), old(hook.Hooked()), op))
  {
    match op {
      case Inject(force, writable) => hook.Inject(force, writable);
      case Restore(force, writable) => hook.Restore(force, writable);
      case Check(writable) => hook.Check(writable);
    }
  }

  /** A run of calls on a hook: the six bytes end as the run on values says, and no other byte changes. */
  method RunHook(hook: HardHook, ops: seq<Op>)
    requires hook.Valid() && hook.baseptr.Some?
    modifies hook.code
    ensures hook.code[..] ==
            Splice(old(hook.code[..]), hook.baseptr.value, Run(hook.View(), old(hook.Hooked()), ops))
  {
    ghost var h, at, before, bytes := hook.View(), hook.baseptr.value, hook.code[..], hook.Hooked();
    SpliceItself(before, at);
    for i := 0 to |ops|
      invariant hook.View() == h
      invariant hook.code[..] == Splice(before, at, Run(h, bytes, ops[..i]))
    {
      ghost var now := Run(h, bytes, ops[..i]);
      SpliceAgain(before, at, now, Step(h, now, ops[i]));
      RunOneMore(h, bytes, ops, i);
      Perform(hook, ops[i]);
    }
    assert ops[..|ops|] == ops;
  }

  /** Whatever is called on a hook whose function holds the original bytes, a forced restore at the end puts
      all of the code back as it was. */
  method RunAndRestore(hook: HardHook, ops: seq<Op>)
    requires hook.Valid() && hook.baseptr.Some? && hook.Hooked() == hook.orig[..]
    modifies hook.code
    ensures hook.code[..] == old(hook.code[..])
  {
    ghost var h, at, before := hook.View(), hook.baseptr.value, hook.code[..];
    RunHook(hook, ops);
    SpliceAgain(before, at, Run(h, h.orig, ops), h.orig);
    SpliceItself(before, at);
    hook.Restore(true, true);
  }
}
