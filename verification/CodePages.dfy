/** The page that trampolines are cut from (overlay/HardHook_x86.cpp): the static members of the hook,
    shared by all hooks of the process. */
module CodePages {
  import opened Buffers
  import opened Bytes
  import opened Trampolines
  import opened Wrappers

  /** A trampoline that was handed out: its page, where it starts in it, and what it holds. */
  datatype Issued = Issued(page: array<byte>, start: nat, bytes: seq<byte>)

  ghost predicate Intact(t: Issued)
    reads t.page
  {
    t.start + |t.bytes| <= t.page.Length && t.page[t.start..t.start + |t.bytes|] == t.bytes
  }

  /** Where the code is that is copied for `func`: at the end of the jumps it begins with, unless
      there is no page to copy to; then they are not looked at. */
  ghost function StartOf(o: seq<byte>, origin: u32, paged: bool, copyable: int -> bool, func: int, jumps: nat): int
    requires Mapped(|o|, copyable) && origin + |o| <= 0x1_0000_0000
    requires ChainEnd(o, origin, copyable, func, jumps).Some?
  {
    if paged then ChainEnd(o, origin, copyable, func, jumps).value.0 else func
  }

  /** A page, readable code and enough known instructions. */
  ghost predicate CanCopy(o: seq<byte>, paged: bool, copyable: int -> bool, start: int)
    requires Mapped(|o|, copyable)
  {
    paged && copyable(start) && Scan(o[start..start + CODEPROTECTSIZE], 0).1
  }

  ghost predicate IsTrampoline(t: seq<byte>, s: seq<byte>, o: u32, n: u32) {
    |s| == CODEPROTECTSIZE && t == Trampoline(s, o, n)
  }

  /** At address `n`, `t` is a trampoline for the code at offset `start`. */
  ghost predicate CopyOf(o: seq<byte>, origin: u32, start: int, t: seq<byte>, n: u32) {
    && 0 <= start && start + CODEPROTECTSIZE <= |o| && origin + |o| <= 0x1_0000_0000
    && IsTrampoline(t, o[start..start + CODEPROTECTSIZE], origin + start, n)
  }

  /** `after` is `before` with the first `idx` bytes of the code written at `start`. */
  ghost predicate Copied(after: seq<byte>, before: seq<byte>, start: nat, s: seq<byte>, idx: nat) {
    idx <= |s| && start + idx <= |before| && after == Splice(before, start, s[..idx])
  }

  /** The scan comes to `idx`. */
  ghost predicate Reached(s: seq<byte>, idx: nat)
    requires |s| == CODEPROTECTSIZE && idx <= CODEPROTECTSIZE
  {
    Scan(s, idx) == Scan(s, 0)
  }

  lemma {:induction false} ReachesNext(s: seq<byte>, idx: nat)
    requires |s| == CODEPROTECTSIZE && idx < CODEREPLACESIZE && Reached(s, idx)
    ensures var length := InstructionLength(s[idx], s[idx + 1], s[idx + 2]);
            if length.None? then Scan(s, 0) == (idx, false) else Reached(s, idx + length.value)
  {
  }

  lemma Window(code: seq<byte>, at: nat, s: seq<byte>, idx: nat)
    requires at + CODEPROTECTSIZE <= |code| && idx < CODEREPLACESIZE && s == code[at..at + CODEPROTECTSIZE]
    ensures s[idx] == code[at + idx] && s[idx + 1] == code[at + idx + 1] && s[idx + 2] == code[at + idx + 2]
  {
  }

  lemma SpliceMore(bs: seq<byte>, at: nat, d: seq<byte>, more: seq<byte>)
    requires at + |d| + |more| <= |bs|
    ensures Splice(Splice(bs, at, d), at + |d|, more) == Splice(bs, at, d + more)
  {
  }

  lemma CopiedMore(after: seq<byte>, now: seq<byte>, before: seq<byte>, start: nat, s: seq<byte>, i: nat, n: nat)
    requires i + n <= |s| && start + i + n <= |before| && Copied(now, before, start, s, i)
    requires after == Splice(now, start + i, s[i..i + n])
    ensures Copied(after, before, start, s, i + n)
  {
    SpliceMore(before, start, s[..i], s[i..i + n]);
    assert s[..i] + s[i..i + n] == s[..i + n];
  }

  /** The opcode, and then the bytes after it. */
  method CopyBytes(n: array<byte>, to: nat, code: array<byte>, from: nat, extra: nat)
    requires n != code && to + 1 + extra <= n.Length && from + 1 + extra <= code.Length
    modifies n
    ensures n[..] == Splice(old(n[..]), to, code[from..from + 1 + extra])
  {
    var opcode, rest := code[from], code[from + 1..from + 1 + extra];
    SpliceMore(n[..], to, [opcode], rest);
    assert [opcode] + rest == code[from..from + 1 + extra];
    CopyInto(n, to, [opcode]);
    CopyInto(n, to + 1, rest);
  }

  /** Copies one instruction, and gives its length.  `s` is the readable part of the code. */
  method CopyInstruction(n: array<byte>, to: nat, code: array<byte>, at: nat, idx: nat, ghost s: seq<byte>)
      returns (length: Option<nat>)
    requires n != code && to + 11 <= n.Length && at + CODEPROTECTSIZE <= code.Length && idx < CODEREPLACESIZE
    requires s == code[at..at + CODEPROTECTSIZE]
    modifies n
    ensures length == InstructionLength(s[idx], s[idx + 1], s[idx + 2])
    ensures length.None? ==> n[..] == old(n[..])
    ensures length.Some? ==> n[..] == Splice(old(n[..]), to, s[idx..idx + length.value])
  {
    var from := at + idx;
    var extra := ExtraBytes(code[from], code[from + 1], code[from + 2]);
    Window(code[..], at, s, idx);
    if extra.None? {
      return None;
    }
    SliceOfSlice(code[..], at, at + CODEPROTECTSIZE, idx, idx + 1 + extra.value);
    CopyBytes(n, to, code, from, extra.value);
    return Some(1 + extra.value);
  }

  /** The copying loop: whole instructions, one at a time, until at least six bytes are copied or an
      instruction is not known.  `s` is the readable part of the code. */
  method CopyInstructions(n: array<byte>, start: nat, code: array<byte>, at: nat, ghost s: seq<byte>)
      returns (idx: nat, ok: bool)
    requires n != code && start + CODEPROTECTSIZE <= n.Length && at + CODEPROTECTSIZE <= code.Length
    requires s == code[at..at + CODEPROTECTSIZE]
    modifies n
    ensures (idx, ok) == Scan(s, 0) && Copied(n[..], old(n[..]), start, s, idx)
  {
    ghost var before := n[..];
    idx, ok := 0, true;
    while idx < CODEREPLACESIZE
      invariant idx <= CODEPROTECTSIZE && Reached(s, idx) && s == code[at..at + CODEPROTECTSIZE]
      invariant Copied(n[..], before, start, s, idx)
      decreases CODEPROTECTSIZE - idx
    {
      ReachesNext(s, idx);
      ghost var now := n[..];
      var length := CopyInstruction(n, start + idx, code, at, idx, s);
      if length.None? {
        return idx, false;
      }
      CopiedMore(n[..], now, before, start, s, idx, length.value);
      idx := idx + length.value;
    }
  }

  /** Writes the copied instructions and the jump; when an instruction is not known, only those before
      it.  Gives the number of bytes written. */
  method WriteTrampoline(n: array<byte>, start: nat, code: array<byte>, at: nat, o: u32, address: u32, ghost s: seq<byte>)
      returns (idx: nat, ok: bool)
    requires n != code && start + CODEPROTECTSIZE + 5 <= n.Length && at + CODEPROTECTSIZE <= code.Length
    requires s == code[at..at + CODEPROTECTSIZE]
    modifies n
    ensures ok == Scan(s, 0).1 && idx == Scan(s, 0).0 + (if ok then 5 else 0)
    ensures n[..] == Splice(old(n[..]), start, if ok then Trampoline(s, o, address) else s[..idx])
  {
    ghost var before := n[..];
    idx, ok := CopyInstructions(n, start, code, at, s);
    if ok {
      var jump := JumpBack(o, address);
      SpliceMore(before, start, s[..idx], jump);
      CopyInto(n, start + idx, jump);
      idx := idx + 5;
    }
  }

  lemma SplicedPart(bs: seq<byte>, at: nat, d: seq<byte>)
    requires at + |d| <= |bs|
    ensures Splice(bs, at, d)[..at] == bs[..at] && Splice(bs, at, d)[at..at + |d|] == d
  {
  }

  /** The same, by what it leaves alone and what it puts in. */
  method WriteAt(page: array<byte>, start: nat, code: array<byte>, at: nat, o: u32, address: u32, ghost s: seq<byte>)
      returns (idx: nat, ok: bool, ghost t: seq<byte>)
    requires page != code && start + CODEPROTECTSIZE + 5 <= page.Length && at + CODEPROTECTSIZE <= code.Length
    requires s == code[at..at + CODEPROTECTSIZE]
    modifies page
    ensures ok == Scan(s, 0).1 && (ok ==> IsTrampoline(t, s, o, address))
    ensures page[..start] == old(page[..start])
    ensures ok ==> idx == |t| <= CODEPROTECTSIZE + 5 && page[start..start + idx] == t
  {
    ghost var before := page[..];
    idx, ok := WriteTrampoline(page, start, code, at, o, address, s);
    t := if ok then Trampoline(s, o, address) else s[..idx];
    SplicedPart(before, start, t);
  }

  lemma SameSlice(a: seq<byte>, b: seq<byte>, n: nat, lo: nat, hi: nat)
    requires n <= |a| && n <= |b| && a[..n] == b[..n] && lo <= hi <= n
    ensures a[lo..hi] == b[lo..hi]
  {
    SliceOfSlice(a, 0, n, lo, hi);
    SliceOfSlice(b, 0, n, lo, hi);
  }

  class CodePage {
    var pCode: array?<byte>
    var address: u32
    var uiCode: nat
    ghost var pages: set<array<byte>>
    ghost var issued: seq<Issued>

    /** Every trampoline ever handed out is still what it was, and lies in the used part of its page. */
    ghost predicate Valid()
      reads this, pages
    {
      && (pCode != null ==> pCode in pages && pCode.Length == PAGE && address + PAGE <= 0x1_0000_0000)
      && uiCode <= 4021
      && forall t {:trigger t in issued} :: t in issued ==>
           t.page in pages && Intact(t) && (t.page == pCode ==> t.start + |t.bytes| <= uiCode)
    }

    /** One more trampoline `t`, at address `n`, after the `from` bytes of the page that were in use. */
    ghost predicate Added(before: seq<Issued>, from: nat, t: seq<byte>, n: u32)
      reads this
    {
      pCode != null && n == address + from && issued == before + [Issued(pCode, from, t)] && uiCode == from + |t|
    }

    ghost predicate NeedsPage()
      reads this
    {
      pCode == null || uiCode > 4000
    }

    /** Whether there will be a page to copy to. */
    ghost predicate Paged(newPage: Option<u32>)
      reads this
    {
      !NeedsPage() || newPage.Some?
    }

    /** How much of the page the next trampoline finds in use. */
    ghost function Used(): nat
      reads this
    {
      if NeedsPage() then 0 else uiCode
    }

    constructor ()
      ensures Valid() && pCode == null && uiCode == 0 && issued == [] && pages == {}
    {
      pCode, address, uiCode, pages, issued := null, 0, 0, {}, [];
    }

    /** Takes a new page when there is none or the current one is nearly full; `newPage` is the address
        that the system gives, if it gives a page.  The old page stays as it is. */
    method EnsurePage(newPage: Option<u32>)
      requires Valid()
      requires newPage.Some? ==> newPage.value + PAGE <= 0x1_0000_0000
      modifies this`pCode, this`address, this`uiCode, this`pages
      ensures Valid() && uiCode == old(Used()) <= 4000
      ensures old(pages) <= pages && fresh(pages - old(pages))
      ensures pCode != null <==> old(Paged(newPage))
      ensures !old(NeedsPage()) ==> pCode == old(pCode) && address == old(address)
      ensures old(NeedsPage()) && pCode != null ==> fresh(pCode) && address == newPage.value
      ensures old(pCode != null && uiCode <= 4000) ==> pCode == old(pCode) && uiCode == old(uiCode)
      ensures old(pCode == null || uiCode > 4000) ==>
                uiCode == 0 && (pCode == null <==> newPage.None?) && (pCode != null ==> pCode.Length == 4096)
    {
      if pCode == null || uiCode > 4000 {
        if newPage.Some? {
          var page := new byte[PAGE](_ => 0);
          pCode, address, pages := page, newPage.value, pages + {page};
        } else {
          pCode := null;
        }
        uiCode := 0;
      }
    }

    /** Copies the first instructions of the function at offset `at` of `code`, whose addresses start at
        `origin`, or of the function that the jumps there lead to, and adds the jump back.  Gives the
        address of the trampoline, if there is one, and the offset the jumps lead to.  `readable` says
        where the system lets the code be read; the chain of jumps has at most `jumps` of them, and `o`
        is what the code holds. */
    method CloneCode(code: array<byte>, at: int, origin: u32, newPage: Option<u32>, readable: int -> bool, ghost jumps: nat,
        ghost o: seq<byte>)
        returns (call: Option<u32>, start: int, ghost t: seq<byte>)
      requires Valid() && code !in pages
      requires o == code[..] && Mapped(code.Length, readable) && origin + code.Length <= 0x1_0000_0000
      requires ChainEnd(o, origin, readable, at, jumps).Some?
      requires newPage.Some? ==> newPage.value + PAGE <= 0x1_0000_0000
      modifies this, pCode
      ensures Valid() && old(pages) <= pages && fresh(pages - old(pages)) && code[..] == o
      ensures pCode != null <==> old(Paged(newPage))
      ensures !old(NeedsPage()) ==> pCode == old(pCode) && address == old(address)
      ensures old(NeedsPage()) && pCode != null ==> fresh(pCode) && address == newPage.value
      ensures start == StartOf(o, origin, old(Paged(newPage)), readable, at, jumps)
      ensures call.Some? <==> CanCopy(o, old(Paged(newPage)), readable, start)
      ensures call.None? ==> issued == old(issued) && uiCode == old(Used())
      ensures call.Some? ==>
                && CopyOf(o, origin, start, t, call.value)
                && Added(old(issued), old(Used()), t, call.value)
    {
      EnsurePage(newPage);
      if pCode == null {
        return None, at, [];
      }
      assert code !in pages && code[..] == o;
      call, start, t := CloneTo(pCode, code, at, origin, readable, jumps, o);
    }

    /** The same, once there is a page with room. */
    method CloneTo(page: array<byte>, code: array<byte>, at: int, origin: u32, readable: int -> bool, ghost jumps: nat,
        ghost o: seq<byte>)
        returns (call: Option<u32>, start: int, ghost t: seq<byte>)
      requires Valid() && page == pCode && uiCode <= 4000 && code !in pages
      requires o == code[..] && Mapped(code.Length, readable) && origin + code.Length <= 0x1_0000_0000
      requires ChainEnd(o, origin, readable, at, jumps).Some?
      modifies this`uiCode, this`issued, page
      ensures Valid()
      ensures start == ChainEnd(o, origin, readable, at, jumps).value.0
      ensures call.Some? <==> readable(start) && Scan(o[start..start + CODEPROTECTSIZE], 0).1
      ensures call.None? ==> issued == old(issued) && uiCode == old(uiCode)
      ensures call.Some? ==>
                && CopyOf(o, origin, start, t, call.value)
                && Added(old(issued), old(uiCode), t, call.value)
    {
      var ok;
      start, ok := FollowJumps(code, origin, readable, at, jumps);
      if !ok {
        return None, start, [];
      }
      call, t := AddTrampoline(page, code, start, origin + start, o[start..start + CODEPROTECTSIZE]);
    }

    method AddTrampoline(page: array<byte>, code: array<byte>, at: nat, o: u32, ghost s: seq<byte>)
        returns (call: Option<u32>, ghost t: seq<byte>)
      requires Valid() && page == pCode && uiCode <= 4000 && code !in pages
      requires at + CODEPROTECTSIZE <= code.Length && s == code[at..at + CODEPROTECTSIZE]
      modifies this`uiCode, this`issued, page
      ensures Valid()
      ensures call.Some? <==> Scan(s, 0).1
      ensures call.None? ==> issued == old(issued) && uiCode == old(uiCode)
      ensures call.Some? ==> IsTrampoline(t, s, o, call.value) && Added(old(issued), old(uiCode), t, call.value)
    {
      var n := address + uiCode;
      var idx, ok;
      idx, ok, t := WriteUnused(page, code, at, o, n, s);
      if !ok {
        return None, t;
      }
      assert Intact(Issued(page, uiCode, t));
      issued := issued + [Issued(page, uiCode, t)];
      uiCode := uiCode + idx;
      call := Some(n);
    }

    /** Writes to the unused part of the page, so that nothing handed out changes. */
    method WriteUnused(page: array<byte>, code: array<byte>, at: nat, o: u32, n: u32, ghost s: seq<byte>)
        returns (idx: nat, ok: bool, ghost t: seq<byte>)
      requires Valid() && page == pCode && uiCode <= 4000 && code !in pages
      requires at + CODEPROTECTSIZE <= code.Length && s == code[at..at + CODEPROTECTSIZE]
      modifies page
      ensures Valid() && uiCode + CODEPROTECTSIZE + 5 <= page.Length
      ensures ok == Scan(s, 0).1 && (ok ==> IsTrampoline(t, s, o, n))
      ensures ok ==> idx == |t| && page[uiCode..uiCode + idx] == t
    {
      ghost var before := page[..];
      idx, ok, t := WriteAt(page, uiCode, code, at, o, n, s);
      forall i | i in issued
        ensures Intact(i)
      {
        assert old(Intact(i));
        if i.page == page {
          SameSlice(before, page[..], uiCode, i.start, i.start + |i.bytes|);
        }
      }
    }
  }
}
