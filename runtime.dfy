/** The running instance: linear memory, the auxiliary stack pointer, the
    function table the closures are installed in and the free list of table
    slots. ffi_call, the closure trampoline and the closure lifecycle are
    methods that change this state step by step, each proved against the
    functions of ForwardCall and Closures that specify it. */
module Runtime {
  import opened LinearMemory
  import opened FfiTypes
  import opened CallInterface
  import opened ForwardCall
  import opened Closures

  /** ffi_status values returned by ffi_prep_closure_loc. */
  const FFI_OK: nat := 0
  const FFI_BAD_ABI: nat := 2

  /** The two stores of ffi_closure_alloc_helper: the table slot index
      into *code, then into the closure's wrapper word (word 0). */
  function AllocStores(m: Memory, closure: int, code: int, index: int): Memory
  {
    StoreU32(StoreU32(m, code, 0, index), closure, 0, index)
  }

  /** The three stores that finish ffi_prep_closure_loc_helper: the cif
      address, the handler and the user data into closure words 1, 2, 3. */
  function InstallStores(m: Memory, closure: int, cifAddr: int, fun: int, userData: int): Memory
  {
    StoreU32(StoreU32(StoreU32(m, closure, 1, cifAddr), closure, 2, fun), closure, 3, userData)
  }

  /** The trampoline the helper generates for a cif whose signature is sig. */
  function MakeTrampoline(closure: int, cif: Cif, sig: string): Trampoline
    reads cif
  {
    Trampoline(closure, Unbox(cif.rtype).id, sig, UnboxedIds(cif.argTypes), cif.nargs, cif.nfixedargs)
  }

  /** Allocation records the table slot both in *code and in the
      closure's wrapper word, whether or not the two coincide. */
  lemma AllocRecordsIndex(m: Memory, closure: int, code: int, index: int)
    requires 0 <= index < TWO32
    ensures LoadU32(AllocStores(m, closure, code, index), closure, 0) == index
    ensures LoadU32(AllocStores(m, closure, code, index), code, 0) == index
  {
  }

  /** Preparation fills closure words 1 to 3 (mod 2^32) and keeps the
      wrapper word. */
  lemma InstallWords(m: Memory, closure: int, cifAddr: int, fun: int, userData: int)
    ensures var m1 := InstallStores(m, closure, cifAddr, fun, userData);
      LoadU32(m1, closure, 0) == LoadU32(m, closure, 0)
      && LoadU32(m1, closure, 1) == cifAddr % TWO32
      && LoadU32(m1, closure, 2) == fun % TWO32
      && LoadU32(m1, closure, 3) == userData % TWO32
  {
  }

  /** Alloc, then prepare, then free: the slot freed is the slot that
      allocation handed out. */
  lemma FreeReturnsAllocatedSlot(m: Memory, closure: int, code: int, index: int,
                                 cifAddr: int, fun: int, userData: int)
    requires 0 <= index < TWO32
    ensures LoadU32(InstallStores(AllocStores(m, closure, code, index), closure, cifAddr, fun, userData),
                    closure, 0) == index
  {
    AllocRecordsIndex(m, closure, code, index);
    InstallWords(AllocStores(m, closure, code, index), closure, cifAddr, fun, userData);
  }

  /** A closure prepared above a word-aligned stack pointer: the trampoline
      hands its handler exactly the cif, handler and user data that
      preparation stored, because building the frame never reaches them. */
  lemma HandlerGetsInstalledValues(m: Memory, sp: int, t: Trampoline, args: seq<Value>,
                                   cifAddr: int, fun: int, userData: int)
    requires Shaped(t) && |args| == Arity(t)
    requires sp % 4 == 0 && t.closure >= sp
    requires 0 <= cifAddr < TWO32 && 0 <= fun < TWO32 && 0 <= userData < TWO32
    ensures var f := TrampolineFrame(InstallStores(m, t.closure, cifAddr, fun, userData), sp, t, args);
      LoadU32(f.mem, t.closure, 1) == cifAddr
      && LoadU32(f.mem, t.closure, 2) == fun
      && LoadU32(f.mem, t.closure, 3) == userData
  {
    var m1 := InstallStores(m, t.closure, cifAddr, fun, userData);
    InstallWords(m, t.closure, cifAddr, fun, userData);
    FrameFootprint(m1, sp, t, args);
    assert WordIndex(t.closure, 1) >= sp / 4;
  }

  class Instance {
    /** The one ArrayBuffer behind HEAPU8 ... HEAPF64. */
    var mem: Memory
    /** stackSave() / stackRestore(). */
    var sp: int
    /** wasmTable, as far as closures fill it: slot -> generated trampoline. */
    var table: map<int, Trampoline>
    /** The runtime's list of table slots given back by ffi_closure_free. */
    var freeTableIndexes: seq<int>

    /** Every trampoline in the table was built from a signature that
        succeeded for its kinds. */
    predicate Valid()
      reads this
    {
      forall i :: i in table ==> ValidTrampoline(table[i])
    }

    constructor (mem: Memory, sp: int)
      ensures this.mem == mem && this.sp == sp
      ensures table == map[] && freeTableIndexes == []
      ensures Valid()
    {
      this.mem := mem;
      this.sp := sp;
      this.table := map[];
      this.freeTableIndexes := [];
    }

    // ---- ffi_call ----------------------------------------------------------

    /** One iteration of the variadic loop: STACK_ALLOC the slot below addr
        and copy the argument at argPtr into it by its kind, or throw for a
        kind without a slot. */
    method PushVararg(addr: int, argPtr: int, id: nat) returns (r: Result<int>)
      modifies this`mem
      ensures r.Ok? <==> VarargSize(id).Ok?
      ensures r.Err? ==> r.error == VarargSize(id).error && mem == old(mem)
      ensures r.Ok? ==>
        r.value == StackAlloc(addr, SlotSize(id), SlotSize(id)) && mem == WriteVararg(old(mem), r.value, argPtr, id)
      ensures r.Ok? && addr % 4 == 0 && (id != STRUCT ==> argPtr >= addr) ==>
        r.value + SlotSize(id) <= addr && SlotHolds(mem, r.value, old(mem), argPtr, id)
    {
      ghost var m0 := mem;
      var q: int;
      if IsByte(id) {
        q := StackAlloc(addr, 1, 1);
        mem := StoreU8(mem, q, LoadU8(mem, argPtr));
      } else if IsHalf(id) {
        q := StackAlloc(addr, 2, 2);
        mem := StoreU16(mem, q, 0, LoadU16(mem, argPtr, 0));
      } else if IsWord(id) || id == FLOAT {
        q := StackAlloc(addr, 4, 4);
        mem := StoreU32(mem, q, 0, LoadU32(mem, argPtr, 0));
      } else if id == DOUBLE || IsI64(id) {
        q := StackAlloc(addr, 8, 8);
        mem := StoreU32(mem, q, 0, LoadU32(mem, argPtr, 0));
        mem := StoreU32(mem, q, 1, LoadU32(mem, argPtr, 1));
      } else if id == LONGDOUBLE {
        q := StackAlloc(addr, 16, 16);
        mem := StoreU32(mem, q, 0, LoadU32(mem, argPtr, 0));
        mem := StoreU32(mem, q, 1, LoadU32(mem, argPtr, 1));
        mem := StoreU32(mem, q, 2, LoadU32(mem, argPtr, 1));
        mem := StoreU32(mem, q, 3, LoadU32(mem, argPtr, 1));
      } else if id == STRUCT {
        q := StackAlloc(addr, 4, 4);
        mem := StoreU32(mem, q, 0, argPtr);
      } else if id == COMPLEX {
        return Err(Unimplemented);
      } else {
        return Err(Unexpected);
      }
      r := Ok(q);
      StackAllocLayout(addr, SlotSize(id));
      if addr % 4 == 0 && (id != STRUCT ==> argPtr >= addr) {
        WriteVarargCopies(m0, q, argPtr, id, addr / 4);
      }
    }

    /** One pass of the variadic loop for argument i: read its address
        from avalue, resolve its kind and copy it below addr. */
    method PushVarargAt(avalue: int, argTypes: seq<FfiType>, nfixed: nat, i: nat, addr: int)
      returns (r: Result<int>)
      requires nfixed <= i < |argTypes|
      modifies this`mem
      ensures r.Err? ==> BuildVarargs(old(mem), avalue, argTypes, nfixed, i + 1, addr) == Failed(mem, r.error)
      ensures r.Ok? ==>
        BuildVarargs(old(mem), avalue, argTypes, nfixed, i + 1, addr)
          == BuildVarargs(mem, avalue, argTypes, nfixed, i, r.value)
    {
      var argPtr := LoadU32(mem, avalue, i);
      var desc, id := UnboxSmallStructs(argTypes[i]);
      r := PushVararg(addr, argPtr, id);
      if r.Ok? {
        BuildVarargsStep(old(mem), avalue, argTypes, nfixed, i + 1, addr);
      }
    }

    /** The variadic loop of ffi_call, from argument nargs - 1 down to
        nfixed, starting at the saved stack pointer p. */
    method PushVarargs(avalue: int, argTypes: seq<FfiType>, nfixed: nat, p: int)
      returns (r: Result<int>)
      requires nfixed <= |argTypes|
      modifies this`mem
      ensures var b := BuildVarargs(old(mem), avalue, argTypes, nfixed, |argTypes|, p);
        mem == b.mem
        && (b.Built? ==> r == Ok(b.addr))
        && (b.Failed? ==> r == Err(b.error))
      ensures forall a :: p <= a ==> LoadU8(mem, a) == LoadU8(old(mem), a)
      ensures r.Ok? ==> r.value <= p && forall a :: a < r.value ==> LoadU8(mem, a) == LoadU8(old(mem), a)
      ensures (SlotsDefined(UnboxedIds(argTypes), nfixed, |argTypes|) && p % 4 == 0 && avalue >= p
               && forall j :: nfixed <= j < |argTypes| ==> LoadU32(old(mem), avalue, j) >= p) ==>
        r.Ok? && forall k :: nfixed <= k < |argTypes| ==>
          SlotHolds(mem, SlotAddr(UnboxedIds(argTypes), k, |argTypes|, p),
                    old(mem), LoadU32(old(mem), avalue, k), UnboxedIds(argTypes)[k])
    {
      ghost var m0 := mem;
      BuildVarargsResult(m0, avalue, argTypes, nfixed, |argTypes|, p);
      VarargsFootprint(m0, avalue, argTypes, nfixed, |argTypes|, p);
      if SlotsDefined(UnboxedIds(argTypes), nfixed, |argTypes|) && p % 4 == 0 && avalue >= p
        && (forall j :: nfixed <= j < |argTypes| ==> LoadU32(m0, avalue, j) >= p) {
        forall k | nfixed <= k < |argTypes|
          ensures SlotHolds(BuildVarargs(m0, avalue, argTypes, nfixed, |argTypes|, p).mem,
                            SlotAddr(UnboxedIds(argTypes), k, |argTypes|, p),
                            m0, LoadU32(m0, avalue, k), UnboxedIds(argTypes)[k])
        {
          VarargsContents(m0, avalue, argTypes, nfixed, p, k);
        }
      }
      var addr := p;
      var i: int := |argTypes| - 1;
      while i >= nfixed
        invariant nfixed - 1 <= i < |argTypes|
        invariant BuildVarargs(old(mem), avalue, argTypes, nfixed, |argTypes|, p)
               == BuildVarargs(mem, avalue, argTypes, nfixed, i + 1, addr)
        decreases i
      {
        var q := PushVarargAt(avalue, argTypes, nfixed, i, addr);
        if q.Err? {
          return Err(q.error);
        }
        addr := q.value;
        i := i - 1;
      }
      r := Ok(addr);
    }

    /** The write-back switch at the end of ffi_call. */
    method StoreResult(rvalue: int, rid: nat, result: Value) returns (r: CallOutcome)
      modifies this`mem
      ensures r == WriteBack(old(mem), rvalue, rid, result) && mem == r.mem
    {
      var v := Raw(result);
      if rid == VOID {
      } else if IsWord(rid) {
        mem := StoreU32(mem, rvalue, 0, v);
      } else if rid == FLOAT {
        mem := StoreF32Bits(mem, rvalue, 0, v);
      } else if rid == DOUBLE {
        mem := StoreF64Bits(mem, rvalue, 0, v);
      } else if IsByte(rid) {
        mem := StoreU8(mem, rvalue, v);
      } else if IsHalf(rid) {
        mem := StoreU16(mem, rvalue, 0, v);
      } else if IsI64(rid) {
        mem := StoreU64(mem, rvalue, 0, v);
      } else if rid == COMPLEX {
        return Threw(mem, Unimplemented);
      } else {
        return Threw(mem, Unexpected);
      }
      r := Returned(mem);
    }

    /** ffi_call up to the host call: check the return kind, collect the
        fixed arguments and, for a variadic cif, build the block and move
        the stack pointer to it. Also returns the resolved return kind. */
    method PrepareArgs(cif: Cif, rvalue: int, avalue: int) returns (p: Prepared, rid: nat)
      requires cif.Valid()
      modifies this`mem, this`sp
      ensures p == PrepareCall(old(mem), old(sp), cif.nargs, cif.nfixedargs, cif.argTypes, cif.rtype,
                               rvalue, avalue)
      ensures rid == Unbox(cif.rtype).id
      ensures mem == p.mem
      ensures sp == if p.Ready? then p.calleeSp else old(sp)
    {
      PrepareCases(mem, sp, cif.nargs, cif.nfixedargs, cif.argTypes, cif.rtype, rvalue, avalue);
      var rdesc;
      rdesc, rid := UnboxSmallStructs(cif.rtype);
      if rid == COMPLEX {
        return Aborted(mem, Unimplemented), rid;
      }
      if rid > LAST {
        return Aborted(mem, Unexpected), rid;
      }
      var args: seq<Value> := [];
      if rid == LONGDOUBLE || rid == STRUCT {
        args := args + [Num(rvalue)];
      }
      assert args == if RetByArg(rid) then [Num(rvalue)] else [];
      var fixed := MarshalFixedArgs(mem, avalue, cif.argTypes, cif.nfixedargs);
      if fixed.Err? {
        return Aborted(mem, fixed.error), rid;
      }
      args := args + fixed.value;
      if cif.nfixedargs != cif.nargs {
        var block := PushVarargs(avalue, cif.argTypes, cif.nfixedargs, sp);
        if block.Err? {
          return Aborted(mem, block.error), rid;
        }
        args := args + [Num(block.value)];
        sp := block.value;
      }
      p := Ready(mem, sp, args);
    }

    /** ffi_call(cif, fn, rvalue, avalue) with the host's indirect call
        `host`: the memory it leaves and whether it throws are those of
        FfiCall, and the stack pointer is back at its saved value. */
    method Call(cif: Cif, fn: int, rvalue: int, avalue: int, host: HostCall) returns (r: CallOutcome)
      requires cif.Valid()
      modifies this`mem, this`sp
      ensures r == FfiCall(old(mem), old(sp), cif.nargs, cif.nfixedargs, cif.argTypes, cif.rtype,
                           fn, rvalue, avalue, host)
      ensures mem == r.mem
      ensures sp == old(sp)
    {
      var origSp := sp;
      var p, rid := PrepareArgs(cif, rvalue, avalue);
      if p.Aborted? {
        return Threw(mem, p.error);
      }
      CallAfterHost(old(mem), origSp, cif.nargs, cif.nfixedargs, cif.argTypes, cif.rtype, fn, rvalue, avalue, host);
      var result := host(fn, p.args, mem, sp);
      mem := result.mem;
      sp := origSp;
      if RetByArg(rid) {
        return Returned(mem);
      }
      r := StoreResult(rvalue, rid, result.value);
    }

    // ---- the closure trampoline ---------------------------------------------

    /** One iteration of the trampoline's first loop: the switch on the kind
        of fixed argument c, whose host values start at args[j]. Returns the
        new cur_ptr and jsarg_idx. */
    method PlaceFixedArg(cur: int, argsPtr: int, c: nat, id: nat, args: seq<Value>, j: nat)
      returns (cur': int, j': nat)
      requires HostWidth(id) > 0 && j + HostWidth(id) <= |args|
      modifies this`mem
      ensures Fill(mem, cur') == StoreFixedArg(old(mem), cur, argsPtr, c, id, args[j..])
      ensures j' == j + HostWidth(id)
    {
      var curArg := Raw(args[j]);
      j' := j + 1;
      cur' := cur;
      if IsByte(id) {
        cur' := StackAlloc(cur', 1, 1);
        mem := StoreU32(mem, argsPtr, c, cur');
        mem := StoreU8(mem, cur', curArg);
      } else if IsHalf(id) {
        cur' := StackAlloc(cur', 2, 2);
        mem := StoreU32(mem, argsPtr, c, cur');
        mem := StoreU16(mem, cur', 0, curArg);
      } else if IsWord(id) {
        cur' := StackAlloc(cur', 4, 4);
        mem := StoreU32(mem, argsPtr, c, cur');
        mem := StoreU32(mem, cur', 0, curArg);
      } else if id == STRUCT {
        mem := StoreU32(mem, argsPtr, c, curArg);
      } else if id == FLOAT {
        cur' := StackAlloc(cur', 4, 4);
        mem := StoreU32(mem, argsPtr, c, cur');
        mem := StoreF32Bits(mem, cur', 0, curArg);
      } else if id == DOUBLE {
        cur' := StackAlloc(cur', 8, 8);
        mem := StoreU32(mem, argsPtr, c, cur');
        mem := StoreF64Bits(mem, cur', 0, curArg);
      } else if IsI64(id) {
        cur' := StackAlloc(cur', 8, 8);
        mem := StoreU32(mem, argsPtr, c, cur');
        mem := StoreU64(mem, cur', 0, curArg);
      } else {
        cur' := StackAlloc(cur', 16, 16);
        mem := StoreU32(mem, argsPtr, c, cur');
        mem := StoreU64(mem, cur', 0, curArg);
        curArg := Raw(args[j']);
        j' := j' + 1;
        mem := StoreU64(mem, cur', 1, curArg);
      }
    }

    /** One pass of the trampoline's first loop for fixed argument c, whose
        host values start at args[i]. */
    method PlaceNextFixedArg(cur: int, argsPtr: int, t: Trampoline, args: seq<Value>, i: nat, c: nat)
      returns (cur': int, i': nat)
      requires c < t.nfixed <= |t.ids|
      requires forall k :: c <= k < t.nfixed ==> HostWidth(t.ids[k]) > 0
      requires i <= |args| && |args| - i + HostCount(t.ids, c) == HostCount(t.ids, t.nfixed)
      modifies this`mem
      ensures i' <= |args| && |args| - i' + HostCount(t.ids, c + 1) == HostCount(t.ids, t.nfixed)
      ensures StoreFixed(old(mem), cur, argsPtr, t.ids, args[i..], c, t.nfixed)
           == StoreFixed(mem, cur', argsPtr, t.ids, args[i'..], c + 1, t.nfixed)
    {
      StoreFixedStep(mem, cur, argsPtr, t.ids, args, i, c, t.nfixed);
      cur', i' := PlaceFixedArg(cur, argsPtr, c, t.ids[c], args, i);
    }

    /** The trampoline's first loop: convert the fixed host values, from
        args[j] on, into slots below cur and entries of the argument-pointer
        array, until the values run out. */
    method PlaceFixedArgs(cur: int, argsPtr: int, t: Trampoline, args: seq<Value>, j: nat)
      returns (cur': int)
      requires t.nfixed <= |t.ids|
      requires forall k :: 0 <= k < t.nfixed ==> HostWidth(t.ids[k]) > 0
      requires j + HostCount(t.ids, t.nfixed) == |args|
      modifies this`mem
      ensures Fill(mem, cur') == StoreFixed(old(mem), cur, argsPtr, t.ids, args[j..], 0, t.nfixed)
    {
      var i := j;
      var c := 0;
      cur' := cur;
      while i < |args|
        invariant c <= t.nfixed && i <= |args|
        invariant |args| - i + HostCount(t.ids, c) == HostCount(t.ids, t.nfixed)
        invariant StoreFixed(old(mem), cur, argsPtr, t.ids, args[j..], 0, t.nfixed)
               == StoreFixed(mem, cur', argsPtr, t.ids, args[i..], c, t.nfixed)
        decreases |args| - i
      {
        NextFixedArg(t.ids, c, t.nfixed);
        cur', i := PlaceNextFixedArg(cur', argsPtr, t, args, i, c);
        c := c + 1;
      }
      if c < t.nfixed {
        HostCountStrict(t.ids, c, t.nfixed);
      }
    }

    /** The trampoline's second loop: entry k of the argument-pointer array
        for each variadic argument, with the block address advancing by 4. */
    method PlaceVarargPtrs(argsPtr: int, t: Trampoline, varargs: int)
      requires t.nfixed <= t.nargs <= |t.ids|
      modifies this`mem
      ensures mem == StoreVarargPtrs(old(mem), argsPtr, t.ids, varargs, t.nfixed, t.nargs)
    {
      var v := varargs;
      var k := t.nfixed;
      while k < t.nargs
        invariant t.nfixed <= k <= t.nargs
        invariant StoreVarargPtrs(old(mem), argsPtr, t.ids, varargs, t.nfixed, t.nargs)
               == StoreVarargPtrs(mem, argsPtr, t.ids, v, k, t.nargs)
      {
        if t.ids[k] == STRUCT {
          mem := StoreU32(mem, argsPtr, k, LoadU32(mem, v, 0));
        } else {
          mem := StoreU32(mem, argsPtr, k, v);
        }
        v := v + 4;
        k := k + 1;
      }
    }

    /** One call of the generated trampoline with the host values hostArgs:
        the frame it builds, the handler call and the decoded result are
        those of InvokeSpec, and the stack pointer is restored. */
    method InvokeTrampoline(t: Trampoline, hostArgs: seq<Value>, handler: HostCall)
      returns (result: Option<Value>)
      requires ValidTrampoline(t) && |hostArgs| == Arity(t)
      modifies this`mem, this`sp
      ensures Invocation(mem, result) == InvokeSpec(old(mem), old(sp), t, hostArgs, handler)
      ensures sp == old(sp)
    {
      ValidIsShaped(t);
      ghost var f := TrampolineFrame(mem, sp, t, hostArgs);
      var args := hostArgs;
      var origSp := sp;
      var cur := origSp;
      var retPtr: int;
      var j := 0;
      var retByArg := RetByArg(t.rid);
      if retByArg {
        retPtr := Raw(args[j]);
        j := j + 1;
      } else {
        cur := StackAlloc(cur, 8, 8);
        retPtr := cur;
      }
      cur := cur - 4 * t.nargs;
      var argsPtr := cur;
      var varargs := 0;
      if t.nfixed < t.nargs {
        varargs := Raw(args[|args| - 1]);
        args := args[..|args| - 1];
      }
      assert args[j..] == FixedValues(t, hostArgs);
      cur := PlaceFixedArgs(cur, argsPtr, t, args, j);
      if t.nfixed < t.nargs {
        PlaceVarargPtrs(argsPtr, t, varargs);
      }
      assert mem == f.mem && retPtr == f.retPtr && argsPtr == f.argsPtr && cur == f.cur;
      sp := cur;
      var res := handler(LoadU32(mem, t.closure, 2),
                         [Num(LoadU32(mem, t.closure, 1)), Num(retPtr), Num(argsPtr),
                          Num(LoadU32(mem, t.closure, 3))],
                         mem, sp);
      mem := res.mem;
      sp := origSp;
      result := None;
      if !retByArg {
        var c := t.sig[0];
        if c == 'i' {
          result := Some(Num(LoadU32(mem, retPtr, 0)));
        } else if c == 'j' {
          result := Some(Big(LoadU64(mem, retPtr, 0)));
        } else if c == 'd' {
          result := Some(Dbl(LoadF64Bits(mem, retPtr, 0)));
        } else if c == 'f' {
          result := Some(Flt(LoadF32Bits(mem, retPtr, 0)));
        }
      }
    }

    // ---- the closure lifecycle ----------------------------------------------

    /** ffi_closure_alloc: closure is what _malloc(size) returned and index
        what getEmptyTableSlot() returned; the index goes into *code and
        into the closure's wrapper word. */
    method ClosureAlloc(closure: int, index: int, code: int) returns (r: int)
      modifies this`mem
      ensures r == closure
      ensures mem == AllocStores(old(mem), closure, code, index)
    {
      mem := StoreU32(mem, code, 0, index);
      mem := StoreU32(mem, closure, 0, index);
      r := closure;
    }

    /** ffi_closure_free: give the closure's table slot back to the free
        list. Releasing the closure's memory is the allocator's business. */
    method ClosureFree(closure: int)
      modifies this`freeTableIndexes
      ensures freeTableIndexes == old(freeTableIndexes) + [LoadU32(mem, closure, 0)]
    {
      var index := LoadU32(mem, closure, 0);
      freeTableIndexes := freeTableIndexes + [index];
    }

    /** ffi_prep_closure_loc: reject any ABI but WASM32_EMSCRIPTEN with
        FFI_BAD_ABI and no change; otherwise build the signature (throwing,
        with no change, for a kind it cannot handle), install the trampoline
        at codeloc and fill closure words 1 to 3. */
    method PrepClosureLoc(closure: int, cif: Cif, fun: int, userData: int, codeloc: int)
      returns (r: Result<nat>)
      requires Valid() && cif.Valid()
      modifies this`mem, this`table
      ensures Valid()
      ensures var sig := Signature(Unbox(cif.rtype).id, UnboxedIds(cif.argTypes), cif.nfixedargs, cif.nargs);
        if cif.abi != WASM32_EMSCRIPTEN then
          r == Ok(FFI_BAD_ABI) && mem == old(mem) && table == old(table)
        else if sig.Err? then
          r == Err(sig.error) && mem == old(mem) && table == old(table)
        else
          r == Ok(FFI_OK)
          && table == old(table)[codeloc := MakeTrampoline(closure, cif, sig.value)]
          && mem == InstallStores(old(mem), closure, cif.address, fun, userData)
    {
      if cif.abi != WASM32_EMSCRIPTEN {
        return Ok(FFI_BAD_ABI);
      }
      var sig, rid, ids := BuildSignature(cif.rtype, cif.argTypes, cif.nfixedargs, cif.nargs);
      if sig.Err? {
        return Err(sig.error);
      }
      table := table[codeloc := Trampoline(closure, rid, sig.value, ids, cif.nargs, cif.nfixedargs)];
      mem := StoreU32(mem, closure, 1, cif.address);
      mem := StoreU32(mem, closure, 2, fun);
      mem := StoreU32(mem, closure, 3, userData);
      r := Ok(FFI_OK);
    }
  }
}
