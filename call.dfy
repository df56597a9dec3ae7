/** The forward call ffi_call, as functions of the memory and stack pointer
    it starts from: reading the fixed arguments out of linear memory,
    building the variadic block on the auxiliary stack, calling the host,
    and writing the result back. */
module ForwardCall {
  import opened LinearMemory
  import opened FfiTypes

  /** A value as the host call step sees it: a JS Number holding an integer,
      a BigInt, or a float kept as its bit pattern. */
  datatype Value = Num(n: int) | Big(n: int) | Flt(bits: nat) | Dbl(bits: nat)

  /** The number a value carries, whatever its kind. */
  function Raw(v: Value): int
  {
    match v
    case Num(n) => n
    case Big(n) => n
    case Flt(b) => b
    case Dbl(b) => b
  }

  /** What the host returns from an indirect call: its result and the
      memory as the callee left it. */
  datatype HostResult = HostResult(value: Value, mem: Memory)

  /** The opaque indirect call (`wasmTable.get(fn).apply(null, args)`):
      function index, arguments, memory and stack pointer at the call. */
  type HostCall = (int, seq<Value>, Memory, int) -> HostResult

  predicate IsWord(id: nat) { id == INT || id == SINT32 || id == UINT32 || id == PTR }
  predicate IsByte(id: nat) { id == UINT8 || id == SINT8 }
  predicate IsHalf(id: nat) { id == UINT16 || id == SINT16 }
  predicate IsI64(id: nat) { id == UINT64 || id == SINT64 }

  /** Number of host values one fixed argument of kind id becomes
      (0 when the kind cannot be marshalled). */
  function HostWidth(id: nat): nat
  {
    if id == LONGDOUBLE then 2
    else if IsWord(id) || IsByte(id) || IsHalf(id) || IsI64(id)
         || id == FLOAT || id == DOUBLE || id == STRUCT then 1
    else 0
  }

  /** Total host values for the first n kinds. */
  function HostCount(ids: seq<nat>, n: nat): nat
    requires n <= |ids|
  {
    if n == 0 then 0 else HostCount(ids, n - 1) + HostWidth(ids[n - 1])
  }

  /** One fixed argument: read the value at argPtr by the width of its
      kind. Structs are passed as their address. */
  function ArgValues(m: Memory, argPtr: int, id: nat): (r: Result<seq<Value>>)
    ensures r.Ok? <==> HostWidth(id) > 0
    ensures r.Ok? ==> |r.value| == HostWidth(id)
    ensures r == Err(Unimplemented) <==> id == COMPLEX
  {
    if IsWord(id) then Ok([Num(LoadU32(m, argPtr, 0))])
    else if id == FLOAT then Ok([Flt(LoadF32Bits(m, argPtr, 0))])
    else if id == DOUBLE then Ok([Dbl(LoadF64Bits(m, argPtr, 0))])
    else if IsByte(id) then Ok([Num(LoadU8(m, argPtr))])
    else if IsHalf(id) then Ok([Num(LoadU16(m, argPtr, 0))])
    else if IsI64(id) then Ok([Big(LoadU64(m, argPtr, 0))])
    else if id == LONGDOUBLE then Ok([Big(LoadU64(m, argPtr, 0)), Big(LoadU64(m, argPtr, 1))])
    else if id == STRUCT then Ok([Num(argPtr)])
    else if id == COMPLEX then Err(Unimplemented)
    else Err(Unexpected)
  }

  /** The host values of the first n arguments; argument i lives at the
      address stored in word i of avalue. The first failing argument decides
      the error. */
  function FixedArgs(m: Memory, avalue: int, argTypes: seq<FfiType>, n: nat): Result<seq<Value>>
    requires n <= |argTypes|
  {
    if n == 0 then Ok([])
    else
      match FixedArgs(m, avalue, argTypes, n - 1)
      case Err(e) => Err(e)
      case Ok(prefix) =>
        match ArgValues(m, LoadU32(m, avalue, n - 1), Unbox(argTypes[n - 1]).id)
        case Err(e) => Err(e)
        case Ok(vs) => Ok(prefix + vs)
  }

  /** Reading the fixed arguments succeeds exactly when every kind can be
      marshalled, and then yields HostCount values. */
  lemma {:induction false} FixedArgsOk(m: Memory, avalue: int, argTypes: seq<FfiType>, n: nat)
    requires n <= |argTypes|
    ensures FixedArgs(m, avalue, argTypes, n).Ok?
      <==> forall i :: 0 <= i < n ==> HostWidth(UnboxedIds(argTypes)[i]) > 0
    ensures FixedArgs(m, avalue, argTypes, n).Ok? ==>
      |FixedArgs(m, avalue, argTypes, n).value| == HostCount(UnboxedIds(argTypes), n)
    decreases n
  {
    if n > 0 {
      FixedArgsOk(m, avalue, argTypes, n - 1);
      UnboxedIdsAt(argTypes, n - 1);
    }
  }

  /** Once an argument fails, the later ones do not change the error. */
  lemma {:induction false} FixedArgsErrSticky(m: Memory, avalue: int, argTypes: seq<FfiType>, i: nat, n: nat)
    requires i <= n <= |argTypes|
    requires FixedArgs(m, avalue, argTypes, i).Err?
    ensures FixedArgs(m, avalue, argTypes, n) == FixedArgs(m, avalue, argTypes, i)
    decreases n
  {
    if n > i {
      FixedArgsErrSticky(m, avalue, argTypes, i, n - 1);
    }
  }

  /** The switch on the argument kind inside the fixed-argument loop. */
  method ReadArg(m: Memory, argPtr: int, id: nat) returns (r: Result<seq<Value>>)
    ensures r == ArgValues(m, argPtr, id)
  {
    if IsWord(id) {
      r := Ok([Num(LoadU32(m, argPtr, 0))]);
    } else if id == FLOAT {
      r := Ok([Flt(LoadF32Bits(m, argPtr, 0))]);
    } else if id == DOUBLE {
      r := Ok([Dbl(LoadF64Bits(m, argPtr, 0))]);
    } else if IsByte(id) {
      r := Ok([Num(LoadU8(m, argPtr))]);
    } else if IsHalf(id) {
      r := Ok([Num(LoadU16(m, argPtr, 0))]);
    } else if IsI64(id) {
      r := Ok([Big(LoadU64(m, argPtr, 0))]);
    } else if id == LONGDOUBLE {
      r := Ok([Big(LoadU64(m, argPtr, 0)), Big(LoadU64(m, argPtr, 1))]);
    } else if id == STRUCT {
      r := Ok([Num(argPtr)]);
    } else if id == COMPLEX {
      r := Err(Unimplemented);
    } else {
      r := Err(Unexpected);
    }
  }

  lemma FixedArgsStep(m: Memory, avalue: int, argTypes: seq<FfiType>, i: nat, prefix: seq<Value>)
    requires i < |argTypes|
    requires FixedArgs(m, avalue, argTypes, i) == Ok(prefix)
    ensures var a := ArgValues(m, LoadU32(m, avalue, i), Unbox(argTypes[i]).id);
      FixedArgs(m, avalue, argTypes, i + 1) == if a.Ok? then Ok(prefix + a.value) else Err(a.error)
  {
  }

  /** The fixed-argument loop of ffi_call. */
  method MarshalFixedArgs(m: Memory, avalue: int, argTypes: seq<FfiType>, nfixed: nat)
    returns (r: Result<seq<Value>>)
    requires nfixed <= |argTypes|
    ensures r == FixedArgs(m, avalue, argTypes, nfixed)
  {
    var args: seq<Value> := [];
    var i := 0;
    while i < nfixed
      invariant 0 <= i <= nfixed
      invariant FixedArgs(m, avalue, argTypes, i) == Ok(args)
    {
      var argPtr := LoadU32(m, avalue, i);
      var desc, id := UnboxSmallStructs(argTypes[i]);
      var a := ReadArg(m, argPtr, id);
      FixedArgsStep(m, avalue, argTypes, i, args);
      if a.Err? {
        r := Err(a.error);
        FixedArgsErrSticky(m, avalue, argTypes, i + 1, nfixed);
        return;
      }
      args := args + a.value;
      i := i + 1;
    }
    return Ok(args);
  }

  // ---- the variadic block ------------------------------------------------

  /** Slot size (equal to its alignment) of one variadic argument. */
  function VarargSize(id: nat): (r: Result<nat>)
    ensures r.Ok? ==> ValidAlign(r.value)
    ensures r.Ok? <==> HostWidth(id) > 0
  {
    if IsByte(id) then Ok(1)
    else if IsHalf(id) then Ok(2)
    else if IsWord(id) || id == FLOAT || id == STRUCT then Ok(4)
    else if id == DOUBLE || IsI64(id) then Ok(8)
    else if id == LONGDOUBLE then Ok(16)
    else if id == COMPLEX then Err(Unimplemented)
    else Err(Unexpected)
  }

  /** The copy of one variadic argument into its slot at addr. Each word is
      read after the previous one was written. A long double copies source
      word 1 into slot words 1, 2 and 3. A struct slot holds the struct's
      address. */
  function WriteVararg(m: Memory, addr: int, argPtr: int, id: nat): Memory
    requires VarargSize(id).Ok?
  {
    if IsByte(id) then StoreU8(m, addr, LoadU8(m, argPtr))
    else if IsHalf(id) then StoreU16(m, addr, 0, LoadU16(m, argPtr, 0))
    else if id == STRUCT then StoreU32(m, addr, 0, argPtr)
    else if IsWord(id) || id == FLOAT then StoreU32(m, addr, 0, LoadU32(m, argPtr, 0))
    else if id == DOUBLE || IsI64(id) then
      var m1 := StoreU32(m, addr, 0, LoadU32(m, argPtr, 0));
      StoreU32(m1, addr, 1, LoadU32(m1, argPtr, 1))
    else
      var m1 := StoreU32(m, addr, 0, LoadU32(m, argPtr, 0));
      var m2 := StoreU32(m1, addr, 1, LoadU32(m1, argPtr, 1));
      var m3 := StoreU32(m2, addr, 2, LoadU32(m2, argPtr, 1));
      StoreU32(m3, addr, 3, LoadU32(m3, argPtr, 1))
  }

  datatype VarargsOutcome = Built(mem: Memory, addr: int) | Failed(mem: Memory, error: Error)

  /** The variadic loop from index i - 1 down to nfixed, starting at stack
      address p: allocate the slot, then copy the argument into it. A kind
      without a slot throws with the memory written so far. */
  function BuildVarargs(m: Memory, avalue: int, argTypes: seq<FfiType>, nfixed: nat, i: nat, p: int)
    : VarargsOutcome
    requires nfixed <= i <= |argTypes|
    decreases i
  {
    if i == nfixed then Built(m, p)
    else
      var id := Unbox(argTypes[i - 1]).id;
      match VarargSize(id)
      case Err(e) => Failed(m, e)
      case Ok(size) =>
        var q := StackAlloc(p, size, size);
        BuildVarargs(WriteVararg(m, q, LoadU32(m, avalue, i - 1), id), avalue, argTypes, nfixed, i - 1, q)
  }

  predicate SlotsDefined(ids: seq<nat>, k: nat, i: nat)
    requires k <= i <= |ids|
  {
    forall j :: k <= j < i ==> VarargSize(ids[j]).Ok?
  }

  lemma SlotsDefinedStep(ids: seq<nat>, k: nat, i: nat)
    requires k < i <= |ids|
    ensures SlotsDefined(ids, k, i) <==> SlotsDefined(ids, k, i - 1) && VarargSize(ids[i - 1]).Ok?
  {
  }

  function SlotSize(id: nat): nat
    requires VarargSize(id).Ok?
  {
    VarargSize(id).value
  }

  /** Stack address after allocating the slots of arguments i - 1 down to
      k from p: the address of argument k's slot when k < i. */
  function SlotAddr(ids: seq<nat>, k: nat, i: nat, p: int): int
    requires k <= i <= |ids| && SlotsDefined(ids, k, i)
    decreases i
  {
    if i == k then p
    else
      var s := SlotSize(ids[i - 1]);
      SlotAddr(ids, k, i - 1, StackAlloc(p, s, s))
  }

  /** Argument k's slot is allocated right below argument k + 1's. */
  lemma {:induction false} SlotAddrStep(ids: seq<nat>, k: nat, i: nat, p: int)
    requires k < i <= |ids| && SlotsDefined(ids, k, i)
    ensures SlotAddr(ids, k, i, p)
         == StackAlloc(SlotAddr(ids, k + 1, i, p), SlotSize(ids[k]), SlotSize(ids[k]))
    decreases i
  {
    if k + 1 < i {
      var s := SlotSize(ids[i - 1]);
      SlotAddrStep(ids, k, i - 1, StackAlloc(p, s, s));
    }
  }

  /** Below an address aligned to s, a slot of size s is the s bytes just
      under it, and the next address down is aligned to s again. */
  lemma AlignedStep(p: int, s: nat)
    requires ValidAlign(s) && Aligned(p, s)
    ensures StackAlloc(p, s, s) == p - s && Aligned(p - s, s)
  {
    if s == 2 {
      AlignedStepBy(p, 2);
    } else if s == 4 {
      AlignedStepBy(p, 4);
    } else if s == 8 {
      AlignedStepBy(p, 8);
    } else if s == 16 {
      AlignedStepBy(p, 16);
    }
  }

  lemma AlignedStepBy(p: int, s: nat)
    requires s == 2 || s == 4 || s == 8 || s == 16
    requires p % s == 0
    ensures AlignDown(p, s) == p && (p - s) % s == 0
  {
    var d := p / s;
    assert p == s * d && p - s == s * (d - 1);
  }


  /** When every argument from k to i - 1 has the same slot size s and the
      loop starts at an address aligned to s, the slots are packed with no
      padding: argument j sits s * (i - j) bytes below p. */
  lemma {:induction false} UniformSlots(ids: seq<nat>, k: nat, i: nat, p: int, s: nat)
    requires k <= i <= |ids| && ValidAlign(s) && Aligned(p, s)
    requires forall j :: k <= j < i ==> VarargSize(ids[j]) == Ok(s)
    ensures SlotsDefined(ids, k, i) && SlotAddr(ids, k, i, p) == p - s * (i - k)
    decreases i
  {
    if i > k {
      AlignedStep(p, s);
      UniformSlots(ids, k, i - 1, p - s, s);
    }
  }

  /** Each slot is aligned to its size and lies wholly below the slot of
      the next argument (or below the start address for the last one). */
  lemma SlotLayout(ids: seq<nat>, k: nat, i: nat, p: int)
    requires k < i <= |ids| && SlotsDefined(ids, k, i)
    ensures Aligned(SlotAddr(ids, k, i, p), SlotSize(ids[k]))
    ensures SlotAddr(ids, k, i, p) + SlotSize(ids[k]) <= SlotAddr(ids, k + 1, i, p)
  {
    SlotAddrStep(ids, k, i, p);
    StackAllocLayout(SlotAddr(ids, k + 1, i, p), SlotSize(ids[k]));
  }

  /** Slots only move down: allocating more never raises the address. */
  lemma {:induction false} SlotAddrMonotone(ids: seq<nat>, k: nat, j: nat, i: nat, p: int)
    requires k <= j <= i <= |ids| && SlotsDefined(ids, k, i)
    ensures SlotAddr(ids, k, i, p) <= SlotAddr(ids, j, i, p)
    ensures k < j ==> SlotAddr(ids, k, i, p) < SlotAddr(ids, j, i, p)
    decreases j - k
  {
    if k < j {
      SlotLayout(ids, k, i, p);
      SlotAddrMonotone(ids, k + 1, j, i, p);
    }
  }

  /** Slots of different arguments do not overlap, and all of them lie
      below the saved stack pointer p. */
  lemma SlotsDisjoint(ids: seq<nat>, nfixed: nat, k: nat, j: nat, i: nat, p: int)
    requires nfixed <= k < j < i <= |ids| && SlotsDefined(ids, nfixed, i)
    ensures SlotAddr(ids, k, i, p) + SlotSize(ids[k]) <= SlotAddr(ids, j, i, p)
    ensures SlotAddr(ids, j, i, p) + SlotSize(ids[j]) <= p
  {
    SlotLayout(ids, k, i, p);
    SlotAddrMonotone(ids, k + 1, j, i, p);
    SlotLayout(ids, j, i, p);
    SlotAddrMonotone(ids, j + 1, i, i, p);
  }

  /** One iteration of the variadic loop: allocate the slot of argument
      i - 1 below p and copy the argument into it. */
  lemma BuildVarargsStep(m: Memory, avalue: int, argTypes: seq<FfiType>, nfixed: nat, i: nat, p: int)
    requires nfixed < i <= |argTypes|
    requires VarargSize(Unbox(argTypes[i - 1]).id).Ok?
    ensures var id := Unbox(argTypes[i - 1]).id;
      var q := StackAlloc(p, SlotSize(id), SlotSize(id));
      BuildVarargs(m, avalue, argTypes, nfixed, i, p)
        == BuildVarargs(WriteVararg(m, q, LoadU32(m, avalue, i - 1), id), avalue, argTypes, nfixed, i - 1, q)
  {
  }

  /** The variadic loop succeeds exactly when every trailing argument has a
      slot kind, and then ends at the address of argument nfixed's slot. */
  lemma {:induction false} BuildVarargsResult(m: Memory, avalue: int, argTypes: seq<FfiType>,
                                              nfixed: nat, i: nat, p: int)
    requires nfixed <= i <= |argTypes|
    ensures BuildVarargs(m, avalue, argTypes, nfixed, i, p).Built?
        <==> SlotsDefined(UnboxedIds(argTypes), nfixed, i)
    ensures BuildVarargs(m, avalue, argTypes, nfixed, i, p).Built? ==>
      BuildVarargs(m, avalue, argTypes, nfixed, i, p).addr == SlotAddr(UnboxedIds(argTypes), nfixed, i, p)
    decreases i
  {
    var ids := UnboxedIds(argTypes);
    if i > nfixed {
      var id := ids[i - 1];
      UnboxedIdsAt(argTypes, i - 1);
      if VarargSize(id).Ok? {
        var s := SlotSize(id);
        var q := StackAlloc(p, s, s);
        var m1 := WriteVararg(m, q, LoadU32(m, avalue, i - 1), id);
        BuildVarargsStep(m, avalue, argTypes, nfixed, i, p);
        BuildVarargsResult(m1, avalue, argTypes, nfixed, i - 1, q);
      }
      SlotsDefinedStep(ids, nfixed, i);
    }
  }

  // ---- what the variadic block holds ------------------------------------------

  /** Slot q of memory m2 holds the copy of the variadic argument at argPtr
      in memory m, read by the kind's own view: the byte, the half-word or
      the word itself, both words of an 8-byte kind, word 0 and then word 1
      three times for a long double, and for a struct its address. */
  predicate SlotHolds(m2: Memory, q: int, m: Memory, argPtr: int, id: nat)
  {
    if IsByte(id) then LoadU8(m2, q) == LoadU8(m, argPtr)
    else if IsHalf(id) then LoadU16(m2, q, 0) == LoadU16(m, argPtr, 0)
    else if id == STRUCT then LoadU32(m2, q, 0) == argPtr % TWO32
    else if IsWord(id) || id == FLOAT then LoadU32(m2, q, 0) == LoadU32(m, argPtr, 0)
    else if id == DOUBLE || IsI64(id) then
      LoadU32(m2, q, 0) == LoadU32(m, argPtr, 0) && LoadU32(m2, q, 1) == LoadU32(m, argPtr, 1)
    else if id == LONGDOUBLE then
      LoadU32(m2, q, 0) == LoadU32(m, argPtr, 0) && LoadU32(m2, q, 1) == LoadU32(m, argPtr, 1)
      && LoadU32(m2, q, 2) == LoadU32(m, argPtr, 1) && LoadU32(m2, q, 3) == LoadU32(m, argPtr, 1)
    else false
  }

  /** One copy fills its slot: when the slot lies below byte 4 * top and the
      argument at or above it, the slot holds the argument. */
  lemma WriteVarargCopies(m: Memory, q: int, argPtr: int, id: nat, top: int)
    requires VarargSize(id).Ok? && Aligned(q, SlotSize(id)) && q + SlotSize(id) <= 4 * top
    requires id != STRUCT ==> argPtr >= 4 * top
    ensures SlotHolds(WriteVararg(m, q, argPtr, id), q, m, argPtr, id)
  {
    if IsByte(id) || IsHalf(id) {
      CopiesSmall(m, q, argPtr, id);
    } else if id == STRUCT || IsWord(id) || id == FLOAT {
      CopiesWord(m, q, argPtr, id);
    } else if id == DOUBLE || IsI64(id) {
      CopiesPair(m, q, argPtr, top);
      assert WriteVararg(m, q, argPtr, id) == CopyPair(m, q, argPtr);
    } else {
      CopiesLong(m, q, argPtr, top);
      assert WriteVararg(m, q, argPtr, id) == CopyLong(m, q, argPtr);
    }
  }

  lemma CopiesSmall(m: Memory, q: int, argPtr: int, id: nat)
    requires IsByte(id) || IsHalf(id)
    ensures SlotHolds(WriteVararg(m, q, argPtr, id), q, m, argPtr, id)
  {
    if IsByte(id) {
      U8RoundTrip(m, q, LoadU8(m, argPtr));
    } else {
      U16RoundTrip(m, q, 0, LoadU16(m, argPtr, 0));
    }
  }

  lemma CopiesWord(m: Memory, q: int, argPtr: int, id: nat)
    requires id == STRUCT || IsWord(id) || id == FLOAT
    ensures SlotHolds(WriteVararg(m, q, argPtr, id), q, m, argPtr, id)
  {
    var v := if id == STRUCT then argPtr else LoadU32(m, argPtr, 0);
    assert WriteVararg(m, q, argPtr, id) == StoreU32(m, q, 0, v);
    U32RoundTrip(m, q, 0, v);
  }

  /** The copy of an 8-byte argument, word 0 then word 1. */
  function CopyPair(m: Memory, q: int, argPtr: int): Memory
  {
    var m1 := StoreU32(m, q, 0, LoadU32(m, argPtr, 0));
    StoreU32(m1, q, 1, LoadU32(m1, argPtr, 1))
  }

  /** The copy of a long double: word 0, then word 1 three times. */
  function CopyLong(m: Memory, q: int, argPtr: int): Memory
  {
    var m1 := StoreU32(m, q, 0, LoadU32(m, argPtr, 0));
    var m2 := StoreU32(m1, q, 1, LoadU32(m1, argPtr, 1));
    var m3 := StoreU32(m2, q, 2, LoadU32(m2, argPtr, 1));
    StoreU32(m3, q, 3, LoadU32(m3, argPtr, 1))
  }

  lemma CopiesPair(m: Memory, q: int, argPtr: int, top: int)
    requires q % 8 == 0 && q + 8 <= 4 * top && argPtr >= 4 * top
    ensures var m2 := CopyPair(m, q, argPtr);
      LoadU32(m2, q, 0) == LoadU32(m, argPtr, 0) && LoadU32(m2, q, 1) == LoadU32(m, argPtr, 1)
  {
    var d := q / 8;
    assert q == 8 * d;
    assert q / 4 == 2 * d && 2 * d + 2 <= top && argPtr / 4 >= top;
  }

  lemma CopiesLong(m: Memory, q: int, argPtr: int, top: int)
    requires q % 16 == 0 && q + 16 <= 4 * top && argPtr >= 4 * top
    ensures var m4 := CopyLong(m, q, argPtr);
      LoadU32(m4, q, 0) == LoadU32(m, argPtr, 0) && LoadU32(m4, q, 1) == LoadU32(m, argPtr, 1)
      && LoadU32(m4, q, 2) == LoadU32(m, argPtr, 1) && LoadU32(m4, q, 3) == LoadU32(m, argPtr, 1)
  {
    var e := q / 16;
    assert q == 16 * e;
    assert q / 4 == 4 * e && 4 * e + 4 <= top && argPtr / 4 >= top;
  }

  /** One copy changes only the bytes of its own slot. */
  lemma WriteVarargOutside(m: Memory, q: int, argPtr: int, id: nat, a: int)
    requires VarargSize(id).Ok? && Aligned(q, SlotSize(id))
    requires a < q || q + SlotSize(id) <= a
    ensures LoadU8(WriteVararg(m, q, argPtr, id), a) == LoadU8(m, a)
  {
    if IsByte(id) {
      U8OtherByte(m, q, LoadU8(m, argPtr), a);
    } else if IsHalf(id) {
      U16OtherByte(m, q, LoadU16(m, argPtr, 0), a);
    } else if id == STRUCT || IsWord(id) || id == FLOAT {
      var v := if id == STRUCT then argPtr else LoadU32(m, argPtr, 0);
      assert WriteVararg(m, q, argPtr, id) == StoreU32(m, q, 0, v);
      assert a / 4 != q / 4;
    } else if id == DOUBLE || IsI64(id) {
      assert WriteVararg(m, q, argPtr, id) == CopyPair(m, q, argPtr);
      var d := q / 8;
      assert q == 8 * d && q / 4 == 2 * d;
      assert a / 4 < 2 * d || 2 * d + 2 <= a / 4;
    } else {
      assert WriteVararg(m, q, argPtr, id) == CopyLong(m, q, argPtr);
      var e := q / 16;
      assert q == 16 * e && q / 4 == 4 * e;
      assert a / 4 < 4 * e || 4 * e + 4 <= a / 4;
    }
  }

  /** No byte from lo up changes when the slot ends at or below lo. */
  lemma WriteVarargAbove(m: Memory, q: int, argPtr: int, id: nat, lo: int)
    requires VarargSize(id).Ok? && Aligned(q, SlotSize(id)) && q + SlotSize(id) <= lo
    ensures forall a :: lo <= a ==> LoadU8(WriteVararg(m, q, argPtr, id), a) == LoadU8(m, a)
  {
    forall a | lo <= a
      ensures LoadU8(WriteVararg(m, q, argPtr, id), a) == LoadU8(m, a)
    {
      WriteVarargOutside(m, q, argPtr, id, a);
    }
  }

  /** No byte below hi changes when the slot starts at or above hi. */
  lemma WriteVarargBelow(m: Memory, q: int, argPtr: int, id: nat, hi: int)
    requires VarargSize(id).Ok? && Aligned(q, SlotSize(id)) && hi <= q
    ensures forall a :: a < hi ==> LoadU8(WriteVararg(m, q, argPtr, id), a) == LoadU8(m, a)
  {
    forall a | a < hi
      ensures LoadU8(WriteVararg(m, q, argPtr, id), a) == LoadU8(m, a)
    {
      WriteVarargOutside(m, q, argPtr, id, a);
    }
  }

  /** Two memories that agree on the bytes of an aligned slot agree on
      whether it holds an argument. */
  lemma SlotHoldsByBytes(m1: Memory, m2: Memory, q: int, m: Memory, argPtr: int, id: nat)
    requires VarargSize(id).Ok? && Aligned(q, SlotSize(id)) && SameBytes(m1, m2, q, q + SlotSize(id))
    ensures SlotHolds(m1, q, m, argPtr, id) <==> SlotHolds(m2, q, m, argPtr, id)
  {
    if IsByte(id) {
      assert LoadU8(m1, q) == LoadU8(m2, q);
    } else if IsHalf(id) {
      HalfByBytes(m1, m2, q);
    } else if id == STRUCT || IsWord(id) || id == FLOAT {
      U32ByBytes(m1, m2, q);
    } else if id == DOUBLE || IsI64(id) {
      var d := q / 8;
      assert q == 8 * d && q / 4 == 2 * d;
      WordByBytes(m1, m2, 2 * d);
      WordByBytes(m1, m2, 2 * d + 1);
    } else {
      var e := q / 16;
      assert q == 16 * e && q / 4 == 4 * e;
      WordByBytes(m1, m2, 4 * e);
      WordByBytes(m1, m2, 4 * e + 1);
      WordByBytes(m1, m2, 4 * e + 2);
      WordByBytes(m1, m2, 4 * e + 3);
    }
  }

  /** Whether a slot holds an argument depends only on the argument's
      words, which lie at or above word top. */
  lemma SlotHoldsSource(m2: Memory, q: int, m1: Memory, m: Memory, argPtr: int, id: nat, top: int)
    requires SameFrom(m1, m, top)
    requires id != STRUCT ==> argPtr >= 4 * top
    ensures SlotHolds(m2, q, m1, argPtr, id) <==> SlotHolds(m2, q, m, argPtr, id)
  {
    if id != STRUCT {
      assert argPtr / 4 >= top;
      assert HalfIndex(argPtr, 0) / 2 == argPtr / 4;
    }
  }

  /** The variadic loop writes only its block: no byte at or above the
      start address p changes, the block ends at or below p, and no byte
      below the block's final address changes. */
  /** m1 and m agree on every byte from lo up. */
  ghost predicate BytesFrom(m1: Memory, m: Memory, lo: int)
  {
    forall a :: lo <= a ==> LoadU8(m1, a) == LoadU8(m, a)
  }

  /** m1 and m agree on every byte below hi. */
  ghost predicate BytesBelow(m1: Memory, m: Memory, hi: int)
  {
    forall a :: a < hi ==> LoadU8(m1, a) == LoadU8(m, a)
  }

  /** The variadic loop from argument i - 1 down writes nothing at or above
      p, and when it finishes, nothing below the block. */
  lemma {:induction false} VarargsFootprint(m: Memory, avalue: int, argTypes: seq<FfiType>,
                                            nfixed: nat, i: nat, p: int)
    requires nfixed <= i <= |argTypes|
    ensures var r := BuildVarargs(m, avalue, argTypes, nfixed, i, p);
      BytesFrom(r.mem, m, p) && (r.Built? ==> r.addr <= p && BytesBelow(r.mem, m, r.addr))
    decreases i
  {
    if i > nfixed {
      var id := Unbox(argTypes[i - 1]).id;
      if VarargSize(id).Ok? {
        var s := SlotSize(id);
        var q := StackAlloc(p, s, s);
        var m1 := WriteVararg(m, q, LoadU32(m, avalue, i - 1), id);
        VarargsFootprint(m1, avalue, argTypes, nfixed, i - 1, q);
        FootprintUnfold(m, avalue, argTypes, nfixed, i, p, q, m1);
      }
    }
  }

  lemma FootprintUnfold(m: Memory, avalue: int, argTypes: seq<FfiType>, nfixed: nat, i: nat, p: int,
                        q: int, m1: Memory)
    requires nfixed < i <= |argTypes| && VarargSize(Unbox(argTypes[i - 1]).id).Ok?
    requires q == StackAlloc(p, SlotSize(Unbox(argTypes[i - 1]).id), SlotSize(Unbox(argTypes[i - 1]).id))
    requires m1 == WriteVararg(m, q, LoadU32(m, avalue, i - 1), Unbox(argTypes[i - 1]).id)
    requires var r := BuildVarargs(m1, avalue, argTypes, nfixed, i - 1, q);
      BytesFrom(r.mem, m1, q) && (r.Built? ==> r.addr <= q && BytesBelow(r.mem, m1, r.addr))
    ensures var r := BuildVarargs(m, avalue, argTypes, nfixed, i, p);
      BytesFrom(r.mem, m, p) && (r.Built? ==> r.addr <= p && BytesBelow(r.mem, m, r.addr))
  {
    BuildVarargsStep(m, avalue, argTypes, nfixed, i, p);
    FootprintStep(m, q, LoadU32(m, avalue, i - 1), Unbox(argTypes[i - 1]).id, p,
                  BuildVarargs(m1, avalue, argTypes, nfixed, i - 1, q));
  }

  /** One iteration's copy, followed by a rest of the loop that keeps the
      bytes from q up (and below its block), keeps the bytes from p up (and
      below the block). */
  lemma FootprintStep(m: Memory, q: int, argPtr: int, id: nat, p: int, r: VarargsOutcome)
    requires VarargSize(id).Ok? && q == StackAlloc(p, SlotSize(id), SlotSize(id))
    requires BytesFrom(r.mem, WriteVararg(m, q, argPtr, id), q)
    requires r.Built? ==> r.addr <= q && BytesBelow(r.mem, WriteVararg(m, q, argPtr, id), r.addr)
    ensures BytesFrom(r.mem, m, p) && (r.Built? ==> r.addr <= p && BytesBelow(r.mem, m, r.addr))
  {
    StackAllocLayout(p, SlotSize(id));
    WriteVarargAbove(m, q, argPtr, id, p);
    if r.Built? {
      WriteVarargBelow(m, q, argPtr, id, r.addr);
    }
  }


  /** The bytes of word w and above lie at or above byte 4 * w. */
  lemma SameFromBytes(m1: Memory, m2: Memory, top: int)
    requires forall a :: 4 * top <= a ==> LoadU8(m1, a) == LoadU8(m2, a)
    ensures SameFrom(m1, m2, top)
  {
    forall w | w >= top
      ensures Word(m1, w) == Word(m2, w)
    {
      WordByBytes(m1, m2, w);
    }
  }

  /** After the loop from argument i - 1 down to nfixed, the slot of every
      argument k in that range holds argument k, provided the avalue array
      and the arguments themselves lie at or above byte 4 * top and the loop
      starts at or below it. */
  lemma {:induction false} VarargsHoldFrom(m: Memory, avalue: int, argTypes: seq<FfiType>,
                                           nfixed: nat, i: nat, p: int, top: int, k: nat)
    requires nfixed <= k < i <= |argTypes|
    requires SlotsDefined(UnboxedIds(argTypes), nfixed, i)
    requires p <= 4 * top && avalue >= 4 * top
    requires forall j :: nfixed <= j < i ==> LoadU32(m, avalue, j) >= 4 * top
    ensures BuildVarargs(m, avalue, argTypes, nfixed, i, p).Built?
    ensures SlotHolds(BuildVarargs(m, avalue, argTypes, nfixed, i, p).mem,
                      SlotAddr(UnboxedIds(argTypes), k, i, p),
                      m, LoadU32(m, avalue, k), UnboxedIds(argTypes)[k])
    decreases i
  {
    var ids := UnboxedIds(argTypes);
    BuildVarargsResult(m, avalue, argTypes, nfixed, i, p);
    if k == i - 1 {
      HoldsLast(m, avalue, argTypes, nfixed, i, p, top);
    } else {
      UnboxedIdsAt(argTypes, i - 1);
      var id := ids[i - 1];
      var s := SlotSize(id);
      var q := StackAlloc(p, s, s);
      StackAllocLayout(p, s);
      var argPtr := LoadU32(m, avalue, i - 1);
      var m1 := WriteVararg(m, q, argPtr, id);
      BuildVarargsStep(m, avalue, argTypes, nfixed, i, p);
      var r := BuildVarargs(m1, avalue, argTypes, nfixed, i - 1, q);
      assert SlotAddr(ids, k, i, p) == SlotAddr(ids, k, i - 1, q);
      StepKeepsAbove(m, q, argPtr, id, top);
      PointersKept(m1, m, avalue, nfixed, i, top);
      VarargsHoldFrom(m1, avalue, argTypes, nfixed, i - 1, q, top, k);
      assert LoadU32(m1, avalue, k) == LoadU32(m, avalue, k);
      SlotHoldsSource(r.mem, SlotAddr(ids, k, i - 1, q), m1, m, LoadU32(m, avalue, k), ids[k], top);
    }
  }

  /** The slot of the last argument, written first, is never overwritten. */
  lemma HoldsLast(m: Memory, avalue: int, argTypes: seq<FfiType>, nfixed: nat, i: nat, p: int, top: int)
    requires nfixed < i <= |argTypes|
    requires SlotsDefined(UnboxedIds(argTypes), nfixed, i)
    requires p <= 4 * top && LoadU32(m, avalue, i - 1) >= 4 * top
    ensures SlotHolds(BuildVarargs(m, avalue, argTypes, nfixed, i, p).mem,
                      SlotAddr(UnboxedIds(argTypes), i - 1, i, p),
                      m, LoadU32(m, avalue, i - 1), UnboxedIds(argTypes)[i - 1])
  {
    var ids := UnboxedIds(argTypes);
    UnboxedIdsAt(argTypes, i - 1);
    var id := ids[i - 1];
    var s := SlotSize(id);
    var q := StackAlloc(p, s, s);
    StackAllocLayout(p, s);
    var argPtr := LoadU32(m, avalue, i - 1);
    var m1 := WriteVararg(m, q, argPtr, id);
    BuildVarargsStep(m, avalue, argTypes, nfixed, i, p);
    var r := BuildVarargs(m1, avalue, argTypes, nfixed, i - 1, q);
    assert SlotAddr(ids, i - 1, i, p) == q;
    WriteVarargCopies(m, q, argPtr, id, top);
    VarargsFootprint(m1, avalue, argTypes, nfixed, i - 1, q);
    SlotHoldsByBytes(r.mem, m1, q, m, argPtr, id);
  }

  /** The argument pointers of the array at avalue survive a change below top. */
  lemma PointersKept(m1: Memory, m: Memory, avalue: int, nfixed: nat, i: nat, top: int)
    requires SameFrom(m1, m, top) && avalue >= 4 * top
    requires forall j :: nfixed <= j < i ==> LoadU32(m, avalue, j) >= 4 * top
    ensures forall j :: nfixed <= j < i ==> LoadU32(m1, avalue, j) == LoadU32(m, avalue, j)
  {
    forall j | nfixed <= j < i
      ensures LoadU32(m1, avalue, j) == LoadU32(m, avalue, j)
    {
      assert WordIndex(avalue, j) >= top;
    }
  }

  /** One copy below byte 4 * top leaves every word from top up as it was. */
  lemma StepKeepsAbove(m: Memory, q: int, argPtr: int, id: nat, top: int)
    requires VarargSize(id).Ok? && Aligned(q, SlotSize(id)) && q + SlotSize(id) <= 4 * top
    ensures SameFrom(WriteVararg(m, q, argPtr, id), m, top)
  {
    WriteVarargAbove(m, q, argPtr, id, 4 * top);
    SameFromBytes(WriteVararg(m, q, argPtr, id), m, top);
  }


  /** The variadic block ffi_call builds below a word-aligned stack pointer
      sp holds, in the slot of each variadic argument k, a copy of that
      argument, when the avalue array and the argument buffers lie at or
      above sp. Only the block's bytes change. */
  lemma VarargsContents(m: Memory, avalue: int, argTypes: seq<FfiType>, nfixed: nat, sp: int, k: nat)
    requires nfixed <= k < |argTypes|
    requires SlotsDefined(UnboxedIds(argTypes), nfixed, |argTypes|)
    requires sp % 4 == 0 && avalue >= sp
    requires forall j :: nfixed <= j < |argTypes| ==> LoadU32(m, avalue, j) >= sp
    ensures var r := BuildVarargs(m, avalue, argTypes, nfixed, |argTypes|, sp);
      r.Built?
      && SlotHolds(r.mem, SlotAddr(UnboxedIds(argTypes), k, |argTypes|, sp),
                   m, LoadU32(m, avalue, k), UnboxedIds(argTypes)[k])
      && r.addr <= sp
      && (forall a :: a < r.addr || sp <= a ==> LoadU8(r.mem, a) == LoadU8(m, a))
  {
    assert 4 * (sp / 4) == sp;
    VarargsHoldFrom(m, avalue, argTypes, nfixed, |argTypes|, sp, sp / 4, k);
    VarargsFootprint(m, avalue, argTypes, nfixed, |argTypes|, sp);
  }

  // ---- the whole call ----------------------------------------------------

  /** Return kinds ffi_call hands over as a hidden first pointer argument. */
  predicate RetByArg(rid: nat)
  {
    rid == LONGDOUBLE || rid == STRUCT
  }

  /** The state just before the host call, or the error thrown before it. */
  datatype Prepared =
    | Ready(mem: Memory, calleeSp: int, args: seq<Value>)
    | Aborted(mem: Memory, error: Error)

  datatype CallOutcome = Returned(mem: Memory) | Threw(mem: Memory, error: Error)

  /** ffi_call up to the host call: check the return kind, collect the
      fixed arguments (with rvalue first when returning by reference), and
      for a variadic cif build the block below sp and append its address. */
  function PrepareCall(m: Memory, sp: int, nargs: nat, nfixed: nat, argTypes: seq<FfiType>,
                       rtype: FfiType, rvalue: int, avalue: int): Prepared
    requires nfixed <= nargs == |argTypes|
  {
    var rid := Unbox(rtype).id;
    if rid == COMPLEX then Aborted(m, Unimplemented)
    else if rid > LAST then Aborted(m, Unexpected)
    else
      var head := if RetByArg(rid) then [Num(rvalue)] else [];
      match FixedArgs(m, avalue, argTypes, nfixed)
      case Err(e) => Aborted(m, e)
      case Ok(fixed) =>
        if nfixed != nargs then
          match BuildVarargs(m, avalue, argTypes, nfixed, nargs, sp)
          case Failed(m1, e) => Aborted(m1, e)
          case Built(m1, q) => Ready(m1, q, head + fixed + [Num(q)])
        else Ready(m, sp, head + fixed)
  }

  /** The write-back of a host result into rvalue by the return kind. */
  function WriteBack(m: Memory, rvalue: int, rid: nat, result: Value): CallOutcome
  {
    var v := Raw(result);
    if rid == VOID then Returned(m)
    else if IsWord(rid) then Returned(StoreU32(m, rvalue, 0, v))
    else if rid == FLOAT then Returned(StoreF32Bits(m, rvalue, 0, v))
    else if rid == DOUBLE then Returned(StoreF64Bits(m, rvalue, 0, v))
    else if IsByte(rid) then Returned(StoreU8(m, rvalue, v))
    else if IsHalf(rid) then Returned(StoreU16(m, rvalue, 0, v))
    else if IsI64(rid) then Returned(StoreU64(m, rvalue, 0, v))
    else if rid == COMPLEX then Threw(m, Unimplemented)
    else Threw(m, Unexpected)
  }

  /** ffi_call from start to end, the stack pointer aside (it is restored). */
  function FfiCall(m: Memory, sp: int, nargs: nat, nfixed: nat, argTypes: seq<FfiType>,
                   rtype: FfiType, fn: int, rvalue: int, avalue: int, host: HostCall): CallOutcome
    requires nfixed <= nargs == |argTypes|
  {
    match PrepareCall(m, sp, nargs, nfixed, argTypes, rtype, rvalue, avalue)
    case Aborted(m1, e) => Threw(m1, e)
    case Ready(m1, csp, args) =>
      var res := host(fn, args, m1, csp);
      var rid := Unbox(rtype).id;
      if RetByArg(rid) then Returned(res.mem) else WriteBack(res.mem, rvalue, rid, res.value)
  }

  // ---- properties of the call ---------------------------------------------

  /** A COMPLEX or out-of-range return kind throws before any argument is
      read and without touching memory or calling the host. */
  lemma BadReturnKindThrows(m: Memory, sp: int, nargs: nat, nfixed: nat, argTypes: seq<FfiType>,
                            rtype: FfiType, fn: int, rvalue: int, avalue: int, host: HostCall)
    requires nfixed <= nargs == |argTypes|
    requires Unbox(rtype).id == COMPLEX || Unbox(rtype).id > LAST
    ensures FfiCall(m, sp, nargs, nfixed, argTypes, rtype, fn, rvalue, avalue, host)
         == Threw(m, if Unbox(rtype).id == COMPLEX then Unimplemented else Unexpected)
  {
  }

  /** A STRUCT or LONGDOUBLE return passes rvalue as the first argument and
      leaves memory as the callee left it (no write-back). */
  lemma ReturnByReference(m: Memory, sp: int, nargs: nat, nfixed: nat, argTypes: seq<FfiType>,
                          rtype: FfiType, fn: int, rvalue: int, avalue: int, host: HostCall)
    requires nfixed <= nargs == |argTypes|
    requires RetByArg(Unbox(rtype).id)
    ensures var p := PrepareCall(m, sp, nargs, nfixed, argTypes, rtype, rvalue, avalue);
      p.Ready? ==> (|p.args| > 0 && p.args[0] == Num(rvalue)
        && FfiCall(m, sp, nargs, nfixed, argTypes, rtype, fn, rvalue, avalue, host)
           == Returned(host(fn, p.args, p.mem, p.calleeSp).mem))
  {
  }

  /** The argument list: the optional rvalue, the fixed arguments, and one
      extra trailing argument, the block address, exactly when the cif is
      variadic. The block lies below the saved stack pointer. */
  lemma CallArguments(m: Memory, sp: int, nargs: nat, nfixed: nat, argTypes: seq<FfiType>,
                      rtype: FfiType, rvalue: int, avalue: int)
    requires nfixed <= nargs == |argTypes|
    requires PrepareCall(m, sp, nargs, nfixed, argTypes, rtype, rvalue, avalue).Ready?
    ensures var p := PrepareCall(m, sp, nargs, nfixed, argTypes, rtype, rvalue, avalue);
      var lead := if RetByArg(Unbox(rtype).id) then 1 else 0;
      var fixed := FixedArgs(m, avalue, argTypes, nfixed);
      fixed.Ok?
      && |p.args| == lead + HostCount(UnboxedIds(argTypes), nfixed) + (if nfixed != nargs then 1 else 0)
      && p.args[lead..lead + |fixed.value|] == fixed.value
      && (nfixed == nargs ==> p.calleeSp == sp && p.mem == m)
      && (nfixed != nargs ==>
            p.args[|p.args| - 1] == Num(p.calleeSp)
            && SlotsDefined(UnboxedIds(argTypes), nfixed, nargs)
            && p.calleeSp == SlotAddr(UnboxedIds(argTypes), nfixed, nargs, sp)
            && p.calleeSp < sp)
  {
    var fixed := FixedArgs(m, avalue, argTypes, nfixed);
    FixedArgsOk(m, avalue, argTypes, nfixed);
    PrepareCases(m, sp, nargs, nfixed, argTypes, rtype, rvalue, avalue);
    if nfixed != nargs {
      BuildVarargsResult(m, avalue, argTypes, nfixed, nargs, sp);
      SlotAddrMonotone(UnboxedIds(argTypes), nfixed, nargs, nargs, sp);
    }
  }

  /** Every argument, fixed or variadic, can be marshalled exactly when
      the fixed arguments are read and the variadic block is built. */
  lemma ArgumentsMarshallable(m: Memory, sp: int, nargs: nat, nfixed: nat, argTypes: seq<FfiType>,
                              avalue: int)
    requires nfixed <= nargs == |argTypes|
    ensures (FixedArgs(m, avalue, argTypes, nfixed).Ok?
             && (nfixed == nargs || BuildVarargs(m, avalue, argTypes, nfixed, nargs, sp).Built?))
      <==> forall i :: 0 <= i < nargs ==> HostWidth(UnboxedIds(argTypes)[i]) > 0
  {
    var ids := UnboxedIds(argTypes);
    FixedArgsOk(m, avalue, argTypes, nfixed);
    BuildVarargsResult(m, avalue, argTypes, nfixed, nargs, sp);
    assert SlotsDefined(ids, nfixed, nargs) <==> forall i :: nfixed <= i < nargs ==> HostWidth(ids[i]) > 0;
  }

  /** ffi_call throws exactly for a bad return kind or an argument kind it
      cannot marshal; write-back itself never throws. */
  lemma CallThrowsIff(m: Memory, sp: int, nargs: nat, nfixed: nat, argTypes: seq<FfiType>,
                      rtype: FfiType, fn: int, rvalue: int, avalue: int, host: HostCall)
    requires nfixed <= nargs == |argTypes|
    ensures FfiCall(m, sp, nargs, nfixed, argTypes, rtype, fn, rvalue, avalue, host).Threw?
      <==> Unbox(rtype).id == COMPLEX || Unbox(rtype).id > LAST
           || (exists i :: 0 <= i < nargs && HostWidth(UnboxedIds(argTypes)[i]) == 0)
  {
    var rid := Unbox(rtype).id;
    ArgumentsMarshallable(m, sp, nargs, nfixed, argTypes, avalue);
    PrepareReady(m, sp, nargs, nfixed, argTypes, rtype, rvalue, avalue);
    var p := PrepareCall(m, sp, nargs, nfixed, argTypes, rtype, rvalue, avalue);
    if p.Ready? && !RetByArg(rid) {
      var res := host(fn, p.args, p.mem, p.calleeSp);
      assert WriteBack(res.mem, rvalue, rid, res.value).Returned?;
    }
  }

  /** The preparation reaches the host call exactly when the return kind
      is accepted, every fixed argument is read and the variadic block (if
      any) is built. */
  lemma PrepareReady(m: Memory, sp: int, nargs: nat, nfixed: nat, argTypes: seq<FfiType>,
                     rtype: FfiType, rvalue: int, avalue: int)
    requires nfixed <= nargs == |argTypes|
    ensures PrepareCall(m, sp, nargs, nfixed, argTypes, rtype, rvalue, avalue).Ready?
      <==> Unbox(rtype).id != COMPLEX && Unbox(rtype).id <= LAST
           && FixedArgs(m, avalue, argTypes, nfixed).Ok?
           && (nfixed == nargs || BuildVarargs(m, avalue, argTypes, nfixed, nargs, sp).Built?)
  {
  }

  /** The preparation case by case: the return-kind checks, then the fixed
      arguments, then the variadic block. */
  lemma PrepareCases(m: Memory, sp: int, nargs: nat, nfixed: nat, argTypes: seq<FfiType>,
                     rtype: FfiType, rvalue: int, avalue: int)
    requires nfixed <= nargs == |argTypes|
    ensures var p := PrepareCall(m, sp, nargs, nfixed, argTypes, rtype, rvalue, avalue);
      var rid := Unbox(rtype).id;
      var fixed := FixedArgs(m, avalue, argTypes, nfixed);
      var head := if RetByArg(rid) then [Num(rvalue)] else [];
      var b := BuildVarargs(m, avalue, argTypes, nfixed, nargs, sp);
      if rid == COMPLEX then p == Aborted(m, Unimplemented)
      else if rid > LAST then p == Aborted(m, Unexpected)
      else if fixed.Err? then p == Aborted(m, fixed.error)
      else if nfixed == nargs then p == Ready(m, sp, head + fixed.value)
      else if b.Failed? then p == Aborted(b.mem, b.error)
      else p == Ready(b.mem, b.addr, head + fixed.value + [Num(b.addr)])
  {
  }

  /** After the host call: a return by reference leaves the callee's memory,
      any other return kind is written back. */
  lemma CallAfterHost(m: Memory, sp: int, nargs: nat, nfixed: nat, argTypes: seq<FfiType>,
                      rtype: FfiType, fn: int, rvalue: int, avalue: int, host: HostCall)
    requires nfixed <= nargs == |argTypes|
    requires PrepareCall(m, sp, nargs, nfixed, argTypes, rtype, rvalue, avalue).Ready?
    ensures var p := PrepareCall(m, sp, nargs, nfixed, argTypes, rtype, rvalue, avalue);
      var res := host(fn, p.args, p.mem, p.calleeSp);
      FfiCall(m, sp, nargs, nfixed, argTypes, rtype, fn, rvalue, avalue, host)
        == if RetByArg(Unbox(rtype).id) then Returned(res.mem)
           else WriteBack(res.mem, rvalue, Unbox(rtype).id, res.value)
  {
  }

  /** Write-back stores the result in rvalue by the width of the return
      kind, so reading it back gives the result truncated to that width. */
  lemma WriteBackStores(m: Memory, rvalue: int, rid: nat, result: Value)
    requires rid <= LAST && rid != COMPLEX && !RetByArg(rid)
    ensures WriteBack(m, rvalue, rid, result).Returned?
    ensures var m1 := WriteBack(m, rvalue, rid, result).mem;
      (rid == VOID ==> m1 == m)
      && (IsWord(rid) ==> LoadU32(m1, rvalue, 0) == Raw(result) % TWO32)
      && (rid == FLOAT ==> LoadF32Bits(m1, rvalue, 0) == Raw(result) % TWO32)
      && (rid == DOUBLE ==> LoadF64Bits(m1, rvalue, 0) == Raw(result) % TWO64)
      && (IsByte(rid) ==> LoadU8(m1, rvalue) == Raw(result) % 256)
      && (IsHalf(rid) ==> LoadU16(m1, rvalue, 0) == Raw(result) % TWO16)
      && (IsI64(rid) ==> LoadU64(m1, rvalue, 0) == Raw(result) % TWO64)
  {
    var v := Raw(result);
    U32RoundTrip(m, rvalue, 0, v);
    F32RoundTrip(m, rvalue, 0, v);
    F64RoundTrip(m, rvalue, 0, v);
    U8RoundTrip(m, rvalue, v);
    U16RoundTrip(m, rvalue, 0, v);
    U64RoundTrip(m, rvalue, 0, v);
  }
}
