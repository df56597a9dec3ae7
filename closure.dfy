/** ffi_prep_closure_loc_helper: the host signature of a closure and the
    trampoline body that the host calls through the closure's table slot. */
module Closures {
  import opened LinearMemory
  import opened FfiTypes
  import opened ForwardCall

  // ---- signature synthesis --------------------------------------------------

  /** Signature prefix for the return kind: 'v', 'i', 'f', 'd' or 'j', and
      "vi" (nothing returned, a leading pointer parameter) for STRUCT and
      LONGDOUBLE. */
  function RetSig(rid: nat): (r: Result<string>)
    ensures r.Ok? <==> rid < COMPLEX
    ensures r.Ok? ==> |r.value| == (if RetByArg(rid) then 2 else 1)
    ensures r.Ok? ==> r.value[0] in "vifdj"
    ensures r == Err(Unimplemented) <==> rid == COMPLEX
    ensures r == Ok("v") <==> rid == VOID
  {
    if rid == VOID then Ok("v")
    else if RetByArg(rid) then Ok("vi")
    else if IsWord(rid) || IsByte(rid) || IsHalf(rid) then Ok("i")
    else if rid == FLOAT then Ok("f")
    else if rid == DOUBLE then Ok("d")
    else if IsI64(rid) then Ok("j")
    else if rid == COMPLEX then Err(Unimplemented)
    else Err(Unexpected)
  }

  /** Signature characters of one fixed argument. */
  function ArgSig(id: nat): (r: Result<string>)
    ensures r.Ok? <==> HostWidth(id) > 0
    ensures r.Ok? ==> |r.value| == HostWidth(id)
    ensures r == Err(Unimplemented) <==> id == COMPLEX
  {
    if IsWord(id) || IsByte(id) || IsHalf(id) || id == STRUCT then Ok("i")
    else if id == FLOAT then Ok("f")
    else if id == DOUBLE then Ok("d")
    else if id == LONGDOUBLE then Ok("jj")
    else if IsI64(id) then Ok("j")
    else if id == COMPLEX then Err(Unimplemented)
    else Err(Unexpected)
  }

  /** Signature characters of the first n arguments. */
  function ArgsSig(ids: seq<nat>, n: nat): (r: Result<string>)
    requires n <= |ids|
    ensures r.Ok? <==> forall i :: 0 <= i < n ==> HostWidth(ids[i]) > 0
    ensures r.Ok? ==> |r.value| == HostCount(ids, n)
  {
    if n == 0 then Ok("")
    else
      match ArgsSig(ids, n - 1)
      case Err(e) => Err(e)
      case Ok(prefix) =>
        match ArgSig(ids[n - 1])
        case Err(e) => Err(e)
        case Ok(cs) => Ok(prefix + cs)
  }

  /** The closure's signature: return prefix, fixed arguments, and one 'i'
      for the variadic-block pointer when there are variadic arguments. */
  function Signature(rid: nat, ids: seq<nat>, nfixed: nat, nargs: nat): Result<string>
    requires nfixed <= nargs == |ids|
  {
    match RetSig(rid)
    case Err(e) => Err(e)
    case Ok(ret) =>
      match ArgsSig(ids, nfixed)
      case Err(e) => Err(e)
      case Ok(params) => Ok(ret + params + (if nfixed < nargs then "i" else ""))
  }

  lemma {:induction false} ArgsSigErrSticky(ids: seq<nat>, i: nat, n: nat)
    requires i <= n <= |ids|
    requires ArgsSig(ids, i).Err?
    ensures ArgsSig(ids, n) == ArgsSig(ids, i)
    decreases n
  {
    if n > i {
      ArgsSigErrSticky(ids, i, n - 1);
    }
  }

  /** The loop that builds unboxed_arg_type_id_list. */
  method UnboxArgTypes(argTypes: seq<FfiType>) returns (ids: seq<nat>)
    ensures ids == UnboxedIds(argTypes)
  {
    ids := [];
    var i := 0;
    while i < |argTypes|
      invariant 0 <= i <= |argTypes|
      invariant |ids| == i
      invariant forall j :: 0 <= j < i ==> ids[j] == Unbox(argTypes[j]).id
    {
      var desc, id := UnboxSmallStructs(argTypes[i]);
      ids := ids + [id];
      i := i + 1;
    }
    UnboxedIdsExt(argTypes, ids);
  }

  /** The loop over the fixed arguments that appends their characters. */
  method FixedArgsSignature(ids: seq<nat>, nfixed: nat) returns (r: Result<string>)
    requires nfixed <= |ids|
    ensures r == ArgsSig(ids, nfixed)
  {
    var sig := "";
    var i := 0;
    while i < nfixed
      invariant 0 <= i <= nfixed
      invariant ArgsSig(ids, i) == Ok(sig)
    {
      var id := ids[i];
      var cs: string;
      if IsWord(id) || IsByte(id) || IsHalf(id) || id == STRUCT {
        cs := "i";
      } else if id == FLOAT {
        cs := "f";
      } else if id == DOUBLE {
        cs := "d";
      } else if id == LONGDOUBLE {
        cs := "jj";
      } else if IsI64(id) {
        cs := "j";
      } else {
        r := if id == COMPLEX then Err(Unimplemented) else Err(Unexpected);
        assert ArgsSig(ids, i + 1) == r;
        ArgsSigErrSticky(ids, i + 1, nfixed);
        return;
      }
      assert ArgSig(id) == Ok(cs);
      sig := sig + cs;
      i := i + 1;
    }
    r := Ok(sig);
  }

  /** The signature part of ffi_prep_closure_loc_helper: the return switch,
      the unboxing loop and the fixed-argument loop, then the trailing 'i'
      of a variadic cif. */
  method BuildSignature(rtype: FfiType, argTypes: seq<FfiType>, nfixed: nat, nargs: nat)
    returns (r: Result<string>, rid: nat, ids: seq<nat>)
    requires nfixed <= nargs == |argTypes|
    ensures rid == Unbox(rtype).id
    ensures r == Signature(rid, UnboxedIds(argTypes), nfixed, nargs)
    ensures r.Ok? ==> ids == UnboxedIds(argTypes)
  {
    var rdesc;
    rdesc, rid := UnboxSmallStructs(rtype);
    var sig: string;
    if rid == VOID {
      sig := "v";
    } else if rid == STRUCT || rid == LONGDOUBLE {
      sig := "vi";
    } else if IsWord(rid) || IsByte(rid) || IsHalf(rid) {
      sig := "i";
    } else if rid == FLOAT {
      sig := "f";
    } else if rid == DOUBLE {
      sig := "d";
    } else if IsI64(rid) {
      sig := "j";
    } else {
      r := if rid == COMPLEX then Err(Unimplemented) else Err(Unexpected);
      assert RetSig(rid) == r;
      return r, rid, [];
    }
    assert rid == Unbox(rtype).id;
    assert RetSig(rid) == Ok(sig);
    ids := UnboxArgTypes(argTypes);
    var params := FixedArgsSignature(ids, nfixed);
    if params.Err? {
      return Err(params.error), rid, ids;
    }
    ghost var ret := sig;
    sig := sig + params.value;
    if nfixed < nargs {
      sig := sig + "i";
    }
    assert sig == ret + params.value + (if nfixed < nargs then "i" else "");
    r := Ok(sig);
  }

  // ---- signature properties -------------------------------------------------

  /** The first character comes from the return kind, "vi" for a return by
      reference; the signature fails exactly when the return kind or a fixed
      argument kind cannot be marshalled. */
  lemma SignatureShape(rid: nat, ids: seq<nat>, nfixed: nat, nargs: nat)
    requires nfixed <= nargs == |ids|
    ensures Signature(rid, ids, nfixed, nargs).Ok?
        <==> rid < COMPLEX && forall i :: 0 <= i < nfixed ==> HostWidth(ids[i]) > 0
    ensures var r := Signature(rid, ids, nfixed, nargs);
      r.Ok? ==>
        |r.value| == (if RetByArg(rid) then 2 else 1) + HostCount(ids, nfixed) + (if nfixed < nargs then 1 else 0)
        && r.value[0] == RetSig(rid).value[0]
        && (RetByArg(rid) ==> r.value[..2] == "vi")
        && (nfixed < nargs ==> r.value[|r.value| - 1] == 'i')
  {
  }

  /** A host value fits a signature character. */
  predicate Fits(v: Value, c: char)
  {
    match v
    case Num(_) => c == 'i'
    case Big(_) => c == 'j'
    case Flt(_) => c == 'f'
    case Dbl(_) => c == 'd'
  }

  predicate AllFit(vs: seq<Value>, cs: string)
  {
    |vs| == |cs| && forall k :: 0 <= k < |vs| ==> Fits(vs[k], cs[k])
  }

  lemma AllFitConcat(vs1: seq<Value>, cs1: string, vs2: seq<Value>, cs2: string)
    requires AllFit(vs1, cs1) && AllFit(vs2, cs2)
    ensures AllFit(vs1 + vs2, cs1 + cs2)
  {
    forall k | 0 <= k < |vs1 + vs2|
      ensures Fits((vs1 + vs2)[k], (cs1 + cs2)[k])
    {
      if k >= |vs1| {
        assert (vs1 + vs2)[k] == vs2[k - |vs1|];
        assert (cs1 + cs2)[k] == cs2[k - |cs1|];
      }
    }
  }

  /** One argument's host values have the kinds its signature characters
      name. */
  lemma ArgFitsSignature(m: Memory, argPtr: int, id: nat)
    requires HostWidth(id) > 0
    ensures AllFit(ArgValues(m, argPtr, id).value, ArgSig(id).value)
  {
  }

  /** The fixed arguments ffi_call builds match, value by value, the
      signature characters the closure side expects for the same kinds. */
  lemma {:induction false} FixedArgsFitSignature(m: Memory, avalue: int, argTypes: seq<FfiType>, n: nat)
    requires n <= |argTypes|
    requires FixedArgs(m, avalue, argTypes, n).Ok?
    ensures ArgsSig(UnboxedIds(argTypes), n).Ok?
    ensures AllFit(FixedArgs(m, avalue, argTypes, n).value, ArgsSig(UnboxedIds(argTypes), n).value)
    decreases n
  {
    var ids := UnboxedIds(argTypes);
    if n > 0 {
      FixedArgsFitSignature(m, avalue, argTypes, n - 1);
      var id := ids[n - 1];
      UnboxedIdsAt(argTypes, n - 1);
      var argPtr := LoadU32(m, avalue, n - 1);
      var vs := ArgValues(m, argPtr, id).value;
      var cs := ArgSig(id).value;
      ArgFitsSignature(m, argPtr, id);
      var prefix := FixedArgs(m, avalue, argTypes, n - 1).value;
      var pcs := ArgsSig(ids, n - 1).value;
      assert FixedArgs(m, avalue, argTypes, n).value == prefix + vs;
      assert ArgsSig(ids, n).value == pcs + cs;
      AllFitConcat(prefix, pcs, vs, cs);
    }
  }

  /** The parameters of a signature (everything after the return character):
      a leading 'i' for a by-reference return, the fixed arguments, and a
      trailing 'i' for the variadic block. */
  lemma SignatureParams(rid: nat, ids: seq<nat>, nfixed: nat, nargs: nat)
    requires nfixed <= nargs == |ids|
    requires Signature(rid, ids, nfixed, nargs).Ok?
    ensures ArgsSig(ids, nfixed).Ok?
    ensures Signature(rid, ids, nfixed, nargs).value[1..]
      == (if RetByArg(rid) then "i" else "") + ArgsSig(ids, nfixed).value + (if nfixed < nargs then "i" else "")
  {
    var ret := RetSig(rid).value;
    var params := ArgsSig(ids, nfixed).value;
    var ts := if nfixed < nargs then "i" else "";
    assert Signature(rid, ids, nfixed, nargs).value == ret + params + ts;
    assert ret == [ret[0]] + (if RetByArg(rid) then "i" else "");
  }

  /** The argument list ffi_call hands to the host, as three parts. */
  lemma PreparedArgs(m: Memory, sp: int, nargs: nat, nfixed: nat, argTypes: seq<FfiType>,
                     rtype: FfiType, rvalue: int, avalue: int)
    requires nfixed <= nargs == |argTypes|
    requires PrepareCall(m, sp, nargs, nfixed, argTypes, rtype, rvalue, avalue).Ready?
    ensures FixedArgs(m, avalue, argTypes, nfixed).Ok?
    ensures var p := PrepareCall(m, sp, nargs, nfixed, argTypes, rtype, rvalue, avalue);
      p.args == (if RetByArg(Unbox(rtype).id) then [Num(rvalue)] else [])
                + FixedArgs(m, avalue, argTypes, nfixed).value
                + (if nfixed < nargs then [Num(p.calleeSp)] else [])
  {
  }

  /** Call-out and call-in agree on the host signature: for one cif, the
      argument list ffi_call passes to the host has exactly the parameters
      of the closure signature, each of the matching kind. */
  lemma CallMatchesSignature(m: Memory, sp: int, nargs: nat, nfixed: nat, argTypes: seq<FfiType>,
                             rtype: FfiType, rvalue: int, avalue: int)
    requires nfixed <= nargs == |argTypes|
    requires PrepareCall(m, sp, nargs, nfixed, argTypes, rtype, rvalue, avalue).Ready?
    ensures var sig := Signature(Unbox(rtype).id, UnboxedIds(argTypes), nfixed, nargs);
      sig.Ok? && AllFit(PrepareCall(m, sp, nargs, nfixed, argTypes, rtype, rvalue, avalue).args, sig.value[1..])
  {
    var rid := Unbox(rtype).id;
    var ids := UnboxedIds(argTypes);
    PreparedArgs(m, sp, nargs, nfixed, argTypes, rtype, rvalue, avalue);
    var fixed := FixedArgs(m, avalue, argTypes, nfixed).value;
    FixedArgsFitSignature(m, avalue, argTypes, nfixed);
    var params := ArgsSig(ids, nfixed).value;
    SignatureShape(rid, ids, nfixed, nargs);
    SignatureParams(rid, ids, nfixed, nargs);
    var p := PrepareCall(m, sp, nargs, nfixed, argTypes, rtype, rvalue, avalue);
    var head: seq<Value> := if RetByArg(rid) then [Num(rvalue)] else [];
    var hs: string := if RetByArg(rid) then "i" else "";
    var tail: seq<Value> := if nfixed < nargs then [Num(p.calleeSp)] else [];
    var ts: string := if nfixed < nargs then "i" else "";
    AllFitConcat(head, hs, fixed, params);
    AllFitConcat(head + fixed, hs + params, tail, ts);
  }

  // ---- the trampoline -------------------------------------------------------

  /** What the generated trampoline closes over. */
  datatype Trampoline = Trampoline(
    closure: int,       // address of the ffi_closure
    rid: nat,           // unboxed return kind
    sig: string,        // its host signature
    ids: seq<nat>,      // unboxed kinds of all arguments
    nargs: nat,
    nfixed: nat)

  predicate ValidTrampoline(t: Trampoline)
  {
    t.nfixed <= t.nargs == |t.ids| && Signature(t.rid, t.ids, t.nfixed, t.nargs) == Ok(t.sig)
  }

  /** What the trampoline body relies on: consistent counts, a host width
      for every fixed kind, and one signature character per host value after
      the return character (two for a return by reference). */
  predicate Shaped(t: Trampoline)
  {
    t.nfixed <= t.nargs == |t.ids|
    && (forall j :: 0 <= j < t.nfixed ==> HostWidth(t.ids[j]) > 0)
    && |t.sig| == (if RetByArg(t.rid) then 2 else 1) + HostCount(t.ids, t.nfixed)
                  + (if t.nfixed < t.nargs then 1 else 0)
  }

  lemma ValidIsShaped(t: Trampoline)
    requires ValidTrampoline(t)
    ensures Shaped(t)
  {
    SignatureShape(t.rid, t.ids, t.nfixed, t.nargs);
  }

  /** Number of host values the trampoline is called with. */
  function Arity(t: Trampoline): nat
  {
    if |t.sig| == 0 then 0 else |t.sig| - 1
  }

  lemma {:induction false} HostCountMono(ids: seq<nat>, a: nat, b: nat)
    requires a <= b <= |ids|
    ensures HostCount(ids, a) <= HostCount(ids, b)
    decreases b
  {
    if a < b {
      HostCountMono(ids, a, b - 1);
    }
  }

  /** When every kind in between takes at least one host value, more kinds
      take strictly more values. */
  lemma {:induction false} HostCountStrict(ids: seq<nat>, a: nat, b: nat)
    requires a < b <= |ids|
    requires forall j :: a <= j < b ==> HostWidth(ids[j]) > 0
    ensures HostCount(ids, a) < HostCount(ids, b)
    decreases b
  {
    if a < b - 1 {
      HostCountStrict(ids, a, b - 1);
    }
  }

  datatype Fill = Fill(mem: Memory, cur: int)

  /** The store of one fixed argument's host values into its slot at q, by
      the width of its kind; a long double takes two values, one per 64-bit
      half. */
  function SlotStore(m: Memory, q: int, id: nat, vals: seq<Value>): Memory
    requires HostWidth(id) > 0 && HostWidth(id) <= |vals| && id != STRUCT
  {
    var v := Raw(vals[0]);
    if IsByte(id) then StoreU8(m, q, v)
    else if IsHalf(id) then StoreU16(m, q, 0, v)
    else if IsWord(id) then StoreU32(m, q, 0, v)
    else if id == FLOAT then StoreF32Bits(m, q, 0, v)
    else if id == DOUBLE then StoreF64Bits(m, q, 0, v)
    else if IsI64(id) then StoreU64(m, q, 0, v)
    else StoreU64(StoreU64(m, q, 0, v), q, 1, Raw(vals[1]))
  }

  /** One iteration of the trampoline's first loop for fixed argument c of
      kind id, whose host values start at vals[0]: allocate a slot of the
      kind's size below cur, record its address in word c of the
      argument-pointer array and store the values into it. A struct arrives
      as an address and is recorded as it is. */
  function StoreFixedArg(m: Memory, cur: int, argsPtr: int, c: nat, id: nat, vals: seq<Value>): Fill
    requires HostWidth(id) > 0 && HostWidth(id) <= |vals|
  {
    if id == STRUCT then Fill(StoreU32(m, argsPtr, c, Raw(vals[0])), cur)
    else
      var q := StackAlloc(cur, SlotSize(id), SlotSize(id));
      Fill(SlotStore(StoreU32(m, argsPtr, c, q), q, id, vals), q)
  }

  /** The host values of one fixed argument as C code reads them back:
      each truncated to the width of its kind (a struct address to 32 bits,
      a long double to two 64-bit halves). */
  function Received(id: nat, vals: seq<Value>): seq<Value>
    requires HostWidth(id) > 0 && HostWidth(id) <= |vals|
  {
    var v := Raw(vals[0]);
    if IsWord(id) || id == STRUCT then [Num(v % TWO32)]
    else if id == FLOAT then [Flt(v % TWO32)]
    else if id == DOUBLE then [Dbl(v % TWO64)]
    else if IsByte(id) then [Num(v % 256)]
    else if IsHalf(id) then [Num(v % TWO16)]
    else if IsI64(id) then [Big(v % TWO64)]
    else [Big(v % TWO64), Big(Raw(vals[1]) % TWO64)]
  }

  /** Round trip between the two directions: after the trampoline stores
      one fixed argument, the reader ffi_call uses (the address in entry c
      of the argument-pointer array, then a load by kind) gives back the
      host values, truncated to the kind's width. The slot is aligned, lies
      below cur, and its address is the one recorded. */
  lemma FixedArgRoundTrip(m: Memory, cur: int, argsPtr: int, c: nat, id: nat, vals: seq<Value>)
    requires HostWidth(id) > 0 && HostWidth(id) <= |vals|
    requires argsPtr % 4 == 0 && 32 <= cur <= argsPtr < TWO32
    ensures var f := StoreFixedArg(m, cur, argsPtr, c, id, vals);
      ArgValues(f.mem, LoadU32(f.mem, argsPtr, c), id) == Ok(Received(id, vals))
      && (id != STRUCT ==>
            LoadU32(f.mem, argsPtr, c) == f.cur && Aligned(f.cur, SlotSize(id))
            && f.cur + SlotSize(id) <= cur)
  {
    var v := Raw(vals[0]);
    if id == STRUCT {
      U32RoundTrip(m, argsPtr, c, v);
    } else {
      var size := SlotSize(id);
      var q := StackAlloc(cur, size, size);
      StackAllocLayout(cur, size);
      var m1 := StoreU32(m, argsPtr, c, q);
      U32RoundTripExact(m, argsPtr, c, q);
      assert WordIndex(q, 0) < WordIndex(argsPtr, c);
      SlotRoundTrip(m1, q, argsPtr, c, id, vals);
    }
  }

  /** A slot below the word-aligned argsPtr: storing into it keeps entry c
      and reads back the truncated values. */
  lemma SlotRoundTrip(m1: Memory, q: int, argsPtr: int, c: nat, id: nat, vals: seq<Value>)
    requires HostWidth(id) > 0 && HostWidth(id) <= |vals| && id != STRUCT
    requires argsPtr % 4 == 0 && Aligned(q, SlotSize(id)) && 0 <= q && q + SlotSize(id) <= argsPtr
    ensures var m2 := SlotStore(m1, q, id, vals);
      LoadU32(m2, argsPtr, c) == LoadU32(m1, argsPtr, c)
      && ArgValues(m2, q, id) == Ok(Received(id, vals))
  {
    var v := Raw(vals[0]);
    if IsByte(id) {
      U8RoundTrip(m1, q, v);
    } else if IsHalf(id) {
      U16RoundTrip(m1, q, 0, v);
    } else if id == DOUBLE {
      F64RoundTrip(m1, q, 0, v);
    } else if IsI64(id) {
      U64RoundTrip(m1, q, 0, v);
    } else if id == LONGDOUBLE {
      SlotRoundTripLong(m1, q, argsPtr, c, v, Raw(vals[1]));
    }
  }

  /** The 16-byte long double slot: the two halves do not overlap each
      other or entry c, and each reads back mod 2^64. */
  lemma SlotRoundTripLong(m1: Memory, q: int, argsPtr: int, c: nat, v0: int, v1: int)
    requires argsPtr % 4 == 0 && q % 16 == 0 && 0 <= q && q + 16 <= argsPtr
    ensures var m2 := StoreU64(StoreU64(m1, q, 0, v0), q, 1, v1);
      LoadU32(m2, argsPtr, c) == LoadU32(m1, argsPtr, c)
      && LoadU64(m2, q, 0) == v0 % TWO64
      && LoadU64(m2, q, 1) == v1 % TWO64
  {
    var ma := StoreU64(m1, q, 0, v0);
    U64RoundTrip(m1, q, 0, v0);
    U64RoundTrip(ma, q, 1, v1);
    assert LoadU64(StoreU64(ma, q, 1, v1), q, 0) == LoadU64(ma, q, 0);
  }

  /** A slot store changes no byte from the end of the slot up. */
  lemma SlotStoreAbove(m: Memory, q: int, id: nat, vals: seq<Value>, a: int)
    requires HostWidth(id) > 0 && HostWidth(id) <= |vals| && id != STRUCT
    requires Aligned(q, SlotSize(id)) && q + SlotSize(id) <= a
    ensures LoadU8(SlotStore(m, q, id, vals), a) == LoadU8(m, a)
  {
    var v := Raw(vals[0]);
    if IsByte(id) {
      U8OtherByte(m, q, v, a);
    } else if IsHalf(id) {
      U16OtherByte(m, q, v, a);
    } else {
      assert a / 4 >= q / 4 + SlotSize(id) / 4;
    }
  }

  /** Two memories that agree on the bytes of an aligned slot read the same
      values from it. */
  lemma ArgValuesByBytes(m1: Memory, m2: Memory, q: int, id: nat)
    requires HostWidth(id) > 0 && id != STRUCT
    requires Aligned(q, SlotSize(id)) && SameBytes(m1, m2, q, q + SlotSize(id))
    ensures ArgValues(m1, q, id) == ArgValues(m2, q, id)
  {
    if IsWord(id) || id == FLOAT {
      U32ByBytes(m1, m2, q);
    } else if id == DOUBLE || IsI64(id) {
      U64ByBytes(m1, m2, q);
    } else if IsByte(id) {
      assert LoadU8(m1, q) == LoadU8(m2, q);
    } else if IsHalf(id) {
      HalfByBytes(m1, m2, q);
    } else {
      U128ByBytes(m1, m2, q);
    }
  }

  /** The trampoline's first loop from fixed argument c on. */
  function StoreFixed(m: Memory, cur: int, argsPtr: int, ids: seq<nat>, vals: seq<Value>,
                      c: nat, nfixed: nat): Fill
    requires c <= nfixed <= |ids|
    requires forall j :: c <= j < nfixed ==> HostWidth(ids[j]) > 0
    requires |vals| + HostCount(ids, c) == HostCount(ids, nfixed)
    decreases nfixed - c
  {
    if c == nfixed then Fill(m, cur)
    else
      HostCountMono(ids, c + 1, nfixed);
      var f := StoreFixedArg(m, cur, argsPtr, c, ids[c], vals);
      StoreFixed(f.mem, f.cur, argsPtr, ids, vals[HostWidth(ids[c])..], c + 1, nfixed)
  }

  /** While host values remain, there is a fixed argument left to take
      them. */
  lemma NextFixedArg(ids: seq<nat>, c: nat, nfixed: nat)
    requires c <= nfixed <= |ids|
    requires HostCount(ids, c) < HostCount(ids, nfixed)
    ensures c < nfixed
  {
  }

  /** One step of the first loop over the host values args[i..]: the
      values of argument c are consumed from the front. */
  lemma StoreFixedStep(m: Memory, cur: int, argsPtr: int, ids: seq<nat>, args: seq<Value>, i: nat,
                       c: nat, nfixed: nat)
    requires c < nfixed <= |ids|
    requires forall j :: c <= j < nfixed ==> HostWidth(ids[j]) > 0
    requires i <= |args| && |args| - i + HostCount(ids, c) == HostCount(ids, nfixed)
    ensures HostCount(ids, c + 1) <= HostCount(ids, nfixed)
    ensures var f := StoreFixedArg(m, cur, argsPtr, c, ids[c], args[i..]);
      StoreFixed(m, cur, argsPtr, ids, args[i..], c, nfixed)
        == StoreFixed(f.mem, f.cur, argsPtr, ids, args[i + HostWidth(ids[c])..], c + 1, nfixed)
  {
    HostCountMono(ids, c + 1, nfixed);
    assert args[i..][HostWidth(ids[c])..] == args[i + HostWidth(ids[c])..];
  }

  /** One fixed argument changes no byte in [cur, argsPtr) and no array
      entry other than its own, and moves cur down by less than 32. */
  lemma StoreFixedArgFrame(m: Memory, cur: int, argsPtr: int, c: nat, id: nat, vals: seq<Value>)
    requires HostWidth(id) > 0 && HostWidth(id) <= |vals|
    requires argsPtr % 4 == 0 && cur <= argsPtr
    ensures var f := StoreFixedArg(m, cur, argsPtr, c, id, vals);
      cur - 32 < f.cur <= cur
      && SameBytes(f.mem, m, cur, argsPtr)
      && (forall j: nat :: j != c ==> LoadU32(f.mem, argsPtr, j) == LoadU32(m, argsPtr, j))
  {
    var f := StoreFixedArg(m, cur, argsPtr, c, id, vals);
    if id == STRUCT {
      forall a | cur <= a < argsPtr
        ensures LoadU8(f.mem, a) == LoadU8(m, a)
      {
        assert a / 4 < WordIndex(argsPtr, c);
      }
    } else {
      var size := SlotSize(id);
      var q := StackAlloc(cur, size, size);
      StackAllocLayout(cur, size);
      var m1 := StoreU32(m, argsPtr, c, q);
      assert f.mem == SlotStore(m1, q, id, vals);
      forall a | cur <= a < argsPtr
        ensures LoadU8(f.mem, a) == LoadU8(m, a)
      {
        SlotStoreAbove(m1, q, id, vals, a);
        assert a / 4 < WordIndex(argsPtr, c);
      }
      forall j: nat | j != c
        ensures LoadU32(f.mem, argsPtr, j) == LoadU32(m, argsPtr, j)
      {
        var e := WordIndex(argsPtr, j);
        forall a | 4 * e <= a < 4 * e + 4
          ensures LoadU8(f.mem, a) == LoadU8(m1, a)
        {
          SlotStoreAbove(m1, q, id, vals, a);
        }
        WordByBytes(f.mem, m1, e);
      }
    }
  }

  /** The first loop from argument c on changes no byte in [cur, argsPtr)
      and no array entry below c. */
  lemma {:induction false} StoreFixedFrame(m: Memory, cur: int, argsPtr: int, ids: seq<nat>,
                                           vals: seq<Value>, c: nat, nfixed: nat)
    requires c <= nfixed <= |ids|
    requires forall j :: c <= j < nfixed ==> HostWidth(ids[j]) > 0
    requires |vals| + HostCount(ids, c) == HostCount(ids, nfixed)
    requires argsPtr % 4 == 0 && cur <= argsPtr
    ensures var r := StoreFixed(m, cur, argsPtr, ids, vals, c, nfixed);
      r.cur <= cur
      && SameBytes(r.mem, m, cur, argsPtr)
      && (forall j: nat :: j < c ==> LoadU32(r.mem, argsPtr, j) == LoadU32(m, argsPtr, j))
    decreases nfixed - c
  {
    if c < nfixed {
      HostCountMono(ids, c + 1, nfixed);
      var f := StoreFixedArg(m, cur, argsPtr, c, ids[c], vals);
      StoreFixedArgFrame(m, cur, argsPtr, c, ids[c], vals);
      StoreFixedFrame(f.mem, f.cur, argsPtr, ids, vals[HostWidth(ids[c])..], c + 1, nfixed);
    }
  }

  /** After the whole first loop, every fixed argument k reads back, through
      entry k of the argument-pointer array and the reader of ffi_call, as
      its host values truncated to the width of its kind. Its slot lies
      below the array, so nothing stored later reaches it. */
  lemma {:induction false} StoreFixedReadBack(m: Memory, cur: int, argsPtr: int, ids: seq<nat>,
                                              vals: seq<Value>, c: nat, nfixed: nat, k: nat)
    requires c <= k < nfixed <= |ids|
    requires forall j :: c <= j < nfixed ==> HostWidth(ids[j]) > 0
    requires |vals| + HostCount(ids, c) == HostCount(ids, nfixed)
    requires argsPtr % 4 == 0 && 32 * (nfixed - c) + 32 <= cur <= argsPtr < TWO32
    ensures HostCount(ids, c) <= HostCount(ids, k)
    ensures HostCount(ids, k) + HostWidth(ids[k]) <= HostCount(ids, nfixed)
    ensures var r := StoreFixed(m, cur, argsPtr, ids, vals, c, nfixed);
      var q := LoadU32(r.mem, argsPtr, k);
      ArgValues(r.mem, q, ids[k]) == Ok(Received(ids[k], vals[HostCount(ids, k) - HostCount(ids, c)..]))
      && (ids[k] != STRUCT ==> Aligned(q, SlotSize(ids[k])) && q + SlotSize(ids[k]) <= argsPtr)
    decreases nfixed - c
  {
    HostCountMono(ids, c, k);
    HostCountMono(ids, k + 1, nfixed);
    if k == c {
      ReadBackFirst(m, cur, argsPtr, ids, vals, c, nfixed);
      assert vals[HostCount(ids, k) - HostCount(ids, c)..] == vals;
    } else {
      HostCountMono(ids, c + 1, nfixed);
      var w := HostWidth(ids[c]);
      var f := StoreFixedArg(m, cur, argsPtr, c, ids[c], vals);
      StoreFixedArgFrame(m, cur, argsPtr, c, ids[c], vals);
      StoreFixedReadBack(f.mem, f.cur, argsPtr, ids, vals[w..], c + 1, nfixed, k);
      assert vals[w..][HostCount(ids, k) - HostCount(ids, c + 1)..]
          == vals[HostCount(ids, k) - HostCount(ids, c)..];
    }
  }

  /** The first argument of the loop reads back, and the later arguments,
      which only write below its slot and to other entries, leave it so. */
  lemma ReadBackFirst(m: Memory, cur: int, argsPtr: int, ids: seq<nat>, vals: seq<Value>,
                      c: nat, nfixed: nat)
    requires c < nfixed <= |ids|
    requires forall j :: c <= j < nfixed ==> HostWidth(ids[j]) > 0
    requires |vals| + HostCount(ids, c) == HostCount(ids, nfixed)
    requires argsPtr % 4 == 0 && 32 <= cur <= argsPtr < TWO32
    ensures HostWidth(ids[c]) <= |vals|
    ensures var r := StoreFixed(m, cur, argsPtr, ids, vals, c, nfixed);
      var q := LoadU32(r.mem, argsPtr, c);
      ArgValues(r.mem, q, ids[c]) == Ok(Received(ids[c], vals))
      && (ids[c] != STRUCT ==> Aligned(q, SlotSize(ids[c])) && q + SlotSize(ids[c]) <= argsPtr)
  {
    HostCountMono(ids, c + 1, nfixed);
    var w := HostWidth(ids[c]);
    var f := StoreFixedArg(m, cur, argsPtr, c, ids[c], vals);
    var r := StoreFixed(m, cur, argsPtr, ids, vals, c, nfixed);
    assert r == StoreFixed(f.mem, f.cur, argsPtr, ids, vals[w..], c + 1, nfixed);
    StoreFixedArgFrame(m, cur, argsPtr, c, ids[c], vals);
    FixedArgRoundTrip(m, cur, argsPtr, c, ids[c], vals);
    StoreFixedFrame(f.mem, f.cur, argsPtr, ids, vals[w..], c + 1, nfixed);
    if ids[c] != STRUCT {
      ArgValuesByBytes(r.mem, f.mem, f.cur, ids[c]);
    }
  }

  /** The second loop of the trampoline, from argument c on: entry c of the
      argument-pointer array is the current variadic-block address, or for a
      struct the word stored there; the block address advances by 4 bytes
      per argument whatever its kind. */
  function StoreVarargPtrs(m: Memory, argsPtr: int, ids: seq<nat>, varargs: int, c: nat, nargs: nat): Memory
    requires c <= nargs <= |ids|
    decreases nargs - c
  {
    if c == nargs then m
    else
      var entry := if ids[c] == STRUCT then LoadU32(m, varargs, 0) else varargs;
      StoreVarargPtrs(StoreU32(m, argsPtr, c, entry), argsPtr, ids, varargs + 4, c + 1, nargs)
  }

  /** The trampoline's frame just before it calls the user handler. */
  datatype Frame = Frame(mem: Memory, retPtr: int, argsPtr: int, cur: int)

  function FixedValues(t: Trampoline, args: seq<Value>): seq<Value>
    requires Shaped(t) && |args| == Arity(t)
  {
    var first := if RetByArg(t.rid) then 1 else 0;
    var last := if t.nfixed < t.nargs then |args| - 1 else |args|;
    args[first..last]
  }

  /** The trampoline body up to the handler call, entered with stack
      pointer sp and the host values args. */
  function TrampolineFrame(m: Memory, sp: int, t: Trampoline, args: seq<Value>): Frame
    requires Shaped(t) && |args| == Arity(t)
  {
    var retByArg := RetByArg(t.rid);
    var retPtr := if retByArg then Raw(args[0]) else StackAlloc(sp, 8, 8);
    var cur := if retByArg then sp else StackAlloc(sp, 8, 8);
    var argsPtr := cur - 4 * t.nargs;
    var fill := StoreFixed(m, argsPtr, argsPtr, t.ids, FixedValues(t, args), 0, t.nfixed);
    var mem :=
      if t.nfixed < t.nargs
      then StoreVarargPtrs(fill.mem, argsPtr, t.ids, Raw(args[|args| - 1]), t.nfixed, t.nargs)
      else fill.mem;
    Frame(mem, retPtr, argsPtr, fill.cur)
  }

  /** Reading the return slot by the first signature character. */
  function DecodeReturn(m: Memory, retPtr: int, c: char): Option<Value>
  {
    if c == 'i' then Some(Num(LoadU32(m, retPtr, 0)))
    else if c == 'j' then Some(Big(LoadU64(m, retPtr, 0)))
    else if c == 'd' then Some(Dbl(LoadF64Bits(m, retPtr, 0)))
    else if c == 'f' then Some(Flt(LoadF32Bits(m, retPtr, 0)))
    else None
  }

  datatype Option<T> = None | Some(value: T)

  /** A kind returned by value is announced to the host with the same
      character it has as a parameter. */
  lemma RetSigMatchesArgSig(rid: nat)
    requires rid < COMPLEX && rid != VOID && !RetByArg(rid)
    ensures RetSig(rid) == ArgSig(rid)
  {
  }

  /** The return slot round trip: what the handler left in an aligned
      return slot, decoded by the signature's return character and written
      back by ffi_call's epilogue, reads at rvalue as the slot reads at the
      kind's own width. */
  lemma ReturnRoundTrip(m: Memory, retPtr: int, m2: Memory, rvalue: int, rid: nat)
    requires rid < COMPLEX && rid != VOID && !RetByArg(rid) && retPtr % 4 == 0
    ensures var v := DecodeReturn(m, retPtr, RetSig(rid).value[0]);
      v.Some?
      && WriteBack(m2, rvalue, rid, v.value).Returned?
      && ArgValues(WriteBack(m2, rvalue, rid, v.value).mem, rvalue, rid) == ArgValues(m, retPtr, rid)
  {
    if IsByte(rid) || IsHalf(rid) {
      ReturnRoundTripNarrow(m, retPtr, m2, rvalue, rid);
    } else if IsWord(rid) || rid == FLOAT {
      ReturnRoundTripWord(m, retPtr, m2, rvalue, rid);
    } else if rid == DOUBLE {
      ReturnRoundTripDouble(m, retPtr, m2, rvalue);
    } else {
      ReturnRoundTripWide(m, retPtr, m2, rvalue, rid);
    }
  }

  /** 8- and 16-bit kinds: the slot's whole word is decoded and the store
      back keeps its low byte or half. */
  lemma ReturnRoundTripNarrow(m: Memory, retPtr: int, m2: Memory, rvalue: int, rid: nat)
    requires (IsByte(rid) || IsHalf(rid)) && retPtr % 4 == 0
    ensures var v := DecodeReturn(m, retPtr, RetSig(rid).value[0]);
      v.Some?
      && WriteBack(m2, rvalue, rid, v.value).Returned?
      && ArgValues(WriteBack(m2, rvalue, rid, v.value).mem, rvalue, rid) == ArgValues(m, retPtr, rid)
  {
    var w := Word(m, retPtr / 4);
    assert DecodeReturn(m, retPtr, RetSig(rid).value[0]) == Some(Num(w));
    WriteBackStores(m2, rvalue, rid, Num(w));
    if IsByte(rid) {
      assert LoadU8(m, retPtr) == w % 256;
    } else {
      var h := HalfIndex(retPtr, 0);
      assert h % 2 == 0 && h / 2 == retPtr / 4;
    }
  }

  lemma ReturnRoundTripWord(m: Memory, retPtr: int, m2: Memory, rvalue: int, rid: nat)
    requires IsWord(rid) || rid == FLOAT
    ensures var v := DecodeReturn(m, retPtr, RetSig(rid).value[0]);
      v.Some?
      && WriteBack(m2, rvalue, rid, v.value).Returned?
      && ArgValues(WriteBack(m2, rvalue, rid, v.value).mem, rvalue, rid) == ArgValues(m, retPtr, rid)
  {
    var v := DecodeReturn(m, retPtr, RetSig(rid).value[0]);
    WriteBackStores(m2, rvalue, rid, v.value);
  }

  lemma ReturnRoundTripWide(m: Memory, retPtr: int, m2: Memory, rvalue: int, rid: nat)
    requires IsI64(rid)
    ensures var v := DecodeReturn(m, retPtr, RetSig(rid).value[0]);
      v.Some?
      && WriteBack(m2, rvalue, rid, v.value).Returned?
      && ArgValues(WriteBack(m2, rvalue, rid, v.value).mem, rvalue, rid) == ArgValues(m, retPtr, rid)
  {
    var x := LoadU64(m, retPtr, 0);
    DecodeWide(m, retPtr, rid);
    WriteBackWide(m2, rvalue, rid, x);
  }

  lemma DecodeWide(m: Memory, retPtr: int, rid: nat)
    requires IsI64(rid)
    ensures DecodeReturn(m, retPtr, RetSig(rid).value[0]) == Some(Big(LoadU64(m, retPtr, 0)))
    ensures ArgValues(m, retPtr, rid) == Ok([Big(LoadU64(m, retPtr, 0))])
  {
    assert RetSig(rid) == Ok("j");
  }

  lemma WriteBackWide(m2: Memory, rvalue: int, rid: nat, x: int)
    requires IsI64(rid) && 0 <= x < TWO64
    ensures WriteBack(m2, rvalue, rid, Big(x)).Returned?
    ensures ArgValues(WriteBack(m2, rvalue, rid, Big(x)).mem, rvalue, rid) == Ok([Big(x)])
  {
    var m1 := StoreU64(m2, rvalue, 0, x);
    assert WriteBack(m2, rvalue, rid, Big(x)) == Returned(m1);
    U64Exact(m2, rvalue, x);
    assert ArgValues(m1, rvalue, rid) == Ok([Big(LoadU64(m1, rvalue, 0))]);
  }

  lemma U64Exact(m: Memory, addr: int, x: int)
    requires 0 <= x < TWO64
    ensures LoadU64(StoreU64(m, addr, 0, x), addr, 0) == x
  {
    U64RoundTrip(m, addr, 0, x);
  }


  lemma ReturnRoundTripDouble(m: Memory, retPtr: int, m2: Memory, rvalue: int)
    ensures var v := DecodeReturn(m, retPtr, RetSig(DOUBLE).value[0]);
      v.Some?
      && WriteBack(m2, rvalue, DOUBLE, v.value).Returned?
      && ArgValues(WriteBack(m2, rvalue, DOUBLE, v.value).mem, rvalue, DOUBLE) == ArgValues(m, retPtr, DOUBLE)
  {
    var d := DoubleIndex(retPtr, 0);
    var x := LoadF64Bits(m, retPtr, 0);
    assert x == Word(m, 2 * d) + TWO32 * Word(m, 2 * d + 1) < TWO64;
    assert DecodeReturn(m, retPtr, RetSig(DOUBLE).value[0]) == Some(Dbl(x));
    WriteBackStores(m2, rvalue, DOUBLE, Dbl(x));
  }



  datatype Invocation = Invocation(mem: Memory, result: Option<Value>)

  /** One call through the closure: build the frame, call the handler
      (fun, cif and user_data are read from closure words 2, 1 and 3) with
      the stack pointer at the frame's bottom, then decode the return slot
      unless the caller passed it by reference. */
  function InvokeSpec(m: Memory, sp: int, t: Trampoline, args: seq<Value>, handler: HostCall): Invocation
    requires Shaped(t) && |args| == Arity(t)
  {
    var f := TrampolineFrame(m, sp, t, args);
    var res := handler(LoadU32(f.mem, t.closure, 2),
                       [Num(LoadU32(f.mem, t.closure, 1)), Num(f.retPtr), Num(f.argsPtr),
                        Num(LoadU32(f.mem, t.closure, 3))],
                       f.mem, f.cur);
    Invocation(res.mem, if RetByArg(t.rid) then None else DecodeReturn(res.mem, f.retPtr, t.sig[0]))
  }

  // ---- trampoline properties ------------------------------------------------

  /** The return slot is 8 bytes, 8-aligned, below the stack pointer (or is
      the caller's pointer); the argument-pointer array is the 4 * nargs
      bytes directly below it (below the stack pointer when returning by
      argument). */
  lemma FrameLayout(m: Memory, sp: int, t: Trampoline, args: seq<Value>)
    requires Shaped(t) && |args| == Arity(t)
    ensures var f := TrampolineFrame(m, sp, t, args);
      (RetByArg(t.rid) ==> |args| > 0 && f.retPtr == Raw(args[0]) && f.argsPtr + 4 * t.nargs == sp)
      && (!RetByArg(t.rid) ==>
            f.retPtr % 8 == 0 && f.retPtr + 8 <= sp && f.argsPtr + 4 * t.nargs == f.retPtr)
  {
    StackAllocLayout(sp, 8);
  }

  /** What the variadic loop records for an argument of kind id whose
      block word is at addr: the address itself, or for a struct the word
      stored there. */
  function VarargEntry(m: Memory, id: nat, addr: int): nat
  {
    if id == STRUCT then LoadU32(m, addr, 0) else addr % TWO32
  }

  /** After the variadic loop, a non-struct entry k holds the block address
      plus 4 * (k - nfixed), and a struct entry holds the word stored at that
      block address (when the block does not overlap the array). */
  lemma {:induction false} VarargEntries(m: Memory, argsPtr: int, ids: seq<nat>, varargs: int,
                                         c: nat, nargs: nat, k: nat)
    requires c <= k < nargs <= |ids|
    requires argsPtr % 4 == 0 && varargs % 4 == 0 && argsPtr + 4 * nargs <= varargs
    ensures LoadU32(StoreVarargPtrs(m, argsPtr, ids, varargs, c, nargs), argsPtr, k)
         == VarargEntry(m, ids[k], varargs + 4 * (k - c))
    decreases nargs - c
  {
    if c == k {
      FirstVarargEntry(m, argsPtr, ids, varargs, c, nargs);
    } else {
      var entry := if ids[c] == STRUCT then LoadU32(m, varargs, 0) else varargs;
      var m1 := StoreU32(m, argsPtr, c, entry);
      VarargEntries(m1, argsPtr, ids, varargs + 4, c + 1, nargs, k);
      var a := varargs + 4 * (k - c);
      assert varargs + 4 + 4 * (k - (c + 1)) == a;
      if ids[k] == STRUCT {
        EntryBelowBlock(argsPtr, c, nargs, varargs, k - c);
        U32OtherWord(m, argsPtr, c, entry, a, 0);
      }
      assert VarargEntry(m1, ids[k], a) == VarargEntry(m, ids[k], a);
    }
  }

  /** The entry the variadic loop writes first, and which later iterations
      leave alone. */
  lemma FirstVarargEntry(m: Memory, argsPtr: int, ids: seq<nat>, varargs: int, c: nat, nargs: nat)
    requires c < nargs <= |ids|
    ensures LoadU32(StoreVarargPtrs(m, argsPtr, ids, varargs, c, nargs), argsPtr, c)
         == VarargEntry(m, ids[c], varargs)
  {
    var entry := if ids[c] == STRUCT then LoadU32(m, varargs, 0) else varargs;
    var m1 := StoreU32(m, argsPtr, c, entry);
    VarargPtrsFrame(m1, argsPtr, ids, varargs + 4, c + 1, nargs, c);
    if ids[c] == STRUCT {
      U32RoundTripExact(m, argsPtr, c, entry);
    } else {
      U32RoundTrip(m, argsPtr, c, entry);
    }
  }
  /** With only 4-byte kinds (words, floats and structs by pointer) after
      the fixed arguments, ffi_call's slots are packed at the trampoline's
      4-byte stride: entry k of the trampoline's array is the slot that
      ffi_call filled with argument k, or for a struct the word stored in
      it. */
  lemma WordVarargRoundTrip(m: Memory, argsPtr: int, ids: seq<nat>, nfixed: nat, nargs: nat, p: int, k: nat)
    requires nfixed <= k < nargs <= |ids|
    requires forall j :: nfixed <= j < nargs ==> VarargSize(ids[j]) == Ok(4)
    requires p % 4 == 0 && argsPtr % 4 == 0
    requires argsPtr + 4 * nargs <= SlotAddr(ids, nfixed, nargs, p)
    ensures LoadU32(StoreVarargPtrs(m, argsPtr, ids, SlotAddr(ids, nfixed, nargs, p), nfixed, nargs), argsPtr, k)
         == VarargEntry(m, ids[k], SlotAddr(ids, k, nargs, p))
  {
    UniformSlots(ids, nfixed, nargs, p, 4);
    UniformSlots(ids, k, nargs, p, 4);
    var block := p - 4 * (nargs - nfixed);
    assert block % 4 == 0;
    VarargEntries(m, argsPtr, ids, block, nfixed, nargs, k);
  }

  /** Two trailing doubles (one fixed int, then two variadic doubles, the
      block built from address 64): ffi_call puts the second double at 56,
      but the trampoline's 4-byte stride points entry 2 at 52, the upper
      half of the first double. */
  lemma TwoDoublesMisread(m: Memory, argsPtr: int)
    requires argsPtr % 4 == 0 && argsPtr + 12 <= 48
    ensures SlotsDefined([INT, DOUBLE, DOUBLE], 1, 3)
    ensures SlotAddr([INT, DOUBLE, DOUBLE], 1, 3, 64) == 48
    ensures SlotAddr([INT, DOUBLE, DOUBLE], 2, 3, 64) == 56
    ensures LoadU32(StoreVarargPtrs(m, argsPtr, [INT, DOUBLE, DOUBLE], 48, 1, 3), argsPtr, 2) == 52
  {
    UniformSlots([INT, DOUBLE, DOUBLE], 1, 3, 64, 8);
    UniformSlots([INT, DOUBLE, DOUBLE], 2, 3, 64, 8);
    VarargEntries(m, argsPtr, [INT, DOUBLE, DOUBLE], 48, 1, 3, 2);
  }

  /** The trampoline's second loop with a stride of each argument's own
      slot size instead of 4 bytes. */
  function VarargPtrsBySize(m: Memory, argsPtr: int, ids: seq<nat>, varargs: int, c: nat, nargs: nat): Memory
    requires c <= nargs <= |ids| && SlotsDefined(ids, c, nargs)
    decreases nargs - c
  {
    if c == nargs then m
    else
      var entry := if ids[c] == STRUCT then LoadU32(m, varargs, 0) else varargs;
      VarargPtrsBySize(StoreU32(m, argsPtr, c, entry), argsPtr, ids, varargs + SlotSize(ids[c]), c + 1, nargs)
  }

  lemma {:induction false} BySizeFrame(m: Memory, argsPtr: int, ids: seq<nat>, varargs: int,
                                       c: nat, nargs: nat, k: nat)
    requires k < c <= nargs <= |ids| && SlotsDefined(ids, c, nargs)
    ensures LoadU32(VarargPtrsBySize(m, argsPtr, ids, varargs, c, nargs), argsPtr, k) == LoadU32(m, argsPtr, k)
    decreases nargs - c
  {
    if c < nargs {
      var entry := if ids[c] == STRUCT then LoadU32(m, varargs, 0) else varargs;
      BySizeFrame(StoreU32(m, argsPtr, c, entry), argsPtr, ids, varargs + SlotSize(ids[c]), c + 1, nargs, k);
      U32OtherWord(m, argsPtr, c, entry, argsPtr, k);
    }
  }

  /** With one slot size s for every trailing argument, the walk by size
      sets entry k to the block address plus s * (k - c), or for a struct to
      the word stored there. */
  lemma {:induction false} BySizeEntries(m: Memory, argsPtr: int, ids: seq<nat>, varargs: int,
                                         c: nat, nargs: nat, k: nat, s: nat)
    requires c <= k < nargs <= |ids|
    requires forall j :: c <= j < nargs ==> VarargSize(ids[j]) == Ok(s)
    requires argsPtr % 4 == 0 && argsPtr + 4 * nargs <= varargs
    ensures SlotsDefined(ids, c, nargs)
    ensures LoadU32(VarargPtrsBySize(m, argsPtr, ids, varargs, c, nargs), argsPtr, k)
         == VarargEntry(m, ids[k], varargs + s * (k - c))
    decreases nargs - c
  {
    var entry := if ids[c] == STRUCT then LoadU32(m, varargs, 0) else varargs;
    var m1 := StoreU32(m, argsPtr, c, entry);
    if c == k {
      BySizeFrame(m1, argsPtr, ids, varargs + s, c + 1, nargs, c);
      if ids[c] == STRUCT {
        U32RoundTripExact(m, argsPtr, c, entry);
      } else {
        U32RoundTrip(m, argsPtr, c, entry);
      }
    } else {
      BySizeEntries(m1, argsPtr, ids, varargs + s, c + 1, nargs, k, s);
      var a := varargs + s * (k - c);
      assert varargs + s + s * (k - (c + 1)) == a;
      if ids[k] == STRUCT {
        assert a >= varargs;
        W32Aligned(argsPtr, c);
        U32OtherWord(m, argsPtr, c, entry, a, 0);
      }
      assert VarargEntry(m1, ids[k], a) == VarargEntry(m, ids[k], a);
    }
  }

  /** The corrected walk finds every slot ffi_call filled whenever the
      trailing arguments share one slot size, the two-doubles case
      included. */
  lemma CorrectedVarargRoundTrip(m: Memory, argsPtr: int, ids: seq<nat>, nfixed: nat, nargs: nat,
                                 p: int, k: nat, s: nat)
    requires nfixed <= k < nargs <= |ids|
    requires forall j :: nfixed <= j < nargs ==> VarargSize(ids[j]) == Ok(s)
    requires ValidAlign(s) && Aligned(p, s) && argsPtr % 4 == 0
    requires argsPtr + 4 * nargs <= SlotAddr(ids, nfixed, nargs, p)
    ensures LoadU32(VarargPtrsBySize(m, argsPtr, ids, SlotAddr(ids, nfixed, nargs, p), nfixed, nargs), argsPtr, k)
         == VarargEntry(m, ids[k], SlotAddr(ids, k, nargs, p))
  {
    UniformSlots(ids, nfixed, nargs, p, s);
    UniformSlots(ids, k, nargs, p, s);
    var block := p - s * (nargs - nfixed);
    assert block + s * (k - nfixed) == p - s * (nargs - k);
    BySizeEntries(m, argsPtr, ids, block, nfixed, nargs, k, s);
  }


  /** Entry c of the argument-pointer array lies below every word of a
      variadic block placed above the array. */
  lemma EntryBelowBlock(argsPtr: int, c: nat, nargs: nat, varargs: int, j: nat)
    requires c < nargs
    requires argsPtr % 4 == 0 && varargs % 4 == 0 && argsPtr + 4 * nargs <= varargs
    ensures W32(argsPtr, c) != W32(varargs + 4 * j, 0)
  {
    W32Aligned(argsPtr, c);
    assert (varargs + 4 * j) / 4 == varargs / 4 + j;
  }

  /** The variadic loop from c on leaves entries below c alone. */
  lemma {:induction false} VarargPtrsFrame(m: Memory, argsPtr: int, ids: seq<nat>, varargs: int,
                                           c: nat, nargs: nat, k: nat)
    requires k < c <= nargs <= |ids|
    ensures LoadU32(StoreVarargPtrs(m, argsPtr, ids, varargs, c, nargs), argsPtr, k) == LoadU32(m, argsPtr, k)
    decreases nargs - c
  {
    if c < nargs {
      var entry := if ids[c] == STRUCT then LoadU32(m, varargs, 0) else varargs;
      VarargPtrsFrame(StoreU32(m, argsPtr, c, entry), argsPtr, ids, varargs + 4, c + 1, nargs, k);
      U32OtherWord(m, argsPtr, c, entry, argsPtr, k);
    }
  }

  /** The variadic loop writes only entries of the array, so every byte
      below the array is left alone. */
  lemma {:induction false} VarargPtrsBelow(m: Memory, argsPtr: int, ids: seq<nat>, varargs: int,
                                           c: nat, nargs: nat, lo: int)
    requires c <= nargs <= |ids|
    requires argsPtr % 4 == 0
    ensures SameBytes(StoreVarargPtrs(m, argsPtr, ids, varargs, c, nargs), m, lo, argsPtr)
    decreases nargs - c
  {
    if c < nargs {
      var entry := if ids[c] == STRUCT then LoadU32(m, varargs, 0) else varargs;
      var m1 := StoreU32(m, argsPtr, c, entry);
      VarargPtrsBelow(m1, argsPtr, ids, varargs + 4, c + 1, nargs, lo);
      forall a | lo <= a < argsPtr
        ensures LoadU8(m1, a) == LoadU8(m, a)
      {
        assert a / 4 < argsPtr / 4;
      }
    }
  }

  // ---- what the frame may overwrite -------------------------------------------

  /** One fixed argument writes only below the argument-pointer array and
      its own entry of it, and moves cur down. */
  lemma FixedArgFootprint(m: Memory, cur: int, argsPtr: int, c: nat, id: nat, vals: seq<Value>, top: int)
    requires HostWidth(id) > 0 && HostWidth(id) <= |vals|
    requires argsPtr % 4 == 0 && cur <= argsPtr && argsPtr / 4 + c < top
    ensures StoreFixedArg(m, cur, argsPtr, c, id, vals).cur <= cur
    ensures SameFrom(StoreFixedArg(m, cur, argsPtr, c, id, vals).mem, m, top)
  {
    if id != STRUCT {
      StackAllocLayout(cur, SlotSize(id));
    }
  }

  /** The first loop writes nothing from word top up. */
  lemma {:induction false} StoreFixedFootprint(m: Memory, cur: int, argsPtr: int, ids: seq<nat>,
                                               vals: seq<Value>, c: nat, nfixed: nat, top: int)
    requires c <= nfixed <= |ids|
    requires forall j :: c <= j < nfixed ==> HostWidth(ids[j]) > 0
    requires |vals| + HostCount(ids, c) == HostCount(ids, nfixed)
    requires argsPtr % 4 == 0 && cur <= argsPtr && argsPtr / 4 + nfixed <= top
    ensures StoreFixed(m, cur, argsPtr, ids, vals, c, nfixed).cur <= cur
    ensures SameFrom(StoreFixed(m, cur, argsPtr, ids, vals, c, nfixed).mem, m, top)
    decreases nfixed - c
  {
    if c < nfixed {
      HostCountMono(ids, c + 1, nfixed);
      var f := StoreFixedArg(m, cur, argsPtr, c, ids[c], vals);
      FixedArgFootprint(m, cur, argsPtr, c, ids[c], vals, top);
      StoreFixedFootprint(f.mem, f.cur, argsPtr, ids, vals[HostWidth(ids[c])..], c + 1, nfixed, top);
    }
  }

  /** The second loop writes only entries of the argument-pointer array. */
  lemma {:induction false} VarargPtrsFootprint(m: Memory, argsPtr: int, ids: seq<nat>, varargs: int,
                                               c: nat, nargs: nat)
    requires c <= nargs <= |ids|
    ensures SameFrom(StoreVarargPtrs(m, argsPtr, ids, varargs, c, nargs), m, argsPtr / 4 + nargs)
    decreases nargs - c
  {
    if c < nargs {
      var entry := if ids[c] == STRUCT then LoadU32(m, varargs, 0) else varargs;
      VarargPtrsFootprint(StoreU32(m, argsPtr, c, entry), argsPtr, ids, varargs + 4, c + 1, nargs);
    }
  }

  /** The argument-pointer array of n entries ending at a word-aligned
      top is word-aligned and its words lie below the stack pointer's. */
  lemma ArrayBelow(top: int, sp: int, n: nat)
    requires top % 4 == 0 && top <= sp
    ensures (top - 4 * n) % 4 == 0
    ensures (top - 4 * n) / 4 + n <= sp / 4
  {
    assert top - 4 * n == 4 * (top / 4 - n);
  }

  /** With a word-aligned stack pointer, building the frame changes no
      word at or above the stack pointer: the closure (which lives above
      the stack) is read back as it was. */
  lemma FrameFootprint(m: Memory, sp: int, t: Trampoline, args: seq<Value>)
    requires Shaped(t) && |args| == Arity(t)
    requires sp % 4 == 0
    ensures SameFrom(TrampolineFrame(m, sp, t, args).mem, m, sp / 4)
    ensures TrampolineFrame(m, sp, t, args).cur <= TrampolineFrame(m, sp, t, args).argsPtr
  {
    var argsPtr, fill := FrameUnfold(m, sp, t, args);
    var top := if RetByArg(t.rid) then sp else StackAlloc(sp, 8, 8);
    FrameTop(sp, top);
    ArrayBelow(top, sp, t.nargs);
    FixedLoopFootprint(m, t, args, argsPtr, sp / 4);
    assert TrampolineFrame(m, sp, t, args).cur == fill.cur;
    if t.nfixed < t.nargs {
      PtrsKeepAbove(fill.mem, m, argsPtr, t.ids, Raw(args[|args| - 1]), t.nfixed, t.nargs, sp / 4);
    }
  }

  /** The trampoline's first loop, started at argsPtr, moves down from there
      and leaves every word from top up alone. */
  lemma FixedLoopFootprint(m: Memory, t: Trampoline, args: seq<Value>, argsPtr: int, top: int)
    requires Shaped(t) && |args| == Arity(t)
    requires argsPtr % 4 == 0 && argsPtr / 4 + t.nfixed <= top
    ensures var fill := StoreFixed(m, argsPtr, argsPtr, t.ids, FixedValues(t, args), 0, t.nfixed);
      fill.cur <= argsPtr && SameFrom(fill.mem, m, top)
  {
    FixedValuesLength(t, args);
    StoreFixedFootprint(m, argsPtr, argsPtr, t.ids, FixedValues(t, args), 0, t.nfixed, top);
  }

  /** The argument-pointer array ends at the stack pointer or at the
      8-byte return slot below it, a word-aligned address. */
  lemma FrameTop(sp: int, top: int)
    requires sp % 4 == 0 && (top == sp || top == StackAlloc(sp, 8, 8))
    ensures top % 4 == 0 && top <= sp
  {
    StackAllocLayout(sp, 8);
    if top != sp {
      var d := top / 8;
      assert top == 8 * d;
    }
  }

  /** The second loop writes only inside the argument-pointer array, so a
      memory that agreed with m from top up still does. */
  lemma PtrsKeepAbove(m1: Memory, m: Memory, argsPtr: int, ids: seq<nat>, varargs: int,
                      c: nat, nargs: nat, top: int)
    requires c <= nargs <= |ids|
    requires SameFrom(m1, m, top) && argsPtr / 4 + nargs <= top
    ensures SameFrom(StoreVarargPtrs(m1, argsPtr, ids, varargs, c, nargs), m, top)
  {
    VarargPtrsFootprint(m1, argsPtr, ids, varargs, c, nargs);
    SameFromTrans(StoreVarargPtrs(m1, argsPtr, ids, varargs, c, nargs), m1, m, argsPtr / 4 + nargs, top);
  }


  // ---- what the handler reads ------------------------------------------------

  /** With a word-aligned stack pointer and room for the frame below it,
      every fixed argument k of the closure reads back, through entry k of
      the argument-pointer array handed to the user handler, as the host
      values the trampoline was called with for it, each truncated to the
      width of its kind (a struct argument as its address). The variadic
      loop, which runs after the fixed one, does not disturb it. */
  lemma TrampolineFixedArgs(m: Memory, sp: int, t: Trampoline, args: seq<Value>, k: nat)
    requires Shaped(t) && |args| == Arity(t) && k < t.nfixed
    requires sp % 4 == 0 && 4 * t.nargs + 32 * t.nfixed + 48 <= sp < TWO32
    ensures HostCount(t.ids, k) + HostWidth(t.ids[k]) <= |FixedValues(t, args)|
    ensures var f := TrampolineFrame(m, sp, t, args);
      ArgValues(f.mem, LoadU32(f.mem, f.argsPtr, k), t.ids[k])
        == Ok(Received(t.ids[k], FixedValues(t, args)[HostCount(t.ids, k)..]))
  {
    var vals := FixedValues(t, args);
    FixedValuesLength(t, args);
    var argsPtr, fill := FrameParts(m, sp, t, args);
    FixedLoopReadBack(m, argsPtr, t.ids, vals, t.nfixed, k);
    if t.nfixed < t.nargs {
      VarargsKeepFixed(fill.mem, argsPtr, t.ids, Raw(args[|args| - 1]), t.nfixed, t.nargs, k);
    }
  }

  /** The frame's memory is the first loop's, then the variadic loop's,
      and the array has room below it. */
  lemma FrameParts(m: Memory, sp: int, t: Trampoline, args: seq<Value>) returns (argsPtr: int, fill: Fill)
    requires Shaped(t) && |args| == Arity(t)
    requires sp % 4 == 0 && 4 * t.nargs + 32 * t.nfixed + 48 <= sp < TWO32
    ensures argsPtr % 4 == 0 && 32 * t.nfixed + 32 <= argsPtr < TWO32
    ensures fill == StoreFixed(m, argsPtr, argsPtr, t.ids, FixedValues(t, args), 0, t.nfixed)
    ensures var f := TrampolineFrame(m, sp, t, args);
      f.argsPtr == argsPtr
      && f.mem == if t.nfixed < t.nargs
                  then StoreVarargPtrs(fill.mem, argsPtr, t.ids, Raw(args[|args| - 1]), t.nfixed, t.nargs)
                  else fill.mem
  {
    argsPtr, fill := FrameUnfold(m, sp, t, args);
    var room := ArrayRoom(sp, t);
  }

  lemma FrameUnfold(m: Memory, sp: int, t: Trampoline, args: seq<Value>) returns (argsPtr: int, fill: Fill)
    requires Shaped(t) && |args| == Arity(t)
    ensures argsPtr == (if RetByArg(t.rid) then sp else StackAlloc(sp, 8, 8)) - 4 * t.nargs
    ensures fill == StoreFixed(m, argsPtr, argsPtr, t.ids, FixedValues(t, args), 0, t.nfixed)
    ensures var f := TrampolineFrame(m, sp, t, args);
      f.argsPtr == argsPtr
      && f.mem == if t.nfixed < t.nargs
                  then StoreVarargPtrs(fill.mem, argsPtr, t.ids, Raw(args[|args| - 1]), t.nfixed, t.nargs)
                  else fill.mem
  {
    argsPtr := (if RetByArg(t.rid) then sp else StackAlloc(sp, 8, 8)) - 4 * t.nargs;
    fill := StoreFixed(m, argsPtr, argsPtr, t.ids, FixedValues(t, args), 0, t.nfixed);
  }

  /** The whole first loop, started at the array: fixed argument k reads
      back as its own host values. */
  lemma FixedLoopReadBack(m: Memory, argsPtr: int, ids: seq<nat>, vals: seq<Value>, nfixed: nat, k: nat)
    requires k < nfixed <= |ids|
    requires forall j :: 0 <= j < nfixed ==> HostWidth(ids[j]) > 0
    requires |vals| == HostCount(ids, nfixed)
    requires argsPtr % 4 == 0 && 32 * nfixed + 32 <= argsPtr < TWO32
    ensures HostCount(ids, k) + HostWidth(ids[k]) <= |vals|
    ensures var r := StoreFixed(m, argsPtr, argsPtr, ids, vals, 0, nfixed);
      var q := LoadU32(r.mem, argsPtr, k);
      ArgValues(r.mem, q, ids[k]) == Ok(Received(ids[k], vals[HostCount(ids, k)..]))
      && (ids[k] != STRUCT ==> Aligned(q, SlotSize(ids[k])) && q + SlotSize(ids[k]) <= argsPtr)
  {
    assert HostCount(ids, 0) == 0;
    StoreFixedReadBack(m, argsPtr, argsPtr, ids, vals, 0, nfixed, k);
    assert vals[HostCount(ids, k) - HostCount(ids, 0)..] == vals[HostCount(ids, k)..];
  }

  /** The trampoline hands its first loop one host value per fixed slot. */
  lemma FixedValuesLength(t: Trampoline, args: seq<Value>)
    requires Shaped(t) && |args| == Arity(t)
    ensures |FixedValues(t, args)| == HostCount(t.ids, t.nfixed)
  {
  }

  /** Where the argument-pointer array starts, and the room below it. */
  lemma ArrayRoom(sp: int, t: Trampoline) returns (argsPtr: int)
    requires t.nfixed <= t.nargs
    requires sp % 4 == 0 && 4 * t.nargs + 32 * t.nfixed + 48 <= sp < TWO32
    ensures argsPtr == (if RetByArg(t.rid) then sp else StackAlloc(sp, 8, 8)) - 4 * t.nargs
    ensures argsPtr % 4 == 0 && 32 * t.nfixed + 32 <= argsPtr < TWO32
  {
    var top := if RetByArg(t.rid) then sp else StackAlloc(sp, 8, 8);
    StackAllocLayout(sp, 8);
    ArrayBelow(top, sp, t.nargs);
    argsPtr := top - 4 * t.nargs;
  }

  /** The variadic loop leaves a fixed argument readable as before: its
      entry is not rewritten and its slot lies below the array. */
  lemma VarargsKeepFixed(m: Memory, argsPtr: int, ids: seq<nat>, varargs: int,
                         nfixed: nat, nargs: nat, k: nat)
    requires k < nfixed <= nargs <= |ids| && HostWidth(ids[k]) > 0
    requires argsPtr % 4 == 0
    requires var q := LoadU32(m, argsPtr, k);
      ids[k] != STRUCT ==> Aligned(q, SlotSize(ids[k])) && q + SlotSize(ids[k]) <= argsPtr
    ensures var m2 := StoreVarargPtrs(m, argsPtr, ids, varargs, nfixed, nargs);
      ArgValues(m2, LoadU32(m2, argsPtr, k), ids[k]) == ArgValues(m, LoadU32(m, argsPtr, k), ids[k])
  {
    var m2 := StoreVarargPtrs(m, argsPtr, ids, varargs, nfixed, nargs);
    VarargPtrsFrame(m, argsPtr, ids, varargs, nfixed, nargs, k);
    var q := LoadU32(m, argsPtr, k);
    if ids[k] != STRUCT {
      VarargPtrsBelow(m, argsPtr, ids, varargs, nfixed, nargs, q);
      ArgValuesByBytes(m2, m, q, ids[k]);
    }
  }
}
