/** The call interface (ffi_cif) and the two machine-dependent preparation
    steps ffi_prep_cif_machdep and ffi_prep_cif_machdep_var. */
module CallInterface {
  import opened FfiTypes

  /** FFI_WASM32_EMSCRIPTEN, the one ABI this back end supports. */
  const WASM32_EMSCRIPTEN: nat := 2

  /** Bit 0 of cif->flags marks a variadic call interface. */
  const VARARGS_FLAG: nat := 1

  predicate HasVarargsFlag(flags: nat)
  {
    flags % 2 == 1
  }

  /** `flags | VARARGS_FLAG` */
  function SetVarargsFlag(flags: nat): (r: nat)
    ensures HasVarargsFlag(r)
    ensures r / 2 == flags / 2
    ensures HasVarargsFlag(flags) ==> r == flags
  {
    if HasVarargsFlag(flags) then flags else flags + 1
  }

  /** An ffi_cif. The fields the generic ffi_prep_cif sets (abi, argument
      and return types) are fixed here; flags and nfixedargs are the ones
      this back end writes. `address` is where the cif lives in linear
      memory: the value stored into a closure and handed to its handler. */
  class Cif {
    const address: nat
    const abi: nat
    const nargs: nat
    const argTypes: seq<FfiType>
    const rtype: FfiType
    var flags: nat
    var nfixedargs: nat

    /** A prepared cif: one type per argument and no more fixed arguments
        than arguments. */
    predicate Valid()
      reads this
    {
      |argTypes| == nargs && nfixedargs <= nargs
    }

    predicate IsVariadic()
      reads this
    {
      nfixedargs < nargs
    }

    constructor (address: nat, abi: nat, argTypes: seq<FfiType>, rtype: FfiType)
      ensures this.address == address && this.abi == abi
      ensures this.argTypes == argTypes && this.rtype == rtype
      ensures nargs == |argTypes| && flags == 0 && nfixedargs == 0
      ensures Valid()
    {
      this.address := address;
      this.abi := abi;
      this.nargs := |argTypes|;
      this.argTypes := argTypes;
      this.rtype := rtype;
      this.flags := 0;
      this.nfixedargs := 0;
    }

    /** ffi_prep_cif_machdep: a non-variadic cif gets nfixedargs = nargs;
        a cif already marked variadic keeps the count set before. */
    method PrepMachdep()
      requires Valid()
      modifies this`nfixedargs
      ensures Valid()
      ensures nfixedargs == if HasVarargsFlag(flags) then old(nfixedargs) else nargs
    {
      if !HasVarargsFlag(flags) {
        nfixedargs := nargs;
      }
    }

    /** ffi_prep_cif_machdep_var: mark the cif variadic and record the fixed
        count. The total count is not used; the generic ffi_prep_cif_var
        has already checked nfixed against it. */
    method PrepMachdepVar(nfixed: nat, ntotal: nat)
      requires |argTypes| == nargs && nfixed <= nargs
      modifies this`flags, this`nfixedargs
      ensures Valid()
      ensures flags == SetVarargsFlag(old(flags))
      ensures nfixedargs == nfixed
    {
      flags := SetVarargsFlag(flags);
      nfixedargs := nfixed;
    }
  }

  /** The generic code calls machdep_var first and machdep after it; the
      fixed count set by the first survives the second, and the cif ends up
      variadic exactly when nfixed < ntotal. */
  method PrepVariadic(cif: Cif, nfixed: nat)
    requires nfixed <= cif.nargs && |cif.argTypes| == cif.nargs
    modifies cif
    ensures cif.Valid() && cif.nfixedargs == nfixed
    ensures HasVarargsFlag(cif.flags)
    ensures cif.IsVariadic() <==> nfixed < cif.nargs
  {
    cif.PrepMachdepVar(nfixed, cif.nargs);
    cif.PrepMachdep();
  }
}
