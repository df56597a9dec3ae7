# libffi on wasm32 (Emscripten): a Dafny model

This project models the wasm32 back end of libffi, `src/wasm32/ffi.c`. On
wasm32 the foreign-function engine is written as JavaScript bodies (EM_JS)
that work directly on the module's linear memory. The model covers:

- **Linear memory** (module `LinearMemory`). The one buffer behind the typed
  views `HEAPU8`, `HEAPU16`, `HEAPU32`, `HEAPF32` and `HEAPF64` is kept as its
  32-bit little-endian words. Byte, half-word and 64-bit accesses are defined
  on those words, so every view shares one state. The model includes index
  truncation (`addr >> k`), the wrap of a typed-array store to its width, and
  the BigInt split/join of 64-bit values (`BIGINT_LOWER`, `BIGINT_UPPER`,
  `BIGINT_FROM_PAIR`, `LOAD_U64`, `STORE_U64`). It also covers
  `ALIGN_ADDRESS` / `STACK_ALLOC` on the auxiliary stack.
- **Type descriptors** (module `FfiTypes`). These are `ffi_type` values and
  their type ids, together with `unbox_small_structs`. That function replaces
  a single-member struct by its member, repeatedly, turns an empty struct into
  `VOID` and keeps larger structs.
- **The call interface** (module `CallInterface`). This is the `ffi_cif`
  object with its two machine-dependent preparation steps,
  `ffi_prep_cif_machdep` and `ffi_prep_cif_machdep_var`.
- **The forward call** `ffi_call` (module `ForwardCall`), as functions of the
  memory and stack pointer. It checks the return kind and converts the fixed
  arguments to host values. For a variadic call it builds a block of variadic
  arguments, in reverse order and aligned, below the stack pointer. It then
  calls the host and writes the result back into `rvalue`.
- **Closures** (module `Closures`). This part synthesises the host signature
  of a closure, such as `"vi"`, `"ijd"` or `"jj"`. It also models the body of
  the generated trampoline: the return slot, the argument-pointer array, the
  stack slots for the fixed arguments, the second loop for the variadic
  pointers, the handler call and the decoding of the return value.
- **The running instance** (module `Runtime`). Class `Instance` holds linear
  memory, the stack pointer, the function table and the list of free table
  slots. `ffi_call`, the trampoline and the closure operations
  (`ffi_closure_alloc`, `ffi_closure_free`, `ffi_prep_closure_loc`) are
  methods that update this state step by step, as the JavaScript does. Each
  method is proved equal to the function that specifies it.

The main results:

- Every view of memory round-trips its own store modulo its width.
- `unbox_small_structs` is idempotent. A struct with exactly one member
  resolves like that member, so any chain of single-member structs resolves
  like the innermost type, whatever size and alignment the outer structs
  declare.
- `ffi_call` throws exactly for a bad return kind or an argument kind it
  cannot marshal.
- The arguments `ffi_call` hands to the host match, value by value, the
  signature that the closure side builds for the same cif.
- Variadic slots are aligned, do not overlap, and lie below the saved stack
  pointer. When the argument buffers lie above the stack pointer, the
  finished block holds every variadic argument in its slot, copied by its
  kind's view. The loop writes no byte outside the block.
- A kind returned by value gets the same signature character as it does as
  a parameter. What a handler leaves in the return slot, decoded by the
  trampoline and written back by `ffi_call`, reads at `rvalue` as the slot
  reads at the kind's width.
- The trampoline's frame is laid out below the stack pointer and never
  overwrites the closure record above it. Its handler therefore receives
  exactly the cif, handler and user data that `ffi_prep_closure_loc` stored.
- Every fixed argument reaches the handler intact. Through its entry of the
  argument-pointer array, and by `ffi_call`'s own reader, it reads back as
  the host value the trampoline received, truncated to its kind's width.
  Neither the later fixed arguments nor the variadic loop disturb it.
- The table slot that a closure gives back when it is freed is the slot it
  was allocated.

Type ids follow libffi (`VOID` 0, `INT` 1, `FLOAT` 2, `DOUBLE` 3, `LONGDOUBLE`
4, `UINT8` 5 to `SINT64` 12, `STRUCT` 13, `PTR` (pointer) 14, `COMPLEX` 15 =
`FFI_TYPE_LAST`). The model uses `FFI_WASM32_EMSCRIPTEN` = 2, `FFI_OK` = 0
and `FFI_BAD_ABI` = 2.

Three behaviours of the code that the model keeps as they are written:

- Errors can leave memory partly written. The variadic loop writes the
  slots of later arguments before it throws on an earlier argument with an
  unsupported kind. `BuildVarargs` returns the memory written so far with
  the error.
- The variadic copy of a long double copies source word 1 into slot words
  1, 2 and 3. It does not copy source words 2 and 3. `WriteVararg` does the
  same.
- The trampoline's second loop advances the block address by 4 bytes per
  variadic argument, whatever its kind. `StoreVarargPtrs` does the same.
  `ffi_call` aligns each slot to its own size instead. The trampoline
  therefore finds the slots `ffi_call` filled only when every trailing kind
  is a 4-byte kind or a struct (see "## Findings").

## Model

| member | source | states |
|---|---|---|
| LinearMemory.U8RoundTrip | src/wasm32/ffi.c:37 | a HEAPU8 store reads back as the value mod 2^8 |
| LinearMemory.U8OtherByte | src/wasm32/ffi.c:37 | a byte store leaves every other byte of the shared buffer unchanged |
| LinearMemory.U16RoundTrip | src/wasm32/ffi.c:38 | a HEAPU16 store at (addr >> 1) + off reads back mod 2^16 |
| LinearMemory.U32RoundTrip | src/wasm32/ffi.c:39 | a HEAPU32 store at (addr >> 2) + off reads back mod 2^32 |
| LinearMemory.U32RoundTripExact | src/wasm32/ffi.c:39 | a value below 2^32 is kept exactly |
| LinearMemory.F32RoundTrip | src/wasm32/ffi.c:41 | a HEAPF32 element keeps the 32-bit pattern stored into it |
| LinearMemory.F64RoundTrip | src/wasm32/ffi.c:42 | a HEAPF64 element (two words at index (addr >> 3) + off) keeps the 64-bit pattern |
| LinearMemory.U32OtherWord | src/wasm32/ffi.c:39 | a HEAPU32 store leaves every other HEAPU32 element unchanged |
| LinearMemory.ToInt32 | src/wasm32/ffi.c:55-56 | `Number(x)` or-ed with 0 lies in [-2^31, 2^31) and agrees with x mod 2^32 |
| LinearMemory.BigIntFromPair | src/wasm32/ffi.c:57-58 | joining a low and a high word gives a value in [0, 2^64) |
| LinearMemory.LoadU64 | src/wasm32/ffi.c:60-61 | LOAD_U64 yields an unsigned 64-bit value |
| LinearMemory.SplitJoin | src/wasm32/ffi.c:54-58 | BIGINT_FROM_PAIR of the stored BIGINT_LOWER and BIGINT_UPPER words gives the value mod 2^64 |
| LinearMemory.U64RoundTrip | src/wasm32/ffi.c:60-66 | STORE_U64 then LOAD_U64 at the same place gives the value mod 2^64 |
| LinearMemory.StackAllocLayout | src/wasm32/ffi.c:80-81 | STACK_ALLOC(stack, a, a) yields an a-aligned slot that ends at or below the old stack address and starts less than 2a below it |
| LinearMemory.W32Aligned | src/wasm32/ffi.c:39 | on a 4-aligned address the HEAPU32 index shift loses nothing |
| LinearMemory.WordByBytes | src/wasm32/ffi.c:37-39 | a HEAPU32 element is determined by the four HEAPU8 bytes it shares memory with |
| LinearMemory.HalfByBytes | src/wasm32/ffi.c:37-38 | an aligned HEAPU16 element is determined by its two bytes |
| LinearMemory.U16OtherByte | src/wasm32/ffi.c:37-38 | a HEAPU16 store leaves every byte outside its element unchanged |
| LinearMemory.U32ByBytes | src/wasm32/ffi.c:37-41 | an aligned HEAPU32 or HEAPF32 element is determined by its four bytes |
| LinearMemory.U64ByBytes | src/wasm32/ffi.c:42-61 | an aligned HEAPF64 element, or a LOAD_U64 word pair, is determined by its eight bytes |
| LinearMemory.U128ByBytes | src/wasm32/ffi.c:60-61 | both LOAD_U64 halves of an aligned 16-byte slot are determined by its bytes |
| FfiTypes.Unbox | src/wasm32/ffi.c:122-140 | the resolved type: a non-struct is returned with its own type id, a zero-member struct gives VOID, and id STRUCT only for a struct of two or more members |
| FfiTypes.UnboxSmallStructs | src/wasm32/ffi.c:122-140 | the JavaScript loop returns the pair that Unbox specifies |
| FfiTypes.UnboxedIds | src/wasm32/ffi.c:421-427 | one unboxed id per argument type |
| FfiTypes.UnboxedIdsAt | src/wasm32/ffi.c:421-427 | entry i of the list is the unboxed id of argument i |
| FfiTypes.UnboxScalar | src/wasm32/ffi.c:113 | a non-struct type resolves to itself with its own type id |
| FfiTypes.UnboxEmptyStruct | src/wasm32/ffi.c:116 | a struct with no members resolves to VOID |
| FfiTypes.UnboxAggregate | src/wasm32/ffi.c:114-115 | a struct with two or more members resolves to itself with id STRUCT |
| FfiTypes.UnboxSingle | src/wasm32/ffi.c:117-118 | a struct with exactly one member resolves like that member |
| FfiTypes.UnboxWrapped | src/wasm32/ffi.c:117-118 | a type inside any number of single-member structs, of any declared size and alignment, resolves like that type |
| FfiTypes.UnboxIdempotent | src/wasm32/ffi.c:120 | resolving the resolved type changes nothing |
| CallInterface.SetVarargsFlag | src/wasm32/ffi.c:104 | or-ing VARARGS_FLAG into flags sets bit 0, keeps the other bits, and is a no-op when the bit is already set |
| CallInterface.Cif.constructor | src/wasm32/ffi.c:69-73 | a fresh cif has one type per argument, flags 0 and is valid |
| CallInterface.Cif.PrepMachdep | src/wasm32/ffi.c:91-99 | a non-variadic cif gets nfixedargs = nargs; a variadic one keeps its fixed count; the cif stays valid |
| CallInterface.Cif.PrepMachdepVar | src/wasm32/ffi.c:101-107 | sets the variadic flag and records nfixedargs, which leaves a valid cif when nfixed is at most nargs |
| CallInterface.PrepVariadic | src/wasm32/ffi.c:94-105 | machdep_var followed by machdep keeps the fixed count, and the cif is variadic exactly when nfixed < nargs |
| ForwardCall.ArgValues | src/wasm32/ffi.c:185-223 | one fixed argument becomes host values exactly when its kind has a host width, as many as that width; COMPLEX is the unimplemented error |
| ForwardCall.FixedArgsOk | src/wasm32/ffi.c:177-224 | reading the fixed arguments succeeds exactly when every fixed kind can be marshalled, and then yields HostCount values |
| ForwardCall.FixedArgsErrSticky | src/wasm32/ffi.c:219-222 | the first failing argument decides the error |
| ForwardCall.ReadArg | src/wasm32/ffi.c:185-223 | the switch on the argument kind computes ArgValues |
| ForwardCall.MarshalFixedArgs | src/wasm32/ffi.c:177-224 | the fixed-argument loop computes FixedArgs, stopping at the first error |
| ForwardCall.VarargSize | src/wasm32/ffi.c:246-288 | a variadic slot exists exactly for the kinds with a host width; its size is an alignment STACK_ALLOC accepts |
| ForwardCall.SlotAddrStep | src/wasm32/ffi.c:241-249 | the slot of argument k is allocated directly below the slot of argument k + 1 |
| ForwardCall.SlotLayout | src/wasm32/ffi.c:249-283 | each variadic slot is aligned to its size and lies below the next slot |
| ForwardCall.SlotAddrMonotone | src/wasm32/ffi.c:241-289 | slot addresses only decrease as more slots are allocated |
| ForwardCall.UniformSlots | src/wasm32/ffi.c:239-289 | when every trailing kind has the same slot size s and the loop starts s-aligned, the slots are packed: argument j sits s(nargs - j) bytes below the start |
| ForwardCall.SlotsDisjoint | src/wasm32/ffi.c:239-289 | slots of different variadic arguments do not overlap, and all lie below the saved stack pointer |
| ForwardCall.WriteVarargCopies | src/wasm32/ffi.c:247-284 | a slot below the arguments holds its argument afterwards: the byte, half-word or word itself, both words of an 8-byte kind, word 0 and then word 1 three times for a long double, the argument's address for a struct |
| ForwardCall.WriteVarargOutside | src/wasm32/ffi.c:247-284 | one copy changes no byte outside its own slot |
| ForwardCall.VarargsFootprint | src/wasm32/ffi.c:239-289 | the variadic loop writes no byte at or above the caller's stack pointer, and, when it finishes, no byte below the block |
| ForwardCall.VarargsHoldFrom | src/wasm32/ffi.c:239-289 | with the argument buffers above the block, every argument's slot still holds it once the later iterations have run |
| ForwardCall.VarargsContents | src/wasm32/ffi.c:239-289 | with argument buffers at or above a word-aligned stack pointer, the finished block holds every variadic argument in its slot and the loop writes nothing outside the block |
| ForwardCall.BuildVarargsResult | src/wasm32/ffi.c:239-291 | the variadic block is built exactly when every trailing kind has a slot, and its address is the slot of argument nfixed |
| ForwardCall.BadReturnKindThrows | src/wasm32/ffi.c:157-162 | a COMPLEX or out-of-range return kind throws before reading any argument, with memory untouched |
| ForwardCall.ReturnByReference | src/wasm32/ffi.c:168-171 | a STRUCT or LONGDOUBLE return passes rvalue as the first argument and skips the write-back |
| ForwardCall.CallArguments | src/wasm32/ffi.c:168-293 | the host argument list is the optional rvalue, the fixed values and, exactly for a variadic cif, the block address, which lies below the stack pointer |
| ForwardCall.ArgumentsMarshallable | src/wasm32/ffi.c:177-289 | fixed and variadic marshalling both succeed exactly when every argument kind has a host width |
| ForwardCall.CallThrowsIff | src/wasm32/ffi.c:157-337 | ffi_call throws exactly for a bad return kind or an argument kind it cannot marshal |
| ForwardCall.PrepareReady | src/wasm32/ffi.c:157-293 | the host call is reached exactly when the return kind is accepted and all arguments are marshalled |
| ForwardCall.WriteBackStores | src/wasm32/ffi.c:306-332 | for every accepted return kind the write-back succeeds, and rvalue reads back the result truncated to the kind's width |
| Closures.RetSig | src/wasm32/ffi.c:386-420 | the return prefix exists exactly for kinds below COMPLEX, is "v" exactly for VOID, is "vi" for a by-reference return and starts with one of v, i, f, d, j |
| Closures.RetSigMatchesArgSig | src/wasm32/ffi.c:396-415 | a kind returned by value gets the same signature character as the same kind passed as a parameter |
| Closures.ReturnRoundTrip | src/wasm32/ffi.c:555-570 | the value the trampoline decodes from an aligned return slot, written back by ffi_call's epilogue, reads at rvalue as the slot reads at the kind's own width |
| Closures.ArgSig | src/wasm32/ffi.c:429-459 | one signature character per host value of the kind, an error exactly for kinds without a host width |
| Closures.ArgsSig | src/wasm32/ffi.c:428-460 | the parameter characters exist exactly when every fixed kind has a host width, and there are HostCount of them |
| Closures.ArgsSigErrSticky | src/wasm32/ffi.c:455-458 | the first failing argument decides the error |
| Closures.UnboxArgTypes | src/wasm32/ffi.c:421-427 | the unboxing loop builds the UnboxedIds list |
| Closures.FixedArgsSignature | src/wasm32/ffi.c:428-460 | the fixed-argument loop computes ArgsSig |
| Closures.BuildSignature | src/wasm32/ffi.c:384-464 | the signature code computes Signature and the unboxed ids |
| Closures.SignatureShape | src/wasm32/ffi.c:384-464 | the signature fails exactly for a bad return or fixed kind; otherwise its length counts the return, each host value and the variadic pointer, and it starts with the return character |
| Closures.ArgFitsSignature | src/wasm32/ffi.c:185-218 | each host value ffi_call makes for a kind has the type that the closure signature gives that kind |
| Closures.FixedArgsFitSignature | src/wasm32/ffi.c:177-224 | the fixed values of ffi_call fit the closure's parameter characters one for one |
| Closures.SignatureParams | src/wasm32/ffi.c:461-464 | the parameters of a signature are an optional by-reference 'i', the fixed characters and an optional variadic 'i' |
| Closures.PreparedArgs | src/wasm32/ffi.c:168-291 | the host argument list is rvalue (by reference), then the fixed values, then the block pointer (variadic) |
| Closures.CallMatchesSignature | src/wasm32/ffi.c:384-464 | for one cif, the argument list of ffi_call fits the parameters of the closure signature exactly |
| Closures.ValidIsShaped | src/wasm32/ffi.c:384-464 | a successfully built signature has one character per host value the trampoline receives |
| Closures.HostCountStrict | src/wasm32/ffi.c:486-488 | while fixed arguments remain, host values remain |
| Closures.FixedArgRoundTrip | src/wasm32/ffi.c:486-536 | after one fixed argument is stored, ffi_call's reader at its array entry gives back the host values truncated to the kind's width |
| Closures.SlotRoundTrip | src/wasm32/ffi.c:490-529 | storing one host value in its slot keeps the array entry and reads back the truncated value |
| Closures.SlotRoundTripLong | src/wasm32/ffi.c:530-535 | the two 64-bit halves of a long double slot read back independently |
| Closures.FrameLayout | src/wasm32/ffi.c:468-479 | the return slot is 8 bytes, 8-aligned and below the stack pointer, or is the caller's pointer; the argument array lies directly below it |
| Closures.WordVarargRoundTrip | src/wasm32/ffi.c:539-547 | with only 4-byte kinds and structs after the fixed arguments, trampoline entry k is the slot ffi_call filled with argument k (for a struct, the word stored there) |
| Closures.TwoDoublesMisread | src/wasm32/ffi.c:539-547 | with one fixed int and two variadic doubles built from 64, ffi_call puts the second double at 56 but trampoline entry 2 is 52 |
| Closures.CorrectedVarargRoundTrip | src/wasm32/ffi.c:539-547 | a walk that steps by each kind's slot size finds every slot ffi_call filled, whenever the trailing kinds share one slot size |
| Closures.VarargEntries | src/wasm32/ffi.c:539-547 | variadic entry k holds the block address plus 4(k - nfixed), or for a struct the word stored there |
| Closures.VarargPtrsFrame | src/wasm32/ffi.c:539-547 | the second loop leaves the entries of fixed arguments alone |
| Closures.StoreFixedFootprint | src/wasm32/ffi.c:486-538 | the first trampoline loop writes nothing at or above the argument array's end |
| Closures.VarargPtrsFootprint | src/wasm32/ffi.c:539-547 | the second loop writes only entries of the argument array |
| Closures.FrameFootprint | src/wasm32/ffi.c:465-548 | with a word-aligned stack pointer, the frame changes no word at or above it |
| Closures.SlotStoreAbove | src/wasm32/ffi.c:490-535 | storing a fixed argument in its slot leaves every byte at or above the slot's end unchanged |
| Closures.ArgValuesByBytes | src/wasm32/ffi.c:185-218 | ffi_call's reader of an aligned slot depends only on that slot's bytes |
| Closures.StoreFixedArgFrame | src/wasm32/ffi.c:486-537 | one fixed argument moves cur down by less than 32 bytes and leaves unchanged the bytes from the old cur up to the array and every other entry of the array |
| Closures.StoreFixedFrame | src/wasm32/ffi.c:486-538 | the first loop from argument c on leaves unchanged the bytes from cur up to the array and the entries of earlier arguments |
| Closures.StoreFixedReadBack | src/wasm32/ffi.c:486-538 | after the whole first loop, every fixed argument k reads back through entry k as its own host values truncated to its kind's width, from an aligned slot below the array |
| Closures.VarargPtrsBelow | src/wasm32/ffi.c:539-547 | the second loop leaves every byte below the argument array unchanged |
| Closures.VarargsKeepFixed | src/wasm32/ffi.c:539-547 | after the second loop, each fixed argument reads back exactly as it did before |
| Closures.TrampolineFixedArgs | src/wasm32/ffi.c:465-548 | in the frame handed to the handler, fixed argument k reads back through entry k of args_ptr as the host values the trampoline received for it, truncated to its kind's width (a struct as its address) |
| Runtime.AllocRecordsIndex | src/wasm32/ffi.c:345-351 | allocation records the table slot both in *code and in the closure's wrapper word |
| Runtime.InstallWords | src/wasm32/ffi.c:574-576 | preparation fills closure words 1 to 3 and keeps the wrapper word |
| Runtime.FreeReturnsAllocatedSlot | src/wasm32/ffi.c:345-362 | alloc, then prepare, then free gives back the slot that was allocated |
| Runtime.HandlerGetsInstalledValues | src/wasm32/ffi.c:549-552 | the trampoline hands its handler the cif, handler and user data that preparation stored |
| Runtime.Instance.constructor | src/wasm32/ffi.c:345-347 | an instance starts with an empty table and free list |
| Runtime.Instance.PushVararg | src/wasm32/ffi.c:246-288 | one variadic iteration allocates the slot and copies by kind, or throws with memory unchanged; below a word-aligned address and an argument above it, the slot then holds the argument |
| Runtime.Instance.PushVarargAt | src/wasm32/ffi.c:242-288 | one pass for argument i is one step of BuildVarargs |
| Runtime.Instance.PushVarargs | src/wasm32/ffi.c:239-289 | the variadic loop leaves the memory and address of BuildVarargs, or its error; it writes nothing at or above the old stack pointer nor below the block; when every trailing kind has a slot and the argument buffers lie at or above a word-aligned stack pointer, it succeeds and every slot holds its argument |
| Runtime.Instance.StoreResult | src/wasm32/ffi.c:306-337 | the write-back switch computes WriteBack |
| Runtime.Instance.PrepareArgs | src/wasm32/ffi.c:146-293 | ffi_call up to the host call computes PrepareCall and moves the stack pointer to the block |
| Runtime.Instance.Call | src/wasm32/ffi.c:142-338 | ffi_call leaves the memory and outcome of FfiCall and restores the stack pointer |
| Runtime.Instance.PlaceFixedArg | src/wasm32/ffi.c:487-536 | one iteration of the first trampoline loop computes StoreFixedArg and consumes the argument's host values |
| Runtime.Instance.PlaceNextFixedArg | src/wasm32/ffi.c:486-537 | one pass of the first loop advances StoreFixed by one argument |
| Runtime.Instance.PlaceFixedArgs | src/wasm32/ffi.c:486-538 | the first trampoline loop computes StoreFixed |
| Runtime.Instance.PlaceVarargPtrs | src/wasm32/ffi.c:539-547 | the second trampoline loop computes StoreVarargPtrs |
| Runtime.Instance.InvokeTrampoline | src/wasm32/ffi.c:465-571 | one trampoline call builds the frame, calls the handler and decodes the result as InvokeSpec says, and restores the stack pointer |
| Runtime.Instance.ClosureAlloc | src/wasm32/ffi.c:345-351 | the closure gets the table slot index in its wrapper word and in *code |
| Runtime.Instance.ClosureFree | src/wasm32/ffi.c:358-362 | the closure's table slot is appended to the free list |
| Runtime.Instance.PrepClosureLoc | src/wasm32/ffi.c:582-589 | a bad ABI gives FFI_BAD_ABI with no change; a failing signature throws with no change; otherwise FFI_OK, with the trampoline installed at codeloc and closure words 1 to 3 filled |

## Findings

| source | as written | input that shows it | evidently intended | confidence | as-written member | corrected member |
|---|---|---|---|---|---|---|
| src/wasm32/ffi.c:539-547 | the trampoline steps through the variadic block 4 bytes per argument, while `ffi_call` (src/wasm32/ffi.c:246-283) aligns each slot to its own size | one fixed `INT`, two variadic `DOUBLE`s, block built from address 64: the second double is at 56, entry 2 points at 52 | entry k points at the slot that holds argument k, so two variadic doubles reach the handler intact | not executed | Closures.TwoDoublesMisread | Closures.CorrectedVarargRoundTrip |

The trampoline model (`StoreVarargPtrs`, `Runtime.Instance.PlaceVarargPtrs`)
keeps the 4-byte stride, because it models the code as written.
`Closures.WordVarargRoundTrip` shows where that stride is right.
`VarargPtrsBySize` is the corrected walk.

## Left out

- The host's indirect call (`CALL_FUNC_PTR`, `wasmTable.get(f).apply`) is a parameter of type `HostCall`. It maps the function, the arguments, the memory and the stack pointer to a result and the memory as the callee left it. The wrapper's own JS-to-wasm value conversion happens inside it.
- `convertJsFunctionToWasm` and the table's wasm function objects are not modelled. The table holds the `Trampoline` value that the generated function closes over, and calling that function is `InvokeTrampoline`.
- `_malloc`, `_free` and `getEmptyTableSlot` are not modelled. Their results are the parameters of `ClosureAlloc`, and releasing the closure's memory is not modelled at all. The `size` argument of `ffi_closure_alloc` is not used.
- The C wrappers `ffi_closure_alloc`, `ffi_closure_free` and the call to the helper in `ffi_prep_closure_loc` only forward their arguments. They are folded into the helpers.
- Floating-point values are kept as bit patterns. JavaScript's conversion of a Number to float32 or float64 on a `HEAPF32` or `HEAPF64` store is not modelled.
- The `WASM_BIGINT` build, with `HEAPU64`, is not modelled. Only the split/join build is.
- The in-memory layout of `ffi_cif` and `ffi_type` (`CIF__*`, `FFI_TYPE__*`) is not modelled. The cif is a class with those fields, and types are a datatype. The `rtype_id < 0` check cannot fire, because type ids are natural numbers.
- Error messages are not modelled; only two kinds of error are kept, unimplemented (COMPLEX) and unexpected. The closure's signature message names a stale `arg_type_id`, which is not modelled either.
- The trampoline's switch has no default case. With a signature that was built successfully, every fixed kind has a case (`Shaped`), so the missing default is never reached. The model has no branch for it.
- Addresses are taken as non-negative and below 2^31. At that size, JavaScript's `>>` and `& ~(align - 1)` act as floor division and rounding down.
- Runtime.Instance.Call: the host call is a total function, so a callee that throws is not modelled. In the code, a throw out of `CALL_FUNC_PTR(fn, args)` skips `stackRestore(orig_stack_ptr)` (src/wasm32/ffi.c:294-296, with no `finally`), so the stack pointer is left where the call put it. `Call` promises `sp == old(sp)` only for a callee that returns.
- Runtime.Instance.InvokeTrampoline: the same holds for the closure's handler. A handler that throws is not modelled, and in the code such a throw skips `stackRestore(orig_stack_ptr)` (src/wasm32/ffi.c:550-554). `InvokeTrampoline` promises `sp == old(sp)` only for a handler that returns.
- ForwardCall.VarargsContents: assumes every argument buffer and the avalue array lie at or above the stack pointer. A buffer inside the region the block grows into could be overwritten by a later argument's slot before it is copied. That case is not described.
- Closures.CorrectedVarargRoundTrip: proved only when every trailing kind has the same slot size. With mixed sizes, `ffi_call` pads downward from the stack pointer, and the trampoline sees only the block's lowest address. No walk from that address alone recovers every padding, so a correction needs both sides to change.
- Runtime.HandlerGetsInstalledValues: assumes a word-aligned stack pointer and a closure at or above it. With an unaligned stack pointer, a byte slot of the frame could share a word with the closure record.
- Closures.TrampolineFixedArgs: assumes a word-aligned stack pointer below 2^32, with at least 4 * nargs + 32 * nfixed + 48 bytes of memory below it for the frame. The frame then lies at non-negative addresses, which the model of the shifts requires (see the line on addresses above).
