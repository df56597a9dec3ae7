/** Type descriptors (ffi_type), their type ids, and the resolver
    unbox_small_structs that collapses trivial wrapper structs. */
module FfiTypes {

  // libffi's type ids (FFI_TYPE_*).
  const VOID: nat := 0
  const INT: nat := 1
  const FLOAT: nat := 2
  const DOUBLE: nat := 3
  const LONGDOUBLE: nat := 4
  const UINT8: nat := 5
  const SINT8: nat := 6
  const UINT16: nat := 7
  const SINT16: nat := 8
  const UINT32: nat := 9
  const SINT32: nat := 10
  const UINT64: nat := 11
  const SINT64: nat := 12
  const STRUCT: nat := 13
  const PTR: nat := 14
  const COMPLEX: nat := 15
  const LAST: nat := COMPLEX

  /** An ffi_type: size, alignment, a 16-bit type id and, for a struct, its
      members (the null-terminated `elements` array). Read-only here. */
  datatype FfiType = FfiType(size: nat, alignment: nat, typeId: nat, elements: seq<FfiType>)

  /** The pair [type_ptr, type_id] that unbox_small_structs returns. */
  datatype Unboxed = Unboxed(desc: FfiType, id: nat)

  /** Why a call or a closure preparation throws. */
  datatype Error =
    | Unimplemented   // complex marshalling is not implemented
    | Unexpected      // a type id the engine has no case for

  datatype Result<T> = Ok(value: T) | Err(error: Error)

  /** The effective type of t: single-member structs are replaced by their
      member (repeatedly), a zero-member struct becomes VOID, a struct with
      two or more members stays STRUCT. */
  function Unbox(t: FfiType): (r: Unboxed)
    ensures r.desc.typeId != STRUCT ==> r.id == r.desc.typeId
    ensures r.desc.typeId == STRUCT ==>
      (r.id == STRUCT && |r.desc.elements| >= 2) || (r.id == VOID && |r.desc.elements| == 0)
    ensures r.id == STRUCT ==> r.desc.typeId == STRUCT && |r.desc.elements| >= 2
    ensures t.typeId != STRUCT ==> r.desc == t
  {
    if t.typeId != STRUCT then Unboxed(t, t.typeId)
    else if |t.elements| == 0 then Unboxed(t, VOID)
    else if |t.elements| == 1 then Unbox(t.elements[0])
    else Unboxed(t, STRUCT)
  }

  /** unbox_small_structs as the source writes it: a loop over locals. */
  method UnboxSmallStructs(t: FfiType) returns (desc: FfiType, id: nat)
    ensures Unboxed(desc, id) == Unbox(t)
  {
    desc := t;
    id := t.typeId;
    while id == STRUCT
      invariant id == desc.typeId
      invariant Unbox(desc) == Unbox(t)
      decreases desc
    {
      if |desc.elements| == 0 {
        id := VOID;
        break;
      } else if |desc.elements| == 1 {
        desc := desc.elements[0];
        id := desc.typeId;
      } else {
        break;
      }
    }
  }

  /** The unboxed type ids of a list of descriptors
      (unboxed_arg_type_id_list). */
  function UnboxedIds(ts: seq<FfiType>): (ids: seq<nat>)
    ensures |ids| == |ts|
  {
    if |ts| == 0 then [] else [Unbox(ts[0]).id] + UnboxedIds(ts[1..])
  }

  /** Entry i of the list is the unboxed id of argument i. */
  lemma {:induction false} UnboxedIdsAt(ts: seq<FfiType>, i: nat)
    requires i < |ts|
    ensures UnboxedIds(ts)[i] == Unbox(ts[i]).id
    decreases i
  {
    if i > 0 {
      UnboxedIdsAt(ts[1..], i - 1);
      assert ts[1..][i - 1] == ts[i];
    }
  }

  /** A list that agrees with Unbox entry by entry is the unboxed list. */
  lemma UnboxedIdsExt(ts: seq<FfiType>, ids: seq<nat>)
    requires |ids| == |ts|
    requires forall j :: 0 <= j < |ts| ==> ids[j] == Unbox(ts[j]).id
    ensures ids == UnboxedIds(ts)
  {
    forall j | 0 <= j < |ts|
      ensures ids[j] == UnboxedIds(ts)[j]
    {
      UnboxedIdsAt(ts, j);
    }
  }

  /** w is t inside n nested single-member structs, whatever size and
      alignment each of those structs declares. */
  predicate WrappedIn(w: FfiType, t: FfiType, n: nat)
    decreases n
  {
    if n == 0 then w == t
    else w.typeId == STRUCT && |w.elements| == 1 && WrappedIn(w.elements[0], t, n - 1)
  }

  /** Non-struct types resolve to themselves with their own type id. */
  lemma UnboxScalar(t: FfiType)
    requires t.typeId != STRUCT
    ensures Unbox(t) == Unboxed(t, t.typeId)
  {
  }

  /** The degenerate case: a struct with no members resolves to VOID
      (the descriptor itself is returned). */
  lemma UnboxEmptyStruct(t: FfiType)
    requires t.typeId == STRUCT && t.elements == []
    ensures Unbox(t) == Unboxed(t, VOID)
  {
  }

  /** A struct with two or more members is returned as itself, id STRUCT. */
  lemma UnboxAggregate(t: FfiType)
    requires t.typeId == STRUCT && |t.elements| >= 2
    ensures Unbox(t) == Unboxed(t, STRUCT)
  {
  }

  /** A struct with exactly one member resolves like that member. */
  lemma UnboxSingle(t: FfiType)
    requires t.typeId == STRUCT && |t.elements| == 1
    ensures Unbox(t) == Unbox(t.elements[0])
  {
  }

  /** Any number of single-member structs around t resolves like t. */
  lemma {:induction false} UnboxWrapped(w: FfiType, t: FfiType, n: nat)
    requires WrappedIn(w, t, n)
    ensures Unbox(w) == Unbox(t)
    decreases n
  {
    if n > 0 {
      UnboxSingle(w);
      UnboxWrapped(w.elements[0], t, n - 1);
    }
  }

  /** Resolving is idempotent: the effective type resolves to itself, except
      that the VOID of an empty struct is reported again as VOID. */
  lemma {:induction false} UnboxIdempotent(t: FfiType)
    ensures Unbox(Unbox(t).desc) == Unbox(t)
    decreases t
  {
    if t.typeId == STRUCT && |t.elements| == 1 {
      UnboxIdempotent(t.elements[0]);
    }
  }
}
