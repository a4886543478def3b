/** `struct upb_array` and the element accessors that
    `UPB_DEFINE_ARRAY_ACCESSORS` generates once per C type: get-pointer, get
    and set on element `n` of `data`. Like the scalar accessors they make no
    bounds check: the index is checked neither against `len` nor against the
    allocation, so staying inside the allocation is the caller's obligation. */
module Arrays {
  import opened UpbTypes

  /** `struct upb_array`: the elements and their count. The element type is
      the one the accessor family is instantiated with. */
  class UpbArray<T> {
    var data: array<T>
    var len: u32

    constructor (data: array<T>, len: u32)
      ensures this.data == data && this.len == len
    {
      this.data := data;
      this.len := len;
    }
  }

  /** `ctype *`: a pointer to element `index` of `data`. */
  datatype ElemPtr<T> = ElemPtr(data: array<T>, index: nat)

  /** `upb_array_get_<type>_ptr`: the address `data + n`. */
  function ArrayGetPtr<T>(a: UpbArray<T>, n: int): (p: ElemPtr<T>)
    reads a
    requires 0 <= n
    ensures p.data == a.data && p.index == n
  {
    ElemPtr(a.data, n)
  }

  /** `*p`. */
  function Deref<T>(p: ElemPtr<T>): T
    reads p.data
    requires p.index < p.data.Length
  {
    p.data[p.index]
  }

  /** `upb_array_get_<type>`: the element read through
      `upb_array_get_<type>_ptr`. */
  function ArrayGet<T>(a: UpbArray<T>, n: int): (r: T)
    reads a, a.data
    requires 0 <= n < a.data.Length
    ensures r == a.data[n]
  {
    Deref(ArrayGetPtr(a, n))
  }

  /** `upb_array_set_<type>`: store through `upb_array_get_<type>_ptr`.
      Element `n` reads back `v`; every other element, `data` and `len` are
      unchanged. */
  method ArraySet<T>(a: UpbArray<T>, n: int, v: T)
    requires 0 <= n < a.data.Length
    modifies a.data
    ensures a.data[..] == old(a.data[..])[n := v]
    ensures ArrayGet(a, n) == v
    ensures forall k :: 0 <= k < a.data.Length && k != n ==> ArrayGet(a, k) == old(ArrayGet(a, k))
    ensures unchanged(a)
  {
    var p := ArrayGetPtr(a, n);
    p.data[p.index] := v;
  }
}
