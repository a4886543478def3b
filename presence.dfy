/** The presence bitset at the start of every instance: one bit per field,
    bit `i % 8` of byte `i / 8` for field index `i`. The instance is a raw byte
    buffer (`void *s` in the header), modelled as an `array<bv8>`. */
module Presence {
  import opened UpbTypes
  import opened Layout

  /** Bit `k` of byte `b`, counting from the least significant bit. */
  predicate BitAt(b: bv8, k: nat)
    requires k < 8
  {
    (b >> k) & 1 == 1
  }

  /** Reference reading of a bitset: field index `j` is present when bit
      `j % 8` of byte `j / 8` is one. */
  predicate Present(bs: seq<bv8>, j: nat)
    requires j < 8 * |bs|
  {
    BitAt(bs[j / 8], j % 8)
  }

  /** `upb_isset_offset`: the byte that holds the flag of a field index. */
  function IssetOffset(fieldIndex: u32): (off: nat)
    ensures 8 * off <= fieldIndex as int < 8 * off + 8
  {
    fieldIndex as int / 8
  }

  /** `upb_isset_mask`: a byte with exactly one bit set, the one for
      `fieldIndex % 8`. */
  function IssetMask(fieldIndex: u32): (mask: bv8)
    ensures forall k: nat :: k < 8 ==> (BitAt(mask, k) <==> k == fieldIndex as int % 8)
    ensures mask != 0 && mask & (mask - 1) == 0
  {
    1 << (fieldIndex as int % 8)
  }

  /** The bitset after the flag of `i` is or-ed in. */
  function WithBit(bs: seq<bv8>, i: u32): seq<bv8>
    requires IssetOffset(i) < |bs|
  {
    bs[IssetOffset(i) := bs[IssetOffset(i)] | IssetMask(i)]
  }

  /** The bitset after the flag of `i` is and-ed out. */
  function WithoutBit(bs: seq<bv8>, i: u32): seq<bv8>
    requires IssetOffset(i) < |bs|
  {
    bs[IssetOffset(i) := bs[IssetOffset(i)] & !IssetMask(i)]
  }

  /** The buffer after its first `n` bytes are zeroed. */
  function ClearedPrefix(bs: seq<bv8>, n: nat): seq<bv8>
    requires n <= |bs|
  {
    seq(n, _ => 0 as bv8) + bs[n..]
  }

  /** `upb_msg_is_set`: the flag of `f` is set. */
  function MsgIsSet(s: array<bv8>, f: MsgField): (r: bool)
    reads s
    requires IssetOffset(f.fieldIndex as u32) < s.Length
    ensures r == Present(s[..], f.fieldIndex as nat)
  {
    s[IssetOffset(f.fieldIndex as u32)] & IssetMask(f.fieldIndex as u32) != 0
  }

  /** `upb_msg_set`: or the flag of `f` into its byte. */
  method MsgSet(s: array<bv8>, f: MsgField)
    requires IssetOffset(f.fieldIndex as u32) < s.Length
    modifies s
    ensures s[..] == WithBit(old(s[..]), f.fieldIndex as u32)
    ensures MsgIsSet(s, f)
  {
    var i := f.fieldIndex as u32;
    s[IssetOffset(i)] := s[IssetOffset(i)] | IssetMask(i);
    WithBitSets(old(s[..]), i);
  }

  /** `upb_msg_unset`: and the inverted flag of `f` into its byte. */
  method MsgUnset(s: array<bv8>, f: MsgField)
    requires IssetOffset(f.fieldIndex as u32) < s.Length
    modifies s
    ensures s[..] == WithoutBit(old(s[..]), f.fieldIndex as u32)
    ensures !MsgIsSet(s, f)
  {
    var i := f.fieldIndex as u32;
    s[IssetOffset(i)] := s[IssetOffset(i)] & !IssetMask(i);
    WithoutBitClears(old(s[..]), i);
  }

  /** `upb_msg_clear`: zero the first `set_flags_bytes` bytes (a `memset`). */
  method MsgClear(s: array<bv8>, m: Msg)
    requires m.setFlagsBytes as int <= s.Length
    modifies s
    ensures s[..] == ClearedPrefix(old(s[..]), m.setFlagsBytes as nat)
  {
    forall k | 0 <= k < m.setFlagsBytes as int {
      s[k] := 0;
    }
  }

  /** Setting a flag makes it present, keeps every other flag as it was, and
      keeps every other byte of the buffer. */
  lemma WithBitSets(bs: seq<bv8>, i: u32)
    requires IssetOffset(i) < |bs|
    ensures |WithBit(bs, i)| == |bs|
    ensures Present(WithBit(bs, i), i as nat)
    ensures forall j: nat :: j < 8 * |bs| && j != i as nat ==>
              Present(WithBit(bs, i), j) == Present(bs, j)
    ensures forall k :: 0 <= k < |bs| && k != IssetOffset(i) ==> WithBit(bs, i)[k] == bs[k]
  {
    var r := WithBit(bs, i);
    forall j: nat | j < 8 * |bs| && j != i as nat
      ensures Present(r, j) == Present(bs, j)
    {
      if j / 8 == IssetOffset(i) {
        assert j % 8 != i as int % 8;
      }
    }
  }

  /** Clearing a flag makes it absent, keeps every other flag as it was, and
      keeps every other byte of the buffer. */
  lemma WithoutBitClears(bs: seq<bv8>, i: u32)
    requires IssetOffset(i) < |bs|
    ensures |WithoutBit(bs, i)| == |bs|
    ensures !Present(WithoutBit(bs, i), i as nat)
    ensures forall j: nat :: j < 8 * |bs| && j != i as nat ==>
              Present(WithoutBit(bs, i), j) == Present(bs, j)
    ensures forall k :: 0 <= k < |bs| && k != IssetOffset(i) ==> WithoutBit(bs, i)[k] == bs[k]
  {
    var r := WithoutBit(bs, i);
    forall j: nat | j < 8 * |bs| && j != i as nat
      ensures Present(r, j) == Present(bs, j)
    {
      if j / 8 == IssetOffset(i) {
        assert j % 8 != i as int % 8;
      }
    }
  }

  /** Setting a flag twice is the same as setting it once. */
  lemma WithBitIdempotent(bs: seq<bv8>, i: u32)
    requires IssetOffset(i) < |bs|
    ensures WithBit(WithBit(bs, i), i) == WithBit(bs, i)
  {
  }

  /** Clearing a flag twice is the same as clearing it once. */
  lemma WithoutBitIdempotent(bs: seq<bv8>, i: u32)
    requires IssetOffset(i) < |bs|
    ensures WithoutBit(WithoutBit(bs, i), i) == WithoutBit(bs, i)
  {
  }

  /** Zeroing the first `n` bytes makes every flag below `8 * n` absent and
      leaves the bytes from `n` on unchanged. */
  lemma ClearedPrefixClears(bs: seq<bv8>, n: nat)
    requires n <= |bs|
    ensures |ClearedPrefix(bs, n)| == |bs|
    ensures forall j: nat :: j < 8 * n ==> !Present(ClearedPrefix(bs, n), j)
    ensures forall k :: n <= k < |bs| ==> ClearedPrefix(bs, n)[k] == bs[k]
  {
    var r := ClearedPrefix(bs, n);
    forall j: nat | j < 8 * n
      ensures !Present(r, j)
    {
      assert r[j / 8] == 0;
    }
  }

  /** After `upb_msg_clear` on a valid message type, no field of it is set. */
  lemma ClearUnsetsEveryField(m: Msg, bs: seq<bv8>)
    requires Valid(m)
    requires m.setFlagsBytes as int <= |bs|
    ensures forall i :: 0 <= i < |m.fields| ==>
              m.fields[i].fieldIndex as int < 8 * |bs| &&
              !Present(ClearedPrefix(bs, m.setFlagsBytes as nat), m.fields[i].fieldIndex as nat)
  {
    ClearedPrefixClears(bs, m.setFlagsBytes as nat);
  }
}
