/** The scalar accessors that `UPB_DEFINE_ACCESSORS` generates once per C
    type: get-pointer, get and set at `s + f->byte_offset`. The per-type copies
    become one family over a `Codec`, which gives a type's size and its
    host-dependent byte encoding. None of them checks presence, bounds or type,
    so the bounds are the caller's obligation and appear as preconditions. */
module Accessors {
  import opened UpbTypes
  import opened Layout

  /** The stored form of a C scalar type: its size in bytes and how its values
      map to and from those bytes on the host. */
  datatype Codec<!T> = Codec(width: nat, encode: T -> seq<bv8>, decode: seq<bv8> -> T)

  /** A codec that stores every value in exactly `width` bytes and reads it
      back unchanged, as a C object of that type does. */
  ghost predicate ValidCodec<T(!new)>(c: Codec<T>) {
    forall v: T :: |c.encode(v)| == c.width && c.decode(c.encode(v)) == v
  }

  /** `ctype *`: a pointer into an instance buffer, `(char*)buf + offset`. */
  datatype BytePtr = BytePtr(buf: array<bv8>, offset: nat)

  /** `bs` with `bytes` written over it from `off` on. */
  function Splice(bs: seq<bv8>, off: nat, bytes: seq<bv8>): seq<bv8>
    requires off + |bytes| <= |bs|
  {
    bs[..off] + bytes + bs[off + |bytes|..]
  }

  /** The value of type `c` stored at byte `off` of `bs`. */
  function SlotGet<T>(bs: seq<bv8>, off: nat, c: Codec<T>): T
    requires off + c.width <= |bs|
  {
    c.decode(bs[off..off + c.width])
  }

  /** `bs` after `v` is stored at byte `off`. */
  function SlotSet<T>(bs: seq<bv8>, off: nat, c: Codec<T>, v: T): seq<bv8>
    requires off + |c.encode(v)| <= |bs|
  {
    Splice(bs, off, c.encode(v))
  }

  /** `upb_msg_get_<type>_ptr`: the field's storage is at byte `byte_offset`
      of the instance. */
  function MsgGetPtr(s: array<bv8>, f: MsgField): (p: BytePtr)
    ensures p.buf == s && p.offset == f.byteOffset as nat
  {
    BytePtr(s, f.byteOffset as nat)
  }

  /** `*p`: the value of type `c` stored where `p` points. */
  function Load<T>(p: BytePtr, c: Codec<T>): T
    reads p.buf
    requires p.offset + c.width <= p.buf.Length
  {
    SlotGet(p.buf[..], p.offset, c)
  }

  /** `*p = v`. */
  method Store<T(!new)>(p: BytePtr, c: Codec<T>, v: T)
    requires ValidCodec(c)
    requires p.offset + c.width <= p.buf.Length
    modifies p.buf
    ensures p.buf[..] == SlotSet(old(p.buf[..]), p.offset, c, v)
  {
    var bytes := c.encode(v);
    forall k | 0 <= k < |bytes| {
      p.buf[p.offset + k] := bytes[k];
    }
    assert p.buf[..] == Splice(old(p.buf[..]), p.offset, bytes);
  }

  /** `upb_msg_get_<type>`: the value read through `upb_msg_get_<type>_ptr`. */
  function MsgGet<T>(s: array<bv8>, f: MsgField, c: Codec<T>): (r: T)
    reads s
    requires f.byteOffset as int + c.width <= s.Length
    ensures r == c.decode(s[f.byteOffset..f.byteOffset as int + c.width])
  {
    Load(MsgGetPtr(s, f), c)
  }

  /** `upb_msg_set_<type>`: store through `upb_msg_get_<type>_ptr`. Afterwards
      the field reads back `v` and no byte outside its slot has changed. */
  method MsgSetValue<T(!new)>(s: array<bv8>, f: MsgField, c: Codec<T>, v: T)
    requires ValidCodec(c)
    requires f.byteOffset as int + c.width <= s.Length
    modifies s
    ensures s[..] == SlotSet(old(s[..]), f.byteOffset as nat, c, v)
    ensures MsgGet(s, f, c) == v
    ensures forall k :: 0 <= k < s.Length && !(f.byteOffset as int <= k < f.byteOffset as int + c.width) ==>
              s[k] == old(s[k])
  {
    Store(MsgGetPtr(s, f), c, v);
    SlotGetAfterSet(old(s[..]), f.byteOffset as nat, c, v);
    SlotSetFrame(old(s[..]), f.byteOffset as nat, c, v);
  }

  /** Reading a slot just written returns the value written. */
  lemma SlotGetAfterSet<T(!new)>(bs: seq<bv8>, off: nat, c: Codec<T>, v: T)
    requires ValidCodec(c)
    requires off + c.width <= |bs|
    ensures SlotGet(SlotSet(bs, off, c, v), off, c) == v
  {
    var bytes := c.encode(v);
    assert Splice(bs, off, bytes)[off..off + c.width] == bytes;
  }

  /** Writing a slot changes no byte outside it, nor the buffer's length. */
  lemma SlotSetFrame<T(!new)>(bs: seq<bv8>, off: nat, c: Codec<T>, v: T)
    requires ValidCodec(c)
    requires off + c.width <= |bs|
    ensures |SlotSet(bs, off, c, v)| == |bs|
    ensures forall k :: 0 <= k < |bs| && !(off <= k < off + c.width) ==> SlotSet(bs, off, c, v)[k] == bs[k]
    ensures forall k :: off <= k < off + c.width ==> SlotSet(bs, off, c, v)[k] == c.encode(v)[k - off]
  {
  }

  /** Writing one slot leaves a disjoint slot reading what it read before. */
  lemma SlotGetAfterSetElsewhere<T(!new), U>(bs: seq<bv8>, off: nat, c: Codec<T>, v: T, off': nat, d: Codec<U>)
    requires ValidCodec(c)
    requires off + c.width <= |bs| && off' + d.width <= |bs|
    requires off + c.width <= off' || off' + d.width <= off
    ensures SlotGet(SlotSet(bs, off, c, v), off', d) == SlotGet(bs, off', d)
  {
    var r := SlotSet(bs, off, c, v);
    SlotSetFrame(bs, off, c, v);
    assert r[off'..off' + d.width] == bs[off'..off' + d.width];
  }

  /** The second of two writes to the same slot is the one that shows. */
  lemma SlotSetTwice<T(!new)>(bs: seq<bv8>, off: nat, c: Codec<T>, v: T, w: T)
    requires ValidCodec(c)
    requires off + c.width <= |bs|
    ensures SlotSet(SlotSet(bs, off, c, v), off, c, w) == SlotSet(bs, off, c, w)
  {
    SlotSetFrame(bs, off, c, v);
    SlotSetFrame(SlotSet(bs, off, c, v), off, c, w);
    SlotSetFrame(bs, off, c, w);
  }
}
