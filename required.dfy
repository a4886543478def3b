/** `upb_msg_all_required_fields_set`: the byte-at-a-time completeness check
    over the presence bitset, as the header writes it, and a corrected
    version that masks the final byte. Both rely on required fields holding
    the lowest field indices. */
module RequiredCheck {
  import opened UpbTypes
  import opened Layout
  import opened Presence

  /** The byte the final comparison reads: ceil(n / 8) - 1, and byte 0 when
      there are no required fields. The `> 8` loop guard leaves between 1 and
      8 required fields for that byte when n > 0, and none when n == 0. */
  function LastRequiredByte(n: nat): (k: nat)
    ensures n == 0 ==> k == 0
    ensures n > 0 ==> 8 * k < n <= 8 * k + 8
  {
    if n == 0 then 0 else (n - 1) / 8
  }

  /** The C `int` value `(1 << r) - 1`; 16 bits hold it exactly for r <= 8. */
  function LowOnes(r: nat): bv16
    requires r <= 8
  {
    ((1 as bv16) << r) - 1
  }

  /** What the header's check computes, in closed form: every byte before
      byte k is 0xFF, and byte k equals (1 << r) - 1 exactly, where k is the
      last byte read and r the required fields it covers. */
  predicate ExactCheck(bs: seq<bv8>, n: nat)
    requires LastRequiredByte(n) < |bs|
  {
    var k := LastRequiredByte(n);
    (forall j :: 0 <= j < k ==> bs[j] == 0xFF) && bs[k] as bv16 == LowOnes(n - 8 * k)
  }

  /** The flag of every field index below n is set. */
  predicate RequiredPresent(bs: seq<bv8>, n: nat)
    requires n <= 8 * |bs|
  {
    forall j: nat :: j < n ==> Present(bs, j)
  }

  /** No flag that shares the last read byte, above the required ones, is set. */
  predicate NoOptionalInLastByte(bs: seq<bv8>, n: nat)
    requires LastRequiredByte(n) < |bs|
  {
    forall j: nat :: n <= j < 8 * LastRequiredByte(n) + 8 ==> !Present(bs, j)
  }

  /** Bits of a byte compared with (1 << r) - 1. */
  lemma LowOnesBits(b: bv8, r: nat)
    requires r <= 8
    ensures b as bv16 == LowOnes(r) <==> forall t: nat :: t < 8 ==> (BitAt(b, t) <==> t < r)
    ensures (b as bv16) & LowOnes(r) == LowOnes(r) <==> forall t: nat :: t < r ==> BitAt(b, t)
  {
    if forall t: nat :: t < 8 ==> (BitAt(b, t) <==> t < r) {
      assert BitAt(b, 0) <==> 0 < r;
      assert BitAt(b, 1) <==> 1 < r;
      assert BitAt(b, 2) <==> 2 < r;
      assert BitAt(b, 3) <==> 3 < r;
      assert BitAt(b, 4) <==> 4 < r;
      assert BitAt(b, 5) <==> 5 < r;
      assert BitAt(b, 6) <==> 6 < r;
      assert BitAt(b, 7) <==> 7 < r;
    }
    if forall t: nat :: t < r ==> BitAt(b, t) {
      assert 0 < r ==> BitAt(b, 0);
      assert 1 < r ==> BitAt(b, 1);
      assert 2 < r ==> BitAt(b, 2);
      assert 3 < r ==> BitAt(b, 3);
      assert 4 < r ==> BitAt(b, 4);
      assert 5 < r ==> BitAt(b, 5);
      assert 6 < r ==> BitAt(b, 6);
      assert 7 < r ==> BitAt(b, 7);
    }
  }

  /** `upb_msg_all_required_fields_set`, following the header line by line. */
  method AllRequiredFieldsSet(s: array<bv8>, m: Msg) returns (b: bool)
    requires m.numRequiredFields as int <= INT_MAX
    requires LastRequiredByte(m.numRequiredFields as nat) < s.Length
    ensures b == ExactCheck(s[..], m.numRequiredFields as nat)
    ensures b ==> RequiredPresent(s[..], m.numRequiredFields as nat)
  {
    ghost var n := m.numRequiredFields as nat;
    ghost var k := LastRequiredByte(n);
    var numFields: int := m.numRequiredFields as int;
    var i: int := 0;
    while numFields > 8
      invariant 0 <= i <= k
      invariant numFields == n - 8 * i
      invariant forall j :: 0 <= j < i ==> s[j] == 0xFF
    {
      if s[i] != 0xFF {
        return false;
      }
      i := i + 1;
      numFields := numFields - 8;
    }
    assert i == k;
    if s[i] as bv16 != LowOnes(numFields) {
      return false;
    }
    ExactCheckSound(s[..], n);
    return true;
  }

  /** Soundness: when the check passes, every required flag is set. */
  lemma ExactCheckSound(bs: seq<bv8>, n: nat)
    requires LastRequiredByte(n) < |bs|
    requires ExactCheck(bs, n)
    ensures n <= 8 * |bs|
    ensures RequiredPresent(bs, n)
  {
    ExactCheckIff(bs, n);
  }

  /** The flag of field index 8 * k + t is bit t of byte k. */
  lemma PresentAt(bs: seq<bv8>, k: nat, t: nat)
    requires k < |bs| && t < 8
    ensures 8 * k + t < 8 * |bs|
    ensures Present(bs, 8 * k + t) == BitAt(bs[k], t)
  {
    assert (8 * k + t) / 8 == k && (8 * k + t) % 8 == t;
  }

  /** A byte is 0xFF exactly when all eight of its bits are one. */
  lemma FullByte(b: bv8)
    ensures b == 0xFF <==> forall t: nat :: t < 8 ==> BitAt(b, t)
  {
    LowOnesBits(b, 8);
  }

  /** Passing the header's check means every required flag is set and no
      other flag of the last byte read is set. */
  lemma ExactCheckForward(bs: seq<bv8>, n: nat)
    requires LastRequiredByte(n) < |bs|
    requires ExactCheck(bs, n)
    ensures n <= 8 * |bs|
    ensures RequiredPresent(bs, n) && NoOptionalInLastByte(bs, n)
  {
    var k := LastRequiredByte(n);
    var r := n - 8 * k;
    LowOnesBits(bs[k], r);
    forall j: nat | j < 8 * k + 8 ensures Present(bs, j) <==> j < n {
      var q, t := j / 8, j % 8;
      assert j == 8 * q + t;
      PresentAt(bs, q, t);
      if q < k {
        FullByte(bs[q]);
      }
    }
  }

  /** Every required flag set and no other flag of the last byte read set is
      enough for the header's check to pass. */
  lemma ExactCheckBackward(bs: seq<bv8>, n: nat)
    requires LastRequiredByte(n) < |bs|
    requires n <= 8 * |bs|
    requires RequiredPresent(bs, n) && NoOptionalInLastByte(bs, n)
    ensures ExactCheck(bs, n)
  {
    var k := LastRequiredByte(n);
    var r := n - 8 * k;
    forall j | 0 <= j < k ensures bs[j] == 0xFF {
      forall t: nat | t < 8 ensures BitAt(bs[j], t) {
        PresentAt(bs, j, t);
      }
      FullByte(bs[j]);
    }
    forall t: nat | t < 8 ensures BitAt(bs[k], t) <==> t < r {
      PresentAt(bs, k, t);
    }
    LowOnesBits(bs[k], r);
  }

  /** The exact behaviour: the check passes iff every required flag is set
      AND no other flag in the last byte it reads is set. */
  lemma ExactCheckIff(bs: seq<bv8>, n: nat)
    requires LastRequiredByte(n) < |bs|
    ensures n <= 8 * |bs|
    ensures ExactCheck(bs, n) <==> RequiredPresent(bs, n) && NoOptionalInLastByte(bs, n)
  {
    if ExactCheck(bs, n) {
      ExactCheckForward(bs, n);
    }
    if RequiredPresent(bs, n) && NoOptionalInLastByte(bs, n) {
      ExactCheckBackward(bs, n);
    }
  }

  /** A consequence: an optional flag set in the last byte read makes the
      check fail, however many required flags are set. */
  lemma OptionalFlagDefeatsCheck(bs: seq<bv8>, n: nat, j: nat)
    requires LastRequiredByte(n) < |bs|
    requires n <= j < 8 * LastRequiredByte(n) + 8
    requires Present(bs, j)
    ensures !ExactCheck(bs, n)
  {
    ExactCheckIff(bs, n);
  }

  /** When n is a positive multiple of 8 the last byte is compared with 0xFF,
      so the check is that the first n / 8 bytes are all 0xFF. */
  lemma MultipleOfEightComparesFullBytes(bs: seq<bv8>, n: nat)
    requires n > 0 && n % 8 == 0
    requires n / 8 <= |bs|
    ensures LastRequiredByte(n) == n / 8 - 1
    ensures ExactCheck(bs, n) <==> forall j :: 0 <= j < n / 8 ==> bs[j] == 0xFF
  {
    var k := LastRequiredByte(n);
    assert n - 8 * k == 8;
    assert LowOnes(8) == 0xFF;
  }

  /** The check depends only on bytes 0 through LastRequiredByte(n); in
      particular it always reads byte 0. */
  lemma ExactCheckReadsOnlyPrefix(bs: seq<bv8>, bt: seq<bv8>, n: nat)
    requires LastRequiredByte(n) < |bs| && LastRequiredByte(n) < |bt|
    requires bs[..LastRequiredByte(n) + 1] == bt[..LastRequiredByte(n) + 1]
    ensures ExactCheck(bs, n) == ExactCheck(bt, n)
  {
    var k := LastRequiredByte(n);
    assert forall j :: 0 <= j <= k ==> bs[j] == bs[..k + 1][j] == bt[..k + 1][j] == bt[j];
  }

  /** Two concrete inputs where every required flag is set and the check
      still fails: one required field with field 1 (optional) also set, and
      no required fields with field 0 (optional) set. */
  lemma ExactCheckRejectsCompleteInstances()
    ensures RequiredPresent([0x03], 1) && !ExactCheck([0x03], 1)
    ensures RequiredPresent([0x01], 0) && !ExactCheck([0x01], 0)
  {
    assert Present([0x03], 0);
    assert LowOnes(1) == 1;
    assert LowOnes(0) == 0;
  }

  /** The completeness check as evidently intended: the final byte is masked
      before it is compared, and no byte is read when there are no required
      fields. It passes exactly when every required flag is set. */
  method AllRequiredFieldsSetMasked(s: array<bv8>, m: Msg) returns (b: bool)
    requires m.numRequiredFields as int <= INT_MAX
    requires FlagBytes(m.numRequiredFields as nat) <= s.Length
    ensures b == RequiredPresent(s[..], m.numRequiredFields as nat)
  {
    ghost var n := m.numRequiredFields as nat;
    ghost var k := LastRequiredByte(n);
    var numFields: int := m.numRequiredFields as int;
    var i: int := 0;
    while numFields > 8
      invariant 0 <= i <= k
      invariant numFields == n - 8 * i
      invariant forall j :: 0 <= j < i ==> s[j] == 0xFF
    {
      if s[i] != 0xFF {
        MaskedCheckIff(s[..], n, i);
        return false;
      }
      i := i + 1;
      numFields := numFields - 8;
    }
    if numFields > 0 && (s[i] as bv16) & LowOnes(numFields) != LowOnes(numFields) {
      MaskedCheckIff(s[..], n, i);
      return false;
    }
    MaskedCheckIff(s[..], n, i);
    return true;
  }

  /** The masked check, stated on the bytes it reads. */
  predicate MaskedCheck(bs: seq<bv8>, n: nat)
    requires FlagBytes(n) <= |bs|
  {
    var k := LastRequiredByte(n);
    (forall j :: 0 <= j < k ==> bs[j] == 0xFF) &&
    (n > 0 ==> (bs[k] as bv16) & LowOnes(n - 8 * k) == LowOnes(n - 8 * k))
  }

  /** The masked check passes iff every required flag is set; a byte
      below the last one that is not 0xFF already decides it. */
  lemma MaskedCheckIff(bs: seq<bv8>, n: nat, i: nat)
    requires FlagBytes(n) <= |bs|
    requires i <= LastRequiredByte(n)
    ensures MaskedCheck(bs, n) <==> RequiredPresent(bs, n)
    ensures i < LastRequiredByte(n) && bs[i] != 0xFF ==> !RequiredPresent(bs, n)
  {
    if n > 0 {
      var k := LastRequiredByte(n);
      var r := n - 8 * k;
      LowOnesBits(bs[k], r);
      forall t: nat | t < 8 ensures Present(bs, 8 * k + t) == BitAt(bs[k], t) {
        PresentAt(bs, k, t);
      }
      if MaskedCheck(bs, n) {
        forall j: nat | j < n ensures Present(bs, j) {
          var q, t := j / 8, j % 8;
          assert j == 8 * q + t;
          PresentAt(bs, q, t);
          if q < k {
            FullByte(bs[q]);
          }
        }
      }
      if RequiredPresent(bs, n) {
        forall q | 0 <= q < k ensures bs[q] == 0xFF {
          forall t: nat | t < 8 ensures BitAt(bs[q], t) {
            PresentAt(bs, q, t);
          }
          FullByte(bs[q]);
        }
      }
    }
  }

  /** On a valid message type, "every flag below num_required_fields is set"
      means "every field whose descriptor is required is set". */
  lemma RequiredPresentMeansRequiredFieldsSet(m: Msg, bs: seq<bv8>)
    requires Valid(m)
    requires FlagBytes(m.numRequiredFields as nat) <= |bs|
    ensures RequiredPresent(bs, m.numRequiredFields as nat) <==>
            forall i :: 0 <= i < |m.fields| && m.fields[i].descriptor.required ==>
              m.fields[i].fieldIndex as int < 8 * |bs| && Present(bs, m.fields[i].fieldIndex as nat)
  {
    var n := m.numRequiredFields as nat;
    if forall i :: 0 <= i < |m.fields| && m.fields[i].descriptor.required ==>
         m.fields[i].fieldIndex as int < 8 * |bs| && Present(bs, m.fields[i].fieldIndex as nat)
    {
      forall j: nat | j < n ensures Present(bs, j) {
        assert m.fields[j].descriptor.required;
      }
    }
  }
}
