/** What a failed decoder leaves in an object that was handed in. */
module Failure {
  import opened Bytes
  import opened X690
  import opened Schema
  import opened Decode

  /**
   The first `k` fields alone decode `m` octets into the first `k` slots; the
   next field, if there is one, fails and leaves its own slot behind; the
   slots after it are untouched.
   */
  predicate StoppedAt(fs: seq<Field>, slots: seq<Value>, s: seq<byte>, left: seq<Value>, k: nat, m: nat) {
    && k <= |fs| == |slots| == |left| && m <= |s|
    && Run(fs[..k], 0, slots[..k], s, 0) == Ran(left[..k], m)
    && (k < |fs| ==> DecField(fs[k], slots[k], s[m..]) == Fail(left[k]) && left[k + 1..] == slots[k + 1..])
  }

  /** Fields that are not there yet make no difference to those before them. */
  lemma {:induction false} RunPrefix(fs: seq<Field>, i: nat, slots: seq<Value>, s: seq<byte>, n: nat)
    returns (k: nat, m: nat)
    requires i <= |fs| == |slots| && n <= |s|
    ensures var r := Run(fs, i, slots, s, n);
            && i <= k <= |fs| && n <= m <= |s|
            && Run(fs[..k], i, slots[..k], s, n) == Ran(r.slots[..k], m)
            && (if r.Ran? then k == |fs| && m == r.n
                else k < |fs| && DecField(fs[k], slots[k], s[m..]) == Fail(r.slots[k])
                     && r.slots[k + 1..] == slots[k + 1..])
    decreases |fs| - i
  {
    hide Run, DecField, Dec;
    if i == |fs| {
      k, m := i, n;
      assert fs[..k] == fs && slots[..k] == slots;
      RunEnd(fs, slots, s, n);
    } else {
      var o := DecField(fs[i], slots[i], s[n..]);
      RunOnce(fs, i, slots, s, n, o);
      if o.Fail? {
        k, m := i, n;
        RunEnd(fs[..i], slots[..i], s, n);
      } else {
        k, m := RunPrefix(fs, i + 1, slots[i := o.val], s, n + o.n);
        assert slots[i := o.val][..k] == slots[..k][i := o.val];
        RunOnce(fs[..k], i, slots[..k], s, n, o);
      }
    }
  }

  /**
   A decoder that fails on an object leaves it alone when the header is wrong.
   Otherwise it holds what the fields before the error made of their octets,
   and what the field at the error left; with no field at the error, the
   contents did not end where the fields did.
   */
  lemma FailureLeaves(fs: seq<Field>, slots: seq<Value>, s: seq<byte>) returns (k: nat, m: nat)
    requires |fs| == |slots| && Dec(Sequence(fs), Struct(slots), s).Fail?
    ensures var h, left := GetObject(s), Dec(Sequence(fs), Struct(slots), s).left;
            && left.Struct?
            && if h.Header? && s[0] == 0x30 then
                 && StoppedAt(fs, slots, Body(h, s), left.slots, k, m)
                 && (k == |fs| ==> if h.inf then !([0, 0] <= s[h.hlen + m..]) else m != h.len)
               else
                 left.slots == slots
  {
    hide Run, Dec, GetObject;
    var h := GetObject(s);
    SequenceOnce(fs, Struct(slots), s);
    k, m := 0, 0;
    if h.Header? {
      HeadOctet(s);
      if s[0] == 0x30 {
        IdentFields(UNIVERSAL, SEQUENCE, true);
        assert Heads(h, UNIVERSAL, SEQUENCE);
        var body := Body(h, s);
        assert body[0..] == body;
        k, m := RunPrefix(fs, 0, slots, body, 0);
        if h.inf {
          assert body[m..] == s[h.hlen + m..];
        }
      }
    }
  }

  /**
   A list decoder, and a function whose code is elsewhere, are taken to leave
   a slot as it was when they fail; a sequence decoder does so for a NULL slot,
   and before it has seen a sequence header.
   */
  lemma FailureKeeps(c: Codec, prev: Value, s: seq<byte>)
    requires Dec(c, prev, s).Fail? && (c.Sequence? ==> prev.Null? || GetObject(s).Bad? || s[0] != 0x30)
    ensures Dec(c, prev, s).left == prev
  {
    hide GetObject, Run, Elems;
    if GetObject(s).Header? {
      HeadOctet(s);
    }
  }
}
