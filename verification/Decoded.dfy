/** What a successful decoder leaves in the object it fills. */
module Decoded {
  import opened Bytes
  import opened X690
  import opened Schema
  import opened Decode

  /** An object that decoding can fill without leaving anything incomplete: its optional slots are NULL or complete. */
  predicate Reusable(c: Codec, prev: Value) {
    match c
    case Leaf(_) => true
    case Sequence(fs) =>
      prev.Struct? && |prev.slots| == |fs| ==> forall i :: 0 <= i < |fs| ==> ReusableField(fs[i], prev.slots[i])
    case ListOf(_, _, _, _) => true
  }

  predicate ReusableField(f: Field, prev: Value) {
    Reusable(f.c, prev) && (f.Get? || prev.Null? || Typed(f.c, prev))
  }

  /** A NULL pointer and a complete object are reusable. */
  lemma {:induction false} CompleteReusable(c: Codec, prev: Value)
    requires prev.Null? || Typed(c, prev)
    ensures Reusable(c, prev)
    decreases c
  {
    if c.Sequence? && !prev.Null? {
      var fs := c.fields;
      forall i | 0 <= i < |fs| ensures ReusableField(fs[i], prev.slots[i]) {
        CompleteReusableField(fs[i], prev.slots[i]);
      }
    }
  }

  lemma {:induction false} CompleteReusableField(f: Field, prev: Value)
    requires prev.Null? || TypedField(f, prev)
    ensures ReusableField(f, prev)
    decreases f
  {
    CompleteReusable(f.c, prev);
  }

  lemma {:induction false} RunTyped(fs: seq<Field>, i: nat, slots: seq<Value>, s: seq<byte>, n: nat)
    requires i <= |fs| == |slots| && n <= |s|
    requires forall j :: 0 <= j < i ==> TypedField(fs[j], slots[j])
    requires forall j :: i <= j < |fs| ==> ReusableField(fs[j], slots[j])
    ensures var r := Run(fs, i, slots, s, n);
            r.Ran? ==> forall j :: 0 <= j < |fs| ==> TypedField(fs[j], r.slots[j])
    decreases fs, |fs| - i
  {
    hide DecField, Dec, TypedField, ReusableField;
    if i < |fs| {
      FieldTyped(fs[i], slots[i], s[n..]);
      match DecField(fs[i], slots[i], s[n..])
      case Fail(_) =>
      case Done(v, k) => RunTyped(fs, i + 1, slots[i := v], s, n + k);
    }
  }

  lemma {:induction false} FieldTyped(f: Field, prev: Value, s: seq<byte>)
    requires ReusableField(f, prev)
    ensures var o := DecField(f, prev, s); o.Done? ==> TypedField(f, o.val)
    decreases f
  {
    hide Dec, DecExp, Typed, GetObject, Reusable;
    if Tried(f, s) {
      match f {
        case Get(c) => DecodedTyped(c, prev, s);
        case GetOpt(c, _) => DecodedTyped(c, prev, s);
        case ImpOpt(c, _, typ) => DecodedTyped(c, prev, s[0 := ConsBit(s[0]) + typ]);
        case ExpOpt(c, _, _) =>
          var h := GetObject(s);
          ExpOnce(c, prev, s);
          if h.Header? {
            DecodedTyped(c, prev, Window(s, h.hlen, ExpLength(h, s)));
          }
        case ListOpt(c) => DecodedTyped(c, prev, s);
      }
    }
  }

  lemma {:induction false} ElemsTyped(e: Codec, inf: bool, s: seq<byte>)
    ensures var r := Elems(e, inf, s); r.All? ==> forall j :: 0 <= j < |r.elems| ==> Typed(e, r.elems[j])
    decreases e, 1 + |s|
  {
    hide Dec, Elems;
    CompleteReusable(e, Null);
    DecodedTyped(e, Null, s);
    ElemsOnce(e, inf, s);
    match Dec(e, Null, s)
    case Fail(_) =>
    case Done(_, n) => ElemsTyped(e, inf, s[n..]);
  }

  /** Whatever octets a decoder accepts, into a fresh object or a reused one, the object it returns is complete. */
  lemma {:induction false} DecodedTyped(c: Codec, prev: Value, s: seq<byte>)
    requires Reusable(c, prev)
    ensures var o := Dec(c, prev, s); o.Done? ==> Typed(c, o.val)
    decreases c, 0
  {
    hide Run, Elems, GetObject, Body;
    match c {
      case Leaf(_) =>
      case Sequence(fs) =>
        var h := GetObject(s);
        SequenceOnce(fs, prev, s);
        if Heads(h, UNIVERSAL, SEQUENCE) {
          forall i | 0 <= i < |fs| ensures ReusableField(fs[i], Slots(prev, |fs|)[i]) {
            CompleteReusableField(fs[i], Null);
          }
          RunTyped(fs, 0, Slots(prev, |fs|), Body(h, s), 0);
        }
      case ListOf(e, tag, cls, isSet) =>
        var h := GetObject(s);
        ListOnce(e, tag, cls, isSet, prev, s);
        if Heads(h, cls, tag) {
          ElemsTyped(e, h.inf, Body(h, s));
        }
    }
  }
}
