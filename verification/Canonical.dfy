/** Consequences of the round trip: distinct tags, unique decoding, stable re-encoding, reuse of objects. */
module Canonical {
  import opened Bytes
  import opened X690
  import opened Schema
  import opened Decode
  import opened Encode
  import opened RoundTrip
  import opened Ambiguity
  import opened Decoded

  /** Class and number that the first octet of a field can carry. */
  function IdsOf(f: Field): set<byte> {
    match f
    case Get(c) => TagsOf(c)
    case GetOpt(c, _) => TagsOf(c)
    case ImpOpt(_, tag, _) => {CONTEXT + tag}
    case ExpOpt(_, tag, _) => {CONTEXT + tag}
    case ListOpt(c) => TagsOf(c)
  }

  /**
   The ASN.1 rule for sequences: an optional field differs in tag from the
   optional fields after it and from the first mandatory one. It can be read
   off the macro calls, without a value.
   */
  predicate DistinctTags(c: Codec) {
    match c
    case Leaf(_) => true
    case Sequence(fs) =>
      && (forall i :: 0 <= i < |fs| ==> DistinctField(fs[i]))
      && (forall i, j :: 0 <= i < j < |fs| && Optional(fs, i, j) ==> IdsOf(fs[i]) !! IdsOf(fs[j]))
    case ListOf(e, _, _, _) => DistinctTags(e)
  }

  predicate DistinctField(f: Field) {
    DistinctTags(f.c)
  }

  /** Fields `i` to `j - 1` are optional. */
  predicate Optional(fs: seq<Field>, i: nat, j: nat)
    requires i <= j <= |fs|
  {
    forall k :: i <= k < j ==> !fs[k].Get?
  }

  lemma AcceptsOwnId(f: Field, b: byte)
    requires WellFormedField(f) && !f.Get? && Accepts(f, b)
    ensures Strip(b) in IdsOf(f)
  {
    if f.ExpOpt? {
      IdentFields(CONTEXT, f.tag, true);
    }
  }

  lemma FirstHasId(f: Field, v: Value)
    requires TypedField(f, v) && Present(f, v)
    ensures Strip(FirstOfField(f, v)) in IdsOf(f)
  {
    EncFirst(f.c, v, DER);
    if f.ExpOpt? {
      IdentFields(CONTEXT, f.tag, true);
    }
  }

  lemma NextPresent(fs: seq<Field>, vs: seq<Value>, i: nat) returns (j: nat)
    requires i <= |fs| == |vs| && FirstFrom(fs, vs, i).Some?
    ensures i <= j < |fs| && Present(fs[j], vs[j]) && FirstFrom(fs, vs, i) == Some(FirstOfField(fs[j], vs[j]))
    ensures forall k :: i <= k < j ==> !Present(fs[k], vs[k])
    decreases |fs| - i
  {
    if Present(fs[i], vs[i]) {
      j := i;
    } else {
      j := NextPresent(fs, vs, i + 1);
    }
  }

  lemma MandatoryPresent(f: Field, v: Value)
    requires TypedField(f, v) && f.Get?
    ensures Present(f, v)
  {
  }

  lemma DistinctClearAt(fs: seq<Field>, vs: seq<Value>, i: nat)
    requires i < |fs| == |vs| && !Present(fs[i], vs[i])
    requires forall j :: 0 <= j < |fs| ==> WellFormedField(fs[j]) && TypedField(fs[j], vs[j])
    requires forall i, j :: 0 <= i < j < |fs| && Optional(fs, i, j) ==> IdsOf(fs[i]) !! IdsOf(fs[j])
    ensures ClearAt(fs, vs, i)
  {
    hide FirstFrom, FirstOfField, WellFormedField, TypedField;
    if FirstFrom(fs, vs, i + 1).Some? {
      var j := NextPresent(fs, vs, i + 1);
      FirstHasId(fs[j], vs[j]);
      forall k | i <= k < j ensures !fs[k].Get? {
        if fs[k].Get? {
          MandatoryPresent(fs[k], vs[k]);
        }
      }
      assert Optional(fs, i, j);
      if Accepts(fs[i], FirstOfField(fs[j], vs[j])) {
        AcceptsOwnId(fs[i], FirstOfField(fs[j], vs[j]));
      }
    }
  }

  /** With distinct tags every value is clear, so the round trip holds for all of them. */
  lemma {:induction false} DistinctIsClear(c: Codec, v: Value)
    requires WellFormed(c) && Typed(c, v) && DistinctTags(c)
    ensures Clear(c, v)
    decreases c
  {
    match c {
      case Leaf(_) =>
      case Sequence(fs) =>
        forall i | 0 <= i < |fs| ensures ClearAt(fs, v.slots, i) {
          if Present(fs[i], v.slots[i]) {
            DistinctFieldIsClear(fs[i], v.slots[i]);
          } else {
            DistinctClearAt(fs, v.slots, i);
          }
        }
      case ListOf(e, _, _, _) =>
        forall i | 0 <= i < |v.elems| ensures Clear(e, v.elems[i]) {
          DistinctIsClear(e, v.elems[i]);
        }
    }
  }

  lemma {:induction false} DistinctFieldIsClear(f: Field, v: Value)
    requires WellFormedField(f) && TypedField(f, v) && DistinctField(f) && Present(f, v)
    ensures ClearField(f, v)
    decreases f
  {
    DistinctIsClear(f.c, v);
  }

  /** Encodings are told apart wherever they stand: no clear value's encoding is a prefix of another's. */
  lemma UniqueDecoding(c: Codec, v: Value, w: Value, f: Form, g: Form, r: seq<byte>, q: seq<byte>)
    requires WellFormed(c) && Typed(c, v) && Typed(c, w) && Clear(c, v) && Clear(c, w)
    requires |Enc(c, v, f)| <= INT_MAX && |Enc(c, w, g)| <= INT_MAX
    requires Enc(c, v, f) + r == Enc(c, w, g) + q
    ensures Norm(c, v) == Norm(c, w) && Enc(c, v, f) == Enc(c, w, g) && r == q
  {
    CodecBack(c, v, f, Null, r);
    CodecBack(c, w, g, Null, q);
    var s, n := Enc(c, v, f) + r, |Enc(c, v, f)|;
    assert s[..n] == Enc(c, v, f) && s[n..] == r;
    assert s[..n] == Enc(c, w, g) && s[n..] == q;
  }

  /** Definite and indefinite forms, mixed at any depth, decode to one value. */
  lemma FormIndependence(c: Codec, v: Value, f: Form, g: Form, prev: Value, r: seq<byte>, q: seq<byte>)
    requires WellFormed(c) && Typed(c, v) && Clear(c, v)
    requires |Enc(c, v, f)| <= INT_MAX && |Enc(c, v, g)| <= INT_MAX
    ensures var x, y := Dec(c, prev, Enc(c, v, f) + r), Dec(c, prev, Enc(c, v, g) + q);
            x.Done? && y.Done? && x.val == y.val && x.n == |Enc(c, v, f)| && y.n == |Enc(c, v, g)|
  {
    CodecBack(c, v, f, prev, r);
    CodecBack(c, v, g, prev, q);
  }

  lemma {:induction false} SameFields(fs: seq<Field>, vs: seq<Value>, ws: seq<Value>, form: Form, i: nat)
    requires i <= |fs| == |vs| == |ws|
    requires forall j, g :: 0 <= j < |fs| ==> EncField(fs[j], vs[j], g) == EncField(fs[j], ws[j], g)
    ensures EncFields(fs, vs, form, i) == EncFields(fs, ws, form, i)
    decreases |fs| - i
  {
    if i < |fs| {
      SameFields(fs, vs, ws, form, i + 1);
    }
  }

  lemma {:induction false} SameElems(e: Codec, xs: seq<Value>, ys: seq<Value>, form: Form, i: nat)
    requires i <= |xs| == |ys|
    requires forall j, g :: 0 <= j < |xs| ==> Enc(e, xs[j], g) == Enc(e, ys[j], g)
    ensures EncElems(e, xs, form, i) == EncElems(e, ys, form, i)
    decreases |xs| - i
  {
    if i < |xs| {
      SameElems(e, xs, ys, form, i + 1);
    }
  }

  /** Normalising changes neither the octets nor, a second time, the value. */
  lemma {:induction false} NormEncodesSame(c: Codec, v: Value, form: Form)
    requires Shaped(c, v)
    ensures Shaped(c, Norm(c, v)) && Enc(c, Norm(c, v), form) == Enc(c, v, form) && Norm(c, Norm(c, v)) == Norm(c, v)
    decreases c
  {
    if !v.Null? {
      match c {
        case Leaf(_) =>
        case Sequence(fs) =>
          var vs, ws := v.slots, Norm(c, v).slots;
          forall j, g | 0 <= j < |fs|
            ensures EncField(fs[j], vs[j], g) == EncField(fs[j], ws[j], g)
            ensures ShapedField(fs[j], ws[j]) && OverField(fs[j], Null, ws[j]) == ws[j]
          {
            assert ws[j] == OverField(fs[j], Null, vs[j]);
            NormFieldSame(fs[j], vs[j], g);
          }
          assert forall j :: 0 <= j < |fs| ==> EncField(fs[j], vs[j], form) == EncField(fs[j], ws[j], form);
          SameFields(fs, vs, ws, form, 0);
          assert OverSlots(fs, Slots(Null, |fs|), ws, 0) == ws;
        case ListOf(e, _, _, _) =>
          var xs, ys := v.elems, Norm(c, v).elems;
          forall j, g | 0 <= j < |xs|
            ensures Enc(e, xs[j], g) == Enc(e, ys[j], g) && Shaped(e, ys[j]) && Norm(e, ys[j]) == ys[j]
          {
            NormEncodesSame(e, xs[j], g);
          }
          assert forall j :: 0 <= j < |xs| ==> Enc(e, xs[j], form) == Enc(e, ys[j], form);
          SameElems(e, xs, ys, form, 0);
          assert NormElems(e, ys) == ys;
      }
    }
  }

  lemma {:induction false} NormFieldSame(f: Field, v: Value, form: Form)
    requires ShapedField(f, v)
    ensures var w := OverField(f, Null, v);
            && ShapedField(f, w) && OverField(f, Null, w) == w
            && EncField(f, v, form) == EncField(f, w, form)
    decreases f
  {
    hide Enc;
    EncFieldFirst(f, v, form);
    if Present(f, v) {
      NormEncodesSame(f.c, v, form);
      NormEncodesSame(f.c, v, Sub(form, 0));
    } else {
      EncFieldFirst(f, Null, form);
    }
  }

  /** No optional list macro, at any depth, is given an empty list. */
  predicate NoEmptyOptional(c: Codec, v: Value) {
    match c
    case Leaf(_) => true
    case Sequence(fs) =>
      v.Struct? && |v.slots| == |fs| ==> forall i :: 0 <= i < |fs| ==> NoEmptyOptionalField(fs[i], v.slots[i])
    case ListOf(e, _, _, _) =>
      v.List? ==> forall i :: 0 <= i < |v.elems| ==> NoEmptyOptional(e, v.elems[i])
  }

  predicate NoEmptyOptionalField(f: Field, v: Value) {
    (v == List([]) ==> !f.ListOpt? && !(f.ExpOpt? && f.list)) && NoEmptyOptional(f.c, v)
  }

  /** The normal form differs from the value in such lists, and in nothing else. */
  lemma {:induction false} NormExactly(c: Codec, v: Value)
    requires Shaped(c, v)
    ensures Norm(c, v) == v <==> NoEmptyOptional(c, v)
    decreases c
  {
    if !v.Null? {
      match c {
        case Leaf(_) =>
        case Sequence(fs) =>
          var ws := Norm(c, v).slots;
          forall i | 0 <= i < |fs| ensures ws[i] == v.slots[i] <==> NoEmptyOptionalField(fs[i], v.slots[i]) {
            assert ws[i] == OverField(fs[i], Null, v.slots[i]);
            NormFieldExactly(fs[i], v.slots[i]);
          }
        case ListOf(e, _, _, _) =>
          var ys := Norm(c, v).elems;
          forall i | 0 <= i < |v.elems| ensures ys[i] == v.elems[i] <==> NoEmptyOptional(e, v.elems[i]) {
            NormExactly(e, v.elems[i]);
          }
      }
    }
  }

  lemma {:induction false} NormFieldExactly(f: Field, v: Value)
    requires ShapedField(f, v)
    ensures OverField(f, Null, v) == v <==> NoEmptyOptionalField(f, v)
    decreases f
  {
    NormExactly(f.c, v);
  }

  /**
   The value itself comes back: with no empty optional lists, exactly when it
   is complete and clear; and of a complete and clear value, exactly when it
   has no empty optional lists.
   */
  lemma RoundTripIdentity(c: Codec, v: Value, form: Form, rest: seq<byte>)
    requires WellFormed(c) && Shaped(c, v) && |Enc(c, v, form)| <= INT_MAX
    ensures var b := Enc(c, v, form);
            var same := Dec(c, Null, b + rest) == Done(v, |b|);
            && (NoEmptyOptional(c, v) ==> (same <==> Typed(c, v) && Clear(c, v)))
            && (Typed(c, v) && Clear(c, v) ==> (same <==> NoEmptyOptional(c, v)))
  {
    RoundTripExactly(c, v, form, rest);
    NormExactly(c, v);
  }

  /** Encoding, decoding and encoding again gives the first octets, in whichever form the last step writes. */
  lemma ReencodingIsStable(c: Codec, v: Value, f: Form, g: Form, rest: seq<byte>)
    requires WellFormed(c) && Typed(c, v) && Clear(c, v) && |Enc(c, v, f)| <= INT_MAX
    ensures var o := Dec(c, Null, Enc(c, v, f) + rest);
            o.Done? && Enc(c, o.val, g) == Enc(c, v, g)
  {
    CodecBack(c, v, f, Null, rest);
    TypedIsShaped(c, v);
    NormEncodesSame(c, v, g);
  }

  /**
   What a decoder makes of any octets it accepts can be encoded again. The new
   octets decode to the same value if and only if it is clear, and are then a
   fixed point of decoding and encoding.
   */
  lemma TranscodingExactly(c: Codec, s: seq<byte>, form: Form, rest: seq<byte>)
    requires WellFormed(c) && Dec(c, Null, s).Done?
    requires |Enc(c, Dec(c, Null, s).val, form)| <= INT_MAX
    ensures var v := Dec(c, Null, s).val;
            var b := Enc(c, v, form);
            var o := Dec(c, Null, b + rest);
            && (o == Done(Norm(c, v), |b|) <==> Clear(c, v))
            && (Clear(c, v) ==> Enc(c, o.val, form) == b && Dec(c, Null, Enc(c, o.val, form) + rest) == o)
  {
    var v := Dec(c, Null, s).val;
    CompleteReusable(c, Null);
    DecodedTyped(c, Null, s);
    TypedIsShaped(c, v);
    RoundTripExactly(c, v, form, rest);
    NormEncodesSame(c, v, form);
  }

  /** At every depth, the slots of `prev` that `v` leaves absent are NULL. */
  predicate NothingStale(c: Codec, prev: Value, v: Value) {
    match c
    case Leaf(_) => true
    case Sequence(fs) =>
      prev.Struct? && v.Struct? && |prev.slots| == |v.slots| == |fs| ==>
        forall i :: 0 <= i < |fs| ==> NothingStaleField(fs[i], prev.slots[i], v.slots[i])
    case ListOf(_, _, _, _) => true
  }

  predicate NothingStaleField(f: Field, prev: Value, v: Value) {
    if Present(f, v) then NothingStale(f.c, prev, v) else prev.Null?
  }

  lemma {:induction false} StaleExactly(c: Codec, prev: Value, v: Value)
    requires Typed(c, v)
    ensures Over(c, prev, v) == Norm(c, v) <==> NothingStale(c, prev, v)
    decreases c
  {
    if c.Sequence? && prev.Struct? && |prev.slots| == |c.fields| {
      var fs := c.fields;
      var a, b := Over(c, prev, v).slots, Norm(c, v).slots;
      forall i | 0 <= i < |fs| ensures a[i] == b[i] <==> NothingStaleField(fs[i], prev.slots[i], v.slots[i]) {
        StaleFieldExactly(fs[i], prev.slots[i], v.slots[i]);
      }
    }
  }

  lemma {:induction false} StaleFieldExactly(f: Field, prev: Value, v: Value)
    requires TypedField(f, v)
    ensures OverField(f, prev, v) == OverField(f, Null, v) <==> NothingStaleField(f, prev, v)
    decreases f
  {
    if Present(f, v) {
      StaleExactly(f.c, prev, v);
    }
  }

  /**
   Decoding into an object that already exists gives what decoding into a fresh
   one gives, if and only if the object holds nothing in the slots that the
   encoding leaves out.
   */
  lemma ReuseExactly(c: Codec, prev: Value, v: Value, form: Form, rest: seq<byte>)
    requires WellFormed(c) && Typed(c, v) && Clear(c, v) && |Enc(c, v, form)| <= INT_MAX
    ensures Dec(c, prev, Enc(c, v, form) + rest) == Dec(c, Null, Enc(c, v, form) + rest) <==> NothingStale(c, prev, v)
  {
    CodecBack(c, v, form, prev, rest);
    CodecBack(c, v, form, Null, rest);
    StaleExactly(c, prev, v);
  }

  lemma OverObject(c: Codec, prev: Value, v: Value)
    ensures Over(c, prev, v).Null? <==> v.Null?
  {
  }

  /**
   Slot by slot: a field that writes no octets keeps what the object held, and
   any other holds what its own decoder makes of its octets in that slot. In a
   fresh object the first kind is NULL and the second is not.
   */
  lemma ReuseSlots(fs: seq<Field>, slots: seq<Value>, v: Value, form: Form, rest: seq<byte>, i: nat)
    requires WellFormed(Sequence(fs)) && Typed(Sequence(fs), v) && Clear(Sequence(fs), v)
    requires |Enc(Sequence(fs), v, form)| <= INT_MAX && i < |fs| == |slots|
    ensures var o := Dec(Sequence(fs), Struct(slots), Enc(Sequence(fs), v, form) + rest);
            && o.Done? && o.val.Struct? && |o.val.slots| == |fs|
            && if EncField(fs[i], v.slots[i], DER) == [] then
                 o.val.slots[i] == slots[i]
               else
                 forall g, more | |Enc(fs[i].c, v.slots[i], g)| <= INT_MAX ::
                   var b := Enc(fs[i].c, v.slots[i], g);
                   Dec(fs[i].c, slots[i], b + more) == Done(o.val.slots[i], |b|)
    ensures var o := Dec(Sequence(fs), Null, Enc(Sequence(fs), v, form) + rest);
            && o.Done? && o.val.Struct? && |o.val.slots| == |fs|
            && (o.val.slots[i].Null? <==> EncField(fs[i], v.slots[i], DER) == [])
  {
    hide Dec, Enc, EncField;
    var f, x := fs[i], v.slots[i];
    CodecBack(Sequence(fs), v, form, Struct(slots), rest);
    CodecBack(Sequence(fs), v, form, Null, rest);
    TypedIsObject(f, x);
    EncFieldFirst(f, x, DER);
    if Present(f, x) {
      assert ClearAt(fs, v.slots, i) && ClearField(f, x);
      OverObject(f.c, Null, x);
      forall g, more | |Enc(f.c, x, g)| <= INT_MAX
        ensures Dec(f.c, slots[i], Enc(f.c, x, g) + more) == Done(Over(f.c, slots[i], x), |Enc(f.c, x, g)|)
      {
        CodecBack(f.c, x, g, slots[i], more);
      }
    }
  }

  lemma PickOut(ys: seq<Value>, k: nat)
    requires k < |ys|
    ensures multiset(ys) == multiset{ys[k]} + multiset(ys[..k] + ys[k + 1..])
  {
    assert ys == ys[..k] + ([ys[k]] + ys[k + 1..]);
  }

  lemma NormPick(e: Codec, ys: seq<Value>, k: nat)
    requires k < |ys|
    ensures multiset(NormElems(e, ys)) == multiset{Norm(e, ys[k])} + multiset(NormElems(e, ys[..k] + ys[k + 1..]))
  {
    hide NormElems, Over;
    NormWithout(e, ys, k);
    PickOut(NormElems(e, ys), k);
  }

  lemma NormWithout(e: Codec, ys: seq<Value>, k: nat)
    requires k < |ys|
    ensures var zs := NormElems(e, ys);
            NormElems(e, ys[..k] + ys[k + 1..]) == zs[..k] + zs[k + 1..]
  {
    hide Over, NormElems;
  }

  /** Normalising element by element does not care for the order. */
  lemma {:induction false} NormPermutes(e: Codec, xs: seq<Value>, ys: seq<Value>)
    requires multiset(xs) == multiset(ys)
    ensures multiset(NormElems(e, xs)) == multiset(NormElems(e, ys))
    decreases |xs|
  {
    hide NormElems, Over;
    if xs == [] {
      assert |multiset(ys)| == 0;
      assert ys == xs;
    } else {
      assert xs[0] in multiset(ys);
      var k :| 0 <= k < |ys| && ys[k] == xs[0];
      var others := ys[..k] + ys[k + 1..];
      PickFirst(xs);
      PickOut(ys, k);
      CancelOne(xs[0], multiset(xs[1..]), multiset(others));
      NormPermutes(e, xs[1..], others);
      NormPick(e, xs, 0);
      NormPick(e, ys, k);
    }
  }

  lemma PickFirst(xs: seq<Value>)
    requires xs != []
    ensures xs[..0] + xs[1..] == xs[1..] && multiset(xs) == multiset{xs[0]} + multiset(xs[1..])
  {
    assert xs == [xs[0]] + xs[1..];
  }

  lemma CancelOne(x: Value, a: multiset<Value>, b: multiset<Value>)
    requires multiset{x} + a == multiset{x} + b
    ensures a == b
  {
    assert (multiset{x} + a) - multiset{x} == a && (multiset{x} + b) - multiset{x} == b;
  }

  /** An outermost SET OF: whatever order the encoder puts the elements in, decoding gives back the same multiset. */
  lemma SetOfBack(e: Codec, tag: Tag, cls: Class, isSet: bool, xs: seq<Value>, ys: seq<Value>, form: Form,
                  rest: seq<byte>)
    requires var c := ListOf(e, tag, cls, isSet);
             WellFormed(c) && Typed(c, List(ys)) && Clear(c, List(ys)) && |Enc(c, List(ys), form)| <= INT_MAX
    requires multiset(xs) == multiset(ys)
    ensures var c := ListOf(e, tag, cls, isSet);
            var o := Dec(c, Null, Enc(c, List(ys), form) + rest);
            o.Done? && o.val.List? && multiset(o.val.elems) == multiset(NormElems(e, xs))
  {
    CodecBack(ListOf(e, tag, cls, isSet), List(ys), form, Null, rest);
    NormPermutes(e, xs, ys);
  }
}
