/** The lookahead condition is not only enough for the round trip: without it the round trip fails. */
module Ambiguity {
  import opened Bytes
  import opened X690
  import opened Schema
  import opened Decode
  import opened Decoded
  import opened Encode
  import opened RoundTrip

  /** Later field macros do not touch the slots of earlier ones. */
  lemma {:induction false} RunKeeps(fs: seq<Field>, i: nat, slots: seq<Value>, s: seq<byte>, n: nat, j: nat)
    requires j < i <= |fs| == |slots| && n <= |s|
    ensures Run(fs, i, slots, s, n).slots[j] == slots[j]
    decreases |fs| - i
  {
    hide DecField, Dec;
    if i < |fs| {
      match DecField(fs[i], slots[i], s[n..])
      case Fail(_) =>
      case Done(v, k) => RunKeeps(fs, i + 1, slots[i := v], s, n + k, j);
    }
  }

  /** An absent field that accepts the next present one ends up with a value. */
  lemma AbsentTaken(fs: seq<Field>, vs: seq<Value>, form: Form, i: nat, tail: seq<byte>)
    requires i < |fs| == |vs| && !ClearAt(fs, vs, i) && !Present(fs[i], vs[i])
    requires forall j :: 0 <= j < |fs| ==> WellFormedField(fs[j]) && TypedField(fs[j], vs[j])
    ensures Tried(fs[i], EncFields(fs, vs, form, i) + tail)
  {
    EncFieldFirst(fs[i], vs[i], Sub(form, i));
    FirstFromWritten(fs, vs, form, i + 1);
    assert EncFields(fs, vs, form, i) == EncFields(fs, vs, form, i + 1);
  }

  lemma {:induction false} FieldConfused(f: Field, v: Value, form: Form, rest: seq<byte>)
    requires WellFormedField(f) && TypedField(f, v) && Present(f, v) && !ClearField(f, v)
    requires |EncField(f, v, form)| <= INT_MAX
    ensures var o := DecField(f, Null, EncField(f, v, form) + rest);
            o.Done? ==> o.val != OverField(f, Null, v)
    decreases f, 1
  {
    hide Dec, DecExp, Enc, Over, Clear, Typed;
    PresentTried(f, v, form, rest);
    if f.ImpOpt? {
      RetagInverted(f.c, v, f.tag, f.typ, form, rest);
      CodecConfused(f.c, v, form, rest);
    } else if f.ExpOpt? {
      var body := Enc(f.c, v, Sub(form, 0));
      forall more ensures var o := Dec(f.c, Null, body + more); o.Done? ==> o.val != Over(f.c, Null, v) {
        CodecConfused(f.c, v, Sub(form, 0), more);
      }
      ExplicitConfused(f.c, f.tag, body, form.inf, Over(f.c, Null, v), rest);
    } else {
      CodecConfused(f.c, v, form, rest);
    }
  }

  lemma ExplicitConfused(c: Codec, tag: Tag, body: seq<byte>, inf: bool, v: Value, rest: seq<byte>)
    requires |body| <= INT_MAX
    requires forall more :: var o := Dec(c, Null, body + more); o.Done? ==> o.val != v
    ensures var o := DecExp(c, Null, Wrap(CONTEXT, tag, body, inf) + rest); o.Done? ==> o.val != v
  {
    hide Dec, DecExp, EndExp, GetObject, Wrap, Window, Body, Tail, ExpLength;
    var s := Wrap(CONTEXT, tag, body, inf) + rest;
    WrapParses(CONTEXT, tag, body, inf, rest);
    var h := GetObject(s);
    ExplicitWindow(h, s, body, rest);
    var w := Window(s, h.hlen, ExpLength(h, s));
    var more := w[|body|..];
    assert w == body + more;
    ExpOnce(c, Null, s);
    EndKeeps(h, s, Dec(c, Null, w));
  }

  /** The end of the EXPLICIT macro does not change the inner value. */
  lemma EndKeeps(h: Header, s: seq<byte>, inner: Outcome)
    requires h.Header? && h.hlen <= |s| && (inner.Done? ==> h.hlen + inner.n <= |s|)
    ensures var o := EndExp(h, s, inner); o.Done? ==> inner.Done? && o.val == inner.val
  {
  }

  /** A field decoded to something else than `v` stays that way. */
  lemma RunKeepsWrong(fs: seq<Field>, i: nat, slots: seq<Value>, s: seq<byte>, n: nat, v: Value)
    requires i < |fs| == |slots| && n <= |s|
    requires var o := DecField(fs[i], slots[i], s[n..]); o.Done? ==> o.val != v
    ensures var r := Run(fs, i, slots, s, n); r.Ran? ==> r.slots[i] != v
  {
    hide DecField, Dec;
    match DecField(fs[i], slots[i], s[n..])
    case Fail(_) =>
    case Done(w, k) => RunKeeps(fs, i + 1, slots[i := w], s, n + k, i);
  }

  lemma {:induction false} FieldsConfused(fs: seq<Field>, vs: seq<Value>, form: Form, i: nat, bad: nat,
                                          slots: seq<Value>, s: seq<byte>, n: nat, tail: seq<byte>)
    requires i <= bad < |fs| == |vs| == |slots| && n <= |s|
    requires forall j :: 0 <= j < |fs| ==> WellFormedField(fs[j]) && TypedField(fs[j], vs[j])
    requires forall j :: i <= j < |fs| ==> slots[j].Null?
    requires (forall j :: i <= j < bad ==> ClearAt(fs, vs, j)) && !ClearAt(fs, vs, bad)
    requires s[n..] == EncFields(fs, vs, form, i) + tail && Ends(tail)
    requires |EncFields(fs, vs, form, i)| <= INT_MAX
    ensures var r := Run(fs, i, slots, s, n);
            r.Ran? ==> r.slots[bad] != OverField(fs[bad], Null, vs[bad])
    decreases fs, |fs| - i
  {
    hide Run, DecField, Dec, EncFields, EncField, Over, WellFormedField, TypedField;
    var b, more := EncField(fs[i], vs[i], Sub(form, i)), EncFields(fs, vs, form, i + 1) + tail;
    FieldsSplit(fs, vs, form, i, tail);
    if i < bad {
      var v := OverField(fs[i], slots[i], vs[i]);
      NextUntried(fs, vs, form, i, tail);
      FieldBack(fs[i], vs[i], Sub(form, i), slots[i], more);
      RunStep(fs, i, slots, s, n, b, more, v);
      FieldsConfused(fs, vs, form, i + 1, bad, slots[i := v], s, n + |b|, tail);
    } else {
      if Present(fs[i], vs[i]) {
        FieldConfused(fs[i], vs[i], Sub(form, i), more);
      } else {
        AbsentTaken(fs, vs, form, i, tail);
      }
      RunKeepsWrong(fs, i, slots, s, n, OverField(fs[i], Null, vs[i]));
    }
  }

  lemma {:induction false} ElemsConfused(e: Codec, xs: seq<Value>, form: Form, i: nat, bad: nat, inf: bool,
                                         tail: seq<byte>, s: seq<byte>)
    requires i <= bad < |xs| && WellFormed(e)
    requires forall j :: 0 <= j < |xs| ==> Typed(e, xs[j])
    requires (forall j :: i <= j < bad ==> Clear(e, xs[j])) && !Clear(e, xs[bad])
    requires |EncElems(e, xs, form, i)| <= INT_MAX
    requires s == EncElems(e, xs, form, i) + tail
    ensures var r := Elems(e, inf, s);
            r.All? && |r.elems| == |xs| - i ==> r.elems[bad - i] != Over(e, Null, xs[bad])
    decreases e, 1 + |xs| - i
  {
    hide Elems, Dec, EncElems, Enc, Over;
    var b, more := Enc(e, xs[i], Sub(form, i)), EncElems(e, xs, form, i + 1) + tail;
    ElemsSplit(e, xs, form, i, tail);
    ElementStarts(e, xs[i], Sub(form, i));
    ElemsOnce(e, inf, s);
    if i < bad {
      CodecBack(e, xs[i], Sub(form, i), Null, more);
      assert s[|b|..] == more;
      ElemsConfused(e, xs, form, i + 1, bad, inf, tail, more);
    } else {
      CodecConfused(e, xs[i], Sub(form, i), more);
    }
  }

  /** The least position at which a field list is not clear. */
  lemma FirstUnclear(fs: seq<Field>, vs: seq<Value>) returns (bad: nat)
    requires |fs| == |vs| && exists i :: 0 <= i < |fs| && !ClearAt(fs, vs, i)
    ensures bad < |fs| && !ClearAt(fs, vs, bad) && forall j :: 0 <= j < bad ==> ClearAt(fs, vs, j)
  {
    bad := 0;
    while ClearAt(fs, vs, bad)
      invariant bad < |fs|
      invariant forall j :: 0 <= j < bad ==> ClearAt(fs, vs, j)
      decreases |fs| - bad
    {
      bad := bad + 1;
    }
  }

  lemma FirstUnclearElem(e: Codec, xs: seq<Value>) returns (bad: nat)
    requires exists i :: 0 <= i < |xs| && !Clear(e, xs[i])
    ensures bad < |xs| && !Clear(e, xs[bad]) && forall j :: 0 <= j < bad ==> Clear(e, xs[j])
  {
    bad := 0;
    while Clear(e, xs[bad])
      invariant bad < |xs|
      invariant forall j :: 0 <= j < bad ==> Clear(e, xs[j])
      decreases |xs| - bad
    {
      bad := bad + 1;
    }
  }

  /** A value that is not clear is never read back into a fresh object. */
  lemma {:induction false} CodecConfused(c: Codec, v: Value, form: Form, rest: seq<byte>)
    requires WellFormed(c) && Typed(c, v) && !Clear(c, v)
    requires |Enc(c, v, form)| <= INT_MAX
    ensures var o := Dec(c, Null, Enc(c, v, form) + rest); o.Done? ==> o.val != Norm(c, v)
    decreases c, 0
  {
    match c {
      case Leaf(_) =>
      case Sequence(fs) =>
        var bad := FirstUnclear(fs, v.slots);
        var body, tail := EncFields(fs, v.slots, form, 0), Tail(form.inf, rest);
        assert (body + tail)[0..] == body + tail;
        FieldsConfused(fs, v.slots, form, 0, bad, Slots(Null, |fs|), body + tail, 0, tail);
        WrapParses(UNIVERSAL, SEQUENCE, body, form.inf, rest);
        var s := Enc(c, v, form) + rest;
        SequenceOnce(fs, Null, s);
        assert Norm(c, v).slots[bad] == OverField(fs[bad], Null, v.slots[bad]);
      case ListOf(e, tag, cls, isSet) =>
        var bad := FirstUnclearElem(e, v.elems);
        var body, tail := EncElems(e, v.elems, form, 0), Tail(form.inf, rest);
        ElemsConfused(e, v.elems, form, 0, bad, form.inf, tail, body + tail);
        WrapParses(cls, tag, body, form.inf, rest);
        var s := Enc(c, v, form) + rest;
        ListOnce(e, tag, cls, isSet, Null, s);
        assert Norm(c, v).elems[bad] == Over(e, Null, v.elems[bad]);
    }
  }

  /** Normalising neither completes a value nor makes it incomplete. */
  lemma {:induction false} NormTyped(c: Codec, v: Value)
    requires Shaped(c, v)
    ensures Typed(c, Norm(c, v)) <==> Typed(c, v)
    decreases c
  {
    if !v.Null? {
      match c {
        case Leaf(_) =>
        case Sequence(fs) =>
          var ws := Norm(c, v).slots;
          forall i | 0 <= i < |fs| ensures TypedField(fs[i], ws[i]) <==> TypedField(fs[i], v.slots[i]) {
            assert ws[i] == OverField(fs[i], Null, v.slots[i]);
            NormTypedField(fs[i], v.slots[i]);
          }
        case ListOf(e, _, _, _) =>
          var ys := Norm(c, v).elems;
          forall i | 0 <= i < |v.elems| ensures Typed(e, ys[i]) <==> Typed(e, v.elems[i]) {
            NormTyped(e, v.elems[i]);
          }
      }
    }
  }

  lemma {:induction false} NormTypedField(f: Field, v: Value)
    requires ShapedField(f, v)
    ensures TypedField(f, OverField(f, Null, v)) <==> TypedField(f, v)
    decreases f
  {
    if Present(f, v) {
      NormTyped(f.c, v);
    }
  }

  /**
   Decoding the encoding of a value, in any forms and with anything after it,
   gives that value and consumes exactly those octets: if and only if, at every
   depth, no mandatory field and no list element is NULL, and no absent
   optional field accepts the first octet of the next present one.
   */
  lemma RoundTripExactly(c: Codec, v: Value, form: Form, rest: seq<byte>)
    requires WellFormed(c) && Shaped(c, v) && |Enc(c, v, form)| <= INT_MAX
    ensures Dec(c, Null, Enc(c, v, form) + rest) == Done(Norm(c, v), |Enc(c, v, form)|)
       <==> Typed(c, v) && Clear(c, v)
  {
    if !Typed(c, v) {
      CompleteReusable(c, Null);
      DecodedTyped(c, Null, Enc(c, v, form) + rest);
      NormTyped(c, v);
    } else if Clear(c, v) {
      CodecBack(c, v, form, Null, rest);
    } else {
      CodecConfused(c, v, form, rest);
    }
  }
}
