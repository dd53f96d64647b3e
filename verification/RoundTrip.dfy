/** Decoding inverts encoding, exactly when no absent optional field is mistaken for a later one. */
module RoundTrip {
  import opened Bytes
  import opened X690
  import opened Schema
  import opened Decode
  import opened Encode

  /** Object `prev` after the value `v` has been decoded into it: absent fields keep what was there. */
  function Over(c: Codec, prev: Value, v: Value): Value
    decreases c, 0
  {
    match c
    case Leaf(_) => v
    case Sequence(fs) =>
      if v.Struct? && |v.slots| == |fs| then Struct(OverSlots(fs, Slots(prev, |fs|), v.slots, 0)) else v
    case ListOf(e, _, _, _) =>
      if v.List? then List(NormElems(e, v.elems)) else v
  }

  function OverSlots(fs: seq<Field>, slots: seq<Value>, vs: seq<Value>, i: nat): (r: seq<Value>)
    requires i <= |fs| == |slots| == |vs|
    ensures |r| == |fs|
    ensures forall j :: 0 <= j < i ==> r[j] == slots[j]
    ensures forall j :: i <= j < |fs| ==> r[j] == OverField(fs[j], slots[j], vs[j])
    decreases fs, |fs| - i
  {
    if i == |fs| then slots else OverSlots(fs, slots[i := OverField(fs[i], slots[i], vs[i])], vs, i + 1)
  }

  function OverField(f: Field, prev: Value, v: Value): Value
    decreases f, 0
  {
    if Present(f, v) then Over(f.c, prev, v) else prev
  }

  function NormElems(e: Codec, xs: seq<Value>): (r: seq<Value>)
    ensures |r| == |xs|
    ensures forall i :: 0 <= i < |xs| ==> r[i] == Over(e, Null, xs[i])
    decreases e, 1 + |xs|
  {
    if xs == [] then [] else [Over(e, Null, xs[0])] + NormElems(e, xs[1..])
  }

  /** A value as a fresh object holds it: optional lists that are empty become NULL, at every depth. */
  function Norm(c: Codec, v: Value): Value {
    Over(c, Null, v)
  }

  /** The first octet that the fields from the `i`th on write. */
  function FirstFrom(fs: seq<Field>, vs: seq<Value>, i: nat): Option<byte>
    requires i <= |fs| == |vs|
    decreases |fs| - i
  {
    if i == |fs| then None
    else if Present(fs[i], vs[i]) then Some(FirstOfField(fs[i], vs[i]))
    else FirstFrom(fs, vs, i + 1)
  }

  /** No absent optional field accepts the first octet of the next present field, at any depth. */
  predicate Clear(c: Codec, v: Value)
    decreases c, 0
  {
    match c
    case Leaf(_) => true
    case Sequence(fs) =>
      v.Struct? && |v.slots| == |fs| ==> forall i :: 0 <= i < |fs| ==> ClearAt(fs, v.slots, i)
    case ListOf(e, _, _, _) =>
      v.List? ==> forall i :: 0 <= i < |v.elems| ==> Clear(e, v.elems[i])
  }

  predicate ClearAt(fs: seq<Field>, vs: seq<Value>, i: nat)
    requires i < |fs| == |vs|
    decreases fs, 0
  {
    if Present(fs[i], vs[i]) then
      ClearField(fs[i], vs[i])
    else
      var next := FirstFrom(fs, vs, i + 1);
      next.Some? ==> !Accepts(fs[i], next.value)
  }

  predicate ClearField(f: Field, v: Value)
    decreases f, 0
  {
    Clear(f.c, v)
  }

  /** What stops a field list: the end of the window, or an end-of-contents octet. */
  predicate Ends(s: seq<byte>) {
    s == [] || s[0] == 0
  }

  /** No optional field takes the end of its sequence for itself. */
  lemma EndsUntried(f: Field, s: seq<byte>)
    requires WellFormedField(f) && !f.Get? && Ends(s)
    ensures !Tried(f, s)
  {
    if s != [] && f.GetOpt? {
      match f.c {
        case Leaf(_) =>
        case Sequence(_) =>
        case ListOf(_, _, _, _) =>
      }
    }
  }

  lemma {:induction false} FirstFromWritten(fs: seq<Field>, vs: seq<Value>, form: Form, i: nat)
    requires i <= |fs| == |vs|
    requires forall j :: 0 <= j < |fs| ==> TypedField(fs[j], vs[j])
    ensures var b, first := EncFields(fs, vs, form, i), FirstFrom(fs, vs, i);
            if first.Some? then b != [] && b[0] == first.value else b == []
    decreases |fs| - i
  {
    if i < |fs| {
      TypedIsObject(fs[i], vs[i]);
      EncFieldFirst(fs[i], vs[i], Sub(form, i));
      FirstFromWritten(fs, vs, form, i + 1);
    }
  }

  /** The encoder's overwrite of the tag octet, undone by the decoder's. */
  lemma RetagInverted(c: Codec, v: Value, tag: Tag, typ: Tag, form: Form, rest: seq<byte>)
    requires Typed(c, v) && TagsOf(c) == {typ}
    ensures var b := Enc(c, v, form);
            var s := Retag(tag, b) + rest;
            && |Retag(tag, b)| == |b| && b != []
            && Strip(s[0]) == CONTEXT + tag
            && s[0 := ConsBit(s[0]) + typ] == b + rest
  {
    hide Enc, First;
    EncFirst(c, v, form);
  }

  /** A field that was written is tried, and then read back, when the value it carries is. */
  lemma {:induction false} FieldBack(f: Field, v: Value, form: Form, prev: Value, rest: seq<byte>)
    requires WellFormedField(f) && TypedField(f, v)
    requires |EncField(f, v, form)| <= INT_MAX
    requires if Present(f, v) then ClearField(f, v) else !Tried(f, rest)
    ensures DecField(f, prev, EncField(f, v, form) + rest)
         == Done(OverField(f, prev, v), |EncField(f, v, form)|)
    decreases f, 1
  {
    hide Dec, DecExp, Enc, Over, Clear, Typed;
    TypedIsObject(f, v);
    EncFieldFirst(f, v, form);
    var b := EncField(f, v, form);
    if !Present(f, v) {
      assert b + rest == rest;
    } else {
      PresentTried(f, v, form, rest);
      if f.ImpOpt? {
        RetagInverted(f.c, v, f.tag, f.typ, form, rest);
        CodecBack(f.c, v, form, prev, rest);
      } else if f.ExpOpt? {
        ExplicitBack(f, v, form, prev, rest);
      } else {
        CodecBack(f.c, v, form, prev, rest);
      }
    }
  }

  lemma PresentTried(f: Field, v: Value, form: Form, rest: seq<byte>)
    requires WellFormedField(f) && TypedField(f, v) && Present(f, v)
    ensures Tried(f, EncField(f, v, form) + rest)
  {
    TypedIsObject(f, v);
    EncFieldFirst(f, v, form);
    EncFirst(f.c, v, form);
    if f.ImpOpt? {
      RetagInverted(f.c, v, f.tag, f.typ, form, rest);
    }
  }

  /** The window that the EXPLICIT macro gives to the inner function, and what it finds behind it. */
  lemma ExplicitWindow(h: Header, s: seq<byte>, body: seq<byte>, rest: seq<byte>)
    requires h.Header? && h.hlen <= |s| && (!h.inf ==> h.len == |body|)
    requires s[h.hlen..] == body + (if h.inf then [0, 0] else []) + rest
    ensures var tlen := ExpLength(h, s);
            h.hlen + tlen <= |s| && tlen >= |body| && Window(s, h.hlen, tlen)[..|body|] == body
    ensures h.inf ==> Eoc(s[h.hlen + |body|..])
  {
    var after := s[h.hlen..];
    var tlen := ExpLength(h, s);
    assert |after| == |body| + (if h.inf then 2 else 0) + |rest|;
    var w := Window(s, h.hlen, tlen);
    assert |body| <= |w|;
    assert forall k :: 0 <= k < |body| ==> w[k] == after[k] == body[k];
    assert s[h.hlen + |body|..] == after[|body|..];
  }

  /** The EXPLICIT macro around an inner value that is read back wherever it stands. */
  lemma ExplicitStep(c: Codec, tag: Tag, body: seq<byte>, inf: bool, v: Value, prev: Value, rest: seq<byte>)
    requires |body| <= INT_MAX
    requires forall more :: Dec(c, prev, body + more) == Done(v, |body|)
    ensures DecExp(c, prev, Wrap(CONTEXT, tag, body, inf) + rest) == Done(v, |Wrap(CONTEXT, tag, body, inf)|)
  {
    hide Dec, DecExp, GetObject, Wrap, Window, Body;
    var s := Wrap(CONTEXT, tag, body, inf) + rest;
    WrapParses(CONTEXT, tag, body, inf, rest);
    var h := GetObject(s);
    ExplicitWindow(h, s, body, rest);
    var w := Window(s, h.hlen, ExpLength(h, s));
    assert w == body + w[|body|..];
    ExpOnce(c, prev, s);
  }

  lemma {:induction false} ExplicitBack(f: Field, v: Value, form: Form, prev: Value, rest: seq<byte>)
    requires f.ExpOpt? && WellFormedField(f) && TypedField(f, v) && Present(f, v) && Clear(f.c, v)
    requires |EncField(f, v, form)| <= INT_MAX
    ensures DecExp(f.c, prev, EncField(f, v, form) + rest)
         == Done(Over(f.c, prev, v), |EncField(f, v, form)|)
    decreases f, 0
  {
    var body := Enc(f.c, v, Sub(form, 0));
    forall more ensures Dec(f.c, prev, body + more) == Done(Over(f.c, prev, v), |body|) {
      CodecBack(f.c, v, Sub(form, 0), prev, more);
    }
    ExplicitStep(f.c, f.tag, body, form.inf, Over(f.c, prev, v), prev, rest);
  }

  lemma FieldsSplit(fs: seq<Field>, vs: seq<Value>, form: Form, i: nat, tail: seq<byte>)
    requires i < |fs| == |vs|
    ensures var b := EncField(fs[i], vs[i], Sub(form, i));
            && EncFields(fs, vs, form, i) + tail == b + (EncFields(fs, vs, form, i + 1) + tail)
            && |EncFields(fs, vs, form, i)| == |b| + |EncFields(fs, vs, form, i + 1)|
  {
  }

  lemma ElemsSplit(e: Codec, xs: seq<Value>, form: Form, i: nat, tail: seq<byte>)
    requires i < |xs|
    ensures var b := Enc(e, xs[i], Sub(form, i));
            && EncElems(e, xs, form, i) + tail == b + (EncElems(e, xs, form, i + 1) + tail)
            && |EncElems(e, xs, form, i)| == |b| + |EncElems(e, xs, form, i + 1)|
  {
  }

  lemma RunStep(fs: seq<Field>, i: nat, slots: seq<Value>, s: seq<byte>, n: nat,
                b: seq<byte>, more: seq<byte>, v: Value)
    requires i < |fs| == |slots| && n <= |s|
    requires s[n..] == b + more && DecField(fs[i], slots[i], b + more) == Done(v, |b|)
    ensures n + |b| <= |s| && s[n + |b|..] == more
    ensures Run(fs, i, slots, s, n) == Run(fs, i + 1, slots[i := v], s, n + |b|)
  {
    hide Dec, DecField, Run;
    assert s[n + |b|..] == s[n..][|b|..] == more;
    RunOnce(fs, i, slots, s, n, Done(v, |b|));
  }

  lemma {:induction false} FieldsBack(fs: seq<Field>, vs: seq<Value>, form: Form, i: nat,
                                      slots: seq<Value>, s: seq<byte>, n: nat, tail: seq<byte>)
    requires i <= |fs| == |vs| == |slots| && n <= |s|
    requires forall j :: 0 <= j < |fs| ==> WellFormedField(fs[j]) && TypedField(fs[j], vs[j])
    requires forall j :: i <= j < |fs| ==> ClearAt(fs, vs, j)
    requires s[n..] == EncFields(fs, vs, form, i) + tail && Ends(tail)
    requires |EncFields(fs, vs, form, i)| <= INT_MAX
    ensures Run(fs, i, slots, s, n) == Ran(OverSlots(fs, slots, vs, i), n + |EncFields(fs, vs, form, i)|)
    decreases fs, |fs| - i
  {
    hide Run, DecField, Dec, EncFields, EncField, OverField, Over, ClearAt, WellFormedField, TypedField, Tried;
    if i < |fs| {
      var b, more := EncField(fs[i], vs[i], Sub(form, i)), EncFields(fs, vs, form, i + 1) + tail;
      var v := OverField(fs[i], slots[i], vs[i]);
      FieldsSplit(fs, vs, form, i, tail);
      NextUntried(fs, vs, form, i, tail);
      FieldBack(fs[i], vs[i], Sub(form, i), slots[i], more);
      RunStep(fs, i, slots, s, n, b, more, v);
      FieldsBack(fs, vs, form, i + 1, slots[i := v], s, n + |b|, tail);
    } else {
      FieldsEnd(fs, vs, form, slots, s, n);
    }
  }

  lemma FieldsEnd(fs: seq<Field>, vs: seq<Value>, form: Form, slots: seq<Value>, s: seq<byte>, n: nat)
    requires |fs| == |vs| == |slots| && n <= |s|
    ensures EncFields(fs, vs, form, |fs|) == []
    ensures Run(fs, |fs|, slots, s, n) == Ran(slots, n) && OverSlots(fs, slots, vs, |fs|) == slots
  {
  }

  /** A clear absent field does not take what the later fields write, nor the end of the sequence. */
  lemma NextUntried(fs: seq<Field>, vs: seq<Value>, form: Form, i: nat, tail: seq<byte>)
    requires i < |fs| == |vs| && Ends(tail) && ClearAt(fs, vs, i)
    requires forall j :: 0 <= j < |fs| ==> WellFormedField(fs[j]) && TypedField(fs[j], vs[j])
    ensures if Present(fs[i], vs[i]) then ClearField(fs[i], vs[i])
            else !Tried(fs[i], EncFields(fs, vs, form, i + 1) + tail)
  {
    FirstFromWritten(fs, vs, form, i + 1);
    if !Present(fs[i], vs[i]) && EncFields(fs, vs, form, i + 1) == [] {
      EndsUntried(fs[i], tail);
      assert EncFields(fs, vs, form, i + 1) + tail == tail;
    }
  }

  lemma ElemsStep(e: Codec, inf: bool, b: seq<byte>, more: seq<byte>, v: Value, ys: seq<Value>, m: nat)
    requires b != [] && b[0] != 0 && Dec(e, Null, b + more) == Done(v, |b|)
    requires Elems(e, inf, more) == All(ys, m)
    ensures Elems(e, inf, b + more) == All([v] + ys, |b| + m)
  {
    hide Dec, Elems;
    ElemsOnce(e, inf, b + more);
    assert (b + more)[|b|..] == more;
  }

  lemma ElemsEnd(e: Codec, xs: seq<Value>, form: Form, inf: bool, rest: seq<byte>)
    ensures Elems(e, inf, EncElems(e, xs, form, |xs|) + Tail(inf, rest)) == All([], if inf then 2 else 0)
    ensures NormElems(e, xs[|xs|..]) == [] && EncElems(e, xs, form, |xs|) == []
  {
    assert EncElems(e, xs, form, |xs|) + Tail(inf, rest) == Tail(inf, rest);
  }

  lemma {:induction false} ElemsBack(e: Codec, xs: seq<Value>, form: Form, i: nat, inf: bool,
                                     rest: seq<byte>, s: seq<byte>) returns (ys: seq<Value>, m: nat)
    requires i <= |xs| && WellFormed(e)
    requires forall j :: 0 <= j < |xs| ==> Typed(e, xs[j])
    requires forall j :: i <= j < |xs| ==> Clear(e, xs[j])
    requires |EncElems(e, xs, form, i)| <= INT_MAX
    requires s == EncElems(e, xs, form, i) + Tail(inf, rest)
    ensures ys == NormElems(e, xs[i..]) && m == |EncElems(e, xs, form, i)| + if inf then 2 else 0
    ensures Elems(e, inf, s) == All(ys, m)
    decreases e, 1 + |xs| - i
  {
    hide Elems, EncElems, NormElems, Dec, Enc, Over;
    if i == |xs| {
      ElemsEnd(e, xs, form, inf, rest);
      ys, m := [], if inf then 2 else 0;
    } else {
      var b, more := Enc(e, xs[i], Sub(form, i)), EncElems(e, xs, form, i + 1) + Tail(inf, rest);
      ElemsSplit(e, xs, form, i, Tail(inf, rest));
      ElementStarts(e, xs[i], Sub(form, i));
      CodecBack(e, xs[i], Sub(form, i), Null, more);
      ys, m := ElemsBack(e, xs, form, i + 1, inf, rest, more);
      NormStep(e, xs, i);
      ElemsStep(e, inf, b, more, Over(e, Null, xs[i]), ys, m);
      ys, m := [Over(e, Null, xs[i])] + ys, |b| + m;
    }
  }

  lemma NormStep(e: Codec, xs: seq<Value>, i: nat)
    requires i < |xs|
    ensures NormElems(e, xs[i..]) == [Over(e, Null, xs[i])] + NormElems(e, xs[i + 1..])
  {
    assert xs[i..][0] == xs[i] && xs[i..][1..] == xs[i + 1..];
  }

  /** No element starts like the end of the contents. */
  lemma ElementStarts(c: Codec, v: Value, form: Form)
    requires WellFormed(c) && Typed(c, v)
    ensures Enc(c, v, form) != [] && Enc(c, v, form)[0] != 0
  {
    EncFirst(c, v, form);
    TagNonZero(c);
  }

  lemma TagNonZero(c: Codec)
    requires WellFormed(c)
    ensures 0 !in TagsOf(c)
  {
  }

  lemma TailDrop(body: seq<byte>, inf: bool, rest: seq<byte>)
    ensures var t := body + Tail(inf, rest);
            t[|body|..] == Tail(inf, rest) && if inf then Eoc(t[|body|..]) else |t| == |body|
  {
  }

  lemma SequenceStep(fs: seq<Field>, prev: Value, body: seq<byte>, inf: bool, rest: seq<byte>, slots: seq<Value>)
    requires |body| <= INT_MAX
    requires Run(fs, 0, Slots(prev, |fs|), body + Tail(inf, rest), 0) == Ran(slots, |body|)
    ensures var w := Wrap(UNIVERSAL, SEQUENCE, body, inf);
            Dec(Sequence(fs), prev, w + rest) == Done(Struct(slots), |w|)
  {
    hide Dec, Run, GetObject, Wrap;
    WrapParses(UNIVERSAL, SEQUENCE, body, inf, rest);
    TailDrop(body, inf, rest);
    SequenceOnce(fs, prev, Wrap(UNIVERSAL, SEQUENCE, body, inf) + rest);
  }

  lemma ListStep(e: Codec, tag: Tag, cls: Class, isSet: bool, prev: Value, body: seq<byte>, inf: bool, rest: seq<byte>,
                 xs: seq<Value>)
    requires |body| <= INT_MAX
    requires Elems(e, inf, body + Tail(inf, rest)) == All(xs, |body| + if inf then 2 else 0)
    ensures var w := Wrap(cls, tag, body, inf);
            Dec(ListOf(e, tag, cls, isSet), prev, w + rest) == Done(List(xs), |w|)
  {
    WrapParses(cls, tag, body, inf, rest);
  }

  lemma LeafBack(l: Leaf, v: Value, form: Form, prev: Value, rest: seq<byte>)
    requires Typed(Leaf(l), v)
    ensures var b := Enc(Leaf(l), v, form); Dec(Leaf(l), prev, b + rest) == Done(v, |b|)
  {
  }

  /** Decoding what was written, into any object and with anything after it. */
  lemma {:induction false} CodecBack(c: Codec, v: Value, form: Form, prev: Value, rest: seq<byte>)
    requires WellFormed(c) && Typed(c, v) && Clear(c, v)
    requires |Enc(c, v, form)| <= INT_MAX
    ensures Dec(c, prev, Enc(c, v, form) + rest) == Done(Over(c, prev, v), |Enc(c, v, form)|)
    decreases c, 0
  {
    hide Run, Elems, Dec, EncFields, EncElems, NormElems, OverSlots;
    match c {
      case Leaf(l) => LeafBack(l, v, form, prev, rest);
      case Sequence(fs) =>
        var body, tail := EncFields(fs, v.slots, form, 0), Tail(form.inf, rest);
        assert (body + tail)[0..] == body + tail;
        FieldsBack(fs, v.slots, form, 0, Slots(prev, |fs|), body + tail, 0, tail);
        SequenceStep(fs, prev, body, form.inf, rest, OverSlots(fs, Slots(prev, |fs|), v.slots, 0));
      case ListOf(e, tag, cls, isSet) =>
        var body := EncElems(e, v.elems, form, 0);
        assert v.elems[0..] == v.elems;
        var _, _ := ElemsBack(e, v.elems, form, 0, form.inf, rest, body + Tail(form.inf, rest));
        ListStep(e, tag, cls, isSet, prev, body, form.inf, rest, NormElems(e, v.elems));
    }
  }
}
