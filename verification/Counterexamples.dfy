/** Inputs on which the exact conditions of the other modules fail. */
module Counterexamples {
  import opened Bytes
  import opened X690
  import opened Schema
  import opened Decode
  import opened Encode
  import opened RoundTrip
  import opened Ambiguity
  import opened Locality

  function OctetString(): Leaf {
    OctetsMeetContract(4);
    Octets(4)
  }

  /** An optional OCTET STRING in front of a mandatory one. */
  function TwoStrings(): Codec {
    Sequence([GetOpt(Leaf(OctetString()), 4), Get(Leaf(OctetString()))])
  }

  /** The optional field takes the mandatory one's octets: no such value is clear, or survives the round trip. */
  lemma OptionalSwallows(x: seq<byte>, form: Form, rest: seq<byte>)
    requires |x| <= INT_MAX
    ensures var v := Struct([Null, Prim(x)]);
            && WellFormed(TwoStrings()) && Typed(TwoStrings(), v) && !Clear(TwoStrings(), v)
            && (|Enc(TwoStrings(), v, form)| <= INT_MAX ==>
                  var o := Dec(TwoStrings(), Null, Enc(TwoStrings(), v, form) + rest); o.Done? ==> o.val != v)
  {
    hide Dec, GetObject, Enc, OctetsDec;
    var c, v := TwoStrings(), Struct([Null, Prim(x)]);
    TwoStringsUnclear(c.fields, x);
    if |Enc(c, v, form)| <= INT_MAX {
      CodecConfused(c, v, form, rest);
    }
    assert Norm(c, v).slots == [Null, Prim(x)];
  }

  lemma TwoStringsUnclear(fs: seq<Field>, x: seq<byte>)
    requires fs == TwoStrings().fields && |x| <= INT_MAX
    ensures forall i :: 0 <= i < 2 ==> WellFormedField(fs[i]) && TypedField(fs[i], [Null, Prim(x)][i])
    ensures !ClearAt(fs, [Null, Prim(x)], 0)
  {
    hide OctetString, Octets, LeafContract, OctetsDec, GetObject, LenOctets;
    var vs := [Null, Prim(x)];
    StringOctets(x);
    assert fs[0] == GetOpt(Leaf(OctetString()), 4) && fs[1] == Get(Leaf(OctetString()));
    assert TypedField(fs[0], vs[0]) && TypedField(fs[1], vs[1]);
    assert Present(fs[1], vs[1]) && FirstFrom(fs, vs, 1) == Some(4);
  }

  lemma StringOctets(x: seq<byte>)
    requires |x| <= INT_MAX
    ensures var l := OctetString(); l.ids == {4} && l.valid(x) && l.enc(x) != [] && l.enc(x)[0] == 4
  {
  }

  /** A mandatory OCTET STRING in front of an optional one. */
  function MandatoryFirst(): Codec {
    Sequence([Get(Leaf(OctetString())), GetOpt(Leaf(OctetString()), 4)])
  }

  /** NULL in the mandatory field is encoded all the same, and comes back as another value. */
  lemma NullShifts(x: seq<byte>, form: Form, rest: seq<byte>)
    requires |x| <= INT_MAX
    ensures var v, w := Struct([Null, Prim(x)]), Struct([Prim(x), Null]);
            var b := Enc(MandatoryFirst(), v, form);
            && Shaped(MandatoryFirst(), v) && !Typed(MandatoryFirst(), v)
            && b == Enc(MandatoryFirst(), w, form)
            && (|b| <= INT_MAX ==> Dec(MandatoryFirst(), Null, b + rest) == Done(w, |b|))
  {
    hide Dec, GetObject, OctetsDec, Wrap;
    var c, v, w := MandatoryFirst(), Struct([Null, Prim(x)]), Struct([Prim(x), Null]);
    NullShiftsOctets(c.fields, x, form);
    if |Enc(c, v, form)| <= INT_MAX {
      CodecBack(c, w, form, Null, rest);
      assert Norm(c, w).slots == [Prim(x), Null];
    }
  }

  lemma NullShiftsOctets(fs: seq<Field>, x: seq<byte>, form: Form)
    requires fs == MandatoryFirst().fields && |x| <= INT_MAX
    ensures forall i :: 0 <= i < 2 ==> WellFormedField(fs[i]) && ShapedField(fs[i], [Null, Prim(x)][i])
    ensures forall i :: 0 <= i < 2 ==> TypedField(fs[i], [Prim(x), Null][i]) && ClearAt(fs, [Prim(x), Null], i)
    ensures !TypedField(fs[0], Null)
    ensures EncFields(fs, [Null, Prim(x)], form, 0) == EncFields(fs, [Prim(x), Null], form, 0)
  {
    hide OctetString, Octets, LeafContract, OctetsDec, GetObject, LenOctets;
    StringOctets(x);
    var vs, ws := [Null, Prim(x)], [Prim(x), Null];
    assert fs[0] == Get(Leaf(OctetString())) && fs[1] == GetOpt(Leaf(OctetString()), 4);
    assert FirstFrom(fs, ws, 2) == None;
    assert ClearAt(fs, ws, 0) && ClearAt(fs, ws, 1);
    assert EncFields(fs, vs, form, 1) == EncField(fs[1], vs[1], Sub(form, 1)) + EncFields(fs, vs, form, 2);
    assert EncFields(fs, ws, form, 1) == EncField(fs[1], ws[1], Sub(form, 1)) + EncFields(fs, ws, form, 2);
  }

  /** A NULL element leaves no trace in a list, wherever it stands: it is accepted, and lost. */
  lemma NullElementVanishes(e: Codec, tag: Tag, cls: Class, isSet: bool, xs: seq<Value>, ys: seq<Value>)
    requires forall y <- xs + ys :: Shaped(e, y)
    ensures var c := ListOf(e, tag, cls, isSet);
            && Shaped(c, List(xs + [Null] + ys)) && !Typed(c, List(xs + [Null] + ys))
            && Enc(c, List(xs + [Null] + ys), DER) == Enc(c, List(xs + ys), DER)
  {
    hide Wrap;
    assert (xs + [Null] + ys)[|xs|] == Null && !Typed(e, Null);
    ElementsWithout(e, xs, ys, 0);
  }

  lemma {:induction false} ElementsWithout(e: Codec, xs: seq<Value>, ys: seq<Value>, i: nat)
    requires i <= |xs| + |ys|
    ensures EncElems(e, xs + [Null] + ys, DER, if i < |xs| then i else i + 1) == EncElems(e, xs + ys, DER, i)
    ensures i == |xs| ==> EncElems(e, xs + [Null] + ys, DER, i) == EncElems(e, xs + ys, DER, i)
    decreases |xs| + |ys| - i
  {
    hide Enc;
    assert Enc(e, Null, DER) == [] by {
      NullWritesNothing(e);
    }
    if i < |xs| + |ys| {
      ElementsWithout(e, xs, ys, i + 1);
    }
  }

  lemma NullWritesNothing(e: Codec)
    ensures Enc(e, Null, DER) == []
  {
  }

  /** One EXPLICIT field that says five octets and holds an OCTET STRING of three. */
  const OVERRUN: seq<byte> := [0xa0, 5, 4, 1, 88]

  function OneExplicit(): seq<Field> {
    [ExpOpt(Leaf(OctetString()), 0, false)]
  }

  /**
   Contents that are accepted in indefinite form, because the end-of-contents
   octets make up what the EXPLICIT length claims, and refused in definite form.
   */
  lemma ExplicitOverruns()
    ensures var v := Struct([Prim([88])]);
            && Dec(Sequence(OneExplicit()), Null, Wrap(UNIVERSAL, SEQUENCE, OVERRUN, true)).Done?
            && Dec(Sequence(OneExplicit()), Null, Wrap(UNIVERSAL, SEQUENCE, OVERRUN, true)).val == v
            && Dec(Sequence(OneExplicit()), Null, Wrap(UNIVERSAL, SEQUENCE, OVERRUN, false)).Fail?
            && RunReach(OneExplicit(), 0, Slots(Null, 1), OVERRUN + [0, 0], 0) > |OVERRUN|
  {
    hide Dec, GetObject, DecField, Wrap, Body, RunReach, Run;
    var fs, room := OneExplicit(), OVERRUN + [0, 0];
    var ind, def := Wrap(UNIVERSAL, SEQUENCE, OVERRUN, true), Wrap(UNIVERSAL, SEQUENCE, OVERRUN, false);
    WrapParses(UNIVERSAL, SEQUENCE, OVERRUN, true, []);
    WrapParses(UNIVERSAL, SEQUENCE, OVERRUN, false, []);
    assert ind + [] == ind && def + [] == def;
    assert OVERRUN + Tail(true, []) == room && OVERRUN + Tail(false, []) == OVERRUN;
    OverrunRuns(fs, room);
    SequenceOnce(fs, Null, ind);
    SequenceOnce(fs, Null, def);
  }

  lemma OverrunRuns(fs: seq<Field>, room: seq<byte>)
    requires fs == OneExplicit() && room == OVERRUN + [0, 0]
    ensures Run(fs, 0, Slots(Null, |fs|), room, 0) == Ran([Prim([88])], 5) && Eoc(room[5..])
    ensures Run(fs, 0, Slots(Null, |fs|), OVERRUN, 0).Stuck?
    ensures RunReach(fs, 0, Slots(Null, |fs|), room, 0) == 7
  {
    hide DecField, Dec, FieldReach, Run, RunReach, GetObject;
    OverrunField(room);
    OverrunField(OVERRUN);
    assert room[0..] == room && OVERRUN[0..] == OVERRUN;
    var slots := Slots(Null, |fs|);
    assert slots[0 := Prim([88])] == [Prim([88])];
    RunOnce(fs, 0, slots, OVERRUN, 0, Fail(Null));
    RunUnfold(fs, 0, slots, room, 0, Done(Prim([88]), 5));
    RunStops(fs, [Prim([88])], room, 5);
    OverrunHeader(room);
    OverrunReach(fs[0], room);
  }

  lemma OverrunField(s: seq<byte>)
    requires s == OVERRUN || s == OVERRUN + [0, 0]
    ensures DecField(OneExplicit()[0], Null, s) == if s == OVERRUN then Fail(Null) else Done(Prim([88]), 5)
  {
    hide GetObject, Dec, Window;
    OverrunHeader(s);
    if s != OVERRUN {
      var w := Window(s, 2, 5);
      OverrunWindow(s);
      OverrunInner(w);
    }
    ExpOnce(Leaf(OctetString()), Null, s);
  }

  lemma OverrunReach(f: Field, s: seq<byte>)
    requires f == OneExplicit()[0] && s == OVERRUN + [0, 0]
    requires GetObject(s) == Header(0, CONTEXT, true, false, 5, 2)
    ensures FieldReach(f, Null, s) == 7
  {
    hide GetObject, Reach, Dec;
  }

  lemma OverrunHeader(s: seq<byte>)
    requires s == OVERRUN || s == OVERRUN + [0, 0]
    ensures GetObject(s) == if s == OVERRUN then Bad else Header(0, CONTEXT, true, false, 5, 2)
  {
  }

  lemma OverrunWindow(s: seq<byte>)
    requires s == OVERRUN + [0, 0]
    ensures Window(s, 2, 5) == [4, 1, 88, 0, 0]
  {
  }

  lemma OverrunInner(w: seq<byte>)
    requires w == [4, 1, 88, 0, 0]
    ensures Dec(Leaf(OctetString()), Null, w) == Done(Prim([88]), 3)
  {
    assert w[2..3] == [88];
    assert OctetsDec(4, w) == Some(([88], 3));
  }
}
