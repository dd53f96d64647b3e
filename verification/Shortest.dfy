/** The encoder's length octets make it the shortest way to spell a value. */
module Shortest {
  import opened Bytes
  import opened X690
  import opened Schema
  import opened Encode
  import opened Grammar

  /** The functions handed in write nothing longer than what they accept for the same value. */
  ghost predicate LeavesShortest(c: Codec) {
    match c
    case Leaf(l) => forall b :: l.dec(b).Some? && l.dec(b).value.1 == |b| ==> |l.enc(l.dec(b).value.0)| <= |b|
    case Sequence(fs) => forall i :: 0 <= i < |fs| ==> LeavesShortestField(fs[i])
    case ListOf(e, _, _, _) => LeavesShortest(e)
  }

  ghost predicate LeavesShortestField(f: Field) {
    LeavesShortest(f.c)
  }

  /** Below this many octets a definite header is no longer than the two ends of the indefinite form. */
  const SMALL: nat := 0x1_0004

  lemma FrameHolds(cls: Class, tag: Tag, b: seq<byte>)
    requires Framed(cls, tag, b)
    ensures var h := GetObject(b);
            h.Header? && (h.inf ==> |b| >= h.hlen + 2) && |Contents(b)| < |b|
  {
    hide GetObject;
    FrameEnds(cls, tag, b);
  }

  /** A frame is no shorter than the same frame as the macros write it, around contents that are no longer. */
  lemma FrameLeast(cls: Class, tag: Tag, b: seq<byte>, body: seq<byte>)
    requires Framed(cls, tag, b) && |body| <= |Contents(b)|
    ensures |Wrap(cls, tag, body, GetObject(b).inf)| <= |b|
  {
    hide GetObject, LenOctets;
    var h := GetObject(b);
    HeaderOnly(b);
    if !h.inf {
      LenOctetsLeast(b[1..h.hlen], h.len);
      LenOctetsGrow(|body|, h.len);
    }
  }

  lemma FrameLeastDefinite(cls: Class, tag: Tag, b: seq<byte>, body: seq<byte>)
    requires Framed(cls, tag, b) && |body| <= |Contents(b)| && |b| < SMALL
    ensures |Wrap(cls, tag, body, false)| <= |b|
  {
    hide GetObject, LenOctets;
    FrameLeast(cls, tag, b, body);
    HeaderOnly(b);
    if GetObject(b).inf {
      ThreeOctets(|body|);
    }
  }

  lemma ThreeOctets(n: nat)
    ensures |LenOctets(n)| <= 3 <==> n < 0x1_0000
  {
    assert n < 0x1_0000 ==> n / 256 < 256;
    assert |BigEndian(n / 256)| >= 2 <==> n / 256 >= 256;
  }

  /** The indefinite form is the shorter one exactly for contents of 64 KiB and more. */
  lemma IndefiniteShorter(cls: Class, tag: Tag, body: seq<byte>)
    ensures |Wrap(cls, tag, body, true)| < |Wrap(cls, tag, body, false)| <==> |body| >= 0x1_0000
  {
    hide LenOctets;
    ThreeOctets(|body|);
  }

  /** OCTET STRING meets the condition. */
  lemma OctetsShortest(l: Leaf, typ: Tag)
    requires typ != 0 && l == Octets(typ)
    ensures LeavesShortest(Leaf(l))
  {
    hide GetObject, LenOctets, SpellsLength;
    forall b | l.dec(b).Some? && l.dec(b).value.1 == |b| ensures |l.enc(l.dec(b).value.0)| <= |b| {
      var h := GetObject(b);
      HeaderOnly(b);
      LenOctetsLeast(b[1..h.hlen], h.len);
    }
  }

  /**
   However a value is spelled, the macros write it in no more octets with the
   same choice of forms, and, if the spelling is small, in definite form too.
   */
  lemma {:induction false} ShortestSpelling(c: Codec, v: Value, b: seq<byte>, look: bool) returns (form: Form)
    requires LeavesShortest(c) && Spells(c, v, b, look)
    ensures |Enc(c, v, form)| <= |b|
    ensures |b| < SMALL ==> |Enc(c, v, DER)| <= |b|
    decreases c, 0
  {
    hide SpellsFields, SpellsElems, Framed, Contents, EncFields, EncElems, GetObject, Wrap;
    match c {
      case Leaf(l) =>
        form := DER;
      case Sequence(fs) =>
        FrameHolds(UNIVERSAL, SEQUENCE, b);
        form := FieldsShortest(fs, v.slots, 0, Contents(b), look, Form(GetObject(b).inf, []));
        FrameLeast(UNIVERSAL, SEQUENCE, b, EncFields(fs, v.slots, form, 0));
        if |b| < SMALL {
          FrameLeastDefinite(UNIVERSAL, SEQUENCE, b, EncFields(fs, v.slots, DER, 0));
        }
      case ListOf(e, tag, cls, _) =>
        FrameHolds(cls, tag, b);
        assert v.elems[0..] == v.elems;
        form := ElemsShortest(e, v.elems, 0, Contents(b), look, Form(GetObject(b).inf, []));
        FrameLeast(cls, tag, b, EncElems(e, v.elems, form, 0));
        if |b| < SMALL {
          FrameLeastDefinite(cls, tag, b, EncElems(e, v.elems, DER, 0));
        }
    }
  }

  /** `sofar` holds the forms of the fields before the `i`th. */
  lemma {:induction false} FieldsShortest(fs: seq<Field>, vs: seq<Value>, i: nat, b: seq<byte>, look: bool, sofar: Form)
    returns (form: Form)
    requires i <= |fs| == |vs| && |sofar.subs| == i
    requires LeavesShortest(Sequence(fs)) && SpellsFields(fs, vs, i, b, look)
    ensures form.inf == sofar.inf && sofar.subs <= form.subs
    ensures |EncFields(fs, vs, form, i)| <= |b|
    ensures |b| < SMALL ==> |EncFields(fs, vs, DER, i)| <= |b|
    decreases fs, |fs| - i
  {
    hide SpellsField, LeavesShortestField, EncField;
    if i == |fs| {
      form := sofar;
    } else {
      var k := FieldsCut(fs, vs, i, b, look);
      var g := FieldShortest(fs[i], vs[i], b[..k], look);
      form := FieldsShortest(fs, vs, i + 1, b[k..], look, Form(sofar.inf, sofar.subs + [g]));
      assert Sub(form, i) == g && Sub(DER, i) == DER;
    }
  }

  lemma {:induction false} ElemsShortest(e: Codec, xs: seq<Value>, i: nat, b: seq<byte>, look: bool, sofar: Form)
    returns (form: Form)
    requires i <= |xs| && |sofar.subs| == i
    requires LeavesShortest(e) && SpellsElems(e, xs[i..], b, look)
    ensures form.inf == sofar.inf && sofar.subs <= form.subs
    ensures |EncElems(e, xs, form, i)| <= |b|
    ensures |b| < SMALL ==> |EncElems(e, xs, DER, i)| <= |b|
    decreases e, 1 + |xs| - i
  {
    hide Spells, LeavesShortest, Enc;
    if i == |xs| {
      form := sofar;
    } else {
      var k := ElemsCut(e, xs[i..], b, look);
      assert xs[i..][1..] == xs[i + 1..];
      var g := ShortestSpelling(e, xs[i], b[..k], look);
      form := ElemsShortest(e, xs, i + 1, b[k..], look, Form(sofar.inf, sofar.subs + [g]));
      assert Sub(form, i) == g && Sub(DER, i) == DER;
    }
  }

  lemma {:induction false} FieldShortest(f: Field, v: Value, b: seq<byte>, look: bool) returns (form: Form)
    requires LeavesShortestField(f) && SpellsField(f, v, b, look)
    ensures |EncField(f, v, form)| <= |b|
    ensures |b| < SMALL ==> |EncField(f, v, DER)| <= |b|
    decreases f, 0
  {
    hide Spells, Framed, Contents, Enc, Wrap, GetObject;
    form := DER;
    if v.Null? {
      EncFieldFirst(f, v, DER);
    } else {
      match f {
        case Get(c) => form := ShortestSpelling(c, v, b, look);
        case GetOpt(c, _) => form := ShortestSpelling(c, v, b, look);
        case ImpOpt(c, _, typ) => form := ShortestSpelling(c, v, b[0 := ConsBit(b[0]) + typ], look);
        case ExpOpt(c, tag, _) =>
          FrameHolds(CONTEXT, tag, b);
          var g := ShortestSpelling(c, v, Contents(b), look);
          form := Form(GetObject(b).inf, [g]);
          FrameLeast(CONTEXT, tag, b, Enc(c, v, g));
          if |b| < SMALL {
            FrameLeastDefinite(CONTEXT, tag, b, Enc(c, v, DER));
          }
        case ListOpt(c) => form := ShortestSpelling(c, v, b, look);
      }
    }
  }
}
