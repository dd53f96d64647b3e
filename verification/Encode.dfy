/** What the M_ASN1_I2D macros write, as functions of the value. */
module Encode {
  import opened Bytes
  import opened X690
  import opened Schema

  /**
   Which constructed elements are written with the indefinite macros. `subs`
   runs along the fields or elements; where it ends, all below is definite.
   */
  datatype Form = Form(inf: bool, subs: seq<Form>)

  const DER := Form(false, [])

  function Sub(f: Form, i: nat): Form {
    if i < |f.subs| then f.subs[i] else DER
  }

  /** The octets i2d writes: none for NULL. */
  function Enc(c: Codec, v: Value, form: Form): seq<byte>
    decreases c, 0
  {
    match c
    case Leaf(l) =>
      if v.Prim? then l.enc(v.x) else []
    case Sequence(fs) =>
      if v.Struct? && |v.slots| == |fs| then
        Wrap(UNIVERSAL, SEQUENCE, EncFields(fs, v.slots, form, 0), form.inf)
      else
        []
    case ListOf(e, tag, cls, _) =>
      if v.List? then Wrap(cls, tag, EncElems(e, v.elems, form, 0), form.inf) else []
  }

  /** The put macros of the fields from the `i`th on, one after the other. */
  function EncFields(fs: seq<Field>, vs: seq<Value>, form: Form, i: nat): seq<byte>
    requires i <= |fs| == |vs|
    decreases fs, |fs| - i
  {
    if i == |fs| then [] else EncField(fs[i], vs[i], Sub(form, i)) + EncFields(fs, vs, form, i + 1)
  }

  function EncElems(e: Codec, xs: seq<Value>, form: Form, i: nat): seq<byte>
    requires i <= |xs|
    decreases e, 1 + |xs| - i
  {
    if i == |xs| then [] else Enc(e, xs[i], Sub(form, i)) + EncElems(e, xs, form, i + 1)
  }

  function EncField(f: Field, v: Value, form: Form): seq<byte>
    decreases f, 0
  {
    match f
    case Get(c) => Enc(c, v, form)
    case GetOpt(c, _) => Enc(c, v, form)
    case ImpOpt(c, tag, _) => Retag(tag, Enc(c, v, form))
    case ExpOpt(c, tag, _) =>
      if Present(f, v) then Wrap(CONTEXT, tag, Enc(c, v, Sub(form, 0)), form.inf) else []
    case ListOpt(c) =>
      if Present(f, v) then Enc(c, v, form) else []
  }

  /** The overwrite of the first octet by M_ASN1_I2D_put_IMP_opt. */
  function Retag(tag: Tag, s: seq<byte>): (t: seq<byte>)
    ensures |t| == |s|
  {
    if s == [] then [] else s[0 := CONTEXT + tag + ConsBit(s[0])]
  }

  /** The first octet of an encoding; it does not depend on the forms used. */
  function First(c: Codec, v: Value): byte {
    match c
    case Leaf(l) => if v.Prim? && l.enc(v.x) != [] then l.enc(v.x)[0] else 0
    case Sequence(_) => Ident(UNIVERSAL, SEQUENCE, true)
    case ListOf(_, tag, cls, _) => Ident(cls, tag, true)
  }

  function FirstOfField(f: Field, v: Value): byte {
    match f
    case Get(c) => First(c, v)
    case GetOpt(c, _) => First(c, v)
    case ImpOpt(c, tag, _) => CONTEXT + tag + ConsBit(First(c, v))
    case ExpOpt(_, tag, _) => CONTEXT + CONSTRUCTED + tag
    case ListOpt(c) => First(c, v)
  }

  lemma EncFirst(c: Codec, v: Value, form: Form)
    requires IsObject(c, v)
    ensures var b := Enc(c, v, form);
            b != [] && b[0] == First(c, v) && Strip(b[0]) in TagsOf(c)
  {
    match c
    case Leaf(l) =>
    case Sequence(_) => IdentFields(UNIVERSAL, SEQUENCE, true);
    case ListOf(_, tag, cls, _) => IdentFields(cls, tag, true);
  }

  /** Octets are written for exactly the present fields; retagging is seen in the first of them only. */
  lemma EncFieldFirst(f: Field, v: Value, form: Form)
    requires v.Null? || IsObject(f.c, v)
    ensures var b := EncField(f, v, form);
            if Present(f, v) then b != [] && b[0] == FirstOfField(f, v) else b == []
    ensures EncField(f, v, form) == [] <==> v.Null? || (v == List([]) && (f.ListOpt? || (f.ExpOpt? && f.list)))
  {
    if v.Null? {
      assert Enc(f.c, v, form) == [];
    } else {
      EncFirst(f.c, v, form);
      if f.ExpOpt? {
        EncFirst(f.c, v, Sub(form, 0));
      }
    }
  }
}
