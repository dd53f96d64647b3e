/**
 The M_ASN1_I2D macros as they run: a length pass that calls every function
 with NULL, then a put pass through a moving pointer. `mem` names the contents
 of the output buffer before a call.
 */
module Encoder {
  import opened Bytes
  import opened X690
  import opened Schema
  import opened Encode

  /** An unsigned char * whose address is handed on: &p. */
  class BytePtr {
    var at: nat

    constructor (at: nat)
      ensures this.at == at
    {
      this.at := at;
    }
  }

  /** Buffer contents `mem` after `b` has been written from `at` on. */
  function Put(mem: seq<byte>, at: nat, b: seq<byte>): (r: seq<byte>)
    requires at + |b| <= |mem|
    ensures |r| == |mem|
  {
    mem[..at] + b + mem[at + |b|..]
  }

  lemma PutTwice(mem: seq<byte>, at: nat, a: seq<byte>, b: seq<byte>)
    requires at + |a| + |b| <= |mem|
    ensures Put(Put(mem, at, a), at + |a|, b) == Put(mem, at, a + b)
  {
  }

  lemma PutNothing(mem: seq<byte>, at: nat)
    requires at <= |mem|
    ensures Put(mem, at, []) == mem
  {
  }

  /** ASN1_object_size(1, len, tag) for a low tag */
  function ObjectSize(len: nat): nat {
    1 + |LenOctets(len)| + len
  }

  function HeaderOctets(cls: Class, tag: Tag, len: nat): seq<byte> {
    [Ident(cls, tag, true)] + LenOctets(len)
  }

  lemma DefiniteOctets(cls: Class, tag: Tag, body: seq<byte>)
    ensures Wrap(cls, tag, body, false) == HeaderOctets(cls, tag, |body|) + body
    ensures |Wrap(cls, tag, body, false)| == ObjectSize(|body|)
  {
  }

  /** What the put macro of a field writes when its variable `v` holds `len`; only EXPLICIT fields have one. */
  function FieldWith(f: Field, v: Value, len: nat): seq<byte> {
    if f.ExpOpt? && Present(f, v) then
      HeaderOctets(CONTEXT, f.tag, len) + Enc(f.c, v, DER)
    else
      EncField(f, v, DER)
  }

  function FieldsWith(fs: seq<Field>, vs: seq<Value>, lens: seq<nat>, i: nat): seq<byte>
    requires i <= |fs| == |vs| == |lens|
    decreases |fs| - i
  {
    if i == |fs| then [] else FieldWith(fs[i], vs[i], lens[i]) + FieldsWith(fs, vs, lens, i + 1)
  }

  /** The value of `v` that an EXPLICIT put macro needs. */
  predicate HasOwnLength(f: Field, v: Value, len: nat) {
    f.ExpOpt? && Present(f, v) ==> len == |Enc(f.c, v, DER)|
  }

  lemma OwnLengthWrites(f: Field, v: Value, len: nat)
    requires HasOwnLength(f, v, len)
    ensures FieldWith(f, v, len) == EncField(f, v, DER)
  {
  }

  lemma {:induction false} OwnLengthsWrite(fs: seq<Field>, vs: seq<Value>, lens: seq<nat>, i: nat)
    requires i <= |fs| == |vs| == |lens|
    requires forall j :: i <= j < |fs| ==> HasOwnLength(fs[j], vs[j], lens[j])
    ensures FieldsWith(fs, vs, lens, i) == EncFields(fs, vs, DER, i)
    decreases |fs| - i
  {
    if i < |fs| {
      OwnLengthWrites(fs[i], vs[i], lens[i]);
      OwnLengthsWrite(fs, vs, lens, i + 1);
    }
  }

  /** No length octets are a prefix of others. */
  lemma LengthsDiffer(a: nat, b: nat, x: seq<byte>, y: seq<byte>)
    requires a <= INT_MAX && b <= INT_MAX && LenOctets(a) + x == LenOctets(b) + y
    ensures a == b
  {
    var s, t := LenOctets(a) + x, LenOctets(b) + y;
    assert s[0] == LenOctets(a)[0] && t[0] == LenOctets(b)[0];
    if a >= 128 {
      BigEndianShort(a);
    }
    if b >= 128 {
      BigEndianShort(b);
    }
    if a >= 128 && b >= 128 {
      var k := |BigEndian(a)|;
      assert s[1..1 + k] == BigEndian(a) && t[1..1 + k] == BigEndian(b);
      BigEndianInverts(a);
      BigEndianInverts(b);
    }
  }

  lemma HeadersDiffer(cls: Class, tag: Tag, a: nat, b: nat, x: seq<byte>, y: seq<byte>)
    requires a <= INT_MAX && b <= INT_MAX && HeaderOctets(cls, tag, a) + x == HeaderOctets(cls, tag, b) + y
    ensures a == b
  {
    hide LenOctets;
    var s := HeaderOctets(cls, tag, a) + x;
    assert s[1..] == LenOctets(a) + x;
    assert (HeaderOctets(cls, tag, b) + y)[1..] == LenOctets(b) + y;
    LengthsDiffer(a, b, x, y);
  }

  lemma ExplicitOctets(f: Field, v: Value)
    requires f.ExpOpt? && Present(f, v)
    ensures EncField(f, v, DER) == HeaderOctets(CONTEXT, f.tag, |Enc(f.c, v, DER)|) + Enc(f.c, v, DER)
  {
  }

  lemma WrongLengthWrites(f: Field, v: Value, len: nat, x: seq<byte>, y: seq<byte>)
    requires f.ExpOpt? && Present(f, v) && len <= INT_MAX && |Enc(f.c, v, DER)| <= INT_MAX
    requires FieldWith(f, v, len) + x == EncField(f, v, DER) + y
    ensures len == |Enc(f.c, v, DER)|
  {
    hide Enc, EncField, LenOctets, HeaderOctets;
    var inner := Enc(f.c, v, DER);
    ExplicitOctets(f, v);
    var a, b := HeaderOctets(CONTEXT, f.tag, len), HeaderOctets(CONTEXT, f.tag, |inner|);
    assert a + inner + x == a + (inner + x) && b + inner + y == b + (inner + y);
    HeadersDiffer(CONTEXT, f.tag, len, |inner|, inner + x, inner + y);
  }

  lemma Cancel(a: seq<byte>, x: seq<byte>, y: seq<byte>)
    ensures a + x == a + y <==> x == y
  {
    assert (a + x)[|a|..] == x && (a + y)[|a|..] == y;
  }

  lemma WrongLengthInside(f: Field, v: Value)
    requires f.ExpOpt? && Present(f, v)
    ensures |Enc(f.c, v, DER)| <= |EncField(f, v, DER)|
  {
  }

  /** The put pass writes the encoding if and only if every EXPLICIT field still has its own length. */
  lemma {:induction false} LengthsExactly(fs: seq<Field>, vs: seq<Value>, lens: seq<nat>, i: nat)
    requires i <= |fs| == |vs| == |lens| && forall j :: i <= j < |fs| ==> lens[j] <= INT_MAX
    requires |EncFields(fs, vs, DER, i)| <= INT_MAX
    ensures FieldsWith(fs, vs, lens, i) == EncFields(fs, vs, DER, i)
       <==> forall j :: i <= j < |fs| ==> HasOwnLength(fs[j], vs[j], lens[j])
    decreases |fs| - i
  {
    hide Enc, EncField, FieldWith;
    if i < |fs| {
      var a, b := FieldWith(fs[i], vs[i], lens[i]), EncField(fs[i], vs[i], DER);
      var x, y := FieldsWith(fs, vs, lens, i + 1), EncFields(fs, vs, DER, i + 1);
      LengthsExactly(fs, vs, lens, i + 1);
      if HasOwnLength(fs[i], vs[i], lens[i]) {
        OwnLengthWrites(fs[i], vs[i], lens[i]);
        Cancel(b, x, y);
      } else {
        WrongLengthInside(fs[i], vs[i]);
        if a + x == b + y {
          WrongLengthWrites(fs[i], vs[i], lens[i], x, y);
        }
      }
    }
  }

  /** The length left in a variable `v` that all EXPLICIT fields share after the length pass. */
  function LastLength(fs: seq<Field>, vs: seq<Value>, n: nat): nat
    requires n <= |fs| == |vs|
  {
    if n == 0 then 0
    else if fs[n - 1].ExpOpt? && Present(fs[n - 1], vs[n - 1]) then |Enc(fs[n - 1].c, vs[n - 1], DER)|
    else LastLength(fs, vs, n - 1)
  }

  /**
   With one variable `v` for all EXPLICIT fields the put pass is right if and
   only if the contents of all that are present have one length.
   */
  lemma SharedLengthExactly(fs: seq<Field>, vs: seq<Value>)
    requires |fs| == |vs| && |EncFields(fs, vs, DER, 0)| <= INT_MAX && LastLength(fs, vs, |fs|) <= INT_MAX
    ensures FieldsWith(fs, vs, seq(|fs|, _ => LastLength(fs, vs, |fs|)), 0) == EncFields(fs, vs, DER, 0)
       <==> forall j :: 0 <= j < |fs| && fs[j].ExpOpt? && Present(fs[j], vs[j]) ==>
              |Enc(fs[j].c, vs[j], DER)| == LastLength(fs, vs, |fs|)
  {
    var lens := seq(|fs|, _ => LastLength(fs, vs, |fs|));
    LengthsExactly(fs, vs, lens, 0);
    assert forall j :: 0 <= j < |fs| ==> lens[j] == LastLength(fs, vs, |fs|);
  }

  /** A run of *(p++)=... */
  method PutOctets(b: seq<byte>, p: BytePtr, out: array<byte>, ghost mem: seq<byte>)
    requires out[..] == mem && p.at + |b| <= |mem|
    modifies p, out
    ensures p.at == old(p.at) + |b| && out[..] == Put(mem, old(p.at), b)
  {
    var start := p.at;
    PutNothing(mem, start);
    for i := 0 to |b|
      invariant p.at == start + i && out[..] == Put(mem, start, b[..i])
    {
      out[p.at] := b[i];
      p.at := p.at + 1;
      assert b[..i + 1] == b[..i] + [b[i]];
      PutTwice(mem, start, b[..i], [b[i]]);
    }
    assert b[..|b|] == b;
  }

  /** ASN1_put_object with the constructed flag */
  method PutObject(len: nat, cls: Class, tag: Tag, p: BytePtr, out: array<byte>, ghost mem: seq<byte>)
    requires out[..] == mem && p.at + |HeaderOctets(cls, tag, len)| <= |mem|
    modifies p, out
    ensures p.at == old(p.at) + |HeaderOctets(cls, tag, len)|
    ensures out[..] == Put(mem, old(p.at), HeaderOctets(cls, tag, len))
  {
    PutOctets([Ident(cls, tag, true)] + LenOctets(len), p, out, mem);
  }

  /** An i2d function built from the macros; with a NULL `pp` it only returns the length. */
  method I2d(c: Codec, v: Value, pp: BytePtr?, out: array<byte>, ghost mem: seq<byte>) returns (r: nat)
    requires Shaped(c, v) && out[..] == mem
    requires pp != null ==> pp.at + |Enc(c, v, DER)| <= |mem|
    modifies if pp == null then {} else {pp as object, out as object}
    ensures r == |Enc(c, v, DER)|
    ensures pp != null ==> pp.at == old(pp.at) + r && out[..] == Put(mem, old(pp.at), Enc(c, v, DER))
    decreases c, 1
  {
    if v.Null? {
      if pp != null {
        PutNothing(mem, pp.at);
      }
      return 0;
    }
    match c {
      case Leaf(l) =>
        var b := l.enc(v.x);
        if pp != null {
          PutOctets(b, pp, out, mem);
        }
        r := |b|;
      case Sequence(fs) =>
        r := I2dSequence(fs, v.slots, pp, out, mem);
      case ListOf(e, tag, cls, _) =>
        r := I2dList(e, v.elems, tag, cls, pp, out, mem);
    }
  }

  /** I2D_vars, the length macros, seq_total, the put macros, I2D_finish */
  method I2dSequence(fs: seq<Field>, vs: seq<Value>, pp: BytePtr?, out: array<byte>, ghost mem: seq<byte>)
    returns (r: nat)
    requires |fs| == |vs| && out[..] == mem
    requires forall i :: 0 <= i < |fs| ==> ShapedField(fs[i], vs[i])
    requires pp != null ==> pp.at + |Wrap(UNIVERSAL, SEQUENCE, EncFields(fs, vs, DER, 0), false)| <= |mem|
    modifies if pp == null then {} else {pp as object, out as object}
    ensures var b := Wrap(UNIVERSAL, SEQUENCE, EncFields(fs, vs, DER, 0), false);
            && r == |b|
            && (pp != null ==> pp.at == old(pp.at) + r && out[..] == Put(mem, old(pp.at), b))
    decreases fs, 3
  {
    hide EncFields, FieldsWith, LenOctets, Put, HeaderOctets, Wrap, ObjectSize;
    var ret, lens := LenFields(fs, vs, out, mem);
    r := ObjectSize(ret);
    DefiniteOctets(UNIVERSAL, SEQUENCE, EncFields(fs, vs, DER, 0));
    if pp == null {
      return;
    }
    var p := new BytePtr(pp.at);
    PutObject(ret, UNIVERSAL, SEQUENCE, p, out, mem);
    OwnLengthsWrite(fs, vs, lens, 0);
    ghost var header := HeaderOctets(UNIVERSAL, SEQUENCE, ret);
    PutFields(fs, vs, lens, p, out, Put(mem, pp.at, header));
    PutTwice(mem, pp.at, header, EncFields(fs, vs, DER, 0));
    pp.at := p.at;
  }

  /** The length macros of a sequence: the sum in `ret`, and the variable `v` of every field. */
  method LenFields(fs: seq<Field>, vs: seq<Value>, out: array<byte>, ghost mem: seq<byte>)
    returns (ret: nat, lens: seq<nat>)
    requires |fs| == |vs| && out[..] == mem
    requires forall i :: 0 <= i < |fs| ==> ShapedField(fs[i], vs[i])
    ensures ret == |EncFields(fs, vs, DER, 0)| && |lens| == |fs|
    ensures forall j :: 0 <= j < |fs| ==> HasOwnLength(fs[j], vs[j], lens[j])
    decreases fs, 2
  {
    hide Enc, EncField, EncFields, ShapedField, Shaped;
    ret, lens := 0, [];
    for i := 0 to |fs|
      invariant |lens| == i && forall j :: 0 <= j < i ==> HasOwnLength(fs[j], vs[j], lens[j])
      invariant ret + |EncFields(fs, vs, DER, i)| == |EncFields(fs, vs, DER, 0)|
    {
      FieldsStep(fs, vs, i);
      var l, len := LenField(fs[i], vs[i], out, mem);
      ret, lens := ret + l, lens + [len];
    }
    FieldsNone(fs, vs);
  }

  /** The length macros with one `v` for all EXPLICIT fields. */
  method LenFieldsShared(fs: seq<Field>, vs: seq<Value>, out: array<byte>, ghost mem: seq<byte>)
    returns (ret: nat, v: nat)
    requires |fs| == |vs| && out[..] == mem
    requires forall i :: 0 <= i < |fs| ==> ShapedField(fs[i], vs[i])
    ensures ret == |EncFields(fs, vs, DER, 0)| && v == LastLength(fs, vs, |fs|)
    decreases fs, 2
  {
    hide Enc, EncField, EncFields, ShapedField, Shaped;
    ret, v := 0, 0;
    for i := 0 to |fs|
      invariant v == LastLength(fs, vs, i)
      invariant ret + |EncFields(fs, vs, DER, i)| == |EncFields(fs, vs, DER, 0)|
    {
      FieldsStep(fs, vs, i);
      var l, len := LenField(fs[i], vs[i], out, mem);
      ret := ret + l;
      if fs[i].ExpOpt? && Present(fs[i], vs[i]) {
        v := len;
      }
    }
    FieldsNone(fs, vs);
  }

  lemma FieldsNone(fs: seq<Field>, vs: seq<Value>)
    requires |fs| == |vs|
    ensures EncFields(fs, vs, DER, |fs|) == []
  {
  }

  lemma FieldsStep(fs: seq<Field>, vs: seq<Value>, i: nat)
    requires i < |fs| == |vs|
    ensures |EncFields(fs, vs, DER, i)| == |EncField(fs[i], vs[i], DER)| + |EncFields(fs, vs, DER, i + 1)|
  {
  }

  /** The length macro of a field: what it adds to `ret`, and what it leaves in `v`. */
  method LenField(f: Field, v: Value, out: array<byte>, ghost mem: seq<byte>) returns (l: nat, len: nat)
    requires ShapedField(f, v) && out[..] == mem
    ensures l == |EncField(f, v, DER)| && HasOwnLength(f, v, len)
    decreases f, 2
  {
    l, len := 0, 0;
    match f {
      case Get(c) => l := I2d(c, v, null, out, mem);
      case GetOpt(c, _) => l := I2d(c, v, null, out, mem);
      case ImpOpt(c, _, _) =>
        if !v.Null? {
          l := I2d(c, v, null, out, mem);
        }
      case ExpOpt(c, _, _) =>
        if Present(f, v) {
          len := I2d(c, v, null, out, mem);
          l := ObjectSize(len);
        }
      case ListOpt(c) =>
        if Present(f, v) {
          l := I2d(c, v, null, out, mem);
        }
    }
  }

  /** The put macros of a sequence; each EXPLICIT field writes the length that its `v` holds. */
  method PutFields(fs: seq<Field>, vs: seq<Value>, lens: seq<nat>, p: BytePtr, out: array<byte>, ghost mem: seq<byte>)
    requires |fs| == |vs| == |lens| && out[..] == mem
    requires forall i :: 0 <= i < |fs| ==> ShapedField(fs[i], vs[i])
    requires p.at + |FieldsWith(fs, vs, lens, 0)| <= |mem|
    modifies p, out
    ensures p.at == old(p.at) + |FieldsWith(fs, vs, lens, 0)|
    ensures out[..] == Put(mem, old(p.at), FieldsWith(fs, vs, lens, 0))
    decreases fs, 2
  {
    hide FieldWith, FieldsWith, Put;
    ghost var start, all, done := p.at, FieldsWith(fs, vs, lens, 0), [];
    PutNothing(mem, start);
    for i := 0 to |fs|
      invariant all == done + FieldsWith(fs, vs, lens, i)
      invariant p.at == start + |done| && out[..] == Put(mem, start, done)
    {
      ghost var b := FieldWith(fs[i], vs[i], lens[i]);
      FieldsWithStep(fs, vs, lens, i, done);
      PutField(fs[i], vs[i], lens[i], p, out, Put(mem, start, done));
      PutTwice(mem, start, done, b);
      done := done + b;
    }
    FieldsWithNone(fs, vs, lens);
    assert all == done;
  }

  lemma FieldsWithNone(fs: seq<Field>, vs: seq<Value>, lens: seq<nat>)
    requires |fs| == |vs| == |lens|
    ensures FieldsWith(fs, vs, lens, |fs|) == []
  {
  }

  lemma FieldsWithStep(fs: seq<Field>, vs: seq<Value>, lens: seq<nat>, i: nat, done: seq<byte>)
    requires i < |fs| == |vs| == |lens|
    ensures done + FieldsWith(fs, vs, lens, i)
         == done + FieldWith(fs[i], vs[i], lens[i]) + FieldsWith(fs, vs, lens, i + 1)
  {
  }

  /** The put macro of a field. */
  method PutField(f: Field, v: Value, len: nat, p: BytePtr, out: array<byte>, ghost mem: seq<byte>)
    requires ShapedField(f, v) && out[..] == mem && p.at + |FieldWith(f, v, len)| <= |mem|
    modifies p, out
    ensures p.at == old(p.at) + |FieldWith(f, v, len)| && out[..] == Put(mem, old(p.at), FieldWith(f, v, len))
    decreases f, 2
  {
    hide Enc, LenOctets, Put, Wrap, IsObject;
    PutNothing(mem, p.at);
    EncFieldFirst(f, v, DER);
    match f {
      case Get(c) => var _ := I2d(c, v, p, out, mem);
      case GetOpt(c, _) => var _ := I2d(c, v, p, out, mem);
      case ImpOpt(c, tag, _) =>
        if !v.Null? {
          PutImplicit(c, v, tag, p, out, mem);
        }
      case ExpOpt(c, tag, _) =>
        if Present(f, v) {
          ghost var start, header := p.at, HeaderOctets(CONTEXT, tag, len);
          PutObject(len, CONTEXT, tag, p, out, mem);
          var _ := I2d(c, v, p, out, Put(mem, start, header));
          PutTwice(mem, start, header, Enc(c, v, DER));
        }
      case ListOpt(c) =>
        if Present(f, v) {
          var _ := I2d(c, v, p, out, mem);
        }
    }
  }

  /** M_ASN1_I2D_put_IMP_opt: write with the universal tag, then overwrite the first octet. */
  method PutImplicit(c: Codec, v: Value, tag: Tag, p: BytePtr, out: array<byte>, ghost mem: seq<byte>)
    requires IsObject(c, v) && Shaped(c, v) && out[..] == mem && p.at + |Enc(c, v, DER)| <= |mem|
    modifies p, out
    ensures p.at == old(p.at) + |Enc(c, v, DER)|
    ensures out[..] == Put(mem, old(p.at), Retag(tag, Enc(c, v, DER)))
    decreases c, 2
  {
    hide Enc, Put;
    var q := p.at;
    ghost var b := Enc(c, v, DER);
    EncFirst(c, v, DER);
    var _ := I2d(c, v, p, out, mem);
    PutFirst(mem, q, b, CONTEXT + tag + ConsBit(b[0]));
    assert out[q] == out[..][q];
    out[q] := CONTEXT + tag + ConsBit(out[q]);
  }

  lemma PutFirst(mem: seq<byte>, at: nat, b: seq<byte>, x: byte)
    requires at + |b| <= |mem| && b != []
    ensures Put(mem, at, b)[at] == b[0]
    ensures Put(mem, at, b)[at := x] == Put(mem, at, b[0 := x])
  {
  }

  /** i2d_ASN1_SET, for elements that are already in their order. */
  method I2dList(e: Codec, xs: seq<Value>, tag: Tag, cls: Class, pp: BytePtr?, out: array<byte>, ghost mem: seq<byte>)
    returns (r: nat)
    requires out[..] == mem && forall i :: 0 <= i < |xs| ==> Shaped(e, xs[i])
    requires pp != null ==> pp.at + |Wrap(cls, tag, EncElems(e, xs, DER, 0), false)| <= |mem|
    modifies if pp == null then {} else {pp as object, out as object}
    ensures var b := Wrap(cls, tag, EncElems(e, xs, DER, 0), false);
            && r == |b|
            && (pp != null ==> pp.at == old(pp.at) + r && out[..] == Put(mem, old(pp.at), b))
    decreases e, 3
  {
    hide Enc, EncElems, LenOctets, Put, HeaderOctets, Wrap, ObjectSize;
    var ret := LenElems(e, xs, out, mem);
    r := ObjectSize(ret);
    DefiniteOctets(cls, tag, EncElems(e, xs, DER, 0));
    if pp == null {
      return;
    }
    ghost var start, header := pp.at, HeaderOctets(cls, tag, ret);
    PutObject(ret, cls, tag, pp, out, mem);
    PutElems(e, xs, pp, out, Put(mem, start, header));
    PutTwice(mem, start, header, EncElems(e, xs, DER, 0));
  }

  method LenElems(e: Codec, xs: seq<Value>, out: array<byte>, ghost mem: seq<byte>) returns (ret: nat)
    requires out[..] == mem && forall i :: 0 <= i < |xs| ==> Shaped(e, xs[i])
    ensures ret == |EncElems(e, xs, DER, 0)|
    decreases e, 2
  {
    hide Enc, EncElems;
    ret := 0;
    for i := 0 to |xs|
      invariant ret + |EncElems(e, xs, DER, i)| == |EncElems(e, xs, DER, 0)|
    {
      ElemsStep(e, xs, i, []);
      var l := I2d(e, xs[i], null, out, mem);
      ret := ret + l;
    }
    ElemsNone(e, xs);
  }

  method PutElems(e: Codec, xs: seq<Value>, p: BytePtr, out: array<byte>, ghost mem: seq<byte>)
    requires out[..] == mem && forall i :: 0 <= i < |xs| ==> Shaped(e, xs[i])
    requires p.at + |EncElems(e, xs, DER, 0)| <= |mem|
    modifies p, out
    ensures p.at == old(p.at) + |EncElems(e, xs, DER, 0)|
    ensures out[..] == Put(mem, old(p.at), EncElems(e, xs, DER, 0))
    decreases e, 2
  {
    hide Enc, EncElems, Put;
    ghost var start, all, done := p.at, EncElems(e, xs, DER, 0), [];
    PutNothing(mem, start);
    for i := 0 to |xs|
      invariant all == done + EncElems(e, xs, DER, i)
      invariant p.at == start + |done| && out[..] == Put(mem, start, done)
    {
      ghost var b := Enc(e, xs[i], DER);
      ElemsStep(e, xs, i, done);
      var _ := I2d(e, xs[i], p, out, Put(mem, start, done));
      PutTwice(mem, start, done, b);
      done := done + b;
    }
    ElemsNone(e, xs);
    assert all == done;
  }

  lemma ElemsNone(e: Codec, xs: seq<Value>)
    ensures EncElems(e, xs, DER, |xs|) == []
  {
  }

  lemma ElemsStep(e: Codec, xs: seq<Value>, i: nat, done: seq<byte>)
    requires i < |xs|
    ensures |EncElems(e, xs, DER, i)| == |Enc(e, xs[i], DER)| + |EncElems(e, xs, DER, i + 1)|
    ensures done + EncElems(e, xs, DER, i) == done + Enc(e, xs[i], DER) + EncElems(e, xs, DER, i + 1)
  {
  }

  lemma IndefiniteOctets(cls: Class, tag: Tag, body: seq<byte>)
    ensures Wrap(cls, tag, body, true) == [Ident(cls, tag, true), 0x80] + body + [0, 0]
  {
  }

  /** M_ASN1_I2D_INF_seq_start, the put macros, M_ASN1_I2D_INF_seq_end */
  method PutIndefinite(fs: seq<Field>, vs: seq<Value>, tag: Tag, cls: Class, p: BytePtr, out: array<byte>,
                       ghost mem: seq<byte>)
    requires |fs| == |vs| && out[..] == mem
    requires forall i :: 0 <= i < |fs| ==> ShapedField(fs[i], vs[i])
    requires p.at + |Wrap(cls, tag, EncFields(fs, vs, DER, 0), true)| <= |mem|
    modifies p, out
    ensures var b := Wrap(cls, tag, EncFields(fs, vs, DER, 0), true);
            p.at == old(p.at) + |b| && out[..] == Put(mem, old(p.at), b)
  {
    hide EncFields, EncField, Enc, Wrap, Put, FieldsWith;
    ghost var start, body := p.at, EncFields(fs, vs, DER, 0);
    IndefiniteOctets(cls, tag, body);
    var _, lens := LenFields(fs, vs, out, mem);
    OwnLengthsWrite(fs, vs, lens, 0);
    PutOctets([Ident(cls, tag, true), 0x80], p, out, mem);
    ghost var one := Put(mem, start, [Ident(cls, tag, true), 0x80]);
    PutFields(fs, vs, lens, p, out, one);
    PutTwice(mem, start, [Ident(cls, tag, true), 0x80], body);
    PutOctets([0, 0], p, out, Put(one, start + 2, body));
    PutTwice(mem, start, [Ident(cls, tag, true), 0x80] + body, [0, 0]);
  }
}
