/**
 The macro language of asn1_mac.h as data. A `Codec` is one d2i/i2d pair and a
 `Field` is one get/len/put macro triple inside it, so a `Codec` value is a
 program text that uses the macros, nested to any depth.
 */
module Schema {
  import opened Bytes
  import opened X690

  /**
   The d2i/i2d pair of a type whose code is elsewhere: pure functions on
   octets. `ids` holds the class and number of every identifier octet that its
   elements can start with: one for a simple type, several for a CHOICE, all
   but end-of-contents for ANY.
   */
  datatype LeafFunctions = LeafFunctions(
    ids: set<byte>,
    valid: seq<byte> -> bool,
    enc: seq<byte> -> seq<byte>,
    dec: seq<byte> -> Option<(seq<byte>, nat)>)

  /** What the macros take for granted of a function they are given. */
  ghost predicate LeafContract(l: LeafFunctions) {
    && 0 !in l.ids
    // an encoding starts with an identifier octet of the type
    && (forall x :: l.valid(x) ==> l.enc(x) != [] && Strip(l.enc(x)[0]) in l.ids)
    // decoding wants such an octet, stays in its window and gives a value that can be encoded
    && (forall s :: l.dec(s).Some? ==>
          1 <= l.dec(s).value.1 <= |s| && l.valid(l.dec(s).value.0) && Strip(s[0]) in l.ids)
    // decoding inverts encoding, whatever follows
    && (forall x, rest :: l.valid(x) ==> l.dec(l.enc(x) + rest) == Some((x, |l.enc(x)|)))
    // decoding looks at nothing but what it consumes
    && (forall s, t :: l.dec(s).Some? && Agree(s, t, l.dec(s).value.1) ==> l.dec(t) == l.dec(s))
  }

  type Leaf = l: LeafFunctions | LeafContract(l) witness (OctetsMeetContract(4); Octets(4))

  /** A primitive element in definite form, as X.690 section 8.7 has it for OCTET STRING. */
  function Octets(typ: Tag): LeafFunctions {
    LeafFunctions(
      {typ},
      x => |x| <= INT_MAX,
      x => [Ident(UNIVERSAL, typ, false)] + LenOctets(|x|) + x,
      s => OctetsDec(typ, s))
  }

  function OctetsDec(typ: Tag, s: seq<byte>): Option<(seq<byte>, nat)> {
    var h := GetObject(s);
    if h.Bad? || h.cons || h.cls != UNIVERSAL || h.tag != typ || h.len > INT_MAX then
      None
    else
      Some((s[h.hlen..h.hlen + h.len], h.hlen + h.len))
  }

  /** The contract is not empty: primitive elements of every universal type but end-of-contents meet it. */
  lemma OctetsMeetContract(typ: Tag)
    requires typ != 0
    ensures LeafContract(Octets(typ))
  {
    hide GetObject, OctetsDec, LenOctets;
    var l := Octets(typ);
    forall x, rest | l.valid(x)
      ensures l.enc(x) != [] && Strip(l.enc(x)[0]) in l.ids
      ensures l.dec(l.enc(x) + rest) == Some((x, |l.enc(x)|))
    {
      OctetsBack(typ, x, rest);
    }
    assert forall x :: l.valid(x) ==> l.dec(l.enc(x) + []) == Some((x, |l.enc(x)|));
    forall s | l.dec(s).Some?
      ensures 1 <= l.dec(s).value.1 <= |s| && l.valid(l.dec(s).value.0) && Strip(s[0]) in l.ids
    {
      OctetsHead(typ, s);
    }
    forall s, t | l.dec(s).Some? && Agree(s, t, l.dec(s).value.1) ensures l.dec(t) == l.dec(s) {
      OctetsLocal(typ, s, t);
    }
  }

  lemma OctetsBack(typ: Tag, x: seq<byte>, rest: seq<byte>)
    requires typ != 0 && |x| <= INT_MAX
    ensures var b := [Ident(UNIVERSAL, typ, false)] + LenOctets(|x|) + x;
            Strip(b[0]) == typ && OctetsDec(typ, b + rest) == Some((x, |b|))
  {
    hide GetObject, LenOctets;
    IdentFields(UNIVERSAL, typ, false);
    DefiniteParses(UNIVERSAL, typ, false, x, rest);
  }

  lemma OctetsHead(typ: Tag, s: seq<byte>)
    requires OctetsDec(typ, s).Some?
    ensures var o := OctetsDec(typ, s).value;
            1 <= o.1 <= |s| && |o.0| <= INT_MAX && Strip(s[0]) == typ
  {
    hide GetObject;
    HeadOctet(s);
  }

  lemma OctetsLocal(typ: Tag, s: seq<byte>, t: seq<byte>)
    requires var o := OctetsDec(typ, s); o.Some? && Agree(s, t, o.value.1)
    ensures OctetsDec(typ, t) == OctetsDec(typ, s)
  {
    var h := GetObject(s);
    var n := h.hlen + h.len;
    HeaderLocal(s, t);
    assert t[h.hlen..n] == s[h.hlen..n];
  }

  /** Any one definite element of a low tag but end-of-contents, kept as its octets: ANY, and any CHOICE of such. */
  function Anything(): LeafFunctions {
    LeafFunctions(
      (set b: byte | NotEnd(b)),
      x => AnythingDec(x) == Some((x, |x|)),
      x => x,
      s => AnythingDec(s))
  }

  predicate NotEnd(b: byte) {
    b != 0
  }

  function AnythingDec(s: seq<byte>): Option<(seq<byte>, nat)> {
    var h := GetObject(s);
    if h.Bad? || h.inf || Strip(s[0]) == 0 then
      None
    else
      Some((s[..h.hlen + h.len], h.hlen + h.len))
  }

  /** A type with many tags meets the contract too. */
  lemma AnythingMeetsContract()
    ensures LeafContract(Anything())
  {
    var l := Anything();
    forall s, t | l.dec(s).Some? && Agree(s, t, l.dec(s).value.1) ensures l.dec(t) == l.dec(s) {
      AnythingLocal(s, t);
    }
    forall s | l.dec(s).Some? ensures l.valid(l.dec(s).value.0) {
      AnythingLocal(s, l.dec(s).value.0);
    }
    forall x, rest | l.valid(x) ensures l.dec(l.enc(x) + rest) == Some((x, |l.enc(x)|)) {
      AnythingLocal(x, x + rest);
    }
  }

  lemma AnythingLocal(s: seq<byte>, t: seq<byte>)
    requires var o := AnythingDec(s); o.Some? && Agree(s, t, o.value.1)
    ensures AnythingDec(t) == AnythingDec(s)
  {
    HeaderLocal(s, t);
    var n := AnythingDec(s).value.1;
    assert t[..n] == s[..n];
  }

  /** One d2i/i2d pair. */
  datatype Codec =
    | Leaf(l: Leaf)
      // vars, Init, start_sequence, one macro per field, Finish; and seq_total, one macro per field, finish
    | Sequence(fields: seq<Field>)
      // d2i_ASN1_SET and i2d_ASN1_SET with ex_tag `tag`, ex_class `cls` and is_set `isSet`
    | ListOf(elem: Codec, tag: Tag, cls: Class, isSet: bool)

  /** One field of a sequence, named after its D2I macro. */
  datatype Field =
      // get, get_set, get_seq, get_IMP_set / len, put and their SET and SEQUENCE forms
    | Get(c: Codec)
      // get_opt / len, put
    | GetOpt(c: Codec, typ: Tag)
      // get_IMP_opt / len_IMP_opt, put_IMP_opt
    | ImpOpt(c: Codec, tag: Tag, typ: Tag)
      // get_EXP_opt, get_EXP_set_opt / len_EXP_opt, put_EXP_opt;
      // with `list`, the EXP_SET_opt and EXP_SEQUENCE_opt forms
    | ExpOpt(c: Codec, tag: Tag, list: bool)
      // get_set_opt, get_seq_opt, get_IMP_set_opt / SET_opt, SEQUENCE_opt, IMP_SET_opt, IMP_SEQUENCE_opt
    | ListOpt(c: Codec)

  /** A C value: `Null` is the NULL pointer. */
  datatype Value =
    | Null
    | Prim(x: seq<byte>)
    | Struct(slots: seq<Value>)
    | List(elems: seq<Value>)

  /** Class and number of the identifier octets that elements of `c` start with, form bit aside. */
  function TagsOf(c: Codec): set<byte> {
    match c
    case Leaf(l) => l.ids
    case Sequence(_) => {SEQUENCE}
    case ListOf(_, tag, cls, _) => {cls + tag}
  }

  /** The tags that a caller writes in the macros are those of the functions it passes. */
  predicate WellFormed(c: Codec) {
    match c
    case Leaf(_) => true
    case Sequence(fs) => forall i :: 0 <= i < |fs| ==> WellFormedField(fs[i])
    case ListOf(e, tag, cls, _) => WellFormed(e) && cls + tag != 0
  }

  predicate WellFormedField(f: Field) {
    match f
    case Get(c) => WellFormed(c)
    case GetOpt(c, typ) => WellFormed(c) && TagsOf(c) == {typ}
    case ImpOpt(c, _, typ) => WellFormed(c) && TagsOf(c) == {typ}
    case ExpOpt(c, _, list) => WellFormed(c) && (list ==> c.ListOf?)
    case ListOpt(c) => WellFormed(c) && c.ListOf?
  }

  /** The optional macros that carry a list leave out an empty one as well as NULL. */
  predicate SkipsEmpty(f: Field) {
    f.ListOpt? || (f.ExpOpt? && f.list)
  }

  /** Whether the I2D macros of `f` write anything for `v`. */
  predicate Present(f: Field, v: Value) {
    !v.Null? && !(SkipsEmpty(f) && v == List([]))
  }

  /** Values that point to an object of the type of `c`, whatever that object points to. */
  predicate IsObject(c: Codec, v: Value) {
    match c
    case Leaf(l) => v.Prim? && l.valid(v.x)
    case Sequence(fs) => v.Struct? && |v.slots| == |fs|
    case ListOf(_, _, _, _) => v.List?
  }

  /** What C's types allow: at every depth NULL, or an object of the right type. */
  predicate Shaped(c: Codec, v: Value) {
    v.Null? ||
    (IsObject(c, v) &&
     match c
     case Leaf(_) => true
     case Sequence(fs) => forall i :: 0 <= i < |fs| ==> ShapedField(fs[i], v.slots[i])
     case ListOf(e, _, _, _) => forall i :: 0 <= i < |v.elems| ==> Shaped(e, v.elems[i]))
  }

  predicate ShapedField(f: Field, v: Value) {
    Shaped(f.c, v)
  }

  /** What a complete object holds: NULL in optional fields only. */
  predicate Typed(c: Codec, v: Value) {
    IsObject(c, v) &&
    match c
    case Leaf(_) => true
    case Sequence(fs) => forall i :: 0 <= i < |fs| ==> TypedField(fs[i], v.slots[i])
    case ListOf(e, _, _, _) => forall i :: 0 <= i < |v.elems| ==> Typed(e, v.elems[i])
  }

  predicate TypedField(f: Field, v: Value) {
    (v.Null? && !f.Get?) || Typed(f.c, v)
  }

  lemma {:induction false} TypedIsShaped(c: Codec, v: Value)
    requires Typed(c, v)
    ensures Shaped(c, v)
    decreases c
  {
    match c {
      case Leaf(_) =>
      case Sequence(fs) =>
        forall i | 0 <= i < |fs| ensures ShapedField(fs[i], v.slots[i]) {
          TypedIsShapedField(fs[i], v.slots[i]);
        }
      case ListOf(e, _, _, _) =>
        forall i | 0 <= i < |v.elems| ensures Shaped(e, v.elems[i]) {
          TypedIsShaped(e, v.elems[i]);
        }
    }
  }

  lemma {:induction false} TypedIsShapedField(f: Field, v: Value)
    requires TypedField(f, v)
    ensures ShapedField(f, v)
    decreases f
  {
    if !v.Null? {
      TypedIsShaped(f.c, v);
    }
  }

  lemma TypedIsObject(f: Field, v: Value)
    requires TypedField(f, v)
    ensures v.Null? || IsObject(f.c, v)
    ensures f.Get? ==> !v.Null?
  {
  }

  /** The slots of the object that decoding fills: those of an object handed in, or fresh NULLs. */
  function Slots(v: Value, n: nat): (s: seq<Value>)
    ensures |s| == n
  {
    if v.Struct? && |v.slots| == n then v.slots else seq(n, _ => Null)
  }
}
