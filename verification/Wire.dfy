/** The codec in octets: what stands on the wire, spelled out in numbers, for the decoder as for the encoder. */
module Wire {
  import opened Bytes
  import opened X690
  import opened Schema
  import opened Decode
  import opened Encode
  import opened RoundTrip
  import opened Encoder
  import opened Grammar

  /** One constructed element around `inner`: the indefinite form, or a definite one with any length octets. */
  ghost predicate Element(cls: Class, tag: Tag, b: seq<byte>, inner: seq<byte>) {
    || b == [cls + 0x20 + tag, 0x80] + inner + [0, 0]
    || exists l :: SpellsLength(l, |inner|) && b == [cls + 0x20 + tag] + l + inner
  }

  lemma FramedIsElement(cls: Class, tag: Tag, b: seq<byte>)
    requires Framed(cls, tag, b)
    ensures Element(cls, tag, b, Contents(b))
  {
    var h := GetObject(b);
    HeaderOnly(b);
    HeadOctet(b);
    if h.inf {
      assert b[|b| - 2..] == [0, 0];
      assert b == b[..2] + b[2..|b| - 2] + b[|b| - 2..];
      assert b[..2] == [b[0], b[1]];
    } else {
      var l := b[1..h.hlen];
      assert b == [b[0]] + l + b[h.hlen..];
    }
  }

  lemma ElementIsFramed(cls: Class, tag: Tag, b: seq<byte>, inner: seq<byte>)
    requires Element(cls, tag, b, inner)
    ensures Framed(cls, tag, b) && Contents(b) == inner
  {
    var id := Ident(cls, tag, true);
    IdentFields(cls, tag, true);
    if b == [id, 0x80] + inner + [0, 0] {
      assert b[|b| - 2..] == [0, 0];
    } else {
      var l :| SpellsLength(l, |inner|) && b == [id] + l + inner;
      HeaderSpelled(id, l, |inner|, inner);
    }
  }

  /** The frames of the grammar are these elements. */
  lemma FramedExactly(cls: Class, tag: Tag, b: seq<byte>, inner: seq<byte>)
    ensures Framed(cls, tag, b) && Contents(b) == inner <==> Element(cls, tag, b, inner)
  {
    if Element(cls, tag, b, inner) {
      ElementIsFramed(cls, tag, b, inner);
    } else if Framed(cls, tag, b) {
      FramedIsElement(cls, tag, b);
    }
  }

  /** What a sequence or list decoder consumes is one such element of its tag, whatever it makes of the contents. */
  lemma ConsumesElement(c: Codec, prev: Value, s: seq<byte>) returns (inner: seq<byte>)
    requires !c.Leaf? && Dec(c, prev, s).Done?
    ensures var b := s[..Dec(c, prev, s).n];
            if c.Sequence? then Element(0, 16, b, inner) else Element(c.cls, c.tag, b, inner)
  {
    hide Run, Elems, Dec, Element, Framed, Contents, GetObject;
    var b := s[..Dec(c, prev, s).n];
    var h := GetObject(s);
    match c {
      case Sequence(fs) =>
        SequenceOnce(fs, prev, s);
        var m := Run(fs, 0, Slots(prev, |fs|), Body(h, s), 0).n;
        BodyCut(h, s, m);
        FramedHere(UNIVERSAL, SEQUENCE, s, m);
        FramedIsElement(0, 16, b);
        inner := s[h.hlen..h.hlen + m];
      case ListOf(e, tag, cls, isSet) =>
        ListOnce(e, tag, cls, isSet, prev, s);
        ElemsEndThere(e, h.inf, Body(h, s));
        var m := Elems(e, h.inf, Body(h, s)).n - if h.inf then 2 else 0;
        BodyCut(h, s, m);
        FramedHere(cls, tag, s, m);
        FramedIsElement(cls, tag, b);
        inner := s[h.hlen..h.hlen + m];
    }
  }

  lemma {:induction false} ElemsEndThere(e: Codec, inf: bool, s: seq<byte>)
    requires Elems(e, inf, s).All?
    ensures var r := Elems(e, inf, s);
            if inf then 2 <= r.n && Eoc(s[r.n - 2..]) else r.n == |s|
    decreases |s|
  {
    hide Elems, Dec, Eoc, EndSequence;
    ElemsOnce(e, inf, s);
    if EndSequence(inf, s) {
      EndsHere(inf, s);
    } else {
      var n := Dec(e, Null, s).n;
      ElemsEndThere(e, inf, s[n..]);
      if inf {
        DropTwice(s, n, Elems(e, inf, s[n..]).n - 2);
      }
    }
  }

  lemma EndsHere(inf: bool, s: seq<byte>)
    requires EndSequence(inf, s)
    ensures if inf then Eoc(s[0..]) else |s| == 0
  {
  }

  lemma DropTwice(s: seq<byte>, n: nat, m: nat)
    requires n + m <= |s|
    ensures s[n..][m..] == s[n + m..]
  {
  }

  /** The octets with which an optional field may start. */
  function Starts(f: Field): set<int> {
    match f
    case Get(_) => {}
    case GetOpt(_, typ) => {typ as int, 0x20 + typ}
    case ImpOpt(_, tag, _) => {0x80 + tag, 0xa0 + tag}
    case ExpOpt(_, tag, _) => {0xa0 + tag}
    case ListOpt(c) => if c.ListOf? then {c.cls + 0x20 + c.tag} else {}
  }

  /** An optional field is passed over exactly when nothing is left or the next octet is not one of those. */
  lemma SkippedExactly(f: Field, prev: Value, s: seq<byte>)
    requires !f.Get?
    ensures DecField(f, prev, s) == Done(prev, 0) <==> s == [] || s[0] !in Starts(f)
  {
    hide Dec, DecExp;
  }

  /** The tags are those that the encoder writes. */
  lemma WrittenStarts(f: Field, v: Value, form: Form)
    requires WellFormedField(f) && (v.Null? || IsObject(f.c, v)) && !f.Get?
    ensures var b := EncField(f, v, form); b == [] || b[0] in Starts(f)
  {
    hide Enc;
    EncFieldFirst(f, v, form);
    if Present(f, v) {
      EncFirst(f.c, v, form);
    }
  }

  /** A sequence is written with 30 in front, and nothing else is taken for one; a list has its own octet. */
  lemma FirstOctets(fs: seq<Field>, e: Codec, tag: Tag, cls: Class, isSet: bool, prev: Value, s: seq<byte>)
    ensures Dec(Sequence(fs), prev, s).Done? ==> s[0] == 0x30
    ensures Dec(ListOf(e, tag, cls, isSet), prev, s).Done? ==> s[0] == cls + 0x20 + tag
    ensures forall v, form | IsObject(Sequence(fs), v) :: Enc(Sequence(fs), v, form)[..1] == [0x30]
    ensures forall v: Value, form | v.List? ::
              Enc(ListOf(e, tag, cls, isSet), v, form)[..1] == [cls + 0x20 + tag]
  {
    hide Run, Elems, GetObject, Dec;
    SequenceOnce(fs, prev, s);
    ListOnce(e, tag, cls, isSet, prev, s);
    if GetObject(s).Header? {
      HeadOctet(s);
    }
  }

  /**
   An EXPLICIT field in indefinite form: the inner function gets all octets but
   the last two, and the value it stores stays in the slot even when the
   end-of-contents octets are missing after it.
   */
  lemma ExplicitIndefinite(c: Codec, tag: Tag, list: bool, prev: Value, s: seq<byte>)
    requires |s| >= 4 && s[0] == 0xa0 + tag && s[1] == 0x80
    ensures var inner := Dec(c, prev, s[2..|s| - 2]);
            var o := if inner.Fail? then inner
                     else if s[2 + inner.n..4 + inner.n] == [0, 0] then Done(inner.val, inner.n + 4)
                     else Fail(inner.val);
            DecField(ExpOpt(c, tag, list), prev, s) == o
  {
    hide Dec, GetObject, DecExp, Window, Eoc;
    IndefiniteHeader(tag, s);
    ExpOnce(c, prev, s);
    var inner := Dec(c, prev, s[2..|s| - 2]);
    if inner.Done? {
      EocThere(s, 2 + inner.n);
    }
  }

  lemma IndefiniteHeader(tag: Tag, s: seq<byte>)
    requires |s| >= 4 && s[0] == 0xa0 + tag && s[1] == 0x80
    ensures GetObject(s) == Header(tag, CONTEXT, true, true, 0, 2) && Window(s, 2, |s| - 4) == s[2..|s| - 2]
  {
    IdentFields(CONTEXT, tag, true);
  }

  lemma EocThere(s: seq<byte>, n: nat)
    requires n + 2 <= |s|
    ensures Eoc(s[n..]) <==> s[n..n + 2] == [0, 0]
  {
    assert s[n..n + 2] == [s[n], s[n + 1]];
  }

  /** In definite form it gets the octets that the length announces, and may leave some of them. */
  lemma ExplicitDefinite(c: Codec, tag: Tag, list: bool, prev: Value, l: seq<byte>, body: seq<byte>, rest: seq<byte>)
    requires SpellsLength(l, |body|)
    ensures var inner := Dec(c, prev, body);
            var o := if inner.Fail? then inner else Done(inner.val, 1 + |l| + inner.n);
            DecField(ExpOpt(c, tag, list), prev, [0xa0 + tag] + l + body + rest) == o
  {
    hide Dec, GetObject;
    IdentFields(CONTEXT, tag, true);
    var s := [0xa0 + tag] + l + body + rest;
    assert s == [0xa0 + tag] + l + (body + rest);
    HeaderSpelled(0xa0 + tag, l, |body|, body + rest);
    ExpOnce(c, prev, s);
    var w := Window(s, 1 + |l|, |body|);
    assert w == body;
  }

  /** An empty list gives no octets under the macros that look into it, and some under every other. */
  lemma EmptyList(f: Field, form: Form)
    requires f.c.ListOf?
    ensures EncField(f, List([]), form) == [] <==> f.ListOpt? || (f.ExpOpt? && f.list)
  {
    EncFieldFirst(f, List([]), form);
  }

  /** What an encoder has put into a buffer, a decoder that starts there reads back; the other octets are as before. */
  lemma WrittenIsRead(c: Codec, v: Value, prev: Value, mem: seq<byte>, at: nat, len: nat)
    requires WellFormed(c) && Typed(c, v) && Clear(c, v) && |Enc(c, v, DER)| <= INT_MAX
    requires at + |Enc(c, v, DER)| <= at + len <= |mem|
    ensures var n, out := |Enc(c, v, DER)|, Put(mem, at, Enc(c, v, DER));
            && Dec(c, prev, out[at..at + len]) == Done(Over(c, prev, v), n)
            && out[..at] == mem[..at] && out[at + n..] == mem[at + n..]
  {
    hide Dec, Enc;
    var b := Enc(c, v, DER);
    var out := Put(mem, at, b);
    CodecBack(c, v, DER, prev, out[at..at + len][|b|..]);
    assert out[at..at + len] == b + out[at..at + len][|b|..];
  }
}
