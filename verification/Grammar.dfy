/**
 The encodings of a value as a grammar without lookahead, cursor or order of
 attempts, and the decoder as its parser.
 */
module Grammar {
  import opened Bytes
  import opened X690
  import opened Schema
  import opened Decode
  import opened RoundTrip
  import opened Ambiguity
  import opened Canonical
  import opened Locality

  /** `b` is one constructed element, in either form and with any length octets. */
  predicate Framed(cls: Class, tag: Tag, b: seq<byte>) {
    var h := GetObject(b);
    && Heads(h, cls, tag)
    && if h.inf then |b| >= h.hlen + 2 && Eoc(b[|b| - 2..]) else |b| == h.hlen + h.len
  }

  /** What the frame holds. */
  function Contents(b: seq<byte>): seq<byte>
    requires var h := GetObject(b); h.Header? && (h.inf ==> |b| >= h.hlen + 2)
  {
    var h := GetObject(b);
    if h.inf then b[h.hlen..|b| - 2] else b[h.hlen..]
  }

  /**
   `b` encodes `v`. With `look`, it does so in a way that lookahead can follow:
   an absent optional field refuses the octet that comes next.
   */
  ghost predicate Spells(c: Codec, v: Value, b: seq<byte>, look: bool)
    decreases c, 0
  {
    match c
    case Leaf(l) =>
      v.Prim? && l.dec(b) == Some((v.x, |b|))
    case Sequence(fs) =>
      && v.Struct? && |v.slots| == |fs|
      && Framed(UNIVERSAL, SEQUENCE, b) && SpellsFields(fs, v.slots, 0, Contents(b), look)
    case ListOf(e, tag, cls, _) =>
      v.List? && Framed(cls, tag, b) && SpellsElems(e, v.elems, Contents(b), look)
  }

  ghost predicate SpellsFields(fs: seq<Field>, vs: seq<Value>, i: nat, b: seq<byte>, look: bool)
    requires i <= |fs| == |vs|
    decreases fs, |fs| - i
  {
    if i == |fs| then
      b == []
    else
      exists k :: 0 <= k <= |b| && Splits(fs, vs, i, b, k, look) && SpellsFields(fs, vs, i + 1, b[k..], look)
  }

  /** The `i`th field takes the first `k` octets. */
  ghost predicate Splits(fs: seq<Field>, vs: seq<Value>, i: nat, b: seq<byte>, k: nat, look: bool)
    requires i < |fs| == |vs| && k <= |b|
    decreases fs, 0
  {
    && SpellsField(fs[i], vs[i], b[..k], look)
    && (look && vs[i].Null? ==> !Tried(fs[i], b[k..]))
  }

  ghost predicate SpellsElems(e: Codec, xs: seq<Value>, b: seq<byte>, look: bool)
    decreases e, 1 + |xs|
  {
    if xs == [] then
      b == []
    else
      exists k :: 0 <= k <= |b| && Spells(e, xs[0], b[..k], look) && SpellsElems(e, xs[1..], b[k..], look)
  }

  ghost predicate SpellsField(f: Field, v: Value, b: seq<byte>, look: bool)
    decreases f, 0
  {
    if v.Null? then
      !f.Get? && b == []
    else
      match f
      case Get(c) => Spells(c, v, b, look)
      case GetOpt(c, _) => Spells(c, v, b, look)
      case ImpOpt(c, tag, typ) =>
        b != [] && Strip(b[0]) == CONTEXT + tag && Spells(c, v, b[0 := ConsBit(b[0]) + typ], look)
      case ExpOpt(c, tag, _) =>
        Framed(CONTEXT, tag, b) && Spells(c, v, Contents(b), look)
      case ListOpt(c) => Spells(c, v, b, look)
  }

  /** In a longer window the frame is the same, with the contents in front. */
  lemma FramedThere(cls: Class, tag: Tag, b: seq<byte>, rest: seq<byte>)
    requires Framed(cls, tag, b)
    ensures var h := GetObject(b);
            && Heads(h, cls, tag) && (h.inf ==> |b| >= h.hlen + 2)
            && GetObject(b + rest) == h
            && Body(h, b + rest) == Contents(b) + Tail(h.inf, rest)
            && |b| == h.hlen + |Contents(b)| + (if h.inf then 2 else 0)
            && (b + rest)[h.hlen..] == Contents(b) + (if h.inf then [0, 0] else []) + rest
            && b[0] == Ident(cls, tag, true) && Strip(b[0]) == cls + tag
  {
    hide GetObject, Body, Contents, Tail;
    var h := GetObject(b);
    HeadOctet(b);
    HeaderLocal(b, b + rest);
    FrameEnds(cls, tag, b);
    RestAfter(b, h.hlen, Contents(b), if h.inf then [0, 0] else [], rest);
    BodyAfter(h, b + rest, Contents(b), rest);
  }

  lemma FrameEnds(cls: Class, tag: Tag, b: seq<byte>)
    requires Framed(cls, tag, b)
    ensures var h := GetObject(b);
            && h.Header? && (h.inf ==> |b| >= h.hlen + 2)
            && b[h.hlen..] == Contents(b) + if h.inf then [0, 0] else []
  {
    hide GetObject;
    var h := GetObject(b);
    if h.inf {
      assert b[|b| - 2..] == [0, 0];
    }
  }

  lemma RestAfter(b: seq<byte>, n: nat, inner: seq<byte>, end: seq<byte>, rest: seq<byte>)
    requires n <= |b| && b[n..] == inner + end
    ensures (b + rest)[n..] == inner + end + rest && |b| == n + |inner| + |end|
  {
    assert (b + rest)[n..] == b[n..] + rest;
  }

  lemma BodyAfter(h: Header, s: seq<byte>, inner: seq<byte>, rest: seq<byte>)
    requires h.Header? && h.hlen <= |s| && (!h.inf ==> h.len == |inner|)
    requires s[h.hlen..] == inner + (if h.inf then [0, 0] else []) + rest
    ensures (!h.inf ==> h.hlen + h.len <= |s|) && Body(h, s) == inner + Tail(h.inf, rest)
  {
    assert h.inf ==> inner + [0, 0] + rest == inner + ([0, 0] + rest);
    assert !h.inf ==> s[h.hlen..][..|inner|] == inner;
  }

  lemma {:induction false} SpellingStarts(c: Codec, v: Value, b: seq<byte>, look: bool)
    requires Spells(c, v, b, look)
    ensures b != [] && Strip(b[0]) in TagsOf(c) && !v.Null?
    ensures c.ListOf? ==> b[0] == Ident(c.cls, c.tag, true)
  {
    hide GetObject, Contents, SpellsFields, SpellsElems;
    match c {
      case Leaf(_) =>
      case Sequence(_) => FramedThere(UNIVERSAL, SEQUENCE, b, []);
      case ListOf(_, tag, cls, _) => FramedThere(cls, tag, b, []);
    }
  }

  /** What a field starts with: its own tag, and so that its own test accepts it. */
  lemma FieldFirst(f: Field, v: Value, b: seq<byte>, look: bool)
    requires WellFormedField(f) && SpellsField(f, v, b, look) && !v.Null?
    ensures b != [] && Strip(b[0]) in IdsOf(f) && Accepts(f, b[0])
  {
    hide Spells, GetObject, Contents, Framed;
    match f {
      case Get(c) => SpellingStarts(c, v, b, look);
      case GetOpt(c, _) => SpellingStarts(c, v, b, look);
      case ImpOpt(_, _, _) =>
      case ExpOpt(_, tag, _) => FramedThere(CONTEXT, tag, b, []);
      case ListOpt(c) => SpellingStarts(c, v, b, look);
    }
  }

  lemma FieldsCut(fs: seq<Field>, vs: seq<Value>, i: nat, b: seq<byte>, look: bool) returns (k: nat)
    requires i < |fs| == |vs| && SpellsFields(fs, vs, i, b, look)
    ensures k <= |b| && SpellsField(fs[i], vs[i], b[..k], look) && SpellsFields(fs, vs, i + 1, b[k..], look)
    ensures vs[i].Null? ==> k == 0 && b[k..] == b && !fs[i].Get? && (look ==> !Tried(fs[i], b))
  {
    hide Spells, Framed;
    k :| 0 <= k <= |b| && Splits(fs, vs, i, b, k, look) && SpellsFields(fs, vs, i + 1, b[k..], look);
    if vs[i].Null? {
      assert |b[..k]| == 0;
      assert b[k..] == b;
    }
  }

  lemma FieldsGlue(fs: seq<Field>, vs: seq<Value>, i: nat, b: seq<byte>, k: nat, look: bool)
    requires i < |fs| == |vs| && k <= |b|
    requires SpellsField(fs[i], vs[i], b[..k], look) && SpellsFields(fs, vs, i + 1, b[k..], look)
    requires look && vs[i].Null? ==> !Tried(fs[i], b[k..])
    ensures SpellsFields(fs, vs, i, b, look)
  {
    hide Spells, SpellsField;
    assert Splits(fs, vs, i, b, k, look);
  }

  lemma ElemsCut(e: Codec, xs: seq<Value>, b: seq<byte>, look: bool) returns (k: nat)
    requires xs != [] && SpellsElems(e, xs, b, look)
    ensures k <= |b| && Spells(e, xs[0], b[..k], look) && SpellsElems(e, xs[1..], b[k..], look)
  {
    hide Spells;
    k :| 0 <= k <= |b| && Spells(e, xs[0], b[..k], look) && SpellsElems(e, xs[1..], b[k..], look);
  }

  /** The first octet of what the fields from the `i`th on spell belongs to the next one that is present. */
  lemma {:induction false} NextSpelled(fs: seq<Field>, vs: seq<Value>, i: nat, b: seq<byte>, look: bool)
    returns (j: nat)
    requires i <= |fs| == |vs| && SpellsFields(fs, vs, i, b, look) && b != []
    requires forall j :: 0 <= j < |fs| ==> WellFormedField(fs[j])
    ensures i <= j < |fs| && Optional(fs, i, j) && Strip(b[0]) in IdsOf(fs[j])
    decreases |fs| - i
  {
    hide Spells, SpellsField, Splits;
    var k := FieldsCut(fs, vs, i, b, look);
    if vs[i].Null? {
      j := NextSpelled(fs, vs, i + 1, b, look);
    } else {
      FieldFirst(fs[i], vs[i], b[..k], look);
      j := i;
    }
  }

  /** With distinct tags, an absent field refuses what the later fields spell. */
  lemma AbsentRefuses(fs: seq<Field>, vs: seq<Value>, i: nat, b: seq<byte>, look: bool)
    requires i < |fs| == |vs| && !fs[i].Get? && SpellsFields(fs, vs, i + 1, b, look)
    requires WellFormed(Sequence(fs)) && DistinctTags(Sequence(fs))
    ensures !Tried(fs[i], b)
  {
    hide Spells, SpellsField, SpellsFields;
    if b != [] {
      var j := NextSpelled(fs, vs, i + 1, b, look);
      assert Optional(fs, i, j) && IdsOf(fs[i]) !! IdsOf(fs[j]);
      if Accepts(fs[i], b[0]) {
        AcceptsOwnId(fs[i], b[0]);
      }
    }
  }

  /** With distinct tags, lookahead can follow every spelling. */
  lemma {:induction false} DistinctFollows(c: Codec, v: Value, b: seq<byte>)
    requires WellFormed(c) && DistinctTags(c) && Spells(c, v, b, false)
    ensures Spells(c, v, b, true)
    decreases c, 0
  {
    hide Contents, SpellsFields, SpellsElems, GetObject;
    match c {
      case Leaf(_) =>
      case Sequence(fs) => FieldsFollow(fs, v.slots, 0, Contents(b));
      case ListOf(e, _, _, _) => ElemsFollow(e, v.elems, Contents(b));
    }
  }

  lemma {:induction false} FieldsFollow(fs: seq<Field>, vs: seq<Value>, i: nat, b: seq<byte>)
    requires WellFormed(Sequence(fs)) && DistinctTags(Sequence(fs))
    requires i <= |fs| == |vs| && SpellsFields(fs, vs, i, b, false)
    ensures SpellsFields(fs, vs, i, b, true)
    decreases fs, |fs| - i
  {
    hide Spells, SpellsField, Tried;
    if i < |fs| {
      var k := FieldsCut(fs, vs, i, b, false);
      FieldFollows(fs[i], vs[i], b[..k]);
      FieldsFollow(fs, vs, i + 1, b[k..]);
      if vs[i].Null? {
        AbsentRefuses(fs, vs, i, b[k..], true);
      }
      FieldsGlue(fs, vs, i, b, k, true);
    }
  }

  lemma {:induction false} FieldFollows(f: Field, v: Value, b: seq<byte>)
    requires WellFormedField(f) && DistinctField(f) && SpellsField(f, v, b, false)
    ensures SpellsField(f, v, b, true)
    decreases f
  {
    hide Spells, GetObject;
    if !v.Null? {
      match f {
        case Get(c) => DistinctFollows(c, v, b);
        case GetOpt(c, _) => DistinctFollows(c, v, b);
        case ImpOpt(c, _, typ) => DistinctFollows(c, v, b[0 := ConsBit(b[0]) + typ]);
        case ExpOpt(c, _, _) => DistinctFollows(c, v, Contents(b));
        case ListOpt(c) => DistinctFollows(c, v, b);
      }
    }
  }

  lemma {:induction false} ElemsFollow(e: Codec, xs: seq<Value>, b: seq<byte>)
    requires WellFormed(e) && DistinctTags(e) && SpellsElems(e, xs, b, false)
    ensures SpellsElems(e, xs, b, true)
    decreases e, 1 + |xs|
  {
    hide Spells;
    if xs != [] {
      var k := ElemsCut(e, xs, b, false);
      DistinctFollows(e, xs[0], b[..k]);
      ElemsFollow(e, xs[1..], b[k..]);
    }
  }

  /** What is refused at the front of the contents is refused in the window that holds them. */
  lemma AbsentPassed(f: Field, b: seq<byte>, tail: seq<byte>)
    requires WellFormedField(f) && !f.Get? && !Tried(f, b) && Ends(tail)
    ensures !Tried(f, b + tail)
  {
    if b == [] {
      assert b + tail == tail;
      EndsUntried(f, tail);
    }
  }

  lemma {:induction false} FieldComplete(f: Field, v: Value, b: seq<byte>, rest: seq<byte>)
    requires WellFormedField(f) && SpellsField(f, v, b, true) && !v.Null?
    ensures DecField(f, Null, b + rest) == Done(v, |b|) && FilledField(f, Null, b + rest)
    decreases f
  {
    hide Dec, DecExp, Spells, Filled, FilledExp;
    FieldFirst(f, v, b, true);
    match f {
      case Get(c) => Complete(c, v, b, rest);
      case GetOpt(c, _) => Complete(c, v, b, rest);
      case ImpOpt(c, _, typ) =>
        var x := ConsBit(b[0]) + typ;
        assert (b + rest)[0 := x] == b[0 := x] + rest;
        Complete(c, v, b[0 := x], rest);
      case ExpOpt(_, _, _) => ExplicitComplete(f, v, b, rest);
      case ListOpt(c) => Complete(c, v, b, rest);
    }
  }

  lemma {:induction false} ExplicitComplete(f: Field, v: Value, b: seq<byte>, rest: seq<byte>)
    requires f.ExpOpt? && WellFormedField(f) && SpellsField(f, v, b, true) && !v.Null?
    ensures DecExp(f.c, Null, b + rest) == Done(v, |b|) && FilledExp(f.c, Null, b + rest)
    decreases f, 0
  {
    hide Dec, DecExp, GetObject, Body, Window, Spells, Filled, Framed, Contents;
    FramedThere(CONTEXT, f.tag, b, rest);
    var s, inner := b + rest, Contents(b);
    var h := GetObject(s);
    ExplicitWindow(h, s, inner, rest);
    var w := Window(s, h.hlen, ExpLength(h, s));
    assert w == inner + w[|inner|..];
    Complete(f.c, v, inner, w[|inner|..]);
    ExpOnce(f.c, Null, s);
  }

  lemma UntriedFilled(f: Field, s: seq<byte>)
    requires !Tried(f, s)
    ensures FilledField(f, Null, s) && DecField(f, Null, s) == Done(Null, 0)
  {
    hide Dec;
  }

  lemma {:induction false} FieldsComplete(fs: seq<Field>, vs: seq<Value>, i: nat, slots: seq<Value>,
                                          s: seq<byte>, n: nat, b: seq<byte>, tail: seq<byte>)
    requires i <= |fs| == |vs| == |slots| && n <= |s|
    requires WellFormed(Sequence(fs))
    requires (forall j :: 0 <= j < i ==> slots[j] == vs[j]) && forall j :: i <= j < |fs| ==> slots[j].Null?
    requires SpellsFields(fs, vs, i, b, true) && s[n..] == b + tail && Ends(tail)
    ensures Run(fs, i, slots, s, n) == Ran(vs, n + |b|) && FilledRun(fs, i, slots, s, n)
    decreases fs, |fs| - i
  {
    hide Run, DecField, Dec, Spells, SpellsField, FilledField, Tried;
    if i == |fs| {
      RunEnd(fs, slots, s, n);
      assert slots == vs && b == [];
    } else {
      var k := FieldsCut(fs, vs, i, b, true);
      var more := b[k..] + tail;
      assert s[n..] == b[..k] + more;
      if vs[i].Null? {
        AbsentPassed(fs[i], b[k..], tail);
        assert b[..k] + more == more;
        UntriedFilled(fs[i], more);
      } else {
        FieldComplete(fs[i], vs[i], b[..k], more);
      }
      RunStep(fs, i, slots, s, n, b[..k], more, vs[i]);
      FilledRunOnce(fs, i, slots, s, n, Done(vs[i], k));
      FieldsComplete(fs, vs, i + 1, slots[i := vs[i]], s, n + k, b[k..], tail);
    }
  }

  lemma {:induction false} ElemsComplete(e: Codec, xs: seq<Value>, inf: bool, b: seq<byte>, rest: seq<byte>,
                                         s: seq<byte>)
    requires WellFormed(e) && SpellsElems(e, xs, b, true) && s == b + Tail(inf, rest)
    ensures Elems(e, inf, s) == All(xs, |b| + if inf then 2 else 0) && FilledElems(e, inf, s)
    decreases e, 1 + |xs|
  {
    hide Elems, Dec, Spells, Filled, Framed, SpellsElems, FilledElems, Tail;
    if xs == [] {
      ElemsNothing(e, inf, b, rest, s);
    } else {
      var k := ElemsCut(e, xs, b, true);
      var more := b[k..] + Tail(inf, rest);
      assert s == b[..k] + more && s[k..] == more;
      SpellingStarts(e, xs[0], b[..k], true);
      TagNonZero(e);
      Complete(e, xs[0], b[..k], more);
      ElemsComplete(e, xs[1..], inf, b[k..], rest, more);
      var m := |b[k..]| + if inf then 2 else 0;
      ElemsStep(e, inf, b[..k], more, xs[0], xs[1..], m);
      FilledElemsOnce(e, inf, s, k);
      assert [xs[0]] + xs[1..] == xs && k + m == |b| + if inf then 2 else 0;
    }
  }

  lemma ElemsNothing(e: Codec, inf: bool, b: seq<byte>, rest: seq<byte>, s: seq<byte>)
    requires SpellsElems(e, [], b, true) && s == b + Tail(inf, rest)
    ensures Elems(e, inf, s) == All([], |b| + if inf then 2 else 0) && FilledElems(e, inf, s)
  {
    hide Dec, Filled;
    assert s == Tail(inf, rest);
    ElemsOnce(e, inf, s);
  }

  /** The decoder finds every spelling that lookahead can follow, and what it finds is filled. */
  lemma {:induction false} Complete(c: Codec, v: Value, b: seq<byte>, rest: seq<byte>)
    requires WellFormed(c) && Spells(c, v, b, true)
    ensures Dec(c, Null, b + rest) == Done(v, |b|) && Filled(c, Null, b + rest)
    decreases c, 0
  {
    hide Run, Elems, GetObject, Body, FilledRun, FilledElems, SpellsFields, SpellsElems, Contents, Framed, Dec;
    match c {
      case Leaf(l) => LeafComplete(l, v, b, rest);
      case Sequence(fs) =>
        FramedThere(UNIVERSAL, SEQUENCE, b, rest);
        var inner, tail := Contents(b), Tail(GetObject(b).inf, rest);
        assert (inner + tail)[0..] == inner + tail;
        FieldsComplete(fs, v.slots, 0, Slots(Null, |fs|), inner + tail, 0, inner, tail);
        TailDrop(inner, GetObject(b).inf, rest);
        SequenceOnce(fs, Null, b + rest);
      case ListOf(e, tag, cls, isSet) =>
        FramedThere(cls, tag, b, rest);
        var inf := GetObject(b).inf;
        ElemsComplete(e, v.elems, inf, Contents(b), rest, Contents(b) + Tail(inf, rest));
        ListOnce(e, tag, cls, isSet, Null, b + rest);
    }
  }

  lemma LeafComplete(l: Leaf, v: Value, b: seq<byte>, rest: seq<byte>)
    requires Spells(Leaf(l), v, b, true)
    ensures Dec(Leaf(l), Null, b + rest) == Done(v, |b|)
  {
    assert Agree(b, b + rest, |b|);
  }

  /** Cut down to what was consumed, the frame is complete. */
  lemma FramedHere(cls: Class, tag: Tag, s: seq<byte>, m: nat)
    requires var h := GetObject(s); Heads(h, cls, tag) && m <= |s| - h.hlen
    requires var h := GetObject(s); if h.inf then Eoc(s[h.hlen + m..]) else m == h.len
    ensures var h := GetObject(s);
            var n := h.hlen + m + if h.inf then 2 else 0;
            && n <= |s| && Framed(cls, tag, s[..n]) && Contents(s[..n]) == s[h.hlen..h.hlen + m]
  {
    var h := GetObject(s);
    var n := h.hlen + m + if h.inf then 2 else 0;
    var b := s[..n];
    HeaderLocal(s, b);
    if h.inf {
      assert b[|b| - 2..] == s[h.hlen + m..][..2];
    }
  }

  lemma {:induction false} RunSound(fs: seq<Field>, i: nat, slots: seq<Value>, s: seq<byte>, n: nat, look: bool)
    requires i <= |fs| == |slots| && n <= |s|
    requires forall j :: i <= j < |fs| ==> slots[j].Null?
    requires Run(fs, i, slots, s, n).Ran? && FilledRun(fs, i, slots, s, n)
    ensures var r := Run(fs, i, slots, s, n); SpellsFields(fs, r.slots, i, s[n..r.n], look)
    decreases fs, |fs| - i
  {
    hide Run, DecField, Dec, FilledField, SpellsField, FilledRun, Spells, Tried;
    if i == |fs| {
      RunEnd(fs, slots, s, n);
    } else {
      var o := DecField(fs[i], slots[i], s[n..]);
      RunOnce(fs, i, slots, s, n, o);
      FilledRunOnce(fs, i, slots, s, n, o);
      FieldSound(fs[i], s[n..], look);
      var r := Run(fs, i + 1, slots[i := o.val], s, n + o.n);
      RunSound(fs, i + 1, slots[i := o.val], s, n + o.n, look);
      RunKeeps(fs, i + 1, slots[i := o.val], s, n + o.n, i);
      var b := s[n..r.n];
      assert b[..o.n] == s[n..][..o.n] && b[o.n..] == s[n + o.n..r.n];
      if o.val.Null? {
        assert b <= s[n..];
        PrefixUntried(fs[i], s[n..], b, o);
      }
      FieldsGlue(fs, r.slots, i, b, o.n, look);
    }
  }

  lemma PrefixUntried(f: Field, s: seq<byte>, b: seq<byte>, o: Outcome)
    requires o == DecField(f, Null, s) && o.Done? && o.val.Null? && b <= s
    ensures o.n == 0 && b[o.n..] == b && !Tried(f, b)
  {
    hide Dec;
  }

  lemma {:induction false} FieldSound(f: Field, s: seq<byte>, look: bool)
    requires DecField(f, Null, s).Done? && FilledField(f, Null, s)
    ensures var o := DecField(f, Null, s); SpellsField(f, o.val, s[..o.n], look)
    decreases f
  {
    hide Dec, DecExp, Spells, Filled, FilledExp;
    if Tried(f, s) {
      var n := DecField(f, Null, s).n;
      match f {
        case Get(c) => Sound(c, s, look);
        case GetOpt(c, _) => Sound(c, s, look);
        case ImpOpt(c, _, typ) =>
          var x := ConsBit(s[0]) + typ;
          assert s[0 := x][..n] == s[..n][0 := x];
          Sound(c, s[0 := x], look);
        case ExpOpt(_, _, _) => ExplicitSound(f, s, look);
        case ListOpt(c) => Sound(c, s, look);
      }
    }
  }

  lemma {:induction false} ExplicitSound(f: Field, s: seq<byte>, look: bool)
    requires f.ExpOpt? && Tried(f, s) && DecExp(f.c, Null, s).Done? && FilledExp(f.c, Null, s)
    ensures var o := DecExp(f.c, Null, s); SpellsField(f, o.val, s[..o.n], look)
    decreases f, 0
  {
    hide Dec, DecExp, GetObject, Filled, Spells, Framed, Contents;
    ExpOnce(f.c, Null, s);
    HeadOctet(s);
    var h := GetObject(s);
    var w := Window(s, h.hlen, ExpLength(h, s));
    var m := Dec(f.c, Null, w).n;
    Sound(f.c, w, look);
    FramedHere(CONTEXT, f.tag, s, m);
    assert w[..m] == s[h.hlen..h.hlen + m];
  }

  lemma {:induction false} ElemsSound(e: Codec, inf: bool, s: seq<byte>, look: bool)
    requires Elems(e, inf, s).All? && FilledElems(e, inf, s)
    ensures var r := Elems(e, inf, s);
            var m := r.n - if inf then 2 else 0;
            0 <= m <= |s| && SpellsElems(e, r.elems, s[..m], look) && (inf ==> Eoc(s[m..]))
    decreases e, 1 + |s|
  {
    hide Elems, Dec, Filled, Spells, FilledElems;
    ElemsOnce(e, inf, s);
    if !EndSequence(inf, s) {
      var o := Dec(e, Null, s);
      FilledElemsOnce(e, inf, s, o.n);
      Sound(e, s, look);
      ElemsSound(e, inf, s[o.n..], look);
      var r := Elems(e, inf, s[o.n..]);
      ElemsGlue(e, s, o, r.elems, r.n - if inf then 2 else 0, look);
    }
  }

  lemma ElemsGlue(e: Codec, s: seq<byte>, o: Outcome, xs: seq<Value>, m: nat, look: bool)
    requires o.Done? && o.n <= |s| && m <= |s| - o.n
    requires Spells(e, o.val, s[..o.n], look) && SpellsElems(e, xs, s[o.n..][..m], look)
    ensures SpellsElems(e, [o.val] + xs, s[..o.n + m], look) && s[o.n..][m..] == s[o.n + m..]
  {
    hide Spells;
    var b := s[..o.n + m];
    assert b[..o.n] == s[..o.n] && b[o.n..] == s[o.n..][..m];
    assert ([o.val] + xs)[1..] == xs;
  }

  /** What the decoder accepts is a spelling, when it is filled. */
  lemma {:induction false} Sound(c: Codec, s: seq<byte>, look: bool)
    requires Dec(c, Null, s).Done? && Filled(c, Null, s)
    ensures var o := Dec(c, Null, s); Spells(c, o.val, s[..o.n], look)
    decreases c, 0
  {
    hide Run, Elems, GetObject, Body, FilledRun, FilledElems, SpellsFields, SpellsElems, Contents, Framed;
    match c {
      case Leaf(l) => LeafSound(l, s, look);
      case Sequence(fs) =>
        SequenceOnce(fs, Null, s);
        var h := GetObject(s);
        var body := Body(h, s);
        RunSound(fs, 0, Slots(Null, |fs|), body, 0, look);
        var m := Run(fs, 0, Slots(Null, |fs|), body, 0).n;
        BodyCut(h, s, m);
        FramedHere(UNIVERSAL, SEQUENCE, s, m);
      case ListOf(e, tag, cls, isSet) =>
        ListOnce(e, tag, cls, isSet, Null, s);
        var h := GetObject(s);
        ElemsSound(e, h.inf, Body(h, s), look);
        var m := Elems(e, h.inf, Body(h, s)).n - if h.inf then 2 else 0;
        BodyCut(h, s, m);
        FramedHere(cls, tag, s, m);
    }
  }

  lemma BodyCut(h: Header, s: seq<byte>, m: nat)
    requires h == GetObject(s) && h.Header? && m <= |Body(h, s)|
    ensures Body(h, s)[0..m] == Body(h, s)[..m] == s[h.hlen..h.hlen + m]
    ensures h.inf ==> Body(h, s)[m..] == s[h.hlen + m..]
  {
  }

  lemma LeafSound(l: Leaf, s: seq<byte>, look: bool)
    requires Dec(Leaf(l), Null, s).Done?
    ensures var o := Dec(Leaf(l), Null, s); Spells(Leaf(l), o.val, s[..o.n], look)
  {
    var n := Dec(Leaf(l), Null, s).n;
    assert Agree(s, s[..n], n);
  }

  /**
   The decoder parses the grammar: `s` starts with a spelling of `v` in `n`
   octets that lookahead can follow if and only if decoding `s` gives `v` after
   `n` octets and every definite EXPLICIT element on the way is filled.
   */
  lemma ParsesExactly(c: Codec, s: seq<byte>, v: Value, n: nat)
    requires WellFormed(c)
    ensures Dec(c, Null, s) == Done(v, n) && Filled(c, Null, s) <==> n <= |s| && Spells(c, v, s[..n], true)
  {
    if n <= |s| && Spells(c, v, s[..n], true) {
      assert s[..n] + s[n..] == s;
      Complete(c, v, s[..n], s[n..]);
    } else if Dec(c, Null, s) == Done(v, n) && Filled(c, Null, s) {
      Sound(c, s, true);
    }
  }

  /** With distinct tags lookahead never matters: every spelling is parsed. */
  lemma ParsesDistinct(c: Codec, s: seq<byte>, v: Value, n: nat)
    requires WellFormed(c) && DistinctTags(c)
    ensures Dec(c, Null, s) == Done(v, n) && Filled(c, Null, s) <==> n <= |s| && Spells(c, v, s[..n], false)
  {
    ParsesExactly(c, s, v, n);
    if n <= |s| && Spells(c, v, s[..n], false) {
      DistinctFollows(c, v, s[..n]);
    } else if Dec(c, Null, s) == Done(v, n) && Filled(c, Null, s) {
      Sound(c, s, false);
    }
  }
}
