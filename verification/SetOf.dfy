/** The order of SET OF lists, which the encoder chooses in code that is not here, at every depth. */
module SetOf {
  import opened Bytes
  import opened Schema
  import opened Decode
  import opened Encode
  import opened RoundTrip
  import opened Canonical

  /** Equal but for the order of the elements of lists that are written with IS_SET. */
  ghost predicate SameSets(c: Codec, v: Value, w: Value)
    decreases c, 0
  {
    match c
    case Leaf(_) => v == w
    case Sequence(fs) =>
      if v.Struct? && w.Struct? && |v.slots| == |w.slots| == |fs| then
        forall i :: 0 <= i < |fs| ==> SameSetsField(fs[i], v.slots[i], w.slots[i])
      else
        v == w
    case ListOf(e, _, _, isSet) =>
      if v.List? && w.List? then
        |v.elems| == |w.elems| &&
        if isSet then Permuted(e, v.elems, w.elems)
        else forall i :: 0 <= i < |v.elems| ==> SameSets(e, v.elems[i], w.elems[i])
      else
        v == w
  }

  ghost predicate SameSetsField(f: Field, v: Value, w: Value)
    decreases f, 0
  {
    SameSets(f.c, v, w)
  }

  function Without(ys: seq<Value>, k: nat): (r: seq<Value>)
    requires k < |ys|
    ensures |r| == |ys| - 1
    ensures forall j :: 0 <= j < |r| ==> r[j] == ys[if j < k then j else j + 1]
  {
    ys[..k] + ys[k + 1..]
  }

  /** The elements can be paired off. */
  ghost predicate Permuted(e: Codec, xs: seq<Value>, ys: seq<Value>)
    requires |xs| == |ys|
    decreases e, 1 + |xs|
  {
    xs == [] || exists k :: 0 <= k < |ys| && SameSets(e, xs[0], ys[k]) && Permuted(e, xs[1..], Without(ys, k))
  }

  /** Every element of a permuted list has its partner. */
  lemma {:induction false} Partner(e: Codec, xs: seq<Value>, ys: seq<Value>, j: nat) returns (i: nat)
    requires |xs| == |ys| && Permuted(e, xs, ys) && j < |ys|
    ensures i < |xs| && SameSets(e, xs[i], ys[j])
    decreases |xs|
  {
    hide SameSets, Without;
    var k :| 0 <= k < |ys| && SameSets(e, xs[0], ys[k]) && Permuted(e, xs[1..], Without(ys, k));
    if j == k {
      i := 0;
    } else {
      i := Partner(e, xs[1..], Without(ys, k), if j < k then j else j - 1);
      i := i + 1;
    }
  }

  lemma {:induction false} SameItself(c: Codec, v: Value)
    ensures SameSets(c, v, v)
    decreases c, 0
  {
    match c {
      case Leaf(_) =>
      case Sequence(fs) =>
        if v.Struct? && |v.slots| == |fs| {
          forall i | 0 <= i < |fs| ensures SameSetsField(fs[i], v.slots[i], v.slots[i]) {
            SameItselfField(fs[i], v.slots[i]);
          }
        }
      case ListOf(e, _, _, _) =>
        if v.List? {
          forall i | 0 <= i < |v.elems| ensures SameSets(e, v.elems[i], v.elems[i]) {
            SameItself(e, v.elems[i]);
          }
          Reordered(e, v.elems, v.elems);
        }
    }
  }

  lemma {:induction false} SameItselfField(f: Field, v: Value)
    ensures SameSetsField(f, v, v)
    decreases f
  {
    SameItself(f.c, v);
  }

  /** Every order of the same elements will do. */
  lemma {:induction false} Reordered(e: Codec, xs: seq<Value>, ys: seq<Value>)
    requires multiset(xs) == multiset(ys)
    ensures |xs| == |ys| && Permuted(e, xs, ys)
    decreases e, 1 + |xs|
  {
    hide SameSets;
    assert |multiset(xs)| == |multiset(ys)|;
    if xs != [] {
      PickFirst(xs);
      assert xs[0] in multiset(ys);
      var k :| 0 <= k < |ys| && ys[k] == xs[0];
      PickOut(ys, k);
      CancelOne(xs[0], multiset(xs[1..]), multiset(Without(ys, k)));
      Reordered(e, xs[1..], Without(ys, k));
      SameItself(e, xs[0]);
      Paired(e, xs, ys, k);
    }
  }

  /** And for elements without lists inside, nothing else. */
  lemma {:induction false} OnlyReordered(l: Leaf, xs: seq<Value>, ys: seq<Value>)
    requires |xs| == |ys|
    ensures Permuted(Leaf(l), xs, ys) <==> multiset(xs) == multiset(ys)
    decreases |xs|
  {
    if multiset(xs) == multiset(ys) {
      Reordered(Leaf(l), xs, ys);
    } else if Permuted(Leaf(l), xs, ys) && xs != [] {
      var k :| 0 <= k < |ys| && SameSets(Leaf(l), xs[0], ys[k]) && Permuted(Leaf(l), xs[1..], Without(ys, k));
      OnlyReordered(l, xs[1..], Without(ys, k));
      PickFirst(xs);
      PickOut(ys, k);
    }
  }

  /** What the relation comes to on one list of such elements. */
  lemma SameSetsExactly(l: Leaf, tag: Tag, cls: Class, isSet: bool, xs: seq<Value>, ys: seq<Value>)
    ensures SameSets(ListOf(Leaf(l), tag, cls, isSet), List(xs), List(ys))
       <==> if isSet then multiset(xs) == multiset(ys) else xs == ys
  {
    if |xs| == |ys| {
      OnlyReordered(l, xs, ys);
    } else if multiset(xs) == multiset(ys) {
      Reordered(Leaf(l), xs, ys);
    }
  }

  /** The order is no matter of type. */
  lemma {:induction false} SameTyped(c: Codec, v: Value, w: Value)
    requires SameSets(c, v, w) && Typed(c, v)
    ensures Typed(c, w)
    decreases c
  {
    match c {
      case Leaf(_) =>
      case Sequence(fs) =>
        forall i | 0 <= i < |fs| ensures TypedField(fs[i], w.slots[i]) {
          SameTypedField(fs[i], v.slots[i], w.slots[i]);
        }
      case ListOf(e, _, _, isSet) =>
        forall j | 0 <= j < |w.elems| ensures Typed(e, w.elems[j]) {
          var i := j;
          if isSet {
            i := Partner(e, v.elems, w.elems, j);
          }
          SameTyped(e, v.elems[i], w.elems[j]);
        }
    }
  }

  lemma {:induction false} SameTypedField(f: Field, v: Value, w: Value)
    requires SameSetsField(f, v, w) && TypedField(f, v)
    ensures TypedField(f, w)
    decreases f
  {
    SameNull(f.c, v, w);
    if !v.Null? {
      SameTyped(f.c, v, w);
    }
  }

  lemma SameNull(c: Codec, v: Value, w: Value)
    requires SameSets(c, v, w)
    ensures v.Null? <==> w.Null?
    ensures v == List([]) <==> w == List([])
    ensures First(c, v) == First(c, w)
  {
  }

  lemma SamePresent(f: Field, v: Value, w: Value)
    requires SameSetsField(f, v, w)
    ensures Present(f, v) <==> Present(f, w)
    ensures FirstOfField(f, v) == FirstOfField(f, w)
  {
    SameNull(f.c, v, w);
  }

  lemma {:induction false} SameFirst(fs: seq<Field>, vs: seq<Value>, ws: seq<Value>, i: nat)
    requires i <= |fs| == |vs| == |ws| && forall j :: 0 <= j < |fs| ==> SameSetsField(fs[j], vs[j], ws[j])
    ensures FirstFrom(fs, vs, i) == FirstFrom(fs, ws, i)
    decreases |fs| - i
  {
    if i < |fs| {
      SamePresent(fs[i], vs[i], ws[i]);
      SameFirst(fs, vs, ws, i + 1);
    }
  }

  /** Nor of lookahead. */
  lemma {:induction false} SameClear(c: Codec, v: Value, w: Value)
    requires SameSets(c, v, w) && Clear(c, v)
    ensures Clear(c, w)
    decreases c
  {
    match c {
      case Leaf(_) =>
      case Sequence(fs) =>
        if w.Struct? && |w.slots| == |fs| && v.Struct? && |v.slots| == |fs| {
          forall i | 0 <= i < |fs| ensures ClearAt(fs, w.slots, i) {
            assert ClearAt(fs, v.slots, i);
            SamePresent(fs[i], v.slots[i], w.slots[i]);
            SameFirst(fs, v.slots, w.slots, i + 1);
            if Present(fs[i], v.slots[i]) {
              SameClearField(fs[i], v.slots[i], w.slots[i]);
            }
          }
        }
      case ListOf(e, _, _, isSet) =>
        if v.List? && w.List? {
          forall j | 0 <= j < |w.elems| ensures Clear(e, w.elems[j]) {
            var i := j;
            if isSet {
              i := Partner(e, v.elems, w.elems, j);
            }
            SameClear(e, v.elems[i], w.elems[j]);
          }
        }
    }
  }

  lemma {:induction false} SameClearField(f: Field, v: Value, w: Value)
    requires SameSetsField(f, v, w) && ClearField(f, v)
    ensures ClearField(f, w)
    decreases f
  {
    SameClear(f.c, v, w);
  }

  /** Normalising keeps two values equal but for their orders. */
  lemma {:induction false} NormSame(c: Codec, v: Value, w: Value)
    requires SameSets(c, v, w)
    ensures SameSets(c, Norm(c, v), Norm(c, w))
    decreases c, 0
  {
    match c {
      case Leaf(_) =>
      case Sequence(fs) =>
        if v.Struct? && w.Struct? && |v.slots| == |w.slots| == |fs| {
          var a, b := Norm(c, v).slots, Norm(c, w).slots;
          forall i | 0 <= i < |fs| ensures SameSetsField(fs[i], a[i], b[i]) {
            assert a[i] == OverField(fs[i], Null, v.slots[i]) && b[i] == OverField(fs[i], Null, w.slots[i]);
            NormSameField(fs[i], v.slots[i], w.slots[i]);
          }
        }
      case ListOf(e, _, _, isSet) =>
        if v.List? && w.List? {
          if isSet {
            NormPermuted(e, v.elems, w.elems);
          } else {
            forall i | 0 <= i < |v.elems| ensures SameSets(e, Norm(e, v.elems[i]), Norm(e, w.elems[i])) {
              NormSame(e, v.elems[i], w.elems[i]);
            }
          }
        }
    }
  }

  lemma {:induction false} NormSameField(f: Field, v: Value, w: Value)
    requires SameSetsField(f, v, w)
    ensures SameSetsField(f, OverField(f, Null, v), OverField(f, Null, w))
    decreases f
  {
    SamePresent(f, v, w);
    if Present(f, v) {
      NormSame(f.c, v, w);
    } else {
      SameSelf(f.c);
    }
  }

  lemma SameSelf(c: Codec)
    ensures SameSets(c, Null, Null)
  {
  }

  lemma {:induction false} NormPermuted(e: Codec, xs: seq<Value>, ys: seq<Value>)
    requires |xs| == |ys| && Permuted(e, xs, ys)
    ensures Permuted(e, NormElems(e, xs), NormElems(e, ys))
    decreases e, 1 + |xs|
  {
    hide SameSets, Over, NormElems;
    if xs != [] {
      var k :| 0 <= k < |ys| && SameSets(e, xs[0], ys[k]) && Permuted(e, xs[1..], Without(ys, k));
      NormSame(e, xs[0], ys[k]);
      NormPermuted(e, xs[1..], Without(ys, k));
      NormOthers(e, xs, ys, k);
      Paired(e, NormElems(e, xs), NormElems(e, ys), k);
    }
  }

  lemma NormOthers(e: Codec, xs: seq<Value>, ys: seq<Value>, k: nat)
    requires |xs| == |ys| && k < |ys|
    ensures NormElems(e, xs)[1..] == NormElems(e, xs[1..])
    ensures Without(NormElems(e, ys), k) == NormElems(e, Without(ys, k))
  {
    hide Over, NormElems;
  }

  lemma Paired(e: Codec, xs: seq<Value>, ys: seq<Value>, k: nat)
    requires |xs| == |ys| && k < |ys|
    requires SameSets(e, xs[0], ys[k]) && Permuted(e, xs[1..], Without(ys, k))
    ensures Permuted(e, xs, ys)
  {
    hide SameSets;
  }

  /**
   Whatever orders the encoder puts its SET OF lists in, at every depth, what
   is decoded is the value but for such orders.
   */
  lemma SetsBack(c: Codec, v: Value, w: Value, form: Form, rest: seq<byte>)
    requires WellFormed(c) && Typed(c, v) && Clear(c, v)
    requires SameSets(c, v, w) && |Enc(c, w, form)| <= INT_MAX
    ensures var o := Dec(c, Null, Enc(c, w, form) + rest);
            o.Done? && o.n == |Enc(c, w, form)| && SameSets(c, Norm(c, v), o.val)
  {
    SameTyped(c, v, w);
    SameClear(c, v, w);
    CodecBack(c, w, form, Null, rest);
    NormSame(c, v, w);
  }
}
