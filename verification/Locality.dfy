/** Which octets a decoder depends on: those it consumes, and how far the lengths it meets reach. */
module Locality {
  import opened Bytes
  import opened X690
  import opened Schema
  import opened Decode
  import opened RoundTrip

  function Max(a: nat, b: nat): nat {
    if a < b then b else a
  }

  /**
   The shortest window in which a successful decoding of `s` succeeds. It is
   what was consumed, except that the EXPLICIT macro in definite form demands
   its declared length without ever checking that the inner value fills it.
   */
  function Reach(c: Codec, prev: Value, s: seq<byte>): nat
    decreases c, 0
  {
    var o := Dec(c, prev, s);
    if o.Fail? then
      0
    else
      match c
      case Leaf(_) => o.n
      case Sequence(fs) =>
        var h := GetObject(s);
        if h.inf then Max(o.n, h.hlen + RunReach(fs, 0, Slots(prev, |fs|), Body(h, s), 0)) else o.n
      case ListOf(e, _, _, _) =>
        var h := GetObject(s);
        if h.inf then Max(o.n, h.hlen + ElemsReach(e, Body(h, s))) else o.n
  }

  function RunReach(fs: seq<Field>, i: nat, slots: seq<Value>, s: seq<byte>, n: nat): nat
    requires i <= |fs| == |slots| && n <= |s|
    decreases fs, |fs| - i
  {
    if i == |fs| then
      n
    else
      match DecField(fs[i], slots[i], s[n..])
      case Fail(_) => 0
      case Done(v, k) =>
        Max(n + FieldReach(fs[i], slots[i], s[n..]), RunReach(fs, i + 1, slots[i := v], s, n + k))
  }

  function FieldReach(f: Field, prev: Value, s: seq<byte>): nat
    decreases f, 0
  {
    if !Tried(f, s) then
      0
    else
      match f
      case Get(c) => Reach(c, prev, s)
      case GetOpt(c, _) => Reach(c, prev, s)
      case ImpOpt(c, _, typ) => Reach(c, prev, s[0 := ConsBit(s[0]) + typ])
      case ExpOpt(c, _, _) =>
        var h := GetObject(s);
        if h.Bad? then 0
        else if h.inf then h.hlen + Reach(c, prev, Window(s, h.hlen, |s| - h.hlen - 2)) + 2
        else h.hlen + h.len
      case ListOpt(c) => Reach(c, prev, s)
  }

  function ElemsReach(e: Codec, s: seq<byte>): nat
    decreases e, 1 + |s|
  {
    if Eoc(s) then
      2
    else
      match Dec(e, Null, s)
      case Fail(_) => 0
      case Done(_, n) => Max(Reach(e, Null, s), n + ElemsReach(e, s[n..]))
  }

  /** A successful decoding reaches at least as far as it consumes, and stays in its window. */
  lemma {:induction false} ReachBounds(c: Codec, prev: Value, s: seq<byte>)
    requires Dec(c, prev, s).Done?
    ensures Dec(c, prev, s).n <= Reach(c, prev, s) <= |s|
    decreases c, 0
  {
    match c {
      case Leaf(_) =>
      case Sequence(fs) =>
        var h := GetObject(s);
        RunReachBounds(fs, 0, Slots(prev, |fs|), Body(h, s), 0);
      case ListOf(e, _, _, _) =>
        var h := GetObject(s);
        if h.inf {
          ElemsReachBounds(e, Body(h, s));
        }
    }
  }

  lemma {:induction false} RunReachBounds(fs: seq<Field>, i: nat, slots: seq<Value>, s: seq<byte>, n: nat)
    requires i <= |fs| == |slots| && n <= |s| && Run(fs, i, slots, s, n).Ran?
    ensures Run(fs, i, slots, s, n).n <= RunReach(fs, i, slots, s, n) <= |s|
    decreases fs, |fs| - i
  {
    hide Run, RunReach, DecField, FieldReach, Dec;
    if i < |fs| {
      var o := DecField(fs[i], slots[i], s[n..]);
      RunUnfold(fs, i, slots, s, n, o);
      FieldReachBounds(fs[i], slots[i], s[n..]);
      RunReachBounds(fs, i + 1, slots[i := o.val], s, n + o.n);
    } else {
      RunStops(fs, slots, s, n);
    }
  }

  lemma {:induction false} FieldReachBounds(f: Field, prev: Value, s: seq<byte>)
    requires DecField(f, prev, s).Done?
    ensures DecField(f, prev, s).n <= FieldReach(f, prev, s) <= |s|
    decreases f, 1
  {
    hide Dec, Reach, DecExp;
    if Tried(f, s) {
      match f {
        case Get(c) => ReachBounds(c, prev, s);
        case GetOpt(c, _) => ReachBounds(c, prev, s);
        case ImpOpt(c, _, typ) => ReachBounds(c, prev, s[0 := ConsBit(s[0]) + typ]);
        case ExpOpt(_, _, _) => ExplicitReachBounds(f, prev, s);
        case ListOpt(c) => ReachBounds(c, prev, s);
      }
    }
  }

  lemma {:induction false} ExplicitReachBounds(f: Field, prev: Value, s: seq<byte>)
    requires f.ExpOpt? && Tried(f, s) && DecExp(f.c, prev, s).Done?
    ensures DecExp(f.c, prev, s).n <= FieldReach(f, prev, s) <= |s|
    decreases f, 0
  {
    var h := GetObject(s);
    var w := Window(s, h.hlen, ExpLength(h, s));
    ReachBounds(f.c, prev, w);
  }

  lemma {:induction false} ElemsReachBounds(e: Codec, s: seq<byte>)
    requires Elems(e, true, s).All?
    ensures 2 <= Elems(e, true, s).n <= ElemsReach(e, s) <= |s|
    decreases e, 1 + |s|
  {
    if !Eoc(s) {
      ReachBounds(e, Null, s);
      ElemsReachBounds(e, s[Dec(e, Null, s).n..]);
    }
  }

  /**
   Every EXPLICIT element in definite form that decoding `s` meets is filled by
   its inner value, which the macro does not check.
   */
  predicate Filled(c: Codec, prev: Value, s: seq<byte>)
    decreases c, 0
  {
    match c
    case Leaf(_) => true
    case Sequence(fs) =>
      var h := GetObject(s);
      Heads(h, UNIVERSAL, SEQUENCE) ==> FilledRun(fs, 0, Slots(prev, |fs|), Body(h, s), 0)
    case ListOf(e, tag, cls, _) =>
      var h := GetObject(s);
      Heads(h, cls, tag) ==> FilledElems(e, h.inf, Body(h, s))
  }

  predicate FilledRun(fs: seq<Field>, i: nat, slots: seq<Value>, s: seq<byte>, n: nat)
    requires i <= |fs| == |slots| && n <= |s|
    decreases fs, |fs| - i
  {
    i < |fs| ==>
      var o := DecField(fs[i], slots[i], s[n..]);
      && FilledField(fs[i], slots[i], s[n..])
      && (o.Done? ==> FilledRun(fs, i + 1, slots[i := o.val], s, n + o.n))
  }

  predicate FilledField(f: Field, prev: Value, s: seq<byte>)
    decreases f, 0
  {
    Tried(f, s) ==>
      match f
      case Get(c) => Filled(c, prev, s)
      case GetOpt(c, _) => Filled(c, prev, s)
      case ImpOpt(c, _, typ) => Filled(c, prev, s[0 := ConsBit(s[0]) + typ])
      case ExpOpt(c, _, _) => FilledExp(c, prev, s)
      case ListOpt(c) => Filled(c, prev, s)
  }

  predicate FilledExp(c: Codec, prev: Value, s: seq<byte>)
    decreases c, 1
  {
    var h := GetObject(s);
    h.Header? ==>
      var w := Window(s, h.hlen, ExpLength(h, s));
      var o := Dec(c, prev, w);
      Filled(c, prev, w) && (o.Done? && !h.inf ==> o.n == h.len)
  }

  predicate FilledElems(e: Codec, inf: bool, s: seq<byte>)
    decreases e, 1 + |s|
  {
    !EndSequence(inf, s) ==>
      var o := Dec(e, Null, s);
      Filled(e, Null, s) && (o.Done? ==> FilledElems(e, inf, s[o.n..]))
  }

  lemma FilledRunOnce(fs: seq<Field>, i: nat, slots: seq<Value>, s: seq<byte>, n: nat, o: Outcome)
    requires i < |fs| == |slots| && n <= |s| && o == DecField(fs[i], slots[i], s[n..]) && o.Done?
    ensures FilledRun(fs, i, slots, s, n)
       <==> FilledField(fs[i], slots[i], s[n..]) && FilledRun(fs, i + 1, slots[i := o.val], s, n + o.n)
  {
    hide DecField, Dec, FilledField, Filled;
  }

  lemma FilledElemsOnce(e: Codec, inf: bool, s: seq<byte>, n: nat)
    requires !EndSequence(inf, s) && n <= |s| && Dec(e, Null, s).Done? && Dec(e, Null, s).n == n
    ensures FilledElems(e, inf, s) <==> Filled(e, Null, s) && FilledElems(e, inf, s[n..])
  {
    hide Dec, Filled;
  }

  /** Where every EXPLICIT element is filled, nothing reaches past what is consumed. */
  lemma {:induction false} FilledReach(c: Codec, prev: Value, s: seq<byte>)
    requires Dec(c, prev, s).Done? && Filled(c, prev, s)
    ensures Reach(c, prev, s) == Dec(c, prev, s).n
    decreases c, 0
  {
    hide Dec, Run, Elems, RunReach, ElemsReach, GetObject, Body, FilledRun, FilledElems;
    match c {
      case Leaf(_) =>
      case Sequence(fs) =>
        SequenceOnce(fs, prev, s);
        RunFilledReach(fs, 0, Slots(prev, |fs|), Body(GetObject(s), s), 0);
      case ListOf(e, tag, cls, isSet) =>
        ListOnce(e, tag, cls, isSet, prev, s);
        var h := GetObject(s);
        if h.inf {
          ElemsFilledReach(e, Body(h, s));
        }
    }
  }

  lemma {:induction false} RunFilledReach(fs: seq<Field>, i: nat, slots: seq<Value>, s: seq<byte>, n: nat)
    requires i <= |fs| == |slots| && n <= |s|
    requires Run(fs, i, slots, s, n).Ran? && FilledRun(fs, i, slots, s, n)
    ensures RunReach(fs, i, slots, s, n) == Run(fs, i, slots, s, n).n
    decreases fs, |fs| - i
  {
    hide Run, RunReach, FilledRun, DecField, Dec, FieldReach, FilledField;
    if i < |fs| {
      var o := DecField(fs[i], slots[i], s[n..]);
      RunUnfold(fs, i, slots, s, n, o);
      FilledRunOnce(fs, i, slots, s, n, o);
      FieldFilledReach(fs[i], slots[i], s[n..]);
      RunFilledReach(fs, i + 1, slots[i := o.val], s, n + o.n);
    } else {
      RunStops(fs, slots, s, n);
    }
  }

  lemma {:induction false} FieldFilledReach(f: Field, prev: Value, s: seq<byte>)
    requires DecField(f, prev, s).Done? && FilledField(f, prev, s)
    ensures FieldReach(f, prev, s) == DecField(f, prev, s).n
    decreases f
  {
    hide Dec, Reach, DecExp, Filled, FilledExp;
    if Tried(f, s) {
      match f {
        case Get(c) => FilledReach(c, prev, s);
        case GetOpt(c, _) => FilledReach(c, prev, s);
        case ImpOpt(c, _, typ) => FilledReach(c, prev, s[0 := ConsBit(s[0]) + typ]);
        case ExpOpt(_, _, _) => ExplicitFilledReach(f, prev, s);
        case ListOpt(c) => FilledReach(c, prev, s);
      }
    }
  }

  lemma {:induction false} ExplicitFilledReach(f: Field, prev: Value, s: seq<byte>)
    requires f.ExpOpt? && Tried(f, s) && DecExp(f.c, prev, s).Done? && FilledExp(f.c, prev, s)
    ensures FieldReach(f, prev, s) == DecExp(f.c, prev, s).n
    decreases f, 0
  {
    hide Dec, Reach, DecExp, Filled, FieldReach, GetObject, Window;
    var h, tlen, o := ExplicitInside(f, prev, s);
    FilledReach(f.c, prev, Window(s, h.hlen, tlen));
  }

  lemma {:induction false} ElemsFilledReach(e: Codec, s: seq<byte>)
    requires Elems(e, true, s).All? && FilledElems(e, true, s)
    ensures ElemsReach(e, s) == Elems(e, true, s).n
    decreases e, 1 + |s|
  {
    hide Dec, Elems, ElemsReach, FilledElems, Filled, Reach;
    ElemsOnce(e, true, s);
    ElemsReachOnce(e, s);
    if !Eoc(s) {
      var n := Dec(e, Null, s).n;
      FilledElemsOnce(e, true, s, n);
      FilledReach(e, Null, s);
      ElemsFilledReach(e, s[n..]);
    }
  }

  lemma ElemsReachOnce(e: Codec, s: seq<byte>)
    ensures ElemsReach(e, s) ==
              var o := Dec(e, Null, s);
              if Eoc(s) then 2 else if o.Fail? then 0 else Max(Reach(e, Null, s), o.n + ElemsReach(e, s[o.n..]))
  {
    hide Dec, Reach;
  }

  /** No EXPLICIT field, at any depth: this is read off the macro calls. */
  predicate NoExplicit(c: Codec) {
    match c
    case Leaf(_) => true
    case Sequence(fs) => forall i :: 0 <= i < |fs| ==> NoExplicitField(fs[i])
    case ListOf(e, _, _, _) => NoExplicit(e)
  }

  predicate NoExplicitField(f: Field) {
    !f.ExpOpt? && NoExplicit(f.c)
  }

  /** Without EXPLICIT fields there is nothing to fill. */
  lemma {:induction false} NoExplicitFilled(c: Codec, prev: Value, s: seq<byte>)
    requires NoExplicit(c)
    ensures Filled(c, prev, s)
    decreases c, 0
  {
    hide Dec, GetObject, Body, FilledRun, FilledElems;
    match c {
      case Leaf(_) =>
      case Sequence(fs) =>
        var h := GetObject(s);
        if Heads(h, UNIVERSAL, SEQUENCE) {
          RunNoExplicit(fs, 0, Slots(prev, |fs|), Body(h, s), 0);
        }
      case ListOf(e, tag, cls, _) =>
        var h := GetObject(s);
        if Heads(h, cls, tag) {
          ElemsNoExplicit(e, h.inf, Body(h, s));
        }
    }
  }

  lemma {:induction false} RunNoExplicit(fs: seq<Field>, i: nat, slots: seq<Value>, s: seq<byte>, n: nat)
    requires i <= |fs| == |slots| && n <= |s|
    requires forall j :: 0 <= j < |fs| ==> NoExplicitField(fs[j])
    ensures FilledRun(fs, i, slots, s, n)
    decreases fs, |fs| - i
  {
    hide Dec, DecField, FilledField, NoExplicitField;
    if i < |fs| {
      FieldNoExplicit(fs[i], slots[i], s[n..]);
      var o := DecField(fs[i], slots[i], s[n..]);
      if o.Done? {
        RunNoExplicit(fs, i + 1, slots[i := o.val], s, n + o.n);
      }
    }
  }

  lemma {:induction false} FieldNoExplicit(f: Field, prev: Value, s: seq<byte>)
    requires NoExplicitField(f)
    ensures FilledField(f, prev, s)
    decreases f
  {
    hide Dec, Filled;
    NoExplicitFilled(f.c, prev, s);
    if f.ImpOpt? && Tried(f, s) {
      NoExplicitFilled(f.c, prev, s[0 := ConsBit(s[0]) + f.typ]);
    }
  }

  lemma {:induction false} ElemsNoExplicit(e: Codec, inf: bool, s: seq<byte>)
    requires NoExplicit(e)
    ensures FilledElems(e, inf, s)
    decreases e, 1 + |s|
  {
    hide Dec, Filled;
    NoExplicitFilled(e, Null, s);
    var o := Dec(e, Null, s);
    if o.Done? {
      ElemsNoExplicit(e, inf, s[o.n..]);
    }
  }

  lemma AgreeDrop(s: seq<byte>, t: seq<byte>, n: nat, k: nat)
    requires Agree(s, t, n) && k <= n
    ensures Agree(s[k..], t[k..], n - k) && Agree(s, t, k)
  {
  }

  lemma AgreeWindow(s: seq<byte>, t: seq<byte>, at: nat, a: int, b: int, n: nat)
    requires Agree(s, t, at + n) && at + a <= |s| && at + b <= |t| && n <= a && n <= b
    ensures Agree(Window(s, at, a), Window(t, at, b), n)
  {
  }

  /** Same octets consumed, window long enough: same outcome, same reach. */
  lemma {:induction false} Local(c: Codec, prev: Value, s: seq<byte>, t: seq<byte>)
    requires WellFormed(c) && Dec(c, prev, s).Done?
    requires Agree(s, t, Dec(c, prev, s).n) && |t| >= Reach(c, prev, s)
    ensures Dec(c, prev, t) == Dec(c, prev, s) && Reach(c, prev, t) == Reach(c, prev, s)
    decreases c, 0
  {
    match c {
      case Leaf(_) =>
      case Sequence(fs) => SequenceLocal(fs, prev, s, t);
      case ListOf(e, tag, cls, isSet) => ListLocal(e, tag, cls, isSet, prev, s, t);
    }
  }

  /** The header is the same; so are the contents in definite form. */
  lemma BodyLocal(s: seq<byte>, t: seq<byte>, n: nat)
    requires var h := GetObject(s); h.Header? && h.hlen <= n && (!h.inf ==> n == h.hlen + h.len)
    requires Agree(s, t, n)
    ensures var h := GetObject(s);
            && GetObject(t) == h
            && Agree(Body(h, s), Body(h, t), n - h.hlen)
            && (!h.inf ==> Body(h, t) == Body(h, s))
  {
    var h := GetObject(s);
    AgreeDrop(s, t, n, h.hlen);
    HeaderLocal(s, t);
    if !h.inf {
      assert Body(h, t) == Body(h, s);
    }
  }

  lemma {:induction false} SequenceLocal(fs: seq<Field>, prev: Value, s: seq<byte>, t: seq<byte>)
    requires WellFormed(Sequence(fs)) && Dec(Sequence(fs), prev, s).Done?
    requires Agree(s, t, Dec(Sequence(fs), prev, s).n) && |t| >= Reach(Sequence(fs), prev, s)
    ensures Dec(Sequence(fs), prev, t) == Dec(Sequence(fs), prev, s)
    ensures Reach(Sequence(fs), prev, t) == Reach(Sequence(fs), prev, s)
    decreases fs, 1 + |fs|
  {
    hide Run, RunReach, GetObject, Body;
    var h, n := GetObject(s), Dec(Sequence(fs), prev, s).n;
    BodyLocal(s, t, n);
    if h.inf {
      var a, b, m := Body(h, s), Body(h, t), n - h.hlen - 2;
      AgreeDrop(a, b, m + 2, m);
      RunLocal(fs, 0, Slots(prev, |fs|), a, b, 0);
    }
  }

  lemma {:induction false} ListLocal(e: Codec, tag: Tag, cls: Class, isSet: bool, prev: Value, s: seq<byte>,
                                     t: seq<byte>)
    requires WellFormed(e) && Dec(ListOf(e, tag, cls, isSet), prev, s).Done?
    requires Agree(s, t, Dec(ListOf(e, tag, cls, isSet), prev, s).n)
    requires |t| >= Reach(ListOf(e, tag, cls, isSet), prev, s)
    ensures Dec(ListOf(e, tag, cls, isSet), prev, t) == Dec(ListOf(e, tag, cls, isSet), prev, s)
    ensures Reach(ListOf(e, tag, cls, isSet), prev, t) == Reach(ListOf(e, tag, cls, isSet), prev, s)
    decreases e, 2 + |s|
  {
    hide Elems, ElemsReach, GetObject, Body;
    var h, n := GetObject(s), Dec(ListOf(e, tag, cls, isSet), prev, s).n;
    BodyLocal(s, t, n);
    if h.inf {
      ElemsLocal(e, Body(h, s), Body(h, t));
    }
  }

  lemma {:induction false} RunLocal(fs: seq<Field>, i: nat, slots: seq<Value>, s: seq<byte>, t: seq<byte>, n: nat)
    requires i <= |fs| == |slots| && n <= |s|
    requires forall j :: 0 <= j < |fs| ==> WellFormedField(fs[j])
    requires var r := Run(fs, i, slots, s, n);
             && r.Ran? && Agree(s, t, r.n) && |t| >= RunReach(fs, i, slots, s, n)
             && (r.n < |t| ==> t[r.n] == 0 || (r.n < |s| && t[r.n] == s[r.n]))
    ensures Run(fs, i, slots, t, n) == Run(fs, i, slots, s, n)
    ensures RunReach(fs, i, slots, t, n) == RunReach(fs, i, slots, s, n)
    decreases fs, |fs| - i
  {
    hide Run, RunReach, DecField, FieldReach, Dec, WellFormedField;
    if i < |fs| {
      var m := Run(fs, i, slots, s, n).n;
      var o := DecField(fs[i], slots[i], s[n..]);
      RunUnfold(fs, i, slots, s, n, o);
      FieldReachBounds(fs[i], slots[i], s[n..]);
      AgreeDrop(s, t, m, n);
      AgreeDrop(s[n..], t[n..], m - n, o.n);
      if o.n == 0 {
        UntriedLocal(fs[i], s, t, n, m);
      }
      FieldLocal(fs[i], slots[i], s[n..], t[n..]);
      RunLocal(fs, i + 1, slots[i := o.val], s, t, n + o.n);
      RunUnfold(fs, i, slots, t, n, o);
    } else {
      RunStops(fs, slots, s, n);
      RunStops(fs, slots, t, n);
    }
  }

  lemma RunStops(fs: seq<Field>, slots: seq<Value>, s: seq<byte>, n: nat)
    requires |fs| == |slots| && n <= |s|
    ensures Run(fs, |fs|, slots, s, n) == Ran(slots, n) && RunReach(fs, |fs|, slots, s, n) == n
  {
    hide DecField, FieldReach, Dec;
  }

  lemma RunUnfold(fs: seq<Field>, i: nat, slots: seq<Value>, s: seq<byte>, n: nat, o: Outcome)
    requires i < |fs| == |slots| && n <= |s| && DecField(fs[i], slots[i], s[n..]) == o
    ensures Run(fs, i, slots, s, n).Ran? ==> o.Done?
    ensures o.Done? ==>
            var next := slots[i := o.val];
            && Run(fs, i, slots, s, n) == Run(fs, i + 1, next, s, n + o.n)
            && RunReach(fs, i, slots, s, n)
               == Max(n + FieldReach(fs[i], slots[i], s[n..]), RunReach(fs, i + 1, next, s, n + o.n))
  {
    hide DecField, FieldReach, Dec;
  }

  /** An optional field that was passed over is passed over again. */
  lemma UntriedLocal(f: Field, s: seq<byte>, t: seq<byte>, n: nat, m: nat)
    requires WellFormedField(f) && n <= m && Agree(s, t, m) && !Tried(f, s[n..])
    requires m < |t| ==> t[m] == 0 || (m < |s| && t[m] == s[m])
    ensures !Tried(f, t[n..])
  {
    if n == m && m < |t| && t[m] == 0 {
      EndsUntried(f, t[n..]);
    }
  }

  lemma {:induction false} FieldLocal(f: Field, prev: Value, s: seq<byte>, t: seq<byte>)
    requires WellFormedField(f) && DecField(f, prev, s).Done?
    requires Agree(s, t, DecField(f, prev, s).n) && |t| >= FieldReach(f, prev, s)
    requires DecField(f, prev, s).n == 0 ==> !Tried(f, t)
    ensures DecField(f, prev, t) == DecField(f, prev, s) && FieldReach(f, prev, t) == FieldReach(f, prev, s)
    decreases f, 1
  {
    hide Dec, Reach, DecExp;
    var n := DecField(f, prev, s).n;
    if n != 0 {
      match f {
        case Get(c) => Local(c, prev, s, t);
        case GetOpt(c, _) => Local(c, prev, s, t);
        case ImpOpt(c, _, typ) =>
          var x := ConsBit(s[0]) + typ;
          Local(c, prev, s[0 := x], t[0 := x]);
        case ExpOpt(_, _, _) => ExplicitLocal(f, prev, s, t);
        case ListOpt(c) => Local(c, prev, s, t);
      }
    }
  }

  lemma {:induction false} ExplicitLocal(f: Field, prev: Value, s: seq<byte>, t: seq<byte>)
    requires f.ExpOpt? && WellFormedField(f) && Tried(f, s) && Tried(f, t) && DecExp(f.c, prev, s).Done?
    requires Agree(s, t, DecExp(f.c, prev, s).n) && |t| >= FieldReach(f, prev, s)
    ensures DecExp(f.c, prev, t) == DecExp(f.c, prev, s) && FieldReach(f, prev, t) == FieldReach(f, prev, s)
    decreases f, 0
  {
    hide Dec, Reach;
    var h, a, o := ExplicitInside(f, prev, s);
    var b := ExpLength(h, t);
    HeaderLocal(s, t);
    AgreeWindow(s, t, h.hlen, a, b, o.n);
    ReachBounds(f.c, prev, Window(s, h.hlen, a));
    Local(f.c, prev, Window(s, h.hlen, a), Window(t, h.hlen, b));
    ExplicitUnfold(f, prev, t, h, b, o);
  }

  /** What a successful EXPLICIT field found inside. */
  lemma ExplicitInside(f: Field, prev: Value, s: seq<byte>) returns (h: Header, tlen: int, o: Outcome)
    requires f.ExpOpt? && Tried(f, s) && DecExp(f.c, prev, s).Done?
    ensures h == GetObject(s) && h.Header? && tlen == ExpLength(h, s)
    ensures Dec(f.c, prev, Window(s, h.hlen, tlen)) == o && o.Done? && o.n <= tlen
    ensures h.inf ==> Eoc(s[h.hlen + o.n..])
    ensures DecExp(f.c, prev, s) == Done(o.val, h.hlen + o.n + if h.inf then 2 else 0)
    ensures FieldReach(f, prev, s)
         == if h.inf then h.hlen + Reach(f.c, prev, Window(s, h.hlen, tlen)) + 2 else h.hlen + h.len
  {
    h := GetObject(s);
    tlen := ExpLength(h, s);
    o := Dec(f.c, prev, Window(s, h.hlen, tlen));
  }

  lemma ExplicitUnfold(f: Field, prev: Value, s: seq<byte>, h: Header, tlen: int, o: Outcome)
    requires f.ExpOpt? && Tried(f, s) && h == GetObject(s) && h.Header?
    requires tlen == ExpLength(h, s)
    requires Dec(f.c, prev, Window(s, h.hlen, tlen)) == o && o.Done?
    requires h.inf ==> Eoc(s[h.hlen + o.n..])
    ensures DecExp(f.c, prev, s) == Done(o.val, h.hlen + o.n + if h.inf then 2 else 0)
    ensures FieldReach(f, prev, s)
         == if h.inf then h.hlen + Reach(f.c, prev, Window(s, h.hlen, tlen)) + 2 else h.hlen + h.len
  {
    hide Dec, GetObject, Window, Reach;
  }

  lemma {:induction false} ElemsLocal(e: Codec, s: seq<byte>, t: seq<byte>)
    requires WellFormed(e) && Elems(e, true, s).All?
    requires Agree(s, t, Elems(e, true, s).n) && |t| >= ElemsReach(e, s)
    ensures Elems(e, true, t) == Elems(e, true, s) && ElemsReach(e, t) == ElemsReach(e, s)
    decreases e, 1 + |s|
  {
    hide Dec, Reach;
    var m := Elems(e, true, s).n;
    ElemsReachBounds(e, s);
    if !Eoc(s) {
      var o := Dec(e, Null, s);
      ElemsReachBounds(e, s[o.n..]);
      AgreeDrop(s, t, m, o.n);
      Local(e, Null, s, t);
      ElemsLocal(e, s[o.n..], t[o.n..]);
    }
  }

  lemma LocalOnlyIf(c: Codec, prev: Value, s: seq<byte>, t: seq<byte>)
    requires WellFormed(c) && Dec(c, prev, s).Done?
    requires Agree(t, s, Dec(c, prev, s).n) && Dec(c, prev, t) == Dec(c, prev, s)
    ensures |t| >= Reach(c, prev, s)
  {
    ReachBounds(c, prev, s);
    ReachBounds(c, prev, t);
    if |t| < Reach(c, prev, s) {
      Local(c, prev, t, s);
    }
  }

  /**
   The outcome depends on nothing but the octets consumed and, exactly, on the
   window being as long as the lengths inside it claim.
   */
  lemma LocalExactly(c: Codec, prev: Value, s: seq<byte>, t: seq<byte>)
    requires WellFormed(c) && Dec(c, prev, s).Done?
    requires Agree(s, t, Dec(c, prev, s).n)
    ensures Dec(c, prev, t) == Dec(c, prev, s) <==> |t| >= Reach(c, prev, s)
  {
    if Dec(c, prev, t) == Dec(c, prev, s) {
      LocalOnlyIf(c, prev, s, t);
    } else if |t| >= Reach(c, prev, s) {
      Local(c, prev, s, t);
    }
  }

  /**
   Contents in definite form decode as the same contents in indefinite form do,
   whoever wrote them, if and only if no length met on the way claims octets
   past the end of the contents.
   */
  lemma WrapFormsExactly(fs: seq<Field>, prev: Value, b: seq<byte>, r: seq<byte>, q: seq<byte>, v: Value)
    requires WellFormed(Sequence(fs)) && |b| <= INT_MAX
    ensures var def, ind := Wrap(UNIVERSAL, SEQUENCE, b, false), Wrap(UNIVERSAL, SEQUENCE, b, true);
            Dec(Sequence(fs), prev, def + q) == Done(v, |def|)
            <==>
            && Dec(Sequence(fs), prev, ind + r) == Done(v, |ind|)
            && RunReach(fs, 0, Slots(prev, |fs|), b + Tail(true, r), 0) <= |b|
  {
    hide Dec, Run, RunReach, GetObject, Wrap;
    WrapParses(UNIVERSAL, SEQUENCE, b, false, q);
    WrapParses(UNIVERSAL, SEQUENCE, b, true, r);
    TailDrop(b, true, r);
    assert b + Tail(false, q) == b;
    var def, ind := Wrap(UNIVERSAL, SEQUENCE, b, false) + q, Wrap(UNIVERSAL, SEQUENCE, b, true) + r;
    SequenceOnce(fs, prev, def);
    SequenceOnce(fs, prev, ind);
    RunFormsExactly(fs, Slots(prev, |fs|), b, b + Tail(true, r), if v.Struct? then v.slots else []);
  }

  lemma RunFormsExactly(fs: seq<Field>, slots: seq<Value>, b: seq<byte>, room: seq<byte>, out: seq<Value>)
    requires |fs| == |slots| && forall j :: 0 <= j < |fs| ==> WellFormedField(fs[j])
    requires |b| < |room| && Agree(b, room, |b|) && room[|b|] == 0
    ensures Run(fs, 0, slots, b, 0) == Ran(out, |b|)
       <==> Run(fs, 0, slots, room, 0) == Ran(out, |b|) && RunReach(fs, 0, slots, room, 0) <= |b|
  {
    if Run(fs, 0, slots, b, 0) == Ran(out, |b|) {
      RunReachBounds(fs, 0, slots, b, 0);
      RunLocal(fs, 0, slots, b, room, 0);
    } else if Run(fs, 0, slots, room, 0) == Ran(out, |b|) && RunReach(fs, 0, slots, room, 0) <= |b| {
      RunLocal(fs, 0, slots, room, b, 0);
    }
  }

  /** A filled decoding depends on nothing but the octets it consumes. */
  lemma FilledLocal(c: Codec, prev: Value, s: seq<byte>, t: seq<byte>)
    requires WellFormed(c) && Dec(c, prev, s).Done? && (NoExplicit(c) || Filled(c, prev, s))
    requires Agree(s, t, Dec(c, prev, s).n)
    ensures Dec(c, prev, t) == Dec(c, prev, s)
  {
    hide Dec, Reach, Filled;
    if NoExplicit(c) {
      NoExplicitFilled(c, prev, s);
    }
    FilledReach(c, prev, s);
    LocalExactly(c, prev, s, t);
  }

  /** Without EXPLICIT fields at any depth, the two forms agree on all contents, whoever wrote them. */
  lemma FormsAgree(fs: seq<Field>, prev: Value, b: seq<byte>, r: seq<byte>, q: seq<byte>, v: Value)
    requires WellFormed(Sequence(fs)) && NoExplicit(Sequence(fs)) && |b| <= INT_MAX
    ensures var def, ind := Wrap(UNIVERSAL, SEQUENCE, b, false), Wrap(UNIVERSAL, SEQUENCE, b, true);
            Dec(Sequence(fs), prev, def + q) == Done(v, |def|) <==> Dec(Sequence(fs), prev, ind + r) == Done(v, |ind|)
  {
    hide Dec, FilledRun, Wrap;
    var slots, room := Slots(prev, |fs|), b + Tail(true, r);
    RunNoExplicit(fs, 0, slots, room, 0);
    FilledFormsAgree(fs, prev, b, r, q, v);
  }

  /** The same for any fields, when the EXPLICIT elements that are met are filled. */
  lemma FilledFormsAgree(fs: seq<Field>, prev: Value, b: seq<byte>, r: seq<byte>, q: seq<byte>, v: Value)
    requires WellFormed(Sequence(fs)) && |b| <= INT_MAX
    requires FilledRun(fs, 0, Slots(prev, |fs|), b + Tail(true, r), 0)
    ensures var def, ind := Wrap(UNIVERSAL, SEQUENCE, b, false), Wrap(UNIVERSAL, SEQUENCE, b, true);
            Dec(Sequence(fs), prev, def + q) == Done(v, |def|) <==> Dec(Sequence(fs), prev, ind + r) == Done(v, |ind|)
  {
    hide Dec, FilledRun, Run, RunReach, GetObject;
    WrapFormsExactly(fs, prev, b, r, q, v);
    var ind := Wrap(UNIVERSAL, SEQUENCE, b, true);
    if Dec(Sequence(fs), prev, ind + r) == Done(v, |ind|) {
      WrapParses(UNIVERSAL, SEQUENCE, b, true, r);
      SequenceOnce(fs, prev, ind + r);
      RunFilledReach(fs, 0, Slots(prev, |fs|), b + Tail(true, r), 0);
    }
  }
}
