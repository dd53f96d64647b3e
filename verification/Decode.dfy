/** What the M_ASN1_D2I macros compute, as functions of the octets in the window they may read. */
module Decode {
  import opened Bytes
  import opened X690
  import opened Schema

  /** What a d2i function leaves behind: the value of `*a`, and on success the octets consumed. */
  datatype Outcome =
    | Fail(left: Value)
    | Done(val: Value, n: nat)

  /** A field list that stopped at an error, or ran to its end. */
  datatype Progress =
    | Stuck(slots: seq<Value>)
    | Ran(slots: seq<Value>, n: nat)

  /** The element loop. */
  datatype Elements =
    | Broken
    | All(elems: seq<Value>, n: nat)

  /** The lookahead test of an optional field on the next octet. */
  predicate Accepts(f: Field, b: byte) {
    match f
    case Get(_) => true
    case GetOpt(_, typ) => Strip(b) == UNIVERSAL + typ
    case ImpOpt(_, tag, _) => Strip(b) == CONTEXT + tag
    case ExpOpt(_, tag, _) => b == CONTEXT + CONSTRUCTED + tag
    case ListOpt(c) => c.ListOf? && b == Ident(c.cls, c.tag, true)
  }

  /** A mandatory field is always tried; an optional one when octets are left and the next one fits. */
  predicate Tried(f: Field, s: seq<byte>) {
    f.Get? || (|s| != 0 && Accepts(f, s[0]))
  }

  /** asn1_GetSequence, and the header test of d2i_ASN1_SET */
  predicate Heads(h: Header, cls: Class, tag: Tag) {
    h.Header? && h.cons && h.cls == cls && h.tag == tag
  }

  /** asn1_const_Finish after `n` octets of `body`: nothing left over, or the end-of-contents octets. */
  function Finish(inf: bool, body: seq<byte>, n: nat): (r: Option<nat>)
    requires n <= |body|
    ensures r.Some? ==> n <= r.value <= |body|
  {
    if inf then
      if Eoc(body[n..]) then Some(n + 2) else None
    else
      if n == |body| then Some(n) else None
  }

  /** A call d2i(&prev, &p, |s|) with p at the start of `s`. */
  function Dec(c: Codec, prev: Value, s: seq<byte>): (o: Outcome)
    ensures o.Done? ==> 1 <= o.n <= |s| && !o.val.Null?
    ensures o.Fail? && prev.Null? ==> o.left.Null?
    decreases c, 0
  {
    match c
    case Leaf(l) =>
      var r := l.dec(s);
      if r.Some? then Done(Prim(r.value.0), r.value.1) else Fail(prev)
    case Sequence(fs) =>
      var h := GetObject(s);
      if !Heads(h, UNIVERSAL, SEQUENCE) then
        Fail(prev)
      else
        var body := Body(h, s);
        var run := Run(fs, 0, Slots(prev, |fs|), body, 0);
        var end := if run.Ran? then Finish(h.inf, body, run.n) else None;
        if end.Some? then
          Done(Struct(run.slots), h.hlen + end.value)
        else
          // ret is freed when this call allocated it, else the caller keeps what was written
          Fail(if prev.Null? then Null else Struct(run.slots))
    case ListOf(e, tag, cls, _) =>
      var h := GetObject(s);
      if !Heads(h, cls, tag) then
        Fail(prev)
      else
        var r := Elems(e, h.inf, Body(h, s));
        if r.All? then Done(List(r.elems), h.hlen + r.n) else Fail(prev)
  }

  /** The field macros from the `i`th on, with `n` octets of `s` consumed so far. */
  function Run(fs: seq<Field>, i: nat, slots: seq<Value>, s: seq<byte>, n: nat): (r: Progress)
    requires i <= |fs| == |slots| && n <= |s|
    ensures |r.slots| == |fs|
    ensures r.Ran? ==> n <= r.n <= |s|
    decreases fs, |fs| - i
  {
    if i == |fs| then
      Ran(slots, n)
    else
      match DecField(fs[i], slots[i], s[n..])
      case Fail(left) => Stuck(slots[i := left])
      case Done(v, k) => Run(fs, i + 1, slots[i := v], s, n + k)
  }

  /** One field macro: `prev` is the slot before it; an optional field that is not tried keeps it. */
  function DecField(f: Field, prev: Value, s: seq<byte>): (o: Outcome)
    ensures o.Done? ==> o.n <= |s|
    ensures o.Done? && Tried(f, s) ==> 1 <= o.n && !o.val.Null?
    ensures !Tried(f, s) ==> o == Done(prev, 0)
    decreases f, 0
  {
    if !Tried(f, s) then
      Done(prev, 0)
    else
      match f
      case Get(c) => Dec(c, prev, s)
      case GetOpt(c, _) => Dec(c, prev, s)
      case ImpOpt(c, _, typ) => Dec(c, prev, s[0 := ConsBit(s[0]) + typ])
      case ExpOpt(c, _, _) => DecExp(c, prev, s)
      case ListOpt(c) => Dec(c, prev, s)
  }

  /** M_ASN1_D2I_get_EXP_opt once its lookahead test has passed. */
  function DecExp(c: Codec, prev: Value, s: seq<byte>): (o: Outcome)
    ensures o.Done? ==> 1 <= o.n <= |s| && !o.val.Null?
    ensures o.Fail? && GetObject(s).Bad? ==> o.left == prev
    decreases c, 1
  {
    var h := GetObject(s);
    if h.Bad? then
      Fail(prev)
    else
      EndExp(h, s, Dec(c, prev, Window(s, h.hlen, ExpLength(h, s))))
  }

  /** Tlen, the room that the EXPLICIT macro gives the inner function; it can be negative. */
  function ExpLength(h: Header, s: seq<byte>): int
    requires h.Header?
  {
    if h.inf then |s| - h.hlen - 2 else h.len
  }

  /** The rest of that macro: only the indefinite form has something to check after the inner value. */
  function EndExp(h: Header, s: seq<byte>, inner: Outcome): Outcome
    requires h.Header? && h.hlen <= |s| && (inner.Done? ==> h.hlen + inner.n <= |s|)
  {
    match inner
    case Fail(left) => Fail(left)
    case Done(v, n) =>
      if !h.inf then
        Done(v, h.hlen + n)
      else if Eoc(s[h.hlen + n..]) then
        Done(v, h.hlen + n + 2)
      else
        Fail(v)
  }

  /** M_ASN1_D2I_end_sequence */
  predicate EndSequence(inf: bool, s: seq<byte>) {
    if inf then Eoc(s) else |s| == 0
  }

  /** while (!M_ASN1_D2I_end_sequence()) M_ASN1_D2I_get(element) */
  function Elems(e: Codec, inf: bool, s: seq<byte>): (r: Elements)
    ensures r.All? ==> r.n <= |s| && (!inf ==> r.n == |s|)
    decreases e, 1 + |s|
  {
    if EndSequence(inf, s) then
      All([], if inf then 2 else 0)
    else
      match Dec(e, Null, s)
      case Fail(_) => Broken
      case Done(v, n) => Join([v], n, Elems(e, inf, s[n..]))
  }

  /** The loop after it has already read `elems` from `n` octets. */
  function Join(elems: seq<Value>, n: nat, r: Elements): Elements {
    if r.All? then All(elems + r.elems, n + r.n) else Broken
  }

  // The recursive definitions above, unfolded once.

  lemma RunOnce(fs: seq<Field>, i: nat, slots: seq<Value>, s: seq<byte>, n: nat, o: Outcome)
    requires i < |fs| == |slots| && n <= |s| && o == DecField(fs[i], slots[i], s[n..])
    ensures o.Fail? ==> Run(fs, i, slots, s, n) == Stuck(slots[i := o.left])
    ensures o.Done? ==> Run(fs, i, slots, s, n) == Run(fs, i + 1, slots[i := o.val], s, n + o.n)
  {
    hide Dec, DecField;
  }

  lemma RunEnd(fs: seq<Field>, slots: seq<Value>, s: seq<byte>, n: nat)
    requires |fs| == |slots| && n <= |s|
    ensures Run(fs, |fs|, slots, s, n) == Ran(slots, n)
  {
    hide Dec, DecField;
  }

  lemma ElemsOnce(e: Codec, inf: bool, s: seq<byte>)
    ensures var r, o := Elems(e, inf, s), Dec(e, Null, s);
            if EndSequence(inf, s) then r == All([], if inf then 2 else 0)
            else if o.Fail? then r == Broken
            else r == Join([o.val], o.n, Elems(e, inf, s[o.n..]))
  {
    hide Dec;
  }

  lemma SequenceOnce(fs: seq<Field>, prev: Value, s: seq<byte>)
    ensures var h, o := GetObject(s), Dec(Sequence(fs), prev, s);
            if !Heads(h, UNIVERSAL, SEQUENCE) then
              o == Fail(prev)
            else
              var run := Run(fs, 0, Slots(prev, |fs|), Body(h, s), 0);
              var end := if run.Ran? then Finish(h.inf, Body(h, s), run.n) else None;
              if end.Some? then o == Done(Struct(run.slots), h.hlen + end.value)
              else o == Fail(if prev.Null? then Null else Struct(run.slots))
  {
    hide GetObject, Body, Run;
  }

  lemma ListOnce(e: Codec, tag: Tag, cls: Class, isSet: bool, prev: Value, s: seq<byte>)
    ensures var h, o := GetObject(s), Dec(ListOf(e, tag, cls, isSet), prev, s);
            if !Heads(h, cls, tag) then
              o == Fail(prev)
            else
              var r := Elems(e, h.inf, Body(h, s));
              o == if r.All? then Done(List(r.elems), h.hlen + r.n) else Fail(prev)
  {
    hide GetObject, Body, Elems;
  }

  lemma ExpOnce(c: Codec, prev: Value, s: seq<byte>)
    ensures var h, o := GetObject(s), DecExp(c, prev, s);
            if h.Bad? then
              o == Fail(prev)
            else
              && h.hlen + ExpLength(h, s) <= |s|
              && var inner := Dec(c, prev, Window(s, h.hlen, ExpLength(h, s)));
                 o == if inner.Fail? then inner else EndExp(h, s, inner)
  {
    hide GetObject, Dec;
  }
}
