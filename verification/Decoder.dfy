/**
 The M_ASN1_D2I macros as they run: a cursor over a buffer that the IMPLICIT
 macro writes into. Every method is tied to the functions of `Decode`, and
 every method leaves the buffer as it found it: `mem` names its contents
 before and after the call.
 */
module Decoder {
  import opened Bytes
  import opened X690
  import opened Schema
  import opened Decode

  /** The int that ASN1_get_object returns. */
  function Flags(h: Header): int {
    if h.Bad? then 0x80 else (if h.cons then 0x20 else 0) + (if h.inf then 1 else 0)
  }

  /** V_ASN1_CONSTRUCTED+1 */
  const INDEFINITE: int := 0x21

  lemma WindowDrop(s: seq<byte>, at: nat, len: nat, n: nat)
    requires at + len <= |s| && n <= len
    ensures Window(s, at + n, len - n) == Window(s, at, len)[n..]
  {
  }

  lemma WindowIn(s: seq<byte>, at: nat, len: nat, k: nat, n: int)
    requires at + len <= |s| && k <= len && k + n <= len
    ensures Window(s, at + k, n) == Window(Window(s, at, len), k, n)
  {
    if n > 0 {
      assert s[at..at + len][k..] == s[at + k..at + len];
      assert s[at + k..at + len][..n] == s[at + k..at + k + n];
    }
  }

  lemma BodyIsWindow(s: seq<byte>, at: nat, len: nat, h: Header)
    requires at + len <= |s| && h == GetObject(Window(s, at, len)) && h.Header?
    ensures Window(s, at + h.hlen, if h.inf then len - h.hlen else h.len) == Body(h, Window(s, at, len))
  {
    WindowIn(s, at, len, h.hlen, if h.inf then len - h.hlen else h.len);
    var w := Window(s, at, len);
    assert h.inf ==> w[h.hlen..] == w[h.hlen..len];
    assert !h.inf && h.len == 0 ==> w[h.hlen..h.hlen] == [];
  }

  lemma FinishIs(inf: bool, body: seq<byte>, n: nat, ok: bool)
    requires n <= |body| && ok == if inf then Eoc(body[n..]) else n == |body|
    ensures Finish(inf, body, n) == if ok then Some(n + if inf then 2 else 0) else None
  {
  }

  lemma NextLengthOctet(w: seq<byte>, i: nat)
    requires 2 + i < |w|
    ensures FromBigEndian(w[2..3 + i]) == 256 * FromBigEndian(w[2..2 + i]) + w[2 + i]
  {
    assert w[2..3 + i][..i] == w[2..2 + i];
  }

  /** ASN1_get_object on `omax` octets from `at`; `next` is where the contents start. */
  method ReadHeader(buf: array<byte>, at: nat, omax: int, ghost mem: seq<byte>)
    returns (ret: int, len: nat, tag: Tag, cls: Class, next: nat)
    requires buf[..] == mem && at + omax <= |mem|
    ensures var h := GetObject(Window(mem, at, omax));
            && ret == Flags(h)
            && (h.Bad? ==> next == at)
            && (h.Header? ==> len == h.len && tag == h.tag && cls == h.cls && next == at + h.hlen)
  {
    ret, len, tag, cls, next := 0x80, 0, 0, 0, at;
    if omax < 2 {
      return;
    }
    ghost var w := Window(mem, at, omax);
    var id, l := buf[at], buf[at + 1];
    assert id == w[0] && l == w[1];
    if id % 32 == 31 {
      return;
    }
    tag, cls := id % 32, id / 64 * 64;
    var cons := id / 32 % 2 == 1;
    if l == 0x80 {
      if cons {
        ret, next := INDEFINITE, at + 2;
      }
      return;
    }
    var k := 0;
    if l < 0x80 {
      len := l;
    } else {
      k := l - 0x80;
      if l == 0xff || omax < 2 + k {
        return;
      }
      for i := 0 to k
        invariant len == FromBigEndian(w[2..2 + i])
      {
        NextLengthOctet(w, i);
        assert buf[at + 2 + i] == w[2 + i];
        len := 256 * len + buf[at + 2 + i];
      }
    }
    if len <= omax - 2 - k {
      ret, next := if cons then 0x20 else 0, at + 2 + k;
    }
  }

  /** ASN1_const_check_infinite_end: the end-of-contents octets at `at`, within `len` octets. */
  method CheckInfiniteEnd(buf: array<byte>, at: nat, len: int, ghost mem: seq<byte>) returns (found: bool)
    requires buf[..] == mem && at + len <= |mem|
    ensures found == Eoc(Window(mem, at, len))
  {
    found := len >= 2 && buf[at] == 0 && buf[at + 1] == 0;
  }

  /** ASN1_const_CTX */
  class Cursor {
    const buf: array<byte>
    const max: int
    var p: nat
    var q: nat
    var slen: int
    var inf: int
    var eos: bool

    /** The cursor runs over `slen` octets of a buffer that holds `mem`. */
    ghost predicate Within(mem: seq<byte>)
      reads this, buf
    {
      buf[..] == mem && 0 <= slen && p + slen <= |mem|
    }

    /** The octets this cursor may still read. */
    ghost function Rest(mem: seq<byte>): (s: seq<byte>)
      requires Within(mem)
      reads this, buf
      ensures |s| == slen
    {
      Window(mem, p, slen)
    }

    /** M_ASN1_D2I_Init */
    constructor (buf: array<byte>, at: nat, length: int)
      ensures this.buf == buf && p == at && q == at
      ensures max == if length == 0 then 0 else at + length
    {
      this.buf := buf;
      max := if length == 0 then 0 else at + length;
      p, q, slen, inf, eos := at, at, 0, 0, false;
    }

    /** asn1_GetSequence, and the header test of d2i_ASN1_SET, on `length` octets. */
    method Open(length: int, cls: Class, tag: Tag, ghost mem: seq<byte>) returns (ok: bool)
      requires buf[..] == mem && p + length <= |mem|
      modifies this
      ensures var s := Window(mem, old(p), length);
              var h := GetObject(s);
              && ok == Heads(h, cls, tag)
              && (ok ==> Within(mem) && p == old(p) + h.hlen && inf == Flags(h) && !eos && Rest(mem) == Body(h, s))
    {
      hide Window;
      var ret, len, t, x, next := ReadHeader(buf, p, length, mem);
      inf := ret;
      if ret == 0x80 || ret == 0 || t != tag || x != cls {
        return false;
      }
      BodyIsWindow(mem, p, length, GetObject(Window(mem, p, length)));
      slen := if ret == INDEFINITE then p + length - next else len;
      p, eos := next, false;
      return true;
    }

    /** M_ASN1_D2I_get */
    method Get(c: Codec, prev: Value, ghost mem: seq<byte>) returns (o: Outcome)
      requires Within(mem)
      modifies `p, `q, `slen, buf
      ensures buf[..] == mem
      ensures o == Dec(c, prev, old(Rest(mem)))
      ensures o.Done? ==> Within(mem) && p == old(p) + o.n && p + slen == old(p) + old(slen)
      decreases c, 2
    {
      q := p;
      o := D2i(c, prev, buf, p, slen, mem);
      if o.Fail? {
        return;
      }
      p := p + o.n;
      slen := slen - (p - q);
    }

    /** M_ASN1_D2I_get_imp: the tag octet is overwritten, and put back on either way out. */
    method GetImp(c: Codec, prev: Value, typ: Tag, ghost mem: seq<byte>) returns (o: Outcome)
      requires Within(mem) && slen > 0
      modifies `p, `q, `slen, buf
      ensures buf[..] == mem
      ensures var s := old(Rest(mem)); o == Dec(c, prev, s[0 := ConsBit(s[0]) + typ])
      ensures o.Done? ==> Within(mem) && p == old(p) + o.n && p + slen == old(p) + old(slen)
      decreases c, 2
    {
      hide Dec;
      var tmp := buf[p];
      var swapped: byte := ConsBit(tmp) + typ;
      buf[p] := swapped;
      q := p;
      assert buf[..] == mem[q := swapped];
      assert Window(mem[q := swapped], p, slen) == Window(mem, p, slen)[0 := swapped];
      o := D2i(c, prev, buf, p, slen, mem[q := swapped]);
      if o.Fail? {
        buf[q] := tmp;
        assert buf[..] == mem;
        return;
      }
      p := p + o.n;
      slen := slen - (p - q);
      buf[q] := tmp;
      assert buf[..] == mem;
    }

    /** M_ASN1_D2I_get_EXP_opt after its test, and the EXP_set_opt forms */
    method GetExp(c: Codec, prev: Value, ghost mem: seq<byte>) returns (o: Outcome)
      requires Within(mem)
      modifies `p, `q, `slen, buf
      ensures buf[..] == mem
      ensures o == DecExp(c, prev, old(Rest(mem)))
      ensures o.Done? ==> Within(mem) && p == old(p) + o.n && p + slen == old(p) + old(slen)
      decreases c, 2
    {
      hide Dec, DecExp, EndExp, GetObject, Window;
      ghost var s := Rest(mem);
      ghost var h := GetObject(s);
      ExpOnce(c, prev, s);
      q := p;
      var tinf, tlen: int, ttag, tclass, next := ReadHeader(buf, p, slen, mem);
      p := next;
      if tinf == 0x80 {
        return Fail(prev);
      }
      if tinf == INDEFINITE {
        tlen := slen - (p - q) - 2;
      }
      WindowIn(mem, q, slen, h.hlen, tlen);
      o := D2i(c, prev, buf, p, tlen, mem);
      ghost var inner := o;
      assert inner == Dec(c, prev, Window(s, h.hlen, ExpLength(h, s)));
      if o.Done? {
        o := EndExplicit(tinf == INDEFINITE, o.val, o.n, h, mem);
      }
    }

    /** The end of that macro, after the inner function has consumed `n` octets. */
    method EndExplicit(indefinite: bool, v: Value, n: nat, ghost h: Header, ghost mem: seq<byte>) returns (o: Outcome)
      requires buf[..] == mem && 0 <= slen && q + slen <= |mem|
      requires h.Header? && p == q + h.hlen && h.hlen + n <= slen && indefinite == h.inf
      modifies `p, `slen
      ensures o == EndExp(h, Window(mem, q, old(slen)), Done(v, n))
      ensures o.Done? ==> Within(mem) && p == q + o.n && p + slen == q + old(slen)
    {
      hide GetObject, Window;
      p := p + n;
      if indefinite {
        WindowDrop(mem, q, slen, p - q);
        var found := CheckInfiniteEnd(buf, p, slen - (p - q), mem);
        if !found {
          return Fail(v);
        }
        p := p + 2;
      }
      slen := slen - (p - q);
      o := Done(v, p - q);
    }

    /** The macro of one field, with its lookahead test. */
    method GetField(f: Field, prev: Value, ghost mem: seq<byte>) returns (o: Outcome)
      requires Within(mem)
      modifies `p, `q, `slen, buf
      ensures buf[..] == mem
      ensures o == DecField(f, prev, old(Rest(mem)))
      ensures o.Done? ==> Within(mem) && p == old(p) + o.n && p + slen == old(p) + old(slen)
      decreases f, 3
    {
      hide Dec, DecExp;
      if !f.Get? && (slen == 0 || !Accepts(f, buf[p])) {
        return Done(prev, 0);
      }
      match f {
        case Get(c) => o := Get(c, prev, mem);
        case GetOpt(c, _) => o := Get(c, prev, mem);
        case ImpOpt(c, _, typ) => o := GetImp(c, prev, typ, mem);
        case ExpOpt(c, _, _) => o := GetExp(c, prev, mem);
        case ListOpt(c) => o := Get(c, prev, mem);
      }
    }

    /** The field macros of a sequence, one after the other, into the slots of its object. */
    method GetFields(fs: seq<Field>, initial: seq<Value>, ghost mem: seq<byte>) returns (r: Progress)
      requires Within(mem) && |initial| == |fs|
      modifies `p, `q, `slen, buf
      ensures buf[..] == mem
      ensures r == Run(fs, 0, initial, old(Rest(mem)), 0)
      ensures r.Ran? ==> Within(mem) && p == old(p) + r.n && p + slen == old(p) + old(slen)
      decreases fs, 4
    {
      hide Run, DecField, Dec, Window;
      ghost var s, total: nat := Rest(mem), slen;
      ghost var spec, n: nat := Run(fs, 0, initial, s, 0), 0;
      var start, slots := p, initial;
      for i := 0 to |fs|
        invariant buf[..] == mem && |slots| == |fs|
        invariant p == start + n && slen == total - n && n <= total
        invariant spec == Run(fs, i, slots, s, n)
      {
        WindowDrop(mem, start, total, n);
        var o := GetField(fs[i], slots[i], mem);
        assert o == DecField(fs[i], slots[i], s[n..]);
        RunOnce(fs, i, slots, s, n, o);
        if o.Fail? {
          return Stuck(slots[i := o.left]);
        }
        slots, n := slots[i := o.val], n + o.n;
      }
      RunEnd(fs, slots, s, n);
      r := Ran(slots, p - start);
    }

    /** M_ASN1_D2I_end_sequence; it steps over the end-of-contents octets without counting them in slen. */
    method AtEnd(ghost mem: seq<byte>) returns (b: bool)
      requires Within(mem)
      modifies this
      ensures b == EndSequence(inf % 2 == 1, old(Rest(mem)))
      ensures inf == old(inf) && slen == old(slen) && eos == if inf % 2 == 1 then b else old(eos)
      ensures p == old(p) + if inf % 2 == 1 && b then 2 else 0
    {
      if inf % 2 == 0 {
        return slen <= 0;
      }
      eos := CheckInfiniteEnd(buf, p, slen, mem);
      if eos {
        p := p + 2;
      }
      return eos;
    }

    /** asn1_const_Finish */
    method Close(ghost mem: seq<byte>) returns (ok: bool)
      requires eos || Within(mem)
      modifies this
      ensures ok == if inf % 2 == 0 then slen == 0 else if old(eos) then slen >= 0 else old(Eoc(Window(mem, p, slen)))
      ensures p == old(p) + if ok && inf % 2 == 1 && !eos then 2 else 0
      ensures inf == old(inf) && slen == old(slen) && eos == old(eos)
    {
      if inf % 2 == 1 && !eos {
        var found := CheckInfiniteEnd(buf, p, slen, mem);
        if !found {
          return false;
        }
        p := p + 2;
      }
      return if inf % 2 == 0 then slen == 0 else slen >= 0;
    }
  }

  /** The contents of a sequence: start_sequence, the fields, Finish. `next` is c.p at the end. */
  method DecodeBody(fs: seq<Field>, initial: seq<Value>, buf: array<byte>, at: nat, length: int, ghost mem: seq<byte>)
    returns (headed: bool, ok: bool, slots: seq<Value>, next: nat)
    requires buf[..] == mem && at + length <= |mem| && |initial| == |fs|
    modifies buf
    ensures buf[..] == mem && |slots| == |fs|
    ensures var s := Window(mem, at, length);
            var h := GetObject(s);
            && headed == Heads(h, UNIVERSAL, SEQUENCE)
            && (!headed ==> !ok && slots == initial)
            && (headed ==>
                  var r := Run(fs, 0, initial, Body(h, s), 0);
                  var end := if r.Ran? then Finish(h.inf, Body(h, s), r.n) else None;
                  ok == end.Some? && slots == r.slots && (ok ==> next == at + h.hlen + end.value))
    decreases fs, 5
  {
    hide Run, Dec, Finish, GetObject, Body, Window;
    next := at;
    var c := new Cursor(buf, at, length);
    headed := c.Open(length, UNIVERSAL, SEQUENCE, mem);
    if !headed {
      return false, false, initial, next;
    }
    ghost var start, total: nat, body := c.p, c.slen, c.Rest(mem);
    var r := c.GetFields(fs, initial, mem);
    if r.Stuck? {
      return true, false, r.slots, next;
    }
    WindowDrop(mem, start, total, r.n);
    ok := c.Close(mem);
    FinishIs(c.inf % 2 == 1, body, r.n, ok);
    slots, next := r.slots, c.p;
  }

  /** A d2i function built from the macros, called on `length` octets from `at`. */
  method D2i(c: Codec, prev: Value, buf: array<byte>, at: nat, length: int, ghost mem: seq<byte>)
    returns (o: Outcome)
    requires buf[..] == mem && at + length <= |mem|
    modifies buf
    ensures buf[..] == mem
    ensures o == Dec(c, prev, Window(mem, at, length))
    decreases c, 1
  {
    match c {
      case Leaf(l) =>
        var w := if length <= 0 then [] else buf[at..at + length];
        assert w == Window(mem, at, length);
        var r := l.dec(w);
        o := if r.Some? then Done(Prim(r.value.0), r.value.1) else Fail(prev);
      case Sequence(fs) =>
        var headed, ok, slots, next := DecodeBody(fs, Slots(prev, |fs|), buf, at, length, mem);
        if ok {
          o := Done(Struct(slots), next - at);
        } else if !headed || prev.Null? {
          o := Fail(prev);
        } else {
          o := Fail(Struct(slots));
        }
      case ListOf(e, tag, cls, isSet) =>
        o := DecodeList(e, tag, cls, isSet, prev, buf, at, length, mem);
    }
  }

  /** d2i_ASN1_SET: the header, then the element loop. */
  method DecodeList(e: Codec, tag: Tag, cls: Class, isSet: bool, prev: Value, buf: array<byte>, at: nat, length: int,
                    ghost mem: seq<byte>)
    returns (o: Outcome)
    requires buf[..] == mem && at + length <= |mem|
    modifies buf
    ensures buf[..] == mem
    ensures o == Dec(ListOf(e, tag, cls, isSet), prev, Window(mem, at, length))
    decreases e, 4
  {
    hide Dec, Elems, GetObject, Body, Window;
    ghost var s := Window(mem, at, length);
    ListOnce(e, tag, cls, isSet, prev, s);
    var c := new Cursor(buf, at, length);
    var headed := c.Open(length, cls, tag, mem);
    if !headed {
      return Fail(prev);
    }
    var ok, elems := DecodeElems(e, c, mem);
    o := if ok then Done(List(elems), c.p - at) else Fail(prev);
  }

  /** while (!M_ASN1_D2I_end_sequence()) M_ASN1_D2I_get(element); Finish */
  method DecodeElems(e: Codec, c: Cursor, ghost mem: seq<byte>) returns (ok: bool, elems: seq<Value>)
    requires c.Within(mem) && !c.eos
    modifies c, c.buf
    ensures c.buf[..] == mem
    ensures var r := Elems(e, old(c.inf) % 2 == 1, old(c.Rest(mem)));
            ok == r.All? && (ok ==> elems == r.elems && c.p == old(c.p) + r.n)
    decreases e, 3
  {
    hide Dec, Elems, Window, Join;
    ghost var body, total: nat := c.Rest(mem), c.slen;
    ghost var start, n: nat := c.p, 0;
    var inf := c.inf % 2 == 1;
    ghost var spec := Elems(e, inf, body);
    elems := [];
    JoinNothing(spec);
    var done := c.AtEnd(mem);
    while !done
      invariant c.buf[..] == mem && (c.inf % 2 == 1) == inf && n <= total == |body|
      invariant done == EndSequence(inf, body[n..])
      invariant c.p == start + n + if done && inf then 2 else 0
      invariant c.slen == total - n && c.eos == (done && inf)
      invariant body == Window(mem, start, total)
      invariant spec == Join(elems, n, Elems(e, inf, body[n..]))
      decreases total - n
    {
      WindowDrop(mem, start, total, n);
      var r := c.Get(e, Null, mem);
      ElemsNext(e, inf, body, n, elems, r);
      if r.Fail? {
        return false, [];
      }
      elems, n := elems + [r.val], n + r.n;
      WindowDrop(mem, start, total, n);
      done := c.AtEnd(mem);
    }
    ElemsStop(e, inf, elems, n, body[n..]);
    ok := c.Close(mem);
  }

  lemma JoinNothing(r: Elements)
    ensures Join([], 0, r) == r
  {
  }

  lemma ElemsStop(e: Codec, inf: bool, elems: seq<Value>, n: nat, s: seq<byte>)
    requires EndSequence(inf, s)
    ensures Join(elems, n, Elems(e, inf, s)) == All(elems, n + if inf then 2 else 0)
  {
    hide Dec, Elems;
    ElemsOnce(e, inf, s);
    assert elems + [] == elems;
  }

  lemma ElemsNext(e: Codec, inf: bool, body: seq<byte>, n: nat, elems: seq<Value>, o: Outcome)
    requires n <= |body| && !EndSequence(inf, body[n..]) && o == Dec(e, Null, body[n..])
    ensures o.Done? ==> 1 <= o.n && n + o.n <= |body|
    ensures Join(elems, n, Elems(e, inf, body[n..]))
         == if o.Fail? then Broken else Join(elems + [o.val], n + o.n, Elems(e, inf, body[n + o.n..]))
  {
    hide Dec, Elems;
    ElemsOnce(e, inf, body[n..]);
    if o.Done? {
      assert body[n..][o.n..] == body[n + o.n..];
      var r := Elems(e, inf, body[n + o.n..]);
      if r.All? {
        assert elems + ([o.val] + r.elems) == elems + [o.val] + r.elems;
      }
    }
  }
}
