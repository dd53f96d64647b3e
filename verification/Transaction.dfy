/**
 The frame of a d2i function: M_ASN1_D2I_vars, M_ASN1_D2I_Finish and the err:
 label, with the object the call allocates or reuses, `*pp` and `*a`.
 */
module Transaction {
  import opened Bytes
  import opened X690
  import opened Schema
  import opened Decode
  import opened Encoder
  import opened Decoder

  /** A C struct with one slot for each field. */
  class Object {
    var slots: seq<Value>

    constructor (n: nat)
      ensures slots == seq(n, _ => Null)
    {
      slots := seq(n, _ => Null);
    }
  }

  /** A variable of type Object *; its address is what d2i takes as `a`. */
  class Variable {
    var obj: Object?
  }

  /** What func() has handed out and the free function has not taken back. */
  class Heap {
    var live: set<Object>
  }

  /**
   d2i of a sequence type: `allocates` says whether func() has memory to give.
   A call that fails leaves `*pp`, `*a` and the set of live objects as they
   were; one that succeeds moves `*pp` over the element, returns the object
   and stores it in `*a`. Only an object that was handed in can be left partly
   overwritten by a failure.
   */
  method D2iObject(fs: seq<Field>, a: Variable?, pp: BytePtr, length: int, buf: array<byte>, heap: Heap,
                   allocates: bool, ghost mem: seq<byte>)
    returns (ret: Object?)
    requires buf[..] == mem && pp.at + length <= |mem|
    requires a != null && a.obj != null ==> a.obj in heap.live && |a.obj.slots| == |fs|
    modifies buf, pp, heap, a, if a == null then null else a.obj
    ensures buf[..] == mem
    ensures var reused := old(a != null && a.obj != null);
            var prev := if old(a != null && a.obj != null) then Struct(old(a.obj.slots)) else Null;
            var o := Dec(Sequence(fs), prev, Window(mem, old(pp.at), length));
            && (ret != null <==> (reused || allocates) && o.Done?)
            && (ret != null ==>
                  && o.val == Struct(ret.slots)
                  && pp.at == old(pp.at) + o.n
                  && (a != null ==> a.obj == ret)
                  && (if reused then ret == old(a.obj) && heap.live == old(heap.live)
                      else fresh(ret) && heap.live == old(heap.live) + {ret}))
            && (ret == null ==>
                  && pp.at == old(pp.at) && heap.live == old(heap.live)
                  && (a != null ==> a.obj == old(a.obj))
                  && (reused ==> Struct(a.obj.slots) == o.left))
  {
    ghost var prev := if a != null && a.obj != null then Struct(a.obj.slots) else Null;
    if a == null || a.obj == null {
      if !allocates {
        return null;
      }
      ret := new Object(|fs|);
      heap.live := heap.live + {ret};
    } else {
      ret := a.obj;
    }
    var headed, ok, slots, next := DecodeBody(fs, ret.slots, buf, pp.at, length, mem);
    SequenceOnce(fs, prev, Window(mem, pp.at, length));
    ret.slots := slots;
    if ok {
      pp.at := next;
      if a != null {
        a.obj := ret;
      }
      return;
    }
    if ret != null && (a == null || a.obj != ret) {
      heap.live := heap.live - {ret};
    }
    return null;
  }
}
