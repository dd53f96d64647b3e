/**
 The helpers that asn1.h only declares, defined from ITU-T X.690:
 identifier octets (8.1.2), length octets (8.1.3), end-of-contents (8.1.5).
 All of them work on a window: the octets the caller is still allowed to read.
 */
module X690 {
  import opened Bytes

  /** What ASN1_get_object reports; `Bad` is the 0x80 flag of its result. */
  datatype Header =
    | Bad
    | Header(tag: Tag, cls: Class, cons: bool, inf: bool, len: nat, hlen: nat)

  /** The octets a C call may read: `len` of them from `at`, none when `len` is not positive. */
  function Window(s: seq<byte>, at: nat, len: int): (w: seq<byte>)
    requires at + len <= |s|
    ensures |w| == if len <= 0 then 0 else len
  {
    if len <= 0 then [] else s[at..at + len]
  }

  function BigEndian(n: nat): (s: seq<byte>)
    ensures |s| >= 1
  {
    if n < 256 then [n] else BigEndian(n / 256) + [n % 256]
  }

  function FromBigEndian(s: seq<byte>): nat {
    if s == [] then 0 else 256 * FromBigEndian(s[..|s| - 1]) + s[|s| - 1]
  }

  lemma {:induction false} BigEndianInverts(n: nat)
    ensures FromBigEndian(BigEndian(n)) == n
  {
    if n >= 256 {
      var s := BigEndian(n);
      BigEndianInverts(n / 256);
      assert s[..|s| - 1] == BigEndian(n / 256);
    } else {
      assert FromBigEndian([n]) == 256 * FromBigEndian([n][..0]) + n;
    }
  }

  /** Four length octets are enough for a C int. */
  lemma BigEndianShort(n: nat)
    requires n <= INT_MAX
    ensures |BigEndian(n)| <= 4
  {
    var a, b, c := n / 256, n / 256 / 256, n / 256 / 256 / 256;
    assert a < 0x80_0000 && b < 0x8000 && c < 0x80;
    assert |BigEndian(c)| == 1;
    assert |BigEndian(b)| <= 2;
    assert |BigEndian(a)| <= 3;
  }

  /** Definite length octets in the fewest octets (8.1.3.3 to 8.1.3.5, 10.1); the count is stored in a C char. */
  function LenOctets(n: nat): (s: seq<byte>)
    ensures |s| >= 1
  {
    if n < 128 then [n] else [(128 + |BigEndian(n)|) % 256] + BigEndian(n)
  }

  /** Identifier and length octets of one element (8.1.2, 8.1.3), or `Bad`. */
  function GetObject(s: seq<byte>): (h: Header)
    ensures h.Header? ==> 2 <= h.hlen <= |s|
    ensures h.Header? && !h.inf ==> h.hlen + h.len <= |s|
    ensures h.Header? && h.inf ==> h.cons && h.len == 0
  {
    if |s| < 2 || s[0] % 32 == 31 then
      Bad
    else
      var tag, cls, cons := s[0] % 32, s[0] / 64 * 64, s[0] / 32 % 2 == 1;
      if s[1] == 0x80 then
        if cons then Header(tag, cls, cons, true, 0, 2) else Bad
      else if s[1] < 0x80 then
        if s[1] <= |s| - 2 then Header(tag, cls, cons, false, s[1], 2) else Bad
      else
        var k := s[1] - 0x80;
        if s[1] == 0xff || |s| < 2 + k then
          Bad
        else
          var len := FromBigEndian(s[2..2 + k]);
          if len <= |s| - 2 - k then Header(tag, cls, cons, false, len, 2 + k) else Bad
  }

  /** `l` says that `n` octets of contents follow, in short form (8.1.3.4) or long form (8.1.3.5), however long. */
  predicate SpellsLength(l: seq<byte>, n: nat) {
    if |l| == 1 then l[0] == n < 0x80
    else 2 <= |l| <= 127 && l[0] == 0x80 + (|l| - 1) && FromBigEndian(l[1..]) == n
  }

  /** Every length that X.690 allows is understood, not only those in the fewest octets. */
  lemma HeaderSpelled(id: byte, l: seq<byte>, n: nat, more: seq<byte>)
    requires id % 32 != 31 && SpellsLength(l, n) && n <= |more|
    ensures GetObject([id] + l + more) == Header(id % 32, id / 64 * 64, id / 32 % 2 == 1, false, n, 1 + |l|)
  {
    hide FromBigEndian;
    var s := [id] + l + more;
    assert s[0] == id && s[1] == l[0];
    if |l| > 1 {
      assert s[2..1 + |l|] == l[1..];
    }
  }

  /** And nothing else is: a low tag, and a length that lies in the window or the octet 80 after a constructed one. */
  lemma HeaderOnly(s: seq<byte>)
    requires GetObject(s).Header?
    ensures var h := GetObject(s);
            && s[0] % 32 != 31
            && if h.inf then s[0] / 32 % 2 == 1 && s[1] == 0x80 && h.hlen == 2
               else SpellsLength(s[1..h.hlen], h.len) && h.len <= |s| - h.hlen
  {
    hide FromBigEndian;
    if !GetObject(s).inf && s[1] > 0x80 {
      var k := s[1] - 0x80;
      assert s[1..2 + k][1..] == s[2..2 + k];
    }
  }

  lemma HeaderThere(s: seq<byte>, k: nat, n: nat)
    requires 2 <= k && k + n <= |s| && s[0] % 32 != 31 && SpellsLength(s[1..k], n)
    ensures GetObject(s) == Header(s[0] % 32, s[0] / 64 * 64, s[0] / 32 % 2 == 1, false, n, k)
  {
    HeaderSpelled(s[0], s[1..k], n, s[k..]);
    assert [s[0]] + s[1..k] + s[k..] == s;
  }

  /**
   A header is bad exactly when the tag is high, the form is indefinite but
   primitive, the length octet is the reserved ff, or no spelled length ends,
   with the contents it announces, inside the window.
   */
  lemma BadExactly(s: seq<byte>)
    ensures GetObject(s).Bad?
       <==> || |s| < 2 || s[0] % 32 == 31 || (s[1] == 0x80 && s[0] / 32 % 2 == 0) || s[1] == 0xff
            || (s[1] != 0x80 && forall k, n :: 2 <= k <= |s| && SpellsLength(s[1..k], n) ==> k + n > |s|)
  {
    hide FromBigEndian;
    if GetObject(s).Header? {
      HeaderOnly(s);
    } else if |s| >= 2 && s[0] % 32 != 31 {
      forall k, n | 2 <= k <= |s| && SpellsLength(s[1..k], n) ensures k + n > |s| {
        if k + n <= |s| {
          HeaderThere(s, k, n);
        }
      }
    }
  }

  /** The first octet counts most (8.1.3.5). */
  lemma {:induction false} FromBigEndianHigh(a: byte, s: seq<byte>)
    ensures FromBigEndian([a] + s) == a * Place(|s|) + FromBigEndian(s)
    decreases |s|
  {
    if s == [] {
      assert ([a] + s)[..0] == [];
    } else {
      FromBigEndianHigh(a, s[..|s| - 1]);
      assert ([a] + s)[..|s|] == [a] + s[..|s| - 1];
    }
  }

  /** 256^n */
  function Place(n: nat): (p: nat)
    ensures p >= 1
  {
    if n == 0 then 1 else 256 * Place(n - 1)
  }

  lemma {:induction false} BigEndianLeast(n: nat, m: seq<byte>)
    requires m != [] && FromBigEndian(m) == n
    ensures |BigEndian(n)| <= |m|
    decreases |m|
  {
    if n >= 256 {
      BigEndianLeast(n / 256, m[..|m| - 1]);
    }
  }

  lemma {:induction false} BigEndianGrows(a: nat, b: nat)
    requires a <= b
    ensures |BigEndian(a)| <= |BigEndian(b)|
    decreases b
  {
    if a >= 256 {
      BigEndianGrows(a / 256, b / 256);
    }
  }

  lemma LenOctetsGrow(a: nat, b: nat)
    requires a <= b
    ensures |LenOctets(a)| <= |LenOctets(b)|
  {
    BigEndianGrows(a, b);
  }

  /** No way to spell a length is shorter than the one that is written. */
  lemma LenOctetsLeast(l: seq<byte>, n: nat)
    requires SpellsLength(l, n)
    ensures |LenOctets(n)| <= |l|
  {
    if n >= 128 {
      BigEndianLeast(n, l[1..]);
    }
  }

  /** What is written spells the length. */
  lemma LenOctetsSpell(n: nat)
    requires n <= INT_MAX
    ensures SpellsLength(LenOctets(n), n) && |LenOctets(n)| <= 5
  {
    BigEndianInverts(n);
    BigEndianShort(n);
    if n >= 128 {
      assert LenOctets(n)[1..] == BigEndian(n);
    }
  }

  /** The contents a cursor may run over after header `h`: exactly the declared octets, or all that is left. */
  function Body(h: Header, s: seq<byte>): (b: seq<byte>)
    requires h.Header? && h.hlen <= |s| && (!h.inf ==> h.hlen + h.len <= |s|)
    ensures |b| == if h.inf then |s| - h.hlen else h.len
  {
    if h.inf then s[h.hlen..] else s[h.hlen..h.hlen + h.len]
  }

  /** The two end-of-contents octets (8.1.5). */
  predicate Eoc(s: seq<byte>) {
    |s| >= 2 && s[0] == 0 && s[1] == 0
  }

  /** One constructed element around `body`, in definite or indefinite form. */
  function Wrap(cls: Class, tag: Tag, body: seq<byte>, inf: bool): (w: seq<byte>)
    ensures |w| >= |body| + 2
    ensures w[0] == Ident(cls, tag, true)
  {
    if inf then
      [Ident(cls, tag, true), 0x80] + body + [0, 0]
    else
      [Ident(cls, tag, true)] + LenOctets(|body|) + body
  }

  /** An identifier octet gives back the class, tag and form it was made from. */
  lemma IdentFields(cls: Class, tag: Tag, cons: bool)
    ensures var b := Ident(cls, tag, cons);
            b % 32 == tag && b / 64 * 64 == cls && (b / 32 % 2 == 1) == cons && Strip(b) == cls + tag
  {
  }

  /** What a header says of its identifier octet. */
  lemma HeadOctet(s: seq<byte>)
    requires GetObject(s).Header?
    ensures var h := GetObject(s);
            s[0] == Ident(h.cls, h.tag, h.cons) && Strip(s[0]) == h.cls + h.tag
  {
    var b := s[0];
    assert b == b / 64 * 64 + b / 32 % 2 * 32 + b % 32;
  }

  /** Reading back length octets, wherever they stand after one identifier octet. */
  lemma LengthParses(id: byte, n: nat, more: seq<byte>)
    requires n <= INT_MAX && n <= |more| && id % 32 != 31
    ensures GetObject([id] + LenOctets(n) + more)
         == Header(id % 32, id / 64 * 64, id / 32 % 2 == 1, false, n, 1 + |LenOctets(n)|)
  {
    hide FromBigEndian, BigEndian;
    var s := [id] + LenOctets(n) + more;
    assert s[0] == id;
    if n >= 128 {
      BigEndianShort(n);
      BigEndianInverts(n);
      var k := |BigEndian(n)|;
      assert s[1] == 128 + k;
      assert s[2..2 + k] == BigEndian(n);
    } else {
      assert s[1] == n;
    }
  }

  /** Reading back a header written in definite form, primitive or constructed. */
  lemma DefiniteParses(cls: Class, tag: Tag, cons: bool, body: seq<byte>, rest: seq<byte>)
    requires |body| <= INT_MAX
    ensures var s := [Ident(cls, tag, cons)] + LenOctets(|body|) + body + rest;
            var k := 1 + |LenOctets(|body|)|;
            && GetObject(s) == Header(tag, cls, cons, false, |body|, k)
            && s[k..k + |body|] == body && s[k..] == body + rest
  {
    IdentFields(cls, tag, cons);
    var id, len := Ident(cls, tag, cons), LenOctets(|body|);
    LengthParses(id, |body|, body + rest);
    assert [id] + len + body + rest == [id] + len + (body + rest);
  }

  /** What follows the contents inside the window that `Body` gives. */
  function Tail(inf: bool, rest: seq<byte>): seq<byte> {
    if inf then [0, 0] + rest else []
  }

  /** Reading back either form: the header, and contents up to the end of the window. */
  lemma WrapParses(cls: Class, tag: Tag, body: seq<byte>, inf: bool, rest: seq<byte>)
    requires |body| <= INT_MAX
    ensures var w := Wrap(cls, tag, body, inf);
            var h := GetObject(w + rest);
            && h.Header? && h.tag == tag && h.cls == cls && h.cons && h.inf == inf
            && (!inf ==> h.len == |body|)
            && |w| == h.hlen + |body| + (if inf then 2 else 0)
            && Body(h, w + rest) == body + Tail(inf, rest)
            && (w + rest)[h.hlen..] == body + (if inf then [0, 0] else []) + rest
  {
    if !inf {
      DefiniteParses(cls, tag, true, body, rest);
    }
  }

  /** `s` and `t` have their first `n` octets in common. */
  predicate Agree(s: seq<byte>, t: seq<byte>, n: nat) {
    n <= |s| && n <= |t| && forall k :: 0 <= k < n ==> s[k] == t[k]
  }

  /** A header is decided by its own octets, in every window that holds what it declares. */
  lemma HeaderLocal(s: seq<byte>, t: seq<byte>)
    requires var h := GetObject(s); h.Header? && |t| >= h.hlen + h.len && Agree(s, t, h.hlen)
    ensures GetObject(t) == GetObject(s)
  {
    var h := GetObject(s);
    assert t[0] == s[0] && t[1] == s[1];
    if s[1] > 0x80 {
      assert s[2..h.hlen] == t[2..h.hlen];
    }
  }
}
