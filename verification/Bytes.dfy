/** Octets, and the identifier-octet masks of asn1.h written as arithmetic. */
module Bytes {

  type byte = x: int | 0 <= x < 256

  /** The four tag classes, as they sit in bits 8 and 7 of an identifier octet. */
  type Class = c: byte | c == 0x00 || c == 0x40 || c == 0x80 || c == 0xc0

  /** Low-form tag numbers: 31 announces the high-tag-number form. */
  type Tag = t: byte | t <= 30

  const UNIVERSAL: Class := 0x00
  const CONTEXT: Class := 0x80
  const CONSTRUCTED: byte := 0x20
  const SEQUENCE: Tag := 16

  /** The largest value of a C int, which is what every length pass returns. */
  const INT_MAX: nat := 0x7fff_ffff

  datatype Option<+T> = None | Some(value: T)

  /** b & V_ASN1_CONSTRUCTED */
  function ConsBit(b: byte): byte {
    if b / 32 % 2 == 1 then CONSTRUCTED else 0
  }

  /** b & ~V_ASN1_CONSTRUCTED */
  function Strip(b: byte): byte {
    b - ConsBit(b)
  }

  /** cls | tag, with the constructed bit when `cons` is set */
  function Ident(cls: Class, tag: Tag, cons: bool): byte {
    cls + tag + (if cons then CONSTRUCTED else 0)
  }

  /** The arithmetic above is the bit arithmetic of the macros. */
  lemma MasksAreBitwise(b: bv8)
    ensures ConsBit(b as byte) == (b & 0x20) as byte
    ensures Strip(b as byte) == (b & 0xdf) as byte
  {
  }
}
