/** AcceptanceCode and AcceptanceMask: unvalidated wrappers around the two
    32-bit words of the adapter's acceptance filter. */
module Acceptance {
  import opened JavaLang
  import NativeAccess

  /** Any int is accepted as a code. */
  datatype AcceptanceCode = AcceptanceCode(code: Int32)

  /** Any int is accepted as a mask. */
  datatype AcceptanceMask = AcceptanceMask(mask: Int32)

  /** The code that, with AcceptAllMask, lets every frame through. */
  const AcceptAllCode: AcceptanceCode := AcceptanceCode(NativeAccess.AcceptanceCodeAll)

  /** The mask that, with AcceptAllCode, lets every frame through. */
  const AcceptAllMask: AcceptanceMask := AcceptanceMask(NativeAccess.AcceptanceMaskAll)

  /** The accept-all pair: code 0x00000000, mask 0xFFFFFFFF (the int -1). */
  lemma AcceptAllWords()
    ensures Bits32(AcceptAllCode.code) == 0x0000_0000
    ensures AcceptAllMask.mask == -1 && Bits32(AcceptAllMask.mask) == 0xFFFF_FFFF
  {
  }

  /** The getters give back the wrapped word for every int. */
  lemma WrapUnwrap(x: Int32)
    ensures AcceptanceCode(x).code == x && AcceptanceMask(x).mask == x
  {
  }
}
