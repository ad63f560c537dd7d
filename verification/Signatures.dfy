// The record signatures of a ZIP file (section 4.3 of APPNOTE.TXT).
module Signatures {
  const SIGN_LOCAL_FILE: nat := 0x04034B50
  const SIGN_CENTRAL_DIR: nat := 0x02014B50
  const SIGN_END_CENTRAL: nat := 0x06054B50
  const SIGN_DATA_DESC: nat := 0x08074B50
  const SIGN_ZIP64_END: nat := 0x06064B50
  const SIGN_ZIP64_LOCATOR: nat := 0x07064B50

  /** What a 16-bit or 32-bit field holds when its value is in a ZIP64 record. */
  const MAGIC16: nat := 0xFFFF
  const MAGIC32: nat := 0xFFFF_FFFF

  /** is_record_signature */
  predicate IsRecordSignature(sig: nat) {
    || sig == SIGN_LOCAL_FILE
    || sig == SIGN_CENTRAL_DIR
    || sig == SIGN_END_CENTRAL
    || sig == SIGN_ZIP64_END
    || sig == SIGN_ZIP64_LOCATOR
  }
}
