/** Strings whose characters are bytes. */
module Bytes {
  predicate IsBytes(s: string) {
    forall i :: 0 <= i < |s| ==> s[i] as int < 0x100
  }
}
