/** Conversions between the nullable byte slice and the nullable string of package mymy
    (addons.go).  A Go string is its bytes, so both are optional byte sequences here and
    the two types differ only in name. */
module Addons {
  import opened Wrappers
  import opened Bytes

  type Nbin = Option<seq<Byte>>   // *[]byte
  type Nstr = Option<seq<Byte>>   // *string

  /** NbinToNstr: nil stays nil; otherwise a new string holding the same bytes. */
  function NbinToNstr(nbin: Nbin): (nstr: Nstr)
    ensures nbin.None? <==> nstr.None?
    ensures nbin.Some? ==> nstr.value == nbin.value
  {
    if nbin.None? then None else Some(nbin.value)
  }

  /** NstrToNbin: nil stays nil; otherwise a new byte slice holding the same bytes. */
  function NstrToNbin(nstr: Nstr): (nbin: Nbin)
    ensures nstr.None? <==> nbin.None?
    ensures nstr.Some? ==> nbin.value == nstr.value
  {
    if nstr.None? then None else Some(nstr.value)
  }

  /** The two conversions undo each other. */
  lemma RoundTrips(b: Nbin, s: Nstr)
    ensures NstrToNbin(NbinToNstr(b)) == b
    ensures NbinToNstr(NstrToNbin(s)) == s
  {
  }
}
