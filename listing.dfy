/** The listing of stored certificates: the names in the store root, the CA's own entry left out. */
module Listing {
  import opened Wrappers
  import opened Paths

  /** Either nothing to report, or the CA's name beside the host names found. */
  datatype CertList = NoCerts | Certs(ca: string, certs: seq<string>)

  /** The directory entries other than the CA's, in their original order. */
  function WithoutCa(files: seq<string>): (r: seq<string>)
    ensures forall x :: x in r <==> x in files && x != CA_ROOT_NAME
    ensures |r| <= |files|
    ensures CA_ROOT_NAME !in files ==> r == files
  {
    if files == [] then []
    else if files[0] == CA_ROOT_NAME then WithoutCa(files[1..])
    else [files[0]] + WithoutCa(files[1..])
  }

  /**
   Filtering keeps the order of the entries: the entries of a concatenation
   are filtered part by part.
   */
  lemma {:induction false} WithoutCaAppend(a: seq<string>, b: seq<string>)
    ensures WithoutCa(a + b) == WithoutCa(a) + WithoutCa(b)
  {
    if a == [] {
      assert a + b == b;
    } else {
      assert (a + b)[0] == a[0];
      assert (a + b)[1..] == a[1..] + b;
      WithoutCaAppend(a[1..], b);
      if a[0] != CA_ROOT_NAME {
        assert WithoutCa(a + b) == [a[0]] + (WithoutCa(a[1..]) + WithoutCa(b));
      }
    }
  }

  /**
   The listing built from the outcome of reading the root directory: nothing
   when the read failed or found no entry, otherwise the CA's name and the
   other entries.
   */
  function ListingOf(dir: Option<seq<string>>): (r: CertList)
    ensures r.NoCerts? <==> dir.None? || dir.value == []
    ensures r.Certs? ==> r.ca == CA_ROOT_NAME && CA_ROOT_NAME !in r.certs
    ensures r.Certs? ==> forall x :: x in r.certs <==> x in dir.value && x != CA_ROOT_NAME
  {
    match dir
    case None => NoCerts
    case Some(files) => if |files| >= 1 then Certs(CA_ROOT_NAME, WithoutCa(files)) else NoCerts
  }
}
