/**
 The file store beneath a root directory, as a map from file path to file
 content: existence is key membership, a write is a map update, and
 deleting a directory drops every path beneath it.
 */
module Store {
  import opened Paths
  import opened Issuer

  /** The file system: file path to file content. */
  type Files = map<string, string>

  /** An identity counts as present only when both its key file and its certificate file exist. */
  predicate Present(files: Files, root: string, name: string)
    ensures FilePath(root, name, KEY_KIND) in files && FilePath(root, name, CERT_KIND) in files ==> Present(files, root, name)
    ensures (FilePath(root, name, KEY_KIND) in files) != (FilePath(root, name, CERT_KIND) in files) ==> !Present(files, root, name)
  {
    FilePath(root, name, KEY_KIND) in files && FilePath(root, name, CERT_KIND) in files
  }

  /** The stored key and certificate of a present identity. */
  function Pair(files: Files, root: string, name: string): (pair: KeyCert)
    requires Present(files, root, name)
    ensures pair.key == files[FilePath(root, name, KEY_KIND)]
    ensures pair.cert == files[FilePath(root, name, CERT_KIND)]
  {
    KeyCert(files[FilePath(root, name, KEY_KIND)], files[FilePath(root, name, CERT_KIND)])
  }

  /** The store after the key file and then the certificate file of `name` are written. */
  function SavePair(files: Files, root: string, name: string, key: string, cert: string): (saved: Files)
    ensures saved.Keys == files.Keys + {FilePath(root, name, KEY_KIND), FilePath(root, name, CERT_KIND)}
    ensures saved[FilePath(root, name, KEY_KIND)] == key && saved[FilePath(root, name, CERT_KIND)] == cert
    ensures forall p :: p in files && p != FilePath(root, name, KEY_KIND) && p != FilePath(root, name, CERT_KIND) ==>
      saved[p] == files[p]
  {
    KeyAndCertDiffer(root, name);
    files[FilePath(root, name, KEY_KIND) := key][FilePath(root, name, CERT_KIND) := cert]
  }

  /** What deleting the directory `dir` with everything beneath it leaves. */
  function RemoveUnder(files: Files, dir: string): (r: Files)
    ensures forall p :: p in r <==> p in files && !Under(p, dir)
    ensures forall p :: p in r ==> r[p] == files[p]
  {
    map p | p in files && !Under(p, dir) :: files[p]
  }

  /** The names that reading the directory `root` lists: the leading segment of every path beneath it. */
  function Entries(files: Files, root: string): (names: set<string>)
    ensures forall n :: n in names ==> '/' !in n
  {
    set p | p in files && root + "/" <= p :: FirstSegment(p[|root| + 1..])
  }

  /**
   Saving the two files of an identity makes it present with exactly the
   written contents, and every other identity keeps its presence and contents.
   */
  lemma {:induction false} SavePairEffect(files: Files, root: string, name: string, key: string, cert: string, n: string)
    ensures var w := SavePair(files, root, name, key, cert);
      Present(w, root, name) && Pair(w, root, name) == KeyCert(key, cert)
    ensures var w := SavePair(files, root, name, key, cert);
      n != name ==>
        && (Present(w, root, n) <==> Present(files, root, n))
        && (Present(files, root, n) ==> Pair(w, root, n) == Pair(files, root, n))
  {
    KeyAndCertDiffer(root, name);
    FilePathInjective(root, n, KEY_KIND, name, KEY_KIND);
    FilePathInjective(root, n, KEY_KIND, name, CERT_KIND);
    FilePathInjective(root, n, CERT_KIND, name, KEY_KIND);
    FilePathInjective(root, n, CERT_KIND, name, CERT_KIND);
  }

  /**
   An identity with no certificate file stays absent when only its key is
   written: a key file without its certificate does not count.
   */
  lemma PartialSaveIsAbsent(files: Files, root: string, name: string, key: string)
    requires FilePath(root, name, CERT_KIND) !in files
    ensures !Present(files[FilePath(root, name, KEY_KIND) := key], root, name)
  {
    KeyAndCertDiffer(root, name);
  }

  /**
   An absent identity that still has its certificate file but no key file
   becomes present when only its key is written, pairing the new key with
   the old certificate: the two-file write is not crash-safe for it.
   */
  lemma CertOnlyBecomesPresent(files: Files, root: string, name: string, key: string)
    requires FilePath(root, name, CERT_KIND) in files && FilePath(root, name, KEY_KIND) !in files
    ensures !Present(files, root, name)
    ensures Present(files[FilePath(root, name, KEY_KIND) := key], root, name)
    ensures Pair(files[FilePath(root, name, KEY_KIND) := key], root, name) == KeyCert(key, files[FilePath(root, name, CERT_KIND)])
  {
    KeyAndCertDiffer(root, name);
  }

  /**
   Deleting the folder of one hostname leaves that identity absent, and every
   other identity with a valid name keeps its presence and contents.
   */
  lemma {:induction false} RemoveFolderEffect(files: Files, root: string, h: string, n: string)
    ensures !Present(RemoveUnder(files, FolderPath(root, h)), root, h)
    ensures var r := RemoveUnder(files, FolderPath(root, h));
      ValidName(h) && ValidName(n) && n != h ==>
        && (Present(r, root, n) <==> Present(files, root, n))
        && (Present(files, root, n) ==> Pair(r, root, n) == Pair(files, root, n))
  {
    if ValidName(h) && ValidName(n) && n != h {
      FolderSeparate(root, n, h, KEY_KIND);
      FolderSeparate(root, n, h, CERT_KIND);
    }
  }

  /** Deleting the root leaves no identity present and nothing for the root to list. */
  lemma RemoveRootEffect(files: Files, root: string, n: string)
    ensures !Present(RemoveUnder(files, root), root, n)
    ensures Entries(RemoveUnder(files, root), root) == {}
  {
  }

  /** Every present identity whose name is one path segment is listed by its root. */
  lemma {:induction false} PresentIsListed(files: Files, root: string, n: string)
    requires '/' !in n && Present(files, root, n)
    ensures n in Entries(files, root)
  {
    var p := FilePath(root, n, KEY_KIND);
    var rest := n + "." + Ext(KEY_KIND);
    assert p == (root + "/") + (n + "/" + rest);
    assert root + "/" <= p;
    assert p[|root| + 1..] == n + "/" + rest;
    FirstSegmentOf(n, rest);
  }
}
