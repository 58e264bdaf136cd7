/**
 The path naming convention of the certificate store: every identity (the CA
 or a hostname) owns the folder `{root}/{name}`, holding `{name}.key` and
 `{name}.crt`. Joining is concatenation with "/"; the normalisation that a
 real path join performs is not modelled.
 */
module Paths {

  /** The reserved identity name under which the CA key and certificate are kept. */
  const CA_ROOT_NAME: string := "##ca##"

  /** The two file kinds the store asks for. */
  const KEY_KIND: string := "key"
  const CERT_KIND: string := "cert"

  /** The file extension of a kind: "crt" for "cert", and "key" for every other kind. */
  function Ext(kind: string): (ext: string)
    ensures ext == "crt" <==> kind == CERT_KIND
    ensures ext == "crt" || ext == "key"
  {
    if kind == CERT_KIND then "crt" else "key"
  }

  /** `p` is the directory `dir` itself or lies somewhere beneath it. */
  predicate Under(p: string, dir: string) {
    p == dir || dir + "/" <= p
  }

  /** A hostname that a path join keeps as exactly one path segment. */
  predicate ValidName(name: string) {
    name != "" && name != "." && name != ".." && '/' !in name
  }

  /** The folder owned by identity `name`. */
  function FolderPath(root: string, name: string): (dir: string)
    ensures Under(dir, root)
    ensures |dir| == |root| + 1 + |name|
  {
    root + "/" + name
  }

  /** The file of kind `kind` of identity `name`: `{root}/{name}/{name}.{ext}`. */
  function FilePath(root: string, name: string, kind: string): (p: string)
    ensures Under(p, FolderPath(root, name)) && Under(p, root)
    ensures |p| == |root| + 2 * |name| + 6
  {
    var p := FolderPath(root, name) + "/" + name + "." + Ext(kind);
    assert p == root + "/" + (name + "/" + name + "." + Ext(kind));
    assert p == FolderPath(root, name) + "/" + (name + "." + Ext(kind));
    p
  }

  /** Two file paths of one store coincide exactly when they name the same identity and extension. */
  lemma {:induction false} FilePathInjective(root: string, n1: string, k1: string, n2: string, k2: string)
    ensures FilePath(root, n1, k1) == FilePath(root, n2, k2) <==> n1 == n2 && Ext(k1) == Ext(k2)
  {
    var p1, p2 := FilePath(root, n1, k1), FilePath(root, n2, k2);
    if p1 == p2 {
      var s := |root| + 1;
      assert |n1| == |n2|;
      assert p1 == root + "/" + n1 + "/" + n1 + "." + Ext(k1);
      assert p2 == root + "/" + n2 + "/" + n2 + "." + Ext(k2);
      assert p1[s..s + |n1|] == n1;
      assert p2[s..s + |n2|] == n2;
      assert p1[|p1| - 3..] == Ext(k1);
      assert p2[|p2| - 3..] == Ext(k2);
    }
  }

  /** The key file and the certificate file of one identity are never the same path. */
  lemma KeyAndCertDiffer(root: string, name: string)
    ensures FilePath(root, name, KEY_KIND) != FilePath(root, name, CERT_KIND)
  {
    FilePathInjective(root, name, KEY_KIND, name, CERT_KIND);
  }

  /** The leading path segment of `s`: everything before its first "/". */
  function FirstSegment(s: string): (seg: string)
    ensures seg <= s && '/' !in seg
    ensures |seg| < |s| ==> s[|seg|] == '/'
  {
    if s == [] || s[0] == '/' then [] else [s[0]] + FirstSegment(s[1..])
  }

  /** A name without "/" followed by "/" is the leading segment of the whole string. */
  lemma {:induction false} FirstSegmentOf(a: string, b: string)
    requires '/' !in a
    ensures FirstSegment(a + "/" + b) == a
  {
    if a != [] {
      assert (a + "/" + b)[1..] == a[1..] + "/" + b;
      FirstSegmentOf(a[1..], b);
    }
  }

  /** A string without "/" is its own leading segment. */
  lemma FirstSegmentWhole(a: string)
    requires '/' !in a
    ensures FirstSegment(a) == a
  {
  }

  /** Every path in the folder of a slash-free name `n` has `n` as its leading segment beneath the root. */
  lemma {:induction false} SegmentUnderFolder(root: string, n: string, p: string)
    requires '/' !in n && Under(p, FolderPath(root, n))
    ensures |root| + 1 <= |p| && FirstSegment(p[|root| + 1..]) == n
  {
    var pre := root + "/";
    assert FolderPath(root, n) == pre + n;
    if p == pre + n {
      assert p[|pre|..] == n;
      FirstSegmentWhole(n);
    } else {
      var more := p[|pre| + |n| + 1..];
      assert p == pre + (n + "/" + more);
      assert p[|pre|..] == n + "/" + more;
      FirstSegmentOf(n, more);
    }
  }

  /** The folders of two slash-free names share a path only when the names are equal. */
  lemma {:induction false} FoldersDisjoint(root: string, n: string, h: string, p: string)
    requires '/' !in n && '/' !in h
    ensures Under(p, FolderPath(root, n)) && Under(p, FolderPath(root, h)) ==> n == h
  {
    if Under(p, FolderPath(root, n)) && Under(p, FolderPath(root, h)) {
      SegmentUnderFolder(root, n, p);
      SegmentUnderFolder(root, h, p);
    }
  }

  /**
   Folders of distinct hostnames are disjoint: no file of identity `n` lies
   under the folder of another identity `h`.
   */
  lemma {:induction false} FolderSeparate(root: string, n: string, h: string, kind: string)
    requires ValidName(n) && ValidName(h) && n != h
    ensures !Under(FilePath(root, n, kind), FolderPath(root, h))
  {
    FoldersDisjoint(root, n, h, FilePath(root, n, kind));
  }
}
