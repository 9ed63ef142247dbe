/** POSIX path helpers the script uses: `os.path.join` with two arguments and
    `os.path.basename`. */
module Paths {

  /** `os.path.join(a, b)` on POSIX: an absolute `b` replaces `a`; otherwise a
      `/` is inserted unless `a` is empty or already ends with one. */
  function Join(a: string, b: string): string
  {
    if |b| > 0 && b[0] == '/' then b
    else if a == [] || a[|a| - 1] == '/' then a + b
    else a + "/" + b
  }

  /** `os.path.basename(p)`: everything after the last `/`. */
  function Basename(p: string): string
  {
    if p == [] || p[|p| - 1] == '/' then []
    else Basename(p[..|p| - 1]) + [p[|p| - 1]]
  }

  /** The basename is the suffix of `p` that holds no `/` and is either all of
      `p` or preceded by a `/`. */
  lemma {:induction false} BasenameShape(p: string)
    ensures '/' !in Basename(p)
    ensures |Basename(p)| <= |p| && Basename(p) == p[|p| - |Basename(p)|..]
    ensures |Basename(p)| < |p| ==> p[|p| - |Basename(p)| - 1] == '/'
  {
    if p != [] && p[|p| - 1] != '/' {
      var q := p[..|p| - 1];
      BasenameShape(q);
      assert p[|p| - |Basename(p)|..] == q[|q| - |Basename(q)|..] + [p[|p| - 1]];
    }
  }

  /** A name without `/` is its own basename. */
  lemma BasenameOfName(name: string)
    requires '/' !in name
    ensures Basename(name) == name
  {
    BasenameIsLastComponent(name, 0);
  }

  /** Joining a directory and a plain file name, then taking the basename,
      gives the file name back: directory components are discarded. */
  lemma BasenameOfJoin(dir: string, name: string)
    requires '/' !in name
    ensures Basename(Join(dir, name)) == name
  {
    var p := Join(dir, name);
    assert p[|p| - |name|..] == name;
    BasenameIsLastComponent(p, |p| - |name|);
  }

  /** The basename is the part after position `k` whenever that part has no
      `/` and is preceded by one (or by nothing). */
  lemma BasenameIsLastComponent(p: string, k: nat)
    requires k <= |p| && '/' !in p[k..]
    requires k == 0 || p[k - 1] == '/'
    ensures Basename(p) == p[k..]
  {
    var r := Basename(p);
    BasenameShape(p);
    if |r| < |p| - k {
      assert false;
    } else if |r| > |p| - k {
      assert false;
    }
  }
}
