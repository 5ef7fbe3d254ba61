/** The path helpers the hook calls: Blender's `bpy.path.basename` and
    POSIX `os.path.dirname` and `os.path.join`, on `/`-separated strings. */
module PyPath {
  import opened PyStr

  /** `os.path.basename`: the text after the last `/`. */
  function Basename(p: string): (r: string)
    ensures '/' !in r && |r| <= |p| && r == p[|p| - |r|..]
  {
    RPartitionTail(p, '/')
  }

  /** `bpy.path.basename`: drops a leading `//` (Blender's marker for a
      path relative to the document) before taking the base name. */
  function BlenderBasename(p: string): (r: string)
    ensures r == Basename(p)
  {
    if StartsWith(p, "//") then BasenameOfSuffix(p, 2); Basename(p[2..]) else Basename(p)
  }

  /** The base name is the only suffix without `/` that is all of the path
      or follows a `/`. */
  lemma BasenameUnique(p: string, r: string)
    requires '/' !in r && |r| <= |p| && r == p[|p| - |r|..]
    requires r == p || p[|p| - |r| - 1] == '/'
    ensures Basename(p) == r
  {
    var b := Basename(p);
    SuffixMembers(p, b);
    SuffixMembers(p, r);
  }

  lemma SuffixMembers(p: string, s: string)
    requires |s| <= |p| && s == p[|p| - |s|..]
    ensures forall i :: |p| - |s| <= i < |p| ==> p[i] in s
  {
    forall i | |p| - |s| <= i < |p| ensures p[i] in s {
      assert s[i - (|p| - |s|)] == p[i];
    }
  }

  /** Dropping a prefix that ends in `/` keeps the base name. */
  lemma BasenameOfSuffix(p: string, k: nat)
    requires 0 < k <= |p| && p[k - 1] == '/'
    ensures Basename(p[k..]) == Basename(p)
  {
    var b, q := Basename(p), p[k..];
    assert |b| <= |q| by {
      if |b| > |q| {
        SuffixMembers(p, b);
      }
    }
    assert q[|q| - |b|..] == b by {
      assert q[|q| - |b|..] == p[|p| - |b|..];
    }
    assert b == q || q[|q| - |b| - 1] == '/' by {
      if b != q {
        assert b != p;
        assert p[|p| - |b| - 1] == '/';
        assert q[|q| - |b| - 1] == p[|p| - |b| - 1];
      }
    }
    BasenameUnique(q, b);
  }

  /** `os.path.dirname`: everything up to the last `/`, with trailing
      slashes removed unless it consists of slashes only. */
  function Dirname(p: string): string
  {
    var head := p[..|p| - |Basename(p)|];
    if head != [] && !AllChar(head, '/') then RStrip(head, '/') else head
  }

  /** `os.path.join(a, b)`: an absolute `b` replaces `a`; otherwise a `/`
      is put between them unless `a` is empty or already ends in one. */
  function Join(a: string, b: string): string
  {
    if StartsWith(b, "/") then b
    else if a == [] || EndsWith(a, "/") then a + b
    else a + "/" + b
  }

  /** Joining a relative name onto a directory without a trailing `/`
      puts one `/` between them. */
  lemma JoinRelative(a: string, b: string)
    requires a != [] && a[|a| - 1] != '/' && '/' !in b
    ensures Join(a, b) == a + "/" + b
  {
    assert !StartsWith(b, "/") by { if b != [] { assert b[0] in b; } }
    assert !EndsWith(a, "/") by { assert a[|a| - 1..] == [a[|a| - 1]]; }
  }

  /** Joining onto a relative name and appending text that does not start
      with `/` is joining onto the longer name. */
  lemma JoinThenAppend(dir: string, name: string, rest: string)
    requires '/' !in name
    requires rest != [] && rest[0] != '/'
    ensures Join(dir, name) + rest == Join(dir, name + rest)
  {
    if name != [] {
      assert (name + rest)[..1] == name[..1];
      assert name[0] != '/';
    } else {
      assert name + rest == rest && rest[..1] == [rest[0]];
    }
  }

  /** `dirname` and `basename` take apart what `join` puts together. */
  lemma {:induction false} JoinSplits(d: string, n: string)
    requires d != [] && d[|d| - 1] != '/'
    requires '/' !in n
    ensures Join(d, n) == d + "/" + n
    ensures Basename(Join(d, n)) == n
    ensures Dirname(Join(d, n)) == d
  {
    var p := d + "/" + n;
    assert !StartsWith(n, "/") by { if |n| > 0 { assert n[0] != '/'; } }
    assert !EndsWith(d, "/") by { assert d[|d| - 1..] == [d[|d| - 1]]; }
    var b := Basename(p);
    assert p[|p| - |n|..] == n;
    BasenameUnique(p, n);
    assert p[..|p| - |b|] == d + "/";
    var head := d + "/";
    assert !AllChar(head, '/') by { assert head[|d| - 1] != '/'; }
    var r := RStrip(head, '/');
    assert forall i :: |r| <= i < |head| ==> head[i] == head[|r|..][i - |r|];
    assert head[|d| - 1] != '/';
    assert |r| == |d| && r == head[..|d|];
  }
}
