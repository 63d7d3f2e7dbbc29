/** The extension of a file name as Node's POSIX `path.extname` computes it:
    the part of the last path component from its last `.` to its end, empty
    when that component has no `.`, when its only `.` is its first character
    (a hidden file such as `.bashrc`), or when the component is `..`. Trailing
    `/` characters are ignored. */
module PathExt {

  /** No character of `s` from index `from` on is `c`. */
  predicate NoneFrom(s: string, from: int, c: char) {
    forall k :: from <= k < |s| && 0 <= k ==> s[k] != c
  }

  /** `p` without the `/` characters at its end. */
  function TrimTrailingSlashes(p: string): (q: string)
    ensures |q| <= |p| && q == p[..|q|]
    ensures q == [] || q[|q| - 1] != '/'
    ensures p != [] && p[|p| - 1] != '/' ==> q == p
  {
    if p != [] && p[|p| - 1] == '/' then TrimTrailingSlashes(p[..|p| - 1]) else p
  }

  /** The characters of `q` after its last `/` (all of `q` when it has none). */
  function AfterLastSlash(q: string): (b: string)
    ensures |b| <= |q| && b == q[|q| - |b|..]
    ensures NoneFrom(b, 0, '/')
    ensures NoneFrom(q, 0, '/') ==> b == q
  {
    if q == [] || q[|q| - 1] == '/' then []
    else
      var b' := AfterLastSlash(q[..|q| - 1]);
      assert q == q[..|q| - 1] + [q[|q| - 1]];
      b' + [q[|q| - 1]]
  }

  /** The last component of the path `p`. */
  function LastPart(p: string): string {
    AfterLastSlash(TrimTrailingSlashes(p))
  }

  /** Index of the last `.` in `s`, or -1 when there is none. */
  function LastDot(s: string): (i: int)
    ensures -1 <= i < |s|
    ensures i >= 0 ==> s[i] == '.'
    ensures NoneFrom(s, i + 1, '.')
  {
    if s == [] then -1
    else if s[|s| - 1] == '.' then |s| - 1
    else LastDot(s[..|s| - 1])
  }

  function ExtName(p: string): (ext: string)
    ensures ext == [] || (ext[0] == '.' && NoneFrom(ext, 1, '.'))
    ensures NoneFrom(ext, 0, '/')
  {
    var b := LastPart(p);
    var d := LastDot(b);
    if d <= 0 || b == ".." then "" else b[d..]
  }

  /** For a plain file name (no `/`), the extension is a suffix of the name. */
  lemma ExtIsSuffix(p: string)
    requires NoneFrom(p, 0, '/')
    ensures |ExtName(p)| <= |p| && ExtName(p) == p[|p| - |ExtName(p)|..]
  {
    assert LastPart(p) == p by {
      if p != [] { assert p[|p| - 1] != '/'; }
    }
  }

  /** A name without any `.` has no extension. */
  lemma NoDotNoExt(p: string)
    requires NoneFrom(p, 0, '.')
    ensures ExtName(p) == []
  {
  }

  /** `AfterLastSlash` of a string that ends with a slash-free suffix `t`. */
  lemma {:induction false} AfterLastSlashAppend(s: string, t: string)
    requires NoneFrom(t, 0, '/')
    ensures AfterLastSlash(s + t) == AfterLastSlash(s) + t
  {
    if t != [] {
      var u := t[..|t| - 1];
      var c := t[|t| - 1];
      assert c != '/';
      assert t == u + [c];
      assert s + t == (s + u) + [c];
      assert NoneFrom(u, 0, '/');
      AfterLastSlashAppend(s, u);
      AfterLastSlashSnoc(s + u, c);
      assert AfterLastSlash(s) + u + [c] == AfterLastSlash(s) + t;
    } else {
      assert s + t == s;
    }
  }

  lemma AfterLastSlashSnoc(q: string, c: char)
    requires c != '/'
    ensures AfterLastSlash(q + [c]) == AfterLastSlash(q) + [c]
  {
    assert (q + [c])[..|q|] == q;
  }

  /** The extension of `stem.e`, where `e` holds no `.` and no `/` and the
      stem ends in an ordinary character of the last path component: `.e`,
      with its leading dot (`photo.png` gives `.png`, `archive.tar.gz` gives
      `.gz`, `draft.` gives `.`). */
  lemma ExtOfDotted(stem: string, e: string)
    requires stem != [] && stem[|stem| - 1] != '/'
    requires NoneFrom(e, 0, '.') && NoneFrom(e, 0, '/')
    requires e != [] || stem[|stem| - 1] != '.'
    ensures ExtName(stem + ("." + e)) == "." + e
  {
    var p := stem + ("." + e);
    assert p[|p| - 1] != '/' by {
      if e != [] { assert p[|p| - 1] == e[|e| - 1]; }
    }
    assert TrimTrailingSlashes(p) == p;
    AfterLastSlashAppend(stem, "." + e);
    var a := AfterLastSlash(stem);
    assert a != [] by {
      assert stem == stem[..|stem| - 1] + [stem[|stem| - 1]];
    }
    var b := a + "." + e;
    assert LastPart(p) == b;
    LastDotAfter(a, e);
    assert b != ".." by {
      if e == [] {
        assert b[|b| - 2] == a[|a| - 1] == stem[|stem| - 1];
      }
    }
  }

  lemma LastDotAfter(a: string, e: string)
    requires NoneFrom(e, 0, '.')
    ensures LastDot(a + "." + e) == |a|
  {
    var b := a + "." + e;
    var i := LastDot(b);
    assert b[|a|] == '.';
  }

  /** A hidden file (a component whose only `.` is its first character) has
      no extension. */
  lemma HiddenFileHasNoExt(e: string)
    requires NoneFrom(e, 0, '.') && NoneFrom(e, 0, '/')
    ensures ExtName("." + e) == []
  {
    var p := "." + e;
    assert p[|p| - 1] != '/' by {
      if e != [] { assert p[|p| - 1] == e[|e| - 1]; }
    }
    assert LastPart(p) == p;
    LastDotAfter([], e);
  }

  /** Appending an extension (empty, or `.` followed by characters other than
      `.` and `/`) to a non-empty stem without `.` and `/` gives a name whose
      extension is exactly the appended one. */
  lemma ExtAfterPlainStem(stem: string, ext: string)
    requires stem != [] && NoneFrom(stem, 0, '.') && NoneFrom(stem, 0, '/')
    requires ext == [] || (ext[0] == '.' && NoneFrom(ext, 1, '.'))
    requires NoneFrom(ext, 0, '/')
    ensures ExtName(stem + ext) == ext
  {
    if ext == [] {
      assert stem + ext == stem;
      NoDotNoExt(stem);
    } else {
      var e := ext[1..];
      assert ext == "." + e;
      assert NoneFrom(e, 0, '/') by {
        forall k | 0 <= k < |e| ensures e[k] != '/' { assert e[k] == ext[k + 1]; }
      }
      assert NoneFrom(e, 0, '.') by {
        forall k | 0 <= k < |e| ensures e[k] != '.' { assert e[k] == ext[k + 1]; }
      }
      ExtOfDotted(stem, e);
    }
  }

  lemma PhotoExtension()
    ensures ExtName("photo.png") == ".png"
  {
    var stem, e := "photo", "png";
    assert NoneFrom(e, 0, '.') && NoneFrom(e, 0, '/');
    ExtOfDotted(stem, e);
    assert stem + ("." + e) == "photo.png";
  }
}
