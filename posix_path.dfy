/** The extension split of POSIX os.path.splitext, on which the tar backend
    chooses its compression. */
module PosixPath {
  import opened Text

  /** p[lo..hi] holds a character other than '.'. */
  predicate HasNonDot(p: string, lo: int, hi: int)
    requires 0 <= lo <= hi <= |p|
  {
    exists k :: lo <= k < hi && p[k] != '.'
  }

  /** The final path component of p (what follows its last '/') is not made of dots only. */
  predicate LastComponentHasNonDot(p: string)
  {
    HasNonDot(p, RFind(p, '/') + 1, |p|)
  }

  /** e is a single extension: a '.' followed by neither '.' nor '/'. */
  predicate IsExtension(e: string)
  {
    |e| >= 1 && e[0] == '.' && '.' !in e[1..] && '/' !in e[1..]
  }

  /** os.path.splitext on POSIX: (root, ext). The extension starts at the last
      '.' of the final component, provided something other than dots precedes
      that '.' within the component; otherwise it is empty. */
  function SplitExt(p: string): (r: (string, string))
    ensures r.0 + r.1 == p
    ensures r.1 == [] || IsExtension(r.1)
  {
    var sep := RFind(p, '/');
    var dot := RFind(p, '.');
    if sep < dot && HasNonDot(p, sep + 1, dot) then
      ExtensionAfterLastDot(p, sep, dot);
      (p[..dot], p[dot..])
    else
      (p, [])
  }

  /** The suffix from the last '.' after the last '/' is a single extension. */
  lemma ExtensionAfterLastDot(p: string, sep: int, dot: int)
    requires sep == RFind(p, '/') && dot == RFind(p, '.') && sep < dot
    ensures IsExtension(p[dot..])
  {
    var e := p[dot..];
    assert e[1..] == p[dot + 1..];
    forall k | dot + 1 <= k < |p| ensures p[k] != '/' {
      assert p[k] == p[sep + 1..][k - sep - 1];
    }
  }

  /** Appending a single extension to a name whose final component is not all
      dots makes splitext return exactly that name and that extension. */
  lemma SplitExtAppend(stem: string, e: string)
    requires IsExtension(e)
    requires LastComponentHasNonDot(stem)
    ensures SplitExt(stem + e) == (stem, e)
  {
    var p := stem + e;
    var sep := RFind(stem, '/');
    assert RFind(p, '/') == sep by {
      assert '/' !in e by {
        assert e == [e[0]] + e[1..];
      }
      RFindAppend(stem, e, '/');
    }
    assert RFind(p, '.') == |stem| by {
      RFindAppend(stem, e, '.');
      assert RFind(e, '.') == 0;
    }
    assert HasNonDot(p, sep + 1, |stem|) by {
      var k :| sep + 1 <= k < |stem| && stem[k] != '.';
      assert p[k] == stem[k];
    }
    assert p[..|stem|] == stem;
    assert p[|stem|..] == e;
  }

  /** A name without a '.' in its final component has no extension. */
  lemma SplitExtNoDot(p: string)
    requires '.' !in p[RFind(p, '/') + 1..]
    ensures SplitExt(p) == (p, [])
  {
    var sep := RFind(p, '/');
    var dot := RFind(p, '.');
    if sep < dot {
      assert p[dot] in p[sep + 1..] by { assert p[sep + 1..][dot - sep - 1] == p[dot]; }
    }
  }

  /** A final component made of one leading dot and a dot-free rest (".tar")
      has no extension: splitext skips leading dots. */
  lemma SplitExtHidden(dir: string, rest: string)
    requires dir == [] || dir[|dir| - 1] == '/'
    requires '.' !in rest && '/' !in rest
    ensures SplitExt(dir + "." + rest) == (dir + "." + rest, [])
  {
    var p := dir + "." + rest;
    assert RFind(p, '/') == |dir| - 1 by {
      assert p == dir + ("." + rest);
      assert '/' !in "." + rest;
      RFindAppend(dir, "." + rest, '/');
      if dir != [] {
        assert RFind(dir, '/') == |dir| - 1;
      }
    }
    assert RFind(p, '.') == |dir| by {
      RFindAppend(dir + ".", rest, '.');
      RFindAppend(dir, ".", '.');
    }
  }

  /** The converse of SplitExtAppend: a non-empty extension leaves a root
      whose final component is not all dots, so leading dots never start one
      ("..gz" and "a/..tar" have none). */
  lemma SplitExtRootHasNonDot(p: string)
    requires SplitExt(p).1 != []
    ensures LastComponentHasNonDot(SplitExt(p).0)
  {
    var (root, e) := SplitExt(p);
    var sep := RFind(p, '/');
    var dot := RFind(p, '.');
    assert sep < dot && HasNonDot(p, sep + 1, dot);
    assert root == p[..dot] && e == p[dot..];
    assert RFind(root, '/') == sep by {
      assert '/' !in e by {
        assert e == [e[0]] + e[1..];
      }
      RFindAppend(root, e, '/');
    }
    var k :| sep + 1 <= k < dot && p[k] != '.';
    assert root[k] == p[k];
  }
}
