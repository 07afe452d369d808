/** Choice of the tarfile compression suffix from a tarball name (_get_mode
    and the modes table of lyncs_io/tar.py). */
module TarModes {
  import opened Text
  import opened PosixPath
  import opened TarErrors

  /** A table of (mode suffix, extensions) in dictionary iteration order. */
  type Table = seq<(string, seq<string>)>

  /** The modes dictionary, in its insertion order. */
  const Modes: Table := [
    (":gz", [".gz", ".taz", ".tgz"]),
    (":bz2", [".bz2", ".tb2", ".tbz", ".tbz2", ".tz2"]),
    (":xz", [".xz", ".txz"]),
    (":", [".tar"])
  ]

  const ModeKeys: set<string> := {":gz", ":bz2", ":xz", ":"}

  /** The tarball name endings the module lists as known (all_extensions). */
  const AllExtensions: seq<string> := [
    ".tar",
    ".tar.bz2", ".tb2", ".tbz", ".tbz2", ".tz2",
    ".tar.gz", ".taz", ".tgz",
    ".tar.lz",
    ".tar.lzma", ".tlz",
    ".tar.lzo",
    ".tar.xz", ".txz",
    ".tar.Z", ".tZ", ".taZ",
    ".tar.zst", ".tzst"
  ]

  /** No extension is listed under two different entries. */
  predicate Disjoint(table: Table)
  {
    forall i, j, x :: 0 <= i < j < |table| && x in table[i].1 ==> x !in table[j].1
  }

  /** The search loop of _get_mode: the key of the first entry whose list holds ext. */
  function FindMode(table: Table, ext: string): (r: Option<string>)
    ensures r.None? <==> forall i :: 0 <= i < |table| ==> ext !in table[i].1
    ensures r.Some? ==>
      exists i :: 0 <= i < |table| && table[i].0 == r.value && ext in table[i].1 &&
        forall j :: 0 <= j < i ==> ext !in table[j].1
  {
    if table == [] then None
    else if ext in table[0].1 then Some(table[0].0)
    else
      var r := FindMode(table[1..], ext);
      assert forall i :: 1 <= i < |table| ==> table[i] == table[1..][i - 1];
      r
  }

  /** The search of _get_mode for one extension: the key of the entry that
      lists ext, or the ValueError naming it. */
  function ModeOfExtension(ext: string): (r: Result<string>)
    ensures r.Ok? ==> r.value in ModeKeys
    ensures r.Ok? <==> exists i :: 0 <= i < |Modes| && ext in Modes[i].1
    ensures r.Ok? ==> exists i :: 0 <= i < |Modes| && Modes[i].0 == r.value && ext in Modes[i].1
    ensures r.Err? ==> r.error == UnsupportedExtension(ext)
  {
    match FindMode(Modes, ext)
    case Some(key) => Ok(key)
    case None => Err(UnsupportedExtension(ext))
  }

  /** _get_mode: the mode suffix for the final extension of filename, as splitext yields it. */
  function GetMode(filename: string): (r: Result<string>)
    ensures r.Ok? ==> r.value in ModeKeys
    ensures r.Err? ==> r.error == UnsupportedExtension(SplitExt(filename).1)
  {
    ModeOfExtension(SplitExt(filename).1)
  }

  /** ModeKeys is the set of keys of the modes table. */
  lemma ModeKeysOfModes()
    ensures ModeKeys == set i | 0 <= i < |Modes| :: Modes[i].0
  {
    assert Modes[0].0 == ":gz" && Modes[1].0 == ":bz2" && Modes[2].0 == ":xz" && Modes[3].0 == ":";
  }

  /** The lists of the modes table are pairwise disjoint. */
  lemma ModesDisjoint()
    ensures Disjoint(Modes)
  {
  }

  /** Every extension in the modes table is a single extension as splitext yields them. */
  lemma ModesAreExtensions()
    ensures forall i, x :: 0 <= i < |Modes| && x in Modes[i].1 ==> IsExtension(x)
  {
    forall i, x | 0 <= i < |Modes| && x in Modes[i].1 ensures IsExtension(x) {
      assert x[1..] in {"gz", "taz", "tgz", "bz2", "tb2", "tbz", "tbz2", "tz2", "xz", "txz", "tar"};
    }
  }

  /** In a disjoint table the entry holding ext is the one found: the first match is the only match. */
  lemma {:induction false} FindModeUnique(table: Table, i: int, ext: string)
    requires Disjoint(table)
    requires 0 <= i < |table| && ext in table[i].1
    ensures FindMode(table, ext) == Some(table[i].0)
  {
    if i > 0 {
      assert ext !in table[0].1;
      assert table[1..][i - 1] == table[i];
      FindModeUnique(table[1..], i - 1, ext);
    }
  }

  /** When a table is disjoint, the search result does not depend on the
      order of its entries: any reordering finds the same key. */
  lemma FindModeOrderIndependent(t1: Table, t2: Table, ext: string)
    requires multiset(t1) == multiset(t2)
    requires Disjoint(t1)
    ensures FindMode(t1, ext) == FindMode(t2, ext)
  {
    if i :| 0 <= i < |t1| && ext in t1[i].1 {
      FindModeUnique(t1, i, ext);
      assert t1[i] in multiset(t2);
      var j :| 0 <= j < |t2| && t2[j] == t1[i];
      assert ext in t2[j].1;
      var k :| 0 <= k < |t2| && t2[k].0 == FindMode(t2, ext).value && ext in t2[k].1;
      assert t2[k] in multiset(t1);
      var m :| 0 <= m < |t1| && t1[m] == t2[k];
      assert m == i;
    } else {
      forall j | 0 <= j < |t2| ensures ext !in t2[j].1 {
        assert t2[j] in multiset(t1);
      }
    }
  }

  /** The mode depends only on the final extension: any name whose final
      component is not all dots, followed by an extension listed under a key,
      gets that key ("a.tar.gz", "a.gz" and "a.tgz" all give ":gz"). */
  lemma GetModeFinalExtension(stem: string, i: int, e: string)
    requires LastComponentHasNonDot(stem)
    requires 0 <= i < |Modes| && e in Modes[i].1
    ensures GetMode(stem + e) == Ok(Modes[i].0)
  {
    ModesAreExtensions();
    ModesDisjoint();
    SplitExtAppend(stem, e);
    FindModeUnique(Modes, i, e);
  }

  /** A final extension listed under no key raises ValueError naming it. */
  lemma GetModeUnsupported(stem: string, e: string)
    requires LastComponentHasNonDot(stem)
    requires IsExtension(e)
    requires forall i :: 0 <= i < |Modes| ==> e !in Modes[i].1
    ensures GetMode(stem + e) == Err(UnsupportedExtension(e))
  {
    SplitExtAppend(stem, e);
  }

  /** Two names that share their final extension get the same outcome. */
  lemma GetModeSameExtension(stem1: string, stem2: string, e: string)
    requires LastComponentHasNonDot(stem1) && LastComponentHasNonDot(stem2)
    requires IsExtension(e)
    ensures GetMode(stem1 + e) == GetMode(stem2 + e)
  {
    SplitExtAppend(stem1, e);
    SplitExtAppend(stem2, e);
  }

  /** The final extension of stem + e is e. */
  lemma ExtensionOfName(stem: string, e: string)
    requires LastComponentHasNonDot(stem)
    requires IsExtension(e)
    ensures SplitExt(stem + e).1 == e
  {
    SplitExtAppend(stem, e);
  }

  /** Appending ".tar" keeps the final component from being all dots. */
  lemma TarStem(stem: string)
    requires LastComponentHasNonDot(stem)
    ensures LastComponentHasNonDot(stem + ".tar")
  {
    var st := stem + ".tar";
    RFindAppend(stem, ".tar", '/');
    assert '/' !in ".tar";
    assert st[|stem| + 1] == 't';
  }

  /** A listed extension gives its key whether or not ".tar" precedes it:
      "a.tar.gz", "a.gz" and "a.tgz" all give ":gz", and "a.tar" gives ":". */
  lemma GetModeCompound(stem: string, i: int, e: string)
    requires LastComponentHasNonDot(stem)
    requires 0 <= i < |Modes| && e in Modes[i].1
    ensures GetMode(stem + e) == Ok(Modes[i].0)
    ensures GetMode(stem + ".tar" + e) == Ok(Modes[i].0)
  {
    GetModeFinalExtension(stem, i, e);
    TarStem(stem);
    GetModeFinalExtension(stem + ".tar", i, e);
  }

  /** A name whose final component is one dot followed by text without dots
      (".tar", ".gz" in any directory) has no extension, so it is rejected. */
  lemma GetModeHidden(dir: string, rest: string)
    requires dir == [] || dir[|dir| - 1] == '/'
    requires '.' !in rest && '/' !in rest
    ensures GetMode(dir + "." + rest) == Err(UnsupportedExtension(""))
  {
    assert SplitExt(dir + "." + rest).1 == [] by {
      SplitExtHidden(dir, rest);
    }
    assert forall i :: 0 <= i < |Modes| ==> [] !in Modes[i].1;
  }

  /** The final extensions of the all_extensions entries .tar.lz, .tar.lzma, .tlz,
      .tar.lzo, .tar.Z, .tZ, .taZ, .tar.zst and .tzst. */
  const UnlistedExtensions: seq<string> := [".lz", ".lzma", ".tlz", ".lzo", ".Z", ".tZ", ".taZ", ".zst", ".tzst"]

  /** No mode lists any of those final extensions. */
  lemma UnlistedExtensionsUnlisted()
    ensures forall x, i :: x in UnlistedExtensions && 0 <= i < |Modes| ==> x !in Modes[i].1
    ensures forall x :: x in UnlistedExtensions ==> IsExtension(x)
  {
  }

  /** Names ending in those entries of all_extensions raise ValueError, with
      or without a ".tar" before the final extension. */
  lemma GetModeUnlisted(stem: string, x: string)
    requires LastComponentHasNonDot(stem)
    requires x in UnlistedExtensions
    ensures GetMode(stem + x) == Err(UnsupportedExtension(x))
    ensures GetMode(stem + ".tar" + x) == Err(UnsupportedExtension(x))
  {
    UnlistedExtensionsUnlisted();
    GetModeUnsupported(stem, x);
    TarStem(stem);
    GetModeUnsupported(stem + ".tar", x);
  }

  /** Each unlisted final extension comes from an entry of all_extensions,
      alone or after ".tar". */
  lemma UnlistedFromAllExtensions()
    ensures forall x :: x in UnlistedExtensions ==> x in AllExtensions || ".tar" + x in AllExtensions
  {
    assert ".tar" + ".lz" == AllExtensions[9];
    assert ".tar" + ".lzma" == AllExtensions[10];
    assert ".tar" + ".lzo" == AllExtensions[12];
    assert ".tar" + ".Z" == AllExtensions[15];
    assert ".tar" + ".zst" == AllExtensions[18];
  }
}
