/** save and load of lyncs_io/tar.py over an abstract tarball: the mode
    decision, the archive update and the line framing put together. */
module Tar {
  import opened Text
  import opened TarErrors
  import opened PosixPath
  import opened TarModes
  import opened TarOpen
  import opened TarLines

  /** A tarball on disk: the compression suffix it was written with (as in
      ModeKeys) and, for each member name, the content of its latest copy
      (tarfile's getmember returns the last occurrence of a name). */
  datatype Tarball = Tarball(compression: string, members: map<string, string>)

  /** The name tarfile gives the member that add(..., arcname=leaf) stores:
      the leaf without its leading '/'s. */
  function ArcName(leaf: string): (n: string)
    ensures n == [] || n[0] != '/'
  {
    LStrip(leaf, '/')
  }

  /** The name getmember(leaf) looks for: the leaf without its trailing '/'s. */
  function LookupName(leaf: string): (n: string)
    ensures n == [] || n[|n| - 1] != '/'
  {
    RStrip(leaf, '/')
  }

  /** The tarball was written with the compression its name calls for. */
  predicate Consistent(tarballPath: string, store: Option<Tarball>)
  {
    store.Some? ==> GetMode(tarballPath) == Ok(store.value.compression)
  }

  /** save(arr, filename), split_filename having given tarballPath and leaf;
      store is what lies at tarballPath, None when nothing exists there. A new
      tarball holds the one member; an existing one is opened for appending,
      which tarfile refuses with ReadError unless it is uncompressed. The
      member is stored under ArcName(leaf). */
  function Save(arr: seq<string>, tarballPath: string, leaf: string, store: Option<Tarball>): (r: Result<Tarball>)
    ensures GetMode(tarballPath).Err? ==> r == Err(UnsupportedExtension(SplitExt(tarballPath).1))
    ensures GetMode(tarballPath).Ok? && store.None? ==>
      r == Ok(Tarball(GetMode(tarballPath).value, map[ArcName(leaf) := Encode(arr)]))
    ensures GetMode(tarballPath).Ok? && store.Some? ==>
      (r.Ok? <==> store.value.compression == ":") &&
      (r.Err? ==> r.error == ReadError(tarballPath))
    ensures r.Ok? ==> ArcName(leaf) in r.value.members && r.value.members[ArcName(leaf)] == Encode(arr)
    ensures r.Ok? && store.Some? ==>
      r.value.compression == store.value.compression &&
      r.value.members.Keys == store.value.members.Keys + {ArcName(leaf)} &&
      forall n :: n in store.value.members && n != ArcName(leaf) ==> r.value.members[n] == store.value.members[n]
  {
    match SaveMode(tarballPath, store.Some?)
    case Err(e) => Err(e)
    case Ok(mode) =>
      var data := Encode(arr);
      if store.None? then Ok(Tarball(mode[1..], map[ArcName(leaf) := data]))
      else if store.value.compression != ":" then Err(ReadError(tarballPath))
      else Ok(Tarball(":", store.value.members[ArcName(leaf) := data]))
  }

  /** load(filename), split_filename having given tarballPath and leaf: the
      lines of the member, each with its newlines removed. tarfile raises
      ReadError when the tarball is not compressed as the mode says, and
      getmember raises KeyError, naming leaf, when the tarball holds no
      member called LookupName(leaf). */
  function Load(tarballPath: string, leaf: string, store: Option<Tarball>): (r: Result<seq<string>>)
    ensures GetMode(tarballPath).Err? ==> r == Err(UnsupportedExtension(SplitExt(tarballPath).1))
    ensures GetMode(tarballPath).Ok? && store.None? ==> r == Err(FileNotFound(tarballPath))
    ensures r.Ok? <==>
      GetMode(tarballPath).Ok? && store.Some? && store.value.compression == GetMode(tarballPath).value &&
      LookupName(leaf) in store.value.members
    ensures GetMode(tarballPath).Ok? && store.Some? && store.value.compression != GetMode(tarballPath).value ==>
      r == Err(ReadError(tarballPath))
    ensures GetMode(tarballPath).Ok? && store.Some? && store.value.compression == GetMode(tarballPath).value ==>
      LookupName(leaf) !in store.value.members ==> r == Err(MemberNotFound(leaf))
    ensures r.Ok? ==> r.value == Decode(store.value.members[LookupName(leaf)]) && NoNewlines(r.value)
  {
    match LoadMode(tarballPath, store.Some?)
    case Err(e) => Err(e)
    case Ok(mode) =>
      var t := store.value;
      if t.compression != mode[1..] then Err(ReadError(tarballPath))
      else if LookupName(leaf) !in t.members then Err(MemberNotFound(leaf))
      else Ok(Decode(t.members[LookupName(leaf)]))
  }

  /** Saving keeps a tarball compressed as its name calls for. */
  lemma SaveKeepsConsistent(arr: seq<string>, tarballPath: string, leaf: string, store: Option<Tarball>)
    requires Consistent(tarballPath, store)
    requires Save(arr, tarballPath, leaf, store).Ok?
    ensures Consistent(tarballPath, Some(Save(arr, tarballPath, leaf, store).value))
  {
  }

  /** Round trip: for a tarball compressed as its name calls for, loading
      under a name that finds the member just saved gives back the saved
      array, when no element holds '\n'. */
  lemma SaveThenLoad(arr: seq<string>, tarballPath: string, leaf: string, name: string, store: Option<Tarball>)
    requires Consistent(tarballPath, store)
    requires NoNewlines(arr)
    requires Save(arr, tarballPath, leaf, store).Ok?
    requires LookupName(name) == ArcName(leaf)
    ensures Load(tarballPath, name, Some(Save(arr, tarballPath, leaf, store).value)) == Ok(arr)
  {
    RoundTrip(arr);
  }

  /** A leaf with no '/' at either end is loaded back under the same name. */
  lemma SavePlainThenLoad(arr: seq<string>, tarballPath: string, leaf: string, store: Option<Tarball>)
    requires Consistent(tarballPath, store)
    requires NoNewlines(arr)
    requires Save(arr, tarballPath, leaf, store).Ok?
    requires leaf == [] || (leaf[0] != '/' && leaf[|leaf| - 1] != '/')
    ensures Load(tarballPath, leaf, Some(Save(arr, tarballPath, leaf, store).value)) == Ok(arr)
  {
    SaveThenLoad(arr, tarballPath, leaf, leaf, store);
  }

  /** The names tarfile uses for a leaf "/" + x, with x free of '/'. */
  lemma LeadingSlashNames(x: string)
    requires x != [] && '/' !in x
    ensures ArcName("/" + x) == x
    ensures LookupName("/" + x) == "/" + x
    ensures LookupName(x) == x
  {
    assert ArcName("/" + x) == x by {
      assert ("/" + x)[1..] == x;
      assert x[0] in x;
    }
    assert LookupName("/" + x) == "/" + x by {
      assert ("/" + x)[|"/" + x| - 1] == x[|x| - 1];
      assert x[|x| - 1] in x;
    }
    assert LookupName(x) == x by {
      assert x[|x| - 1] in x;
    }
  }

  /** A leaf saved with a leading '/' is stored without it: loading the same
      name raises KeyError, and loading the name without the '/' finds it. */
  lemma LeadingSlashLeaf(arr: seq<string>, tarballPath: string, x: string)
    requires GetMode(tarballPath).Ok?
    requires NoNewlines(arr)
    requires x != [] && '/' !in x
    ensures Save(arr, tarballPath, "/" + x, None).Ok?
    ensures Load(tarballPath, "/" + x, Some(Save(arr, tarballPath, "/" + x, None).value)) ==
      Err(MemberNotFound("/" + x))
    ensures Load(tarballPath, x, Some(Save(arr, tarballPath, "/" + x, None).value)) == Ok(arr)
  {
    LeadingSlashNames(x);
    SaveThenLoad(arr, tarballPath, "/" + x, x, None);
  }

  /** Saving one member leaves what load returns as it was for every name
      that does not find the saved member. */
  lemma SaveKeepsOtherMembers(arr: seq<string>, tarballPath: string, leaf: string, other: string, t: Tarball)
    requires LookupName(other) != ArcName(leaf)
    requires Save(arr, tarballPath, leaf, Some(t)).Ok?
    ensures Load(tarballPath, other, Some(Save(arr, tarballPath, leaf, Some(t)).value)) ==
      Load(tarballPath, other, Some(t))
  {
  }

  /** Appending is refused for compressed tarballs: a second save into a
      tarball that the first save created compressed raises ReadError. */
  lemma SecondSaveIntoCompressedFails(arr1: seq<string>, arr2: seq<string>, tarballPath: string, leaf1: string, leaf2: string)
    requires GetMode(tarballPath).Ok? && GetMode(tarballPath).value != ":"
    ensures Save(arr1, tarballPath, leaf1, None).Ok?
    ensures Save(arr2, tarballPath, leaf2, Some(Save(arr1, tarballPath, leaf1, None).value)) ==
      Err(ReadError(tarballPath))
  {
  }
}
