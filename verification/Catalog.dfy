/** What a publisher reads of a package: the member loop that finds the manifest. */
module Catalog {
  import opened ByteStrings
  import opened PackageTar
  import opened PackageTree
  import opened Paths
  import opened Wrappers

  const MAX_MANIFEST_BYTES: nat := 0x10_0000
  const MANIFEST: Bytes := Ascii("manifest.json")

  function ManifestPath(root: Bytes): Bytes {
    root + [SLASH] + MANIFEST
  }

  predicate PartOK(part: Bytes) {
    part != [] && part != [DOT] && part != [DOT, DOT] && BACKSLASH !in part
  }

  predicate PartsOK(name: Bytes) {
    forall i :: 0 <= i < |Components(name)| ==> PartOK(Components(name)[i])
  }

  predicate MemberOK(root: Bytes, m: TarMember) {
    && Under(root, m.path)
    && PartsOK(m.path)
    && (m.path == ManifestPath(root) ==> !m.isDir && 1 <= |m.content| <= MAX_MANIFEST_BYTES)
  }

  predicate AllDistinct(ms: seq<TarMember>) {
    forall i, j :: 0 <= i < j < |ms| ==> ms[i].path != ms[j].path
  }

  predicate BeginsWithRoot(ms: seq<TarMember>) {
    ms != [] && ms[0].isDir && ms[0].path != [] && NoSlash(ms[0].path)
  }

  /** The lists whose manifest a publisher accepts to read. */
  predicate Readable(ms: seq<TarMember>) {
    && BeginsWithRoot(ms) && |ms| <= MAX_MEMBERS && AllDistinct(ms)
    && (forall i :: 0 <= i < |ms| ==> MemberOK(ms[0].path, ms[i]))
    && (exists i :: 0 <= i < |ms| && ms[i].path == ManifestPath(ms[0].path))
  }

  /**
   Such a list, written out: a directory without a slash in its name first, at most 1024 members, all of
   other paths, each the root or under it and none with an empty, a dot, a dot-dot or a backslashed component;
   and among them the file manifest.json right under the root, of 1 to 2^20 bytes.
   */
  lemma ReadableExactly(ms: seq<TarMember>)
    ensures Readable(ms) <==>
              && 1 <= |ms| <= 1024 && ms[0].isDir && ms[0].path != [] && 0x2F !in ms[0].path
              && (forall i, j :: 0 <= i < j < |ms| ==> ms[i].path != ms[j].path)
              && (forall i :: 0 <= i < |ms| ==> Under(ms[0].path, ms[i].path) && PartsWritten(ms[i].path))
              && (exists i :: 0 <= i < |ms| && ms[i].path == ms[0].path + [0x2F] + Ascii("manifest.json"))
              && (forall i :: 0 <= i < |ms| && ms[i].path == ms[0].path + [0x2F] + Ascii("manifest.json") ==>
                    !ms[i].isDir && 1 <= |ms[i].content| <= 1048576)
  {
    hide Under, Components, Ascii;
    if ms != [] {
      assert NoSlash(ms[0].path) <==> 0x2F !in ms[0].path;
      assert ManifestPath(ms[0].path) == ms[0].path + [0x2F] + Ascii("manifest.json");
    }
  }

  predicate PartsWritten(name: Bytes) {
    forall i :: 0 <= i < |Components(name)| ==>
      var c := Components(name)[i]; c != [] && c != [0x2E] && c != [0x2E, 0x2E] && 0x5C !in c
  }

  ghost function PathsOf(ms: seq<TarMember>): set<Bytes> {
    set k | 0 <= k < |ms| :: ms[k].path
  }

  /** The members read so far are in order, and found is the manifest among them. */
  ghost predicate ReadSoFar(ms: seq<TarMember>, root: Bytes, found: Option<Bytes>) {
    && AllDistinct(ms)
    && (forall i :: 0 <= i < |ms| ==> MemberOK(root, ms[i]))
    && (found.None? ==> forall i :: 0 <= i < |ms| ==> ms[i].path != ManifestPath(root))
    && (found.Some? ==> exists i :: 0 <= i < |ms| && ms[i].path == ManifestPath(root) && found.value == ms[i].content)
  }

  lemma NothingRead(root: Bytes)
    ensures ReadSoFar([], root, None) && PathsOf([]) == {}
  {}

  lemma OneMore(ms: seq<TarMember>, m: TarMember, root: Bytes, found: Option<Bytes>)
    requires ReadSoFar(ms, root, found) && m.path !in PathsOf(ms) && MemberOK(root, m)
    ensures PathsOf(ms + [m]) == PathsOf(ms) + {m.path}
    ensures ReadSoFar(ms + [m], root, if m.path == ManifestPath(root) then Some(m.content) else found)
  {
    hide MemberOK, ManifestPath;
    var all := ms + [m];
    assert forall k :: 0 <= k < |ms| ==> ms[k].path in PathsOf(ms);
    assert all[|ms|] == m;
    forall p | p in PathsOf(all) ensures p in PathsOf(ms) + {m.path} {
      var k :| 0 <= k < |all| && all[k].path == p;
      if k < |ms| { assert ms[k].path == p; }
    }
    forall p | p in PathsOf(ms) + {m.path} ensures p in PathsOf(all) {
      if p == m.path { assert all[|ms|].path == p; } else {
        var k :| 0 <= k < |ms| && ms[k].path == p;
        assert all[k].path == p;
      }
    }
    if m.path != ManifestPath(root) && found.Some? {
      var k :| 0 <= k < |ms| && ms[k].path == ManifestPath(root) && found.value == ms[k].content;
      assert all[k] == ms[k];
    }
  }

  /** A repeated, excessive, foreign or malformed member spoils the list. */
  lemma Spoiled(ms: seq<TarMember>, i: nat)
    requires i < |ms|
    requires i >= MAX_MEMBERS || ms[i].path in PathsOf(ms[..i]) || !MemberOK(ms[0].path, ms[i])
    ensures !Readable(ms)
  {
    hide MemberOK, BeginsWithRoot;
    if ms[i].path in PathsOf(ms[..i]) {
      var k :| 0 <= k < |ms[..i]| && ms[..i][k].path == ms[i].path;
      assert ms[k].path == ms[i].path;
    }
  }

  lemma AllRead(ms: seq<TarMember>, found: Option<Bytes>)
    requires BeginsWithRoot(ms) && |ms| <= MAX_MEMBERS && ReadSoFar(ms, ms[0].path, found)
    ensures Readable(ms) <==> found.Some?
    ensures found.Some? ==> exists i :: 0 <= i < |ms| && ms[i].path == ManifestPath(ms[0].path) && found.value == ms[i].content
  {
    hide MemberOK, AllDistinct, BeginsWithRoot, ManifestPath;
  }

  method CheckMember(root: Bytes, m: TarMember) returns (isManifest: bool, ok: bool)
    ensures isManifest <==> m.path == ManifestPath(root)
    ensures ok <==> MemberOK(root, m)
  {
    hide Under, PartsOK, ManifestPath;
    isManifest := m.path == ManifestPath(root);
    if !Under(root, m.path) || !PartsOK(m.path) {
      return isManifest, false;
    }
    ok := !isManifest || (!m.isDir && 0 < |m.content| <= MAX_MANIFEST_BYTES);
  }

  /** The member loop of readCatalogManifest. */
  method ReadMembers(ms: seq<TarMember>) returns (manifest: Bytes, ok: bool)
    ensures ok <==> Readable(ms)
    ensures ok ==> exists i :: 0 <= i < |ms| && ms[i].path == ManifestPath(ms[0].path) && manifest == ms[i].content
  {
    hide PathsOf, ReadSoFar, MemberOK, ManifestPath, NoSlash, AllDistinct;
    if !BeginsWithRoot(ms) {
      return [], false;
    }
    hide Readable, BeginsWithRoot;
    var root, i := ms[0].path, 0;
    var seen: set<Bytes>, found: Option<Bytes> := {}, None;
    NothingRead(root);
    assert ms[..0] == [];
    while i < |ms|
      invariant 0 <= i <= |ms| && i <= MAX_MEMBERS && |seen| == i
      invariant seen == PathsOf(ms[..i]) && ReadSoFar(ms[..i], root, found)
    {
      var isManifest, fits := CheckMember(root, ms[i]);
      if ms[i].path in seen || |seen| >= 1024 || !fits {
        Spoiled(ms, i);
        return [], false;
      }
      OneMore(ms[..i], ms[i], root, found);
      assert ms[..i + 1] == ms[..i] + [ms[i]];
      seen := seen + {ms[i].path};
      if isManifest {
        found := Some(ms[i].content);
      }
      i := i + 1;
    }
    assert ms[..i] == ms;
    AllRead(ms, found);
    if found.None? {
      return [], false;
    }
    return found.value, true;
  }

  // ---------------------------------------------------- packing and then reading

  lemma ValidParts(p: Bytes)
    requires ValidPath(p)
    ensures PartsOK(p)
  {
    hide DeviceStem, Components;
    forall i | 0 <= i < |Components(p)| ensures PartOK(Components(p)[i]) {
      assert ValidComponent(Components(p)[i]);
    }
  }

  lemma ManifestIsAFile(t: Tree, ms: seq<TarMember>, i: nat)
    requires Lists(t, ms) && i < |ms| && ms[i].path == ManifestPath(t.root) && !ms[i].isDir
    ensures MANIFEST in t.files && ms[i].content == t.files[MANIFEST]
  {
    hide IsDir;
    assert ms[i] in ms && IsMember(t, ms[i]);
    var rel :| rel in t.files && ms[i] == FileMember(t, rel);
    var n := |t.root| + 1;
    assert Full(t, rel)[n..] == rel && ManifestPath(t.root)[n..] == MANIFEST;
  }

  lemma ManifestListed(t: Tree, ms: seq<TarMember>) returns (i: nat)
    requires Lists(t, ms) && MANIFEST in t.files
    ensures i < |ms| && ms[i] == FileMember(t, MANIFEST) && ms[i].path == ManifestPath(t.root)
  {
    hide IsDir;
    var m := FileMember(t, MANIFEST);
    assert IsMember(t, m);
    i :| 0 <= i < |ms| && ms[i] == m;
  }

  lemma AcceptedShape(t: Tree, ms: seq<TarMember>)
    requires Lists(t, ms) && PackageTree.Sorted(ms) && AcceptedMembers(t.root, ms)
    ensures BeginsWithRoot(ms) && ms[0].path == t.root && AllDistinct(ms)
    ensures forall i :: 0 <= i < |ms| ==> Under(t.root, ms[i].path) && PartsOK(ms[i].path)
  {
    hide Lists, PackageTree.Sorted, Under, PartsOK, Collides, ValidComponent, Components;
    RootComesFirst(t, ms);
    forall i, j | 0 <= i < j < |ms| ensures ms[i].path != ms[j].path { assert Apart(ms[i].path, ms[j].path); }
    forall i | 0 <= i < |ms| ensures PartsOK(ms[i].path) { ValidParts(ms[i].path); }
  }

  /**
   A package that Tree.Members accepts is read by a publisher exactly when it holds a manifest.json of
   1 to 2^20 bytes: what the stream reads back to passes every check of the member loop.
   */
  lemma PublishReadsThePackage(t: Tree, ms: seq<TarMember>)
    requires Lists(t, ms) && PackageTree.Sorted(ms) && AcceptedMembers(t.root, ms)
    ensures Stream(ms).Some? && ReadTar(Stream(ms).value) == Some(ms)
    ensures Readable(ms) <==> MANIFEST in t.files && 1 <= |t.files[MANIFEST]| <= MAX_MANIFEST_BYTES
  {
    hide Lists, PackageTree.Sorted, Under, PartsOK, Stream, ReadTar, ManifestPath;
    PackageReadsBack(t, ms);
    AcceptedShape(t, ms);
    if Readable(ms) {
      var i :| 0 <= i < |ms| && ms[i].path == ManifestPath(t.root);
      assert MemberOK(t.root, ms[i]);
      ManifestIsAFile(t, ms, i);
    }
    if MANIFEST in t.files && 1 <= |t.files[MANIFEST]| <= MAX_MANIFEST_BYTES {
      var i := ManifestListed(t, ms);
      forall k | 0 <= k < |ms| ensures MemberOK(t.root, ms[k]) {
        if ms[k].path == ManifestPath(t.root) { assert k == i; }
      }
    }
  }
}
