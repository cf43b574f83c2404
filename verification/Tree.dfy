/** The package tree and its canonical member list. */
module PackageTree {
  import opened ByteStrings
  import opened Paths

  const MAX_COMPONENT_BYTES: nat := 255
  const MAX_MEMBER_PATH_BYTES: nat := 511
  const MAX_MEMBERS: nat := 1024
  const MAX_PAYLOAD_BYTES: nat := 2147483648
  const MODE_DIR: nat := 0x1ED         // 0755
  const MODE_REGULAR: nat := 0x1A4     // 0644
  const MODE_EXECUTABLE: nat := 0x1ED  // 0755

  datatype TarMember = TarMember(path: Bytes, isDir: bool, mode: nat, content: Bytes)

  datatype Tree = Tree(root: Bytes, files: map<Bytes, Bytes>, exec: set<Bytes>)

  // --------------------------------------------------------------- validation

  function Stem(c: Bytes): Bytes {
    if c == [] || c[0] == DOT then [] else [c[0]] + Stem(c[1..])
  }

  /** A name Windows keeps for a device, whatever its extension and letter case. */
  predicate DeviceStem(component: Bytes) {
    var s := Fold(Stem(component));
    || s == Ascii("con") || s == Ascii("prn") || s == Ascii("aux") || s == Ascii("nul")
    || (|s| == 4 && (s[..3] == Ascii("com") || s[..3] == Ascii("lpt")) && 0x31 <= s[3] <= NINE)
  }

  predicate PathByte(c: byte) {
    0x41 <= c <= 0x5A || 0x61 <= c <= 0x7A || IsDigit(c) || c == DOT || c == 0x5F || c == PLUS || c == MINUS
  }

  predicate ValidComponent(c: Bytes) {
    && 1 <= |c| <= MAX_COMPONENT_BYTES
    && c[|c| - 1] != DOT
    && !DeviceStem(c)
    && forall i :: 0 <= i < |c| ==> PathByte(c[i])
  }

  predicate ValidPath(p: Bytes) {
    && 1 <= |p| <= MAX_MEMBER_PATH_BYTES
    && forall i :: 0 <= i < |Components(p)| ==> ValidComponent(Components(p)[i])
  }

  predicate Under(root: Bytes, p: Bytes) {
    p == root || root + [SLASH] <= p
  }

  predicate ModeOK(m: TarMember) {
    !m.isDir ==> m.mode == MODE_REGULAR || m.mode == MODE_EXECUTABLE
  }

  function Payload(ms: seq<TarMember>): nat {
    if ms == [] then 0
    else Payload(ms[..|ms| - 1]) + (if ms[|ms| - 1].isDir then 0 else |ms[|ms| - 1].content|)
  }

  predicate Apart(p: Bytes, q: Bytes) {
    p != q && !Collides(p, q)
  }

  /** What validateMembers accepts. */
  predicate AcceptedMembers(root: Bytes, ms: seq<TarMember>) {
    && ValidPath(root) && NoSlash(root)
    && |ms| <= MAX_MEMBERS
    && (forall i :: 0 <= i < |ms| ==> ValidPath(ms[i].path) && Under(root, ms[i].path) && ModeOK(ms[i]))
    && Payload(ms) <= MAX_PAYLOAD_BYTES
    && (forall i, j :: 0 <= i < j < |ms| ==> Apart(ms[i].path, ms[j].path))
  }

  lemma {:induction false} PayloadMono(ms: seq<TarMember>, n: nat)
    requires n <= |ms|
    ensures Payload(ms[..n]) <= Payload(ms)
    decreases |ms|
  {
    if n == |ms| {
      assert ms[..n] == ms;
    } else {
      PayloadMono(ms[..|ms| - 1], n);
      assert ms[..|ms| - 1][..n] == ms[..n];
    }
  }

  method ValidateMembers(root: Bytes, ms: seq<TarMember>) returns (ok: bool)
    ensures ok <==> AcceptedMembers(root, ms)
  {
    hide ValidPath, Under, Collides, NoSlash;
    if !ValidPath(root) || !NoSlash(root) || |ms| > MAX_MEMBERS {
      return false;
    }
    var payload := 0;
    var i := 0;
    while i < |ms|
      invariant 0 <= i <= |ms|
      invariant forall k :: 0 <= k < i ==> ValidPath(ms[k].path) && Under(root, ms[k].path) && ModeOK(ms[k])
      invariant payload == Payload(ms[..i]) <= MAX_PAYLOAD_BYTES
      invariant forall j, k :: 0 <= j < k < i ==> Apart(ms[j].path, ms[k].path)
    {
      var m := ms[i];
      if !ValidPath(m.path) || !Under(root, m.path) || !ModeOK(m) {
        return false;
      }
      assert ms[..i + 1][..i] == ms[..i];
      PayloadMono(ms, i + 1);
      if !m.isDir {
        if |m.content| > MAX_PAYLOAD_BYTES - payload {
          return false;
        }
        payload := payload + |m.content|;
      }
      var j := 0;
      while j < i
        invariant 0 <= j <= i
        invariant forall k :: 0 <= k < j ==> Apart(ms[k].path, m.path)
      {
        var collide := CasefoldSiblingCollision(ms[j].path, m.path);
        if ms[j].path == m.path || collide {
          return false;
        }
        j := j + 1;
      }
      i := i + 1;
    }
    assert ms[..|ms|] == ms;
    return true;
  }

  // ------------------------------------------------ paths and bounds, written out

  /** The part of a component before its first dot. */
  ghost predicate IsStem(s: Bytes, c: Bytes) {
    s <= c && 0x2E !in s && (s == c || c[|s|] == 0x2E)
  }

  /** A text of lower-case letters, in any letter case. */
  ghost predicate Named(s: Bytes, name: Bytes) {
    |s| == |name| && forall i :: 0 <= i < |s| ==> s[i] == name[i] || (0x61 <= name[i] <= 0x7A && (s[i] as int) + 0x20 == name[i] as int)
  }

  /** con, prn, aux, nul, and com or lpt with a digit from 1 to 9. */
  ghost predicate DeviceName(s: Bytes) {
    || Named(s, [0x63, 0x6F, 0x6E]) || Named(s, [0x70, 0x72, 0x6E])
    || Named(s, [0x61, 0x75, 0x78]) || Named(s, [0x6E, 0x75, 0x6C])
    || (|s| == 4 && 0x31 <= s[3] <= 0x39 && (Named(s[..3], [0x63, 0x6F, 0x6D]) || Named(s[..3], [0x6C, 0x70, 0x74])))
  }

  /** 1 to 255 letters, digits and the marks . _ + -, not ending in a dot, and naming no device. */
  ghost predicate ComponentWritten(c: Bytes) {
    && 1 <= |c| <= 255 && c[|c| - 1] != 0x2E
    && (forall i :: 0 <= i < |c| ==>
          || 0x41 <= c[i] <= 0x5A || 0x61 <= c[i] <= 0x7A || 0x30 <= c[i] <= 0x39
          || c[i] == 0x2E || c[i] == 0x5F || c[i] == 0x2B || c[i] == 0x2D)
    && (forall s :: IsStem(s, c) ==> !DeviceName(s))
  }

  lemma {:induction false} StemExactly(s: Bytes, c: Bytes)
    ensures IsStem(s, c) <==> s == Stem(c)
    decreases |c|
  {
    if c != [] && c[0] != DOT {
      if s != [] && s[0] == c[0] {
        StemExactly(s[1..], c[1..]);
        assert s == [s[0]] + s[1..] && c == [c[0]] + c[1..];
        if IsStem(s, c) { assert s[1..] <= c[1..]; }
        if IsStem(s[1..], c[1..]) { assert s <= c; }
      } else {
        assert IsStem(s, c) ==> s == [];
      }
    } else if s != [] && s <= c {
      assert s[0] == c[0];
    }
  }

  /** A lower-case name is met in any letter case exactly where folding gives it. */
  lemma FoldIsName(s: Bytes, name: Bytes)
    requires forall i :: 0 <= i < |name| ==> 0x61 <= name[i] <= 0x7A
    ensures Fold(s) == name <==> Named(s, name)
  {
    if Fold(s) == name {
      assert forall i :: 0 <= i < |s| ==> Fold(s)[i] == name[i];
    }
  }

  lemma DeviceExactly(c: Bytes)
    ensures DeviceStem(c) <==> DeviceName(Stem(c))
  {
    hide Fold, Named;
    var s := Stem(c);
    assert Ascii("con") == [0x63, 0x6F, 0x6E] && Ascii("prn") == [0x70, 0x72, 0x6E];
    assert Ascii("aux") == [0x61, 0x75, 0x78] && Ascii("nul") == [0x6E, 0x75, 0x6C];
    assert Ascii("com") == [0x63, 0x6F, 0x6D] && Ascii("lpt") == [0x6C, 0x70, 0x74];
    FoldIsName(s, [0x63, 0x6F, 0x6E]);
    FoldIsName(s, [0x70, 0x72, 0x6E]);
    FoldIsName(s, [0x61, 0x75, 0x78]);
    FoldIsName(s, [0x6E, 0x75, 0x6C]);
    if |s| == 4 {
      FoldFront(s);
      FoldIsName(s[..3], [0x63, 0x6F, 0x6D]);
      FoldIsName(s[..3], [0x6C, 0x70, 0x74]);
    }
  }

  lemma FoldFront(s: Bytes)
    requires |s| == 4
    ensures Fold(s)[..3] == Fold(s[..3]) && (0x31 <= Fold(s)[3] <= 0x39 <==> 0x31 <= s[3] <= 0x39)
  {}

  /** A path is valid exactly when it has 1 to 511 bytes and joins written components with slashes. */
  lemma ValidPathExactly(p: Bytes)
    ensures ValidPath(p) <==>
              1 <= |p| <= 511 && exists cs :: cs != [] && p == Joined(cs) && forall i :: 0 <= i < |cs| ==> 0x2F !in cs[i] && ComponentWritten(cs[i])
  {
    hide Components, ComponentWritten, DeviceStem, DeviceName;
    var cs := Components(p);
    ComponentsExactly(p, cs);
    forall c ensures ValidComponent(c) <==> ComponentWritten(c) { ValidComponentExactly(c); }
    if ds :| ds != [] && p == Joined(ds) && forall i :: 0 <= i < |ds| ==> 0x2F !in ds[i] && ComponentWritten(ds[i]) {
      ComponentsExactly(p, ds);
    }
  }

  lemma ValidComponentExactly(c: Bytes)
    ensures ValidComponent(c) <==> ComponentWritten(c)
  {
    hide DeviceStem, DeviceName, IsStem;
    DeviceExactly(c);
    forall s ensures IsStem(s, c) <==> s == Stem(c) { StemExactly(s, c); }
  }

  /**
   An accepted list, written out: at most 1024 members of at most 2 GiB together, every path valid and the
   root or under it, every file of mode 0644 or 0755, no path twice, and no two paths whose components agree
   up to one that differs in letter case alone.
   */
  lemma AcceptedExactly(root: Bytes, ms: seq<TarMember>)
    ensures AcceptedMembers(root, ms) <==>
              && ValidPath(root) && 0x2F !in root && |ms| <= 1024 && Payload(ms) <= 0x8000_0000
              && (forall i :: 0 <= i < |ms| ==>
                    && ValidPath(ms[i].path) && (ms[i].isDir || ms[i].mode == 420 || ms[i].mode == 493)
                    && (ms[i].path == root || (|root| < |ms[i].path| && ms[i].path[..|root|] == root && ms[i].path[|root|] == 0x2F)))
              && (forall i, j :: 0 <= i < j < |ms| ==>
                    ms[i].path != ms[j].path && !Merges(Components(ms[i].path), Components(ms[j].path)))
  {
    hide ValidPath, Collides, Components, Merges, Payload;
    forall p, q ensures Apart(p, q) <==> p != q && !Merges(Components(p), Components(q)) { CollidesMeans(p, q); }
    forall p ensures Under(root, p) <==> p == root || (|root| < |p| && p[..|root|] == root && p[|root|] == 0x2F) {
      UnderExactly(root, p);
    }
    assert NoSlash(root) <==> 0x2F !in root;
  }

  lemma UnderExactly(root: Bytes, p: Bytes)
    ensures Under(root, p) <==> p == root || (|root| < |p| && p[..|root|] == root && p[|root|] == 0x2F)
  {
    if root + [SLASH] <= p {
      assert p[..|root| + 1] == root + [SLASH];
      assert p[..|root|] == p[..|root| + 1][..|root|] && p[|root|] == p[..|root| + 1][|root|];
    }
    if |root| < |p| && p[..|root|] == root && p[|root|] == 0x2F { assert p[..|root| + 1] == p[..|root|] + [p[|root|]]; }
  }

  /** The bytes of a list's files, however it is divided; directories have none. */
  lemma {:induction false} PayloadAdds(ms: seq<TarMember>, ns: seq<TarMember>)
    ensures Payload(ms + ns) == Payload(ms) + Payload(ns)
    ensures |ms| == 1 ==> Payload(ms) == if ms[0].isDir then 0 else |ms[0].content|
    decreases |ns|
  {
    if ns == [] {
      assert ms + ns == ms;
    } else {
      assert (ms + ns)[..|ms + ns| - 1] == ms + ns[..|ns| - 1];
      PayloadAdds(ms, ns[..|ns| - 1]);
    }
  }

  // ------------------------------------------------------------ the member list

  function Full(t: Tree, rel: Bytes): Bytes {
    t.root + [SLASH] + rel
  }

  function FileMember(t: Tree, rel: Bytes): TarMember
    requires rel in t.files
  {
    TarMember(Full(t, rel), false, if rel in t.exec then MODE_EXECUTABLE else MODE_REGULAR, t.files[rel])
  }

  function DirMember(path: Bytes): TarMember {
    TarMember(path, true, MODE_DIR, [])
  }

  /** A directory some file of the tree lies in, at a slash beyond the root. */
  ghost predicate DirOf(t: Tree, rel: Bytes, i: nat, d: Bytes) {
    |t.root| < i < |Full(t, rel)| && Full(t, rel)[i] == SLASH && d == Full(t, rel)[..i]
  }

  ghost predicate IsDir(t: Tree, d: Bytes) {
    d == t.root || exists rel, i: nat :: rel in t.files && DirOf(t, rel, i, d)
  }

  ghost predicate IsMember(t: Tree, m: TarMember) {
    || (m.isDir && m == DirMember(m.path) && IsDir(t, m.path))
    || (exists rel :: rel in t.files && m == FileMember(t, rel))
  }

  ghost predicate Lists(t: Tree, ms: seq<TarMember>) {
    forall m :: m in ms <==> IsMember(t, m)
  }

  /** Sorted by path, equal paths in any order. */
  ghost predicate Sorted(ms: seq<TarMember>) {
    forall i, j :: 0 <= i < j < |ms| ==> !Less(ms[j].path, ms[i].path)
  }

  /**
   What a package lists: of every file its path under the root, mode 0755 where the tree marks it
   executable and 0644 elsewhere, and its content; of every directory mode 0755.
   */
  lemma MemberExactly(t: Tree, m: TarMember)
    ensures !m.isDir ==> (IsMember(t, m) <==>
              exists rel :: rel in t.files && m.path == t.root + [0x2F] + rel && m.content == t.files[rel]
                            && m.mode == if rel in t.exec then 493 else 420)
    ensures m.isDir ==> (IsMember(t, m) <==>
              && m.mode == 493 && m.content == []
              && (m.path == t.root || exists rel, i: nat :: rel in t.files && DirOf(t, rel, i, m.path)))
    ensures forall rel, i: nat :: DirOf(t, rel, i, m.path) <==>
              |t.root| < i <= |t.root| + |rel| && (t.root + [0x2F] + rel)[i] == 0x2F && m.path == (t.root + [0x2F] + rel)[..i]
  {
    hide DirOf;
    if !m.isDir && exists rel :: rel in t.files && m.path == t.root + [0x2F] + rel && m.content == t.files[rel]
                            && m.mode == if rel in t.exec then 493 else 420 {
      var rel :| rel in t.files && m.path == t.root + [0x2F] + rel && m.content == t.files[rel]
                            && m.mode == if rel in t.exec then 493 else 420;
      assert m == FileMember(t, rel);
    }
    forall rel, i: nat
      ensures DirOf(t, rel, i, m.path) <==>
              |t.root| < i <= |t.root| + |rel| && (t.root + [0x2F] + rel)[i] == 0x2F && m.path == (t.root + [0x2F] + rel)[..i]
    {
      DirExactly(t, rel, i, m.path);
    }
  }

  lemma DirExactly(t: Tree, rel: Bytes, i: nat, d: Bytes)
    ensures DirOf(t, rel, i, d) <==>
              |t.root| < i <= |t.root| + |rel| && (t.root + [0x2F] + rel)[i] == 0x2F && d == (t.root + [0x2F] + rel)[..i]
  {}

  method CollectDirs(t: Tree, rel: Bytes, dirs: set<Bytes>) returns (out: set<Bytes>)
    ensures forall d :: d in out <==> d in dirs || exists i: nat :: DirOf(t, rel, i, d)
  {
    var full := Full(t, rel);
    out := dirs;
    var i := |t.root| + 1;
    while i < |full|
      invariant |t.root| < i <= |full|
      invariant forall d :: d in out <==> d in dirs || exists k: nat :: k < i && DirOf(t, rel, k, d)
    {
      if full[i] == SLASH {
        assert DirOf(t, rel, i, full[..i]);
        out := out + {full[..i]};
      }
      i := i + 1;
    }
  }

  method Insert(ms: seq<TarMember>, m: TarMember) returns (r: seq<TarMember>)
    requires Sorted(ms)
    ensures Sorted(r) && forall x :: x in r <==> x in ms || x == m
  {
    var i := |ms|;
    while i > 0 && Less(m.path, ms[i - 1].path)
      invariant 0 <= i <= |ms|
      invariant forall j :: i <= j < |ms| ==> Less(m.path, ms[j].path)
    {
      i := i - 1;
    }
    r := ms[..i] + [m] + ms[i..];
    assert forall x :: x in ms <==> x in ms[..i] || x in ms[i..] by { assert ms == ms[..i] + ms[i..]; }
    InsertSorted(ms, m, i);
  }

  lemma InsertSorted(ms: seq<TarMember>, m: TarMember, i: nat)
    requires Sorted(ms) && i <= |ms|
    requires forall j :: i <= j < |ms| ==> Less(m.path, ms[j].path)
    requires i > 0 ==> !Less(m.path, ms[i - 1].path)
    ensures Sorted(ms[..i] + [m] + ms[i..])
  {
    var r := ms[..i] + [m] + ms[i..];
    forall a, b | 0 <= a < b < |r| ensures !Less(r[b].path, r[a].path) {
      if b == i {
        LessTotal(ms[a].path, ms[i - 1].path);
        LessTotal(m.path, ms[i - 1].path);
        if Less(m.path, ms[a].path) && ms[a].path != ms[i - 1].path {
          LessTotal(ms[a].path, ms[i - 1].path);
          if Less(ms[a].path, ms[i - 1].path) { LessTrans(m.path, ms[a].path, ms[i - 1].path); }
        }
      } else if a == i {
        LessTotal(m.path, ms[b - 1].path);
      }
    }
  }

  /** Tree.Members: every file, every directory it lies in, sorted by path, and then validated. */
  method Members(t: Tree) returns (all: seq<TarMember>, ok: bool)
    ensures Lists(t, all) && Sorted(all)
    ensures forall i :: 0 <= i < |all| - 1 ==> all[i].path == all[i + 1].path || Rises(all[i].path, all[i + 1].path)
    ensures ok <==> AcceptedMembers(t.root, all)
  {
    hide Sorted, Full, Rises;
    var dirs := {t.root};
    all := [];
    EmptySorted();
    var rels := t.files.Keys;
    while rels != {}
      invariant rels <= t.files.Keys && Sorted(all)
      invariant forall d :: d in dirs <==> d == t.root || exists rel, i: nat :: rel in t.files && rel !in rels && DirOf(t, rel, i, d)
      invariant forall m :: m in all <==> exists rel :: rel in t.files && rel !in rels && m == FileMember(t, rel)
      decreases |rels|
    {
      var rel :| rel in rels;
      dirs := CollectDirs(t, rel, dirs);
      all := Insert(all, FileMember(t, rel));
      rels := rels - {rel};
    }
    ghost var files := all;
    var left := dirs;
    while left != {}
      invariant left <= dirs && Sorted(all)
      invariant forall m :: m in all <==> m in files || (m.path in dirs && m.path !in left && m == DirMember(m.path))
      decreases |left|
    {
      var d :| d in left;
      all := Insert(all, DirMember(d));
      left := left - {d};
    }
    SortedRises(all);
    ok := ValidateMembers(t.root, all);
  }

  /** Successive paths of a sorted list rise byte by byte, or are equal. */
  lemma SortedRises(ms: seq<TarMember>)
    requires Sorted(ms)
    ensures forall i :: 0 <= i < |ms| - 1 ==> ms[i].path == ms[i + 1].path || Rises(ms[i].path, ms[i + 1].path)
  {
    hide Less, Rises;
    forall i | 0 <= i < |ms| - 1 ensures ms[i].path == ms[i + 1].path || Rises(ms[i].path, ms[i + 1].path) {
      LessTotal(ms[i].path, ms[i + 1].path);
      LessExactly(ms[i].path, ms[i + 1].path);
    }
  }

  lemma EmptySorted()
    ensures Sorted([])
  {}

  // ------------------------------------------------ what an accepted list is

  ghost predicate Ascends(ms: seq<TarMember>) {
    forall i, j :: 0 <= i < j < |ms| ==> Less(ms[i].path, ms[j].path)
  }

  /** Every path's ancestors are listed before it, as directories. */
  ghost predicate ParentsFirst(ms: seq<TarMember>) {
    forall k, i {:trigger ms[k].path[i]} :: 0 <= k < |ms| && 0 <= i < |ms[k].path| && ms[k].path[i] == SLASH ==>
      ListedBefore(ms, k, ms[k].path[..i])
  }

  ghost predicate ListedBefore(ms: seq<TarMember>, k: nat, d: Bytes)
    requires k <= |ms|
  {
    exists j :: 0 <= j < k && ms[j].isDir && ms[j].path == d
  }

  /** Accepted and sorted means strictly ascending: no path is listed twice, as file or directory. */
  lemma AcceptedAscends(root: Bytes, ms: seq<TarMember>)
    requires AcceptedMembers(root, ms) && Sorted(ms)
    ensures Ascends(ms)
  {
    hide Collides, ValidPath, Under, Less;
    forall i, j | 0 <= i < j < |ms| ensures Less(ms[i].path, ms[j].path) {
      assert Apart(ms[i].path, ms[j].path);
      LessTotal(ms[i].path, ms[j].path);
    }
  }

  /** A slash in a directory's path is a slash of the file it was derived from. */
  lemma AncestorIsDir(t: Tree, m: TarMember, i: nat)
    requires IsMember(t, m) && NoSlash(t.root) && i < |m.path| && m.path[i] == SLASH
    ensures IsDir(t, m.path[..i])
  {
    if m.isDir {
      if m.path != t.root {
        var rel, k: nat :| rel in t.files && DirOf(t, rel, k, m.path);
        AncestorOfFile(t, rel, i);
        assert m.path[..i] == Full(t, rel)[..i];
      }
    } else {
      var rel :| rel in t.files && m == FileMember(t, rel);
      AncestorOfFile(t, rel, i);
    }
  }

  lemma AncestorOfFile(t: Tree, rel: Bytes, i: nat)
    requires rel in t.files && NoSlash(t.root) && i < |Full(t, rel)| && Full(t, rel)[i] == SLASH
    ensures IsDir(t, Full(t, rel)[..i])
  {
    var full := Full(t, rel);
    assert forall k :: 0 <= k < |t.root| ==> full[k] == t.root[k];
    assert i >= |t.root|;
    if i == |t.root| {
      assert full[..i] == t.root;
    } else {
      assert DirOf(t, rel, i, full[..i]);
    }
  }

  lemma AncestorListed(t: Tree, ms: seq<TarMember>, k: nat, i: nat)
    requires Lists(t, ms) && Ascends(ms) && NoSlash(t.root)
    requires k < |ms| && i < |ms[k].path| && ms[k].path[i] == SLASH
    ensures ListedBefore(ms, k, ms[k].path[..i])
  {
    hide Less, IsDir;
    var p := ms[k].path;
    assert ms[k] in ms;
    AncestorIsDir(t, ms[k], i);
    var m := DirMember(p[..i]);
    assert IsMember(t, m);
    var j :| 0 <= j < |ms| && ms[j] == m;
    PrefixLess(p, i);
    OrderedIndex(ms, j, k);
  }

  lemma OrderedIndex(ms: seq<TarMember>, j: nat, k: nat)
    requires Ascends(ms) && j < |ms| && k < |ms| && Less(ms[j].path, ms[k].path)
    ensures j < k
  {
    hide Less;
    LessTotal(ms[j].path, ms[k].path);
  }

  /**
   Every list Tree.Members accepts is strictly ascending, lists every ancestor directory
   before its contents, and stays injective under ASCII case folding of whole paths.
   */
  lemma AcceptedListIsCanonical(t: Tree, ms: seq<TarMember>)
    requires Lists(t, ms) && Sorted(ms) && AcceptedMembers(t.root, ms)
    ensures Ascends(ms)
    ensures forall i, j :: 0 <= i < j < |ms| ==> Rises(ms[i].path, ms[j].path)
    ensures ParentsFirst(ms)
    ensures forall i, j :: 0 <= i < j < |ms| ==> Fold(ms[i].path) != Fold(ms[j].path)
  {
    hide Less, Lists, Sorted, Collides, ValidPath, Fold, Ascends, Rises;
    AcceptedAscends(t.root, ms);
    forall i, j | 0 <= i < j < |ms| ensures Rises(ms[i].path, ms[j].path) {
      AscendsAt(ms, i, j);
      LessExactly(ms[i].path, ms[j].path);
    }
    forall i, j | 0 <= i < j < |ms| ensures Fold(ms[i].path) != Fold(ms[j].path) {
      assert Apart(ms[i].path, ms[j].path);
      if Fold(ms[i].path) == Fold(ms[j].path) { SameFoldCollides(ms[i].path, ms[j].path); }
    }
    forall k, i | 0 <= k < |ms| && 0 <= i < |ms[k].path| && ms[k].path[i] == SLASH
      ensures ListedBefore(ms, k, ms[k].path[..i])
    {
      AncestorListed(t, ms, k, i);
    }
  }

  /** The root directory heads every accepted list. */
  lemma RootComesFirst(t: Tree, ms: seq<TarMember>)
    requires Lists(t, ms) && Sorted(ms) && AcceptedMembers(t.root, ms)
    ensures ms != [] && ms[0] == DirMember(t.root)
  {
    hide Less, Sorted, Collides, ValidPath, Ascends;
    AcceptedAscends(t.root, ms);
    assert IsMember(t, DirMember(t.root));
    var j :| 0 <= j < |ms| && ms[j] == DirMember(t.root);
    if j > 0 {
      AscendsAt(ms, 0, j);
      assert Under(t.root, ms[0].path);
      LessTotal(ms[0].path, t.root);
      if ms[0].path != t.root {
        assert ms[0].path[..|t.root|] == t.root by {
          assert t.root + [SLASH] == ms[0].path[..|t.root| + 1];
          assert ms[0].path[..|t.root|] == ms[0].path[..|t.root| + 1][..|t.root|];
        }
        PrefixLess(ms[0].path, |t.root|);
      }
    }
  }

  lemma AscendsAt(ms: seq<TarMember>, i: nat, j: nat)
    requires Ascends(ms) && i < j < |ms|
    ensures Less(ms[i].path, ms[j].path)
  {}

  // ------------------------------------------ the paths a runtime tree packs

  /** Directory derivation of writeRuntimeTree: every proper ancestor of every file, once, in order of discovery. */
  method DeriveDirs(rels: seq<Bytes>) returns (dirs: seq<Bytes>)
    ensures forall d :: d in dirs <==> exists k, i: nat :: 0 <= k < |rels| && i < |rels[k]| && rels[k][i] == SLASH && d == rels[k][..i]
    ensures forall i, j :: 0 <= i < j < |dirs| ==> dirs[i] != dirs[j]
  {
    dirs := [];
    var k := 0;
    while k < |rels|
      invariant 0 <= k <= |rels|
      invariant forall d :: d in dirs <==> exists r, i: nat :: 0 <= r < k && i < |rels[r]| && rels[r][i] == SLASH && d == rels[r][..i]
      invariant forall i, j :: 0 <= i < j < |dirs| ==> dirs[i] != dirs[j]
    {
      var rel, i := rels[k], 0;
      while i < |rel|
        invariant 0 <= i <= |rel| && rel == rels[k]
        invariant forall d :: d in dirs <==>
          || (exists r, j: nat :: 0 <= r < k && j < |rels[r]| && rels[r][j] == SLASH && d == rels[r][..j])
          || (exists j: nat :: j < i && rel[j] == SLASH && d == rel[..j])
        invariant forall a, b :: 0 <= a < b < |dirs| ==> dirs[a] != dirs[b]
      {
        if rel[i] == SLASH && rel[..i] !in dirs {
          dirs := dirs + [rel[..i]];
        }
        i := i + 1;
      }
      k := k + 1;
    }
  }

  /** Derived directories and files together are closed under taking ancestors. */
  lemma DerivedIsClosed(rels: seq<Bytes>, dirs: seq<Bytes>)
    requires forall d :: d in dirs <==> exists k, i: nat :: 0 <= k < |rels| && i < |rels[k]| && rels[k][i] == SLASH && d == rels[k][..i]
    ensures AncestorClosed(dirs + rels)
  {
    var paths := dirs + rels;
    forall p, i | p in paths && 0 <= i < |p| && p[i] == SLASH ensures p[..i] in paths {
      if p in rels {
        var k :| 0 <= k < |rels| && rels[k] == p;
        assert p[..i] in dirs;
      } else {
        var k, j: nat :| 0 <= k < |rels| && j < |rels[k]| && rels[k][j] == SLASH && p == rels[k][..j];
        assert rels[k][i] == SLASH && p[..i] == rels[k][..i];
        assert p[..i] in dirs;
      }
    }
  }
}
