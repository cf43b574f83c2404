/** Budgets of a runtime tree: the files ceiling and the extent a packed tree reports. */
module RuntimeLimits {
  import opened ByteStrings
  import opened Paths
  import opened Arith

  const MAX_INT: int := 0x7FFF_FFFF_FFFF_FFFF
  const MAX_TREE_PATH_BYTES: int := 511
  const MAX_RUNTIME_DEPTH: int := (MAX_TREE_PATH_BYTES - 1) / 2

  /** Addition as 64-bit integers do it, for operands that are not negative. */
  function Add64(x: int, y: int): int {
    if x + y > MAX_INT then x + y - 2 * (MAX_INT + 1) else x + y
  }

  function MemberAllowance(maxFiles: int): int {
    Add64(maxFiles, maxFiles / 4)
  }

  /** What writeRuntimeTree asks of a positive files budget. */
  predicate Admits(budget: int, files: nat, dirs: nat) {
    files <= budget && files + dirs <= MemberAllowance(budget)
  }

  /** leastFilesCeiling. */
  method LeastFilesCeiling(files: nat, dirs: nat) returns (m: int)
    requires (files + dirs) * 4 <= MAX_INT
    ensures m == Least(files, dirs)
    ensures m >= files && m + m / 4 >= files + dirs
    ensures forall k :: 0 <= k < m ==> k < files || k + k / 4 < files + dirs
    ensures Admits(m, files, dirs)
  {
    m := files;
    var least := (files + dirs) * 4 / 5;
    if least > m {
      m := least;
    }
    ghost var start := m;
    while MemberAllowance(m) < files + dirs
      invariant start <= m <= files + dirs
      invariant forall k :: start <= k < m ==> !Admits(k, files, dirs)
      decreases files + dirs - m
    {
      m := m + 1;
    }
    LeastIs(files, dirs, m);
    assert m <= files + dirs;
    forall k | 0 <= k < m ensures k < files || k + k / 4 < files + dirs { assert !Admits(k, files, dirs); }
  }

  /** The smallest budget that admits the tree: searched for upward from nothing. */
  function Least(files: nat, dirs: nat): (m: int)
    requires (files + dirs) * 4 <= MAX_INT
    ensures 0 <= m <= files + dirs && Admits(m, files, dirs)
    ensures forall k :: 0 <= k < m ==> !Admits(k, files, dirs)
  {
    LeastFrom(files, dirs, 0)
  }

  function LeastFrom(files: nat, dirs: nat, k: nat): (m: int)
    requires (files + dirs) * 4 <= MAX_INT && k <= files + dirs
    ensures k <= m <= files + dirs && Admits(m, files, dirs)
    ensures forall i :: k <= i < m ==> !Admits(i, files, dirs)
    decreases files + dirs - k
  {
    if Admits(k, files, dirs) then k else LeastFrom(files, dirs, k + 1)
  }

  /** A budget below four fifths of the members, or below the files, admits nothing. */
  lemma TooSmall(files: nat, dirs: nat, k: nat)
    requires (files + dirs) * 4 <= MAX_INT
    requires k < files || k < (files + dirs) * 4 / 5
    ensures !Admits(k, files, dirs)
  {}

  lemma LeastIs(files: nat, dirs: nat, m: int)
    requires (files + dirs) * 4 <= MAX_INT && m >= 0 && Admits(m, files, dirs)
    requires forall k :: (if files > (files + dirs) * 4 / 5 then files else (files + dirs) * 4 / 5) <= k < m ==> !Admits(k, files, dirs)
    ensures m == Least(files, dirs)
  {
    var l := Least(files, dirs);
    if l < m { TooSmall(files, dirs, l); }
  }

  /**
   A positive budget admits the tree exactly when it is at least the ceiling, if and only
   if the member allowance of that budget fits an int.
   */
  lemma CeilingIsExact(budget: int, files: nat, dirs: nat)
    requires (files + dirs) * 4 <= MAX_INT && 0 < budget <= MAX_INT
    ensures (Admits(budget, files, dirs) <==> budget >= Least(files, dirs)) <==> budget + budget / 4 <= MAX_INT
  {
    var l := Least(files, dirs);
    if budget + budget / 4 <= MAX_INT && budget >= l {
      assert l / 4 <= budget / 4;
    }
  }

  /** A positive budget admits no tree at all, not even an empty one, exactly when its member allowance wraps. */
  lemma AdmitsNothingExactly(budget: int)
    requires 0 < budget <= MAX_INT
    ensures (forall files: nat, dirs: nat :: !Admits(budget, files, dirs)) <==> budget + budget / 4 > MAX_INT
  {
    if budget + budget / 4 <= MAX_INT { assert Admits(budget, 0, 0); }
  }

  /** The largest budget there is refuses a tree of one file, for which a budget of one is enough. */
  lemma LargestBudgetAdmitsNothing()
    ensures Least(1, 0) == 1 && Admits(1, 1, 0) && !Admits(MAX_INT, 1, 0)
  {
    LeastIs(1, 0, 1);
  }

  // ----------------------------------------------------------- what an operator must grant

  /** Zero or less: not set. */
  datatype Limits = Limits(installed: int, files: int, fileBytes: int, compressed: int, depth: int)

  const HOST: Limits := Limits(0, 32768, 0, 0, 24)

  function Or(x: int, d: int): int {
    if x <= 0 then d else x
  }

  function Filled(l: Limits): Limits {
    Limits(Or(l.installed, HOST.installed), Or(l.files, HOST.files), Or(l.fileBytes, HOST.fileBytes),
           Or(l.compressed, HOST.compressed), Or(l.depth, HOST.depth))
  }

  /** Limits that follow the declared sizes where none is set. */
  function ForDecl(l: Limits, size: int, installed: int): Limits {
    var f := Filled(l);
    Limits(Or(f.installed, installed), f.files, Or(f.fileBytes, installed), Or(f.compressed, size), f.depth)
  }

  datatype Archive = Archive(size: int, installed: int, files: nat, dirs: nat, largest: int, depth: int)

  datatype Ceiling = InstalledBytes | Files | FileBytes | CompressedBytes | TreeDepth

  /** What packing asks of a budget. */
  predicate WithinBudget(a: Archive, budget: Limits) {
    var l := Filled(budget);
    && a.depth <= l.depth
    && Admits(l.files, a.files, a.dirs)
    && (l.fileBytes > 0 ==> a.largest <= l.fileBytes)
    && (l.installed > 0 ==> a.installed <= l.installed)
    && (l.compressed > 0 ==> a.size <= l.compressed)
  }

  /** A packed archive: sizes are positive, and no file is larger than all of them. */
  predicate Packed(a: Archive) {
    a.size > 0 && a.installed > 0 && a.largest <= a.installed && (a.files + a.dirs) * 4 <= MAX_INT
  }

  /** RequiredCeilings: it names only files and depth, and those exactly where the host's defaults fall short. */
  method RequiredCeilings(a: Archive) returns (req: map<Ceiling, int>)
    requires Packed(a)
    ensures req.Keys <= {Files, TreeDepth}
    ensures Files in req <==> !Admits(HOST.files, a.files, a.dirs)
    ensures Files in req ==> req[Files] == Least(a.files, a.dirs) > HOST.files
    ensures TreeDepth in req <==> a.depth > HOST.depth
    ensures TreeDepth in req ==> req[TreeDepth] == a.depth
    ensures Files in req <==> a.files > 32768 || a.files + a.dirs > 40960
    ensures TreeDepth in req <==> a.depth > 24
  {
    var d := ForDecl(Limits(0, 0, 0, 0, 0), a.size, a.installed);
    req := map[];
    if a.installed > d.installed {
      req := req[InstalledBytes := a.installed];
    }
    var need := LeastFilesCeiling(a.files, a.dirs);
    if need > d.files {
      req := req[Files := need];
    }
    if a.largest > d.fileBytes {
      req := req[FileBytes := a.largest];
    }
    if a.size > d.compressed {
      req := req[CompressedBytes := a.size];
    }
    if a.depth > d.depth {
      req := req[TreeDepth := a.depth];
    }
    CeilingIsExact(HOST.files, a.files, a.dirs);
  }

  /** A host whose operator raises its defaults takes the archive exactly when it grants every ceiling required. */
  lemma GrantedIsEnough(a: Archive, files: int, depth: int)
    requires Packed(a) && files >= HOST.files && depth >= HOST.depth && files + files / 4 <= MAX_INT
    ensures WithinBudget(a, Limits(0, files, 0, 0, depth)) <==>
              (!Admits(HOST.files, a.files, a.dirs) ==> files >= Least(a.files, a.dirs)) && (a.depth > HOST.depth ==> depth >= a.depth)
  {
    CeilingIsExact(files, a.files, a.dirs);
    CeilingIsExact(HOST.files, a.files, a.dirs);
  }

  // -------------------------------------------------------------------- extent

  datatype PackedFile = PackedFile(rel: Bytes, size: nat)

  datatype Extent = Extent(installedBytes: int, files: int, largestFileBytes: int, depth: int)

  function Total(fs: seq<PackedFile>): nat {
    if fs == [] then 0 else Total(fs[..|fs| - 1]) + fs[|fs| - 1].size
  }

  function Largest(fs: seq<PackedFile>): nat {
    if fs == [] then 0 else
      var l := Largest(fs[..|fs| - 1]);
      if fs[|fs| - 1].size > l then fs[|fs| - 1].size else l
  }

  function Depth(fs: seq<PackedFile>): nat {
    if fs == [] then 0 else
      var d := Depth(fs[..|fs| - 1]);
      var n := |Components(fs[|fs| - 1].rel)|;
      if n > d then n else d
  }

  /** The walk's bookkeeping: bytes in all, the largest file, and the most path segments. */
  method Walk(fs: seq<PackedFile>) returns (e: Extent)
    ensures e == Extent(Total(fs), |fs|, Largest(fs), Depth(fs))
  {
    var total, largest, depth, i := 0, 0, 0, 0;
    while i < |fs|
      invariant 0 <= i <= |fs|
      invariant total == Total(fs[..i]) && largest == Largest(fs[..i]) && depth == Depth(fs[..i])
    {
      assert fs[..i + 1][..i] == fs[..i];
      var segs := |Components(fs[i].rel)|;
      if segs > depth {
        depth := segs;
      }
      if fs[i].size > largest {
        largest := fs[i].size;
      }
      total := total + fs[i].size;
      i := i + 1;
    }
    assert fs[..|fs|] == fs;
    return Extent(total, |fs|, largest, depth);
  }

  /** Bytes in all add up, however the files are divided. */
  lemma {:induction false} TotalAdds(fs: seq<PackedFile>, gs: seq<PackedFile>)
    ensures Total(fs + gs) == Total(fs) + Total(gs)
    ensures |fs| == 1 ==> Total(fs) == fs[0].size
    decreases |gs|
  {
    if gs == [] {
      assert fs + gs == fs;
    } else {
      assert (fs + gs)[..|fs + gs| - 1] == fs + gs[..|gs| - 1];
      TotalAdds(fs, gs[..|gs| - 1]);
    }
  }

  /** The largest file and the most segments bound every file's, and are some file's. */
  lemma {:induction false} LargestAndDeepest(fs: seq<PackedFile>)
    ensures forall i :: 0 <= i < |fs| ==> fs[i].size <= Largest(fs) && |Components(fs[i].rel)| <= Depth(fs)
    ensures fs != [] ==> exists i :: 0 <= i < |fs| && fs[i].size == Largest(fs)
    ensures fs != [] ==> exists i :: 0 <= i < |fs| && |Components(fs[i].rel)| == Depth(fs)
  {
    hide Components;
    if fs != [] {
      var init, m := fs[..|fs| - 1], |fs| - 1;
      LargestAndDeepest(init);
      if fs[m].size <= Largest(init) && init != [] {
        var i :| 0 <= i < |init| && init[i].size == Largest(init);
        assert fs[i].size == Largest(fs);
      } else {
        assert fs[m].size == Largest(fs);
      }
      if |Components(fs[m].rel)| <= Depth(init) && init != [] {
        var i :| 0 <= i < |init| && |Components(init[i].rel)| == Depth(init);
        assert |Components(fs[i].rel)| == Depth(fs);
      } else {
        assert |Components(fs[m].rel)| == Depth(fs);
      }
    }
  }

  /** validExtent for a declaration that states both extents. */
  predicate ValidExtent(e: Extent)
    requires e.files > 0 && e.installedBytes > 0
  {
    && 0 < e.largestFileBytes <= e.installedBytes
    && e.largestFileBytes >= (e.installedBytes - 1) / e.files + 1
    && 1 <= e.depth <= MAX_RUNTIME_DEPTH
  }

  /** What the walk admits of one file under a root: no empty segment, and a member path of at most 511 bytes. */
  predicate Packable(root: Bytes, f: PackedFile) {
    && (forall i :: 0 <= i < |Components(f.rel)| ==> Components(f.rel)[i] != [])
    && |root| + 1 + |f.rel| <= MAX_TREE_PATH_BYTES
  }

  lemma {:induction false} TotalBelowLargest(fs: seq<PackedFile>)
    ensures Largest(fs) <= Total(fs) <= |fs| * Largest(fs)
  {
    if fs != [] {
      var init := fs[..|fs| - 1];
      TotalBelowLargest(init);
      MulLe(Largest(init), Largest(fs), |init|);
      MulDist(|init|, 1, Largest(fs));
      assert |init| * Largest(init) == Largest(init) * |init| && |init| * Largest(fs) == Largest(fs) * |init|;
    }
  }

  /** The mean, rounded up, is at most the largest. */
  lemma MeanAtMost(total: int, files: int, largest: int)
    requires total > 0 && files > 0 && total <= files * largest
    ensures (total - 1) / files + 1 <= largest
  {
    var q, r := (total - 1) / files, (total - 1) % files;
    assert total - 1 == files * q + r;
    assert files * q == q * files && files * largest == largest * files;
    if q >= largest { MulLe(largest, q, files); }
  }

  /** A path of non-empty segments is at least twice as long as it is deep, less one. */
  lemma {:induction false} SegmentsFit(p: Bytes)
    requires forall i :: 0 <= i < |Components(p)| ==> Components(p)[i] != []
    ensures 2 * |Components(p)| - 1 <= |p|
    decreases |p|
  {
    var h := Head(p);
    assert Components(p)[0] == h;
    if |h| < |p| {
      var rest := p[|h| + 1..];
      forall i | 0 <= i < |Components(rest)| ensures Components(rest)[i] != [] {
        assert Components(rest)[i] == Components(p)[i + 1];
      }
      SegmentsFit(rest);
    }
  }

  lemma {:induction false} DepthFits(root: Bytes, fs: seq<PackedFile>)
    requires root != [] && forall i :: 0 <= i < |fs| ==> Packable(root, fs[i])
    ensures Depth(fs) <= MAX_RUNTIME_DEPTH && (fs != [] ==> Depth(fs) >= 1)
  {
    if fs != [] {
      var init := fs[..|fs| - 1];
      DepthFits(root, init);
      assert Packable(root, fs[|fs| - 1]);
      SegmentsFit(fs[|fs| - 1].rel);
    }
  }

  lemma PositiveFactor(a: nat, b: nat)
    requires a * b > 0
    ensures b > 0
  {
  }

  /** The extent reported for any packed tree holding at least one byte passes the declaration's own check. */
  lemma PackedExtentIsValid(root: Bytes, fs: seq<PackedFile>)
    requires root != [] && fs != [] && Total(fs) > 0
    requires forall i :: 0 <= i < |fs| ==> Packable(root, fs[i])
    ensures ValidExtent(Extent(Total(fs), |fs|, Largest(fs), Depth(fs)))
    ensures 0 < Largest(fs) <= Total(fs) && Largest(fs) >= (Total(fs) - 1) / |fs| + 1 && 1 <= Depth(fs) <= 255
  {
    hide Total, Largest, Depth;
    TotalBelowLargest(fs);
    MeanAtMost(Total(fs), |fs|, Largest(fs));
    DepthFits(root, fs);
    PositiveFactor(|fs|, Largest(fs));
  }
}
