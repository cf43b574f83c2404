/**
 Slash-separated member paths: components, byte order, ASCII case folding, and the
 pairwise check for siblings that a case-folding filesystem would merge.
 */
module Paths {
  import opened ByteStrings

  predicate NoSlash(s: Bytes) {
    forall i :: 0 <= i < |s| ==> s[i] != SLASH
  }

  /** The first component. */
  function Head(p: Bytes): (h: Bytes)
    ensures |h| <= |p| && h == p[..|h|] && NoSlash(h)
    ensures |h| < |p| ==> p[|h|] == SLASH
  {
    if p == [] || p[0] == SLASH then [] else
      assert p == [p[0]] + p[1..];
      [p[0]] + Head(p[1..])
  }

  /** strings.Split at slashes. */
  function Components(p: Bytes): (cs: seq<Bytes>)
    ensures cs != []
    decreases |p|
  {
    var h := Head(p);
    if |h| == |p| then [h] else [h] + Components(p[|h| + 1..])
  }

  function Lower(c: byte): byte {
    if 0x41 <= c <= 0x5A then c + 0x20 else c
  }

  function Fold(s: Bytes): (f: Bytes)
    ensures |f| == |s| && forall i :: 0 <= i < |s| ==> f[i] == Lower(s[i])
  {
    seq(|s|, i requires 0 <= i < |s| => Lower(s[i]))
  }

  /** Go's string order. */
  predicate Less(a: Bytes, b: Bytes)
    decreases |a|
  {
    b != [] && (a == [] || a[0] < b[0] || (a[0] == b[0] && Less(a[1..], b[1..])))
  }

  lemma {:induction false} LessTrans(a: Bytes, b: Bytes, c: Bytes)
    requires Less(a, b) && Less(b, c)
    ensures Less(a, c)
    decreases |a|
  {
    if a != [] && a[0] == b[0] && b[0] == c[0] { LessTrans(a[1..], b[1..], c[1..]); }
  }

  lemma {:induction false} LessTotal(a: Bytes, b: Bytes)
    ensures Less(a, b) || Less(b, a) || a == b
    ensures !(Less(a, b) && Less(b, a)) && !Less(a, a)
    decreases |a|
  {
    if a != [] && b != [] {
      LessTotal(a[1..], b[1..]);
      LessTotal(a[1..], a[1..]);
      if a[0] == b[0] && a[1..] == b[1..] { assert a == [a[0]] + a[1..] && b == [b[0]] + b[1..]; }
    } else if a != [] {
      LessTotal(a[1..], a[1..]);
    }
  }

  /** A proper prefix comes first. */
  lemma {:induction false} PrefixLess(p: Bytes, i: nat)
    requires i < |p|
    ensures Less(p[..i], p)
  {
    if i > 0 {
      PrefixLess(p[1..], i - 1);
      assert p[..i][1..] == p[1..][..i - 1];
    }
  }

  /** a comes before b byte by byte: it is a proper prefix, or smaller at the first byte where they differ. */
  ghost predicate Rises(a: Bytes, b: Bytes) {
    || (|a| < |b| && b[..|a|] == a)
    || exists i :: 0 <= i < |a| && i < |b| && a[..i] == b[..i] && a[i] < b[i]
  }

  lemma {:induction false} LessRises(a: Bytes, b: Bytes)
    requires Less(a, b)
    ensures Rises(a, b)
    decreases |a|
  {
    if a == [] {
      assert b[..0] == a;
    } else if a[0] < b[0] {
      assert a[..0] == b[..0];
    } else {
      LessRises(a[1..], b[1..]);
      if |a| < |b| && b[1..][..|a| - 1] == a[1..] {
        assert b[..|a|] == [b[0]] + b[1..][..|a| - 1] && a == [a[0]] + a[1..];
      } else {
        var i :| 0 <= i < |a[1..]| && i < |b[1..]| && a[1..][..i] == b[1..][..i] && a[1..][i] < b[1..][i];
        assert a[..i + 1] == [a[0]] + a[1..][..i] && b[..i + 1] == [b[0]] + b[1..][..i];
        assert a[i + 1] < b[i + 1];
      }
    }
  }

  lemma {:induction false} DiffersLess(a: Bytes, b: Bytes, i: nat)
    requires i < |a| && i < |b| && a[..i] == b[..i] && a[i] < b[i]
    ensures Less(a, b)
    decreases i
  {
    if i > 0 {
      assert a[0] == a[..i][0] && b[0] == b[..i][0];
      assert a[1..][..i - 1] == a[..i][1..] && b[1..][..i - 1] == b[..i][1..];
      DiffersLess(a[1..], b[1..], i - 1);
    }
  }

  /** The order of the program is the order of bytes. */
  lemma LessExactly(a: Bytes, b: Bytes)
    ensures Less(a, b) <==> Rises(a, b)
  {
    hide Less;
    if Less(a, b) { LessRises(a, b); }
    if |a| < |b| && b[..|a|] == a { PrefixLess(b, |a|); }
    if i :| 0 <= i < |a| && i < |b| && a[..i] == b[..i] && a[i] < b[i] { DiffersLess(a, b, i); }
  }

  // --------------------------------------------------------------- collisions

  /** casefoldSiblingCollision: at the first components that differ, only letter case does. */
  predicate Collides(l: Bytes, r: Bytes)
    decreases |l|
  {
    var a, b := Head(l), Head(r);
    if Fold(a) != Fold(b) then false
    else if a != b then true
    else if |a| == |l| || |b| == |r| then false
    else Collides(l[|a| + 1..], r[|b| + 1..])
  }

  method FoldEqual(a: Bytes, b: Bytes) returns (same: bool, exact: bool)
    ensures same <==> Fold(a) == Fold(b)
    ensures same ==> (exact <==> a == b)
  {
    if |a| != |b| {
      assert |Fold(a)| != |Fold(b)|;
      return false, false;
    }
    exact := true;
    var i := 0;
    while i < |a|
      invariant 0 <= i <= |a|
      invariant forall j :: 0 <= j < i ==> Fold(a)[j] == Fold(b)[j]
      invariant exact <==> forall j :: 0 <= j < i ==> a[j] == b[j]
    {
      if Lower(a[i]) != Lower(b[i]) {
        assert Fold(a)[i] != Fold(b)[i];
        return false, false;
      }
      if a[i] != b[i] {
        exact := false;
      }
      i := i + 1;
    }
    return true, exact;
  }

  method CasefoldSiblingCollision(left: Bytes, right: Bytes) returns (collide: bool)
    ensures collide <==> Collides(left, right)
  {
    var l, r := left, right;
    while true
      invariant Collides(left, right) <==> Collides(l, r)
      decreases |l|
    {
      var lc, rc := Head(l), Head(r);
      var same, exact := FoldEqual(lc, rc);
      if !same {
        return false;
      }
      if !exact {
        return true;
      }
      if |lc| == |l| || |rc| == |r| {
        return false;
      }
      l, r := l[|lc| + 1..], r[|rc| + 1..];
    }
  }

  /** What a collision is: the components agree up to some place, and there differ in case alone. */
  ghost predicate MergedAt(cs: seq<Bytes>, ds: seq<Bytes>, i: nat) {
    i < |cs| && i < |ds| && cs[..i] == ds[..i] && cs[i] != ds[i] && Fold(cs[i]) == Fold(ds[i])
  }

  lemma ComponentsStep(p: Bytes)
    requires |Head(p)| < |p|
    ensures Components(p) == [Head(p)] + Components(p[|Head(p)| + 1..])
  {}

  lemma ComponentsHead(p: Bytes)
    ensures Components(p)[0] == Head(p) && (|Components(p)| > 1 <==> |Head(p)| < |p|)
  {}

  lemma MergedStep(c: Bytes, cs: seq<Bytes>, ds: seq<Bytes>, i: nat)
    ensures MergedAt([c] + cs, [c] + ds, i + 1) <==> MergedAt(cs, ds, i)
  {
    var xs: seq<Bytes>, ys: seq<Bytes> := [c] + cs, [c] + ds;
    if i < |cs| && i < |ds| {
      assert xs[..i + 1] == [c] + cs[..i] && ys[..i + 1] == [c] + ds[..i];
      assert cs[..i] == xs[..i + 1][1..] && ds[..i] == ys[..i + 1][1..];
    }
  }

  lemma {:induction false} CollisionMerges(l: Bytes, r: Bytes) returns (i: nat)
    requires Collides(l, r)
    ensures MergedAt(Components(l), Components(r), i)
    decreases |l|
  {
    hide Head, Components, Fold;
    ComponentsHead(l);
    ComponentsHead(r);
    var a, b := Head(l), Head(r);
    if a != b {
      i := 0;
    } else {
      hide MergedAt;
      var m, n := l[|a| + 1..], r[|b| + 1..];
      ComponentsStep(l);
      ComponentsStep(r);
      var k := CollisionMerges(m, n);
      MergedStep(a, Components(m), Components(n), k);
      i := k + 1;
    }
  }

  lemma {:induction false} MergedCollides(l: Bytes, r: Bytes, i: nat)
    requires MergedAt(Components(l), Components(r), i)
    ensures Collides(l, r)
    decreases |l|
  {
    hide Head, Components, Fold;
    ComponentsHead(l);
    ComponentsHead(r);
    if i > 0 {
      var a := Head(l);
      assert Components(l)[..i][0] == Components(r)[..i][0];
      ComponentsStep(l);
      ComponentsStep(r);
      MergedStep(a, Components(l[|a| + 1..]), Components(r[|a| + 1..]), i - 1);
      MergedCollides(l[|a| + 1..], r[|a| + 1..], i - 1);
    }
  }

  ghost predicate Merges(cs: seq<Bytes>, ds: seq<Bytes>) {
    exists i: nat :: MergedAt(cs, ds, i)
  }

  lemma CollidesMeans(l: Bytes, r: Bytes)
    ensures Collides(l, r) <==> Merges(Components(l), Components(r))
  {
    hide Collides, Components, MergedAt;
    if Collides(l, r) {
      var i := CollisionMerges(l, r);
    }
    if Merges(Components(l), Components(r)) {
      var i: nat :| MergedAt(Components(l), Components(r), i);
      MergedCollides(l, r, i);
    }
  }

  lemma NoSlashBefore(p: Bytes, n: nat)
    requires n <= |p| && NoSlash(p[..n])
    ensures forall i :: 0 <= i < n ==> p[i] != SLASH
  {
    forall i | 0 <= i < n ensures p[i] != SLASH {
      assert p[i] == p[..n][i];
    }
  }

  lemma NoSlashFrom(p: Bytes, c: nat)
    requires c <= |p| && NoSlash(p[c..])
    ensures forall i :: c <= i < |p| ==> p[i] != SLASH
  {
    forall i | c <= i < |p| ensures p[i] != SLASH {
      assert p[i] == p[c..][i - c];
    }
  }

  lemma HeadUnique(p: Bytes, n: nat)
    requires n <= |p| && NoSlash(p[..n]) && (n < |p| ==> p[n] == SLASH)
    ensures Head(p) == p[..n]
  {
    hide Head;
    NoSlashBefore(p, n);
    NoSlashBefore(p, |Head(p)|);
  }

  lemma FoldParts(l: Bytes, r: Bytes, n: nat)
    requires Fold(l) == Fold(r) && n <= |l|
    ensures |l| == |r| && Fold(l[..n]) == Fold(r[..n]) && Fold(l[n..]) == Fold(r[n..])
  {
    assert |l| == |Fold(l)| == |r|;
    forall i | 0 <= i < |l| ensures Lower(l[i]) == Lower(r[i]) {
      assert Fold(l)[i] == Fold(r)[i];
    }
  }

  lemma FoldSlash(l: Bytes, r: Bytes, i: nat)
    requires Fold(l) == Fold(r) && i < |l|
    ensures |l| == |r| && (l[i] == SLASH <==> r[i] == SLASH)
  {
    assert |l| == |Fold(l)| == |r|;
    assert Fold(l)[i] == Fold(r)[i];
  }

  lemma FoldNoSlashes(l: Bytes, r: Bytes, n: nat)
    requires Fold(l) == Fold(r) && n <= |l| && NoSlash(l[..n])
    ensures |l| == |r| && NoSlash(r[..n])
  {
    hide Fold;
    assert |l| == |Fold(l)| == |r|;
    NoSlashBefore(l, n);
    forall i | 0 <= i < n ensures r[..n][i] != SLASH {
      FoldSlash(l, r, i);
      assert r[..n][i] == r[i];
    }
  }

  /** Where two folded paths agree, so do their first components. */
  lemma {:induction false} FoldHead(l: Bytes, r: Bytes)
    requires Fold(l) == Fold(r)
    ensures |l| == |r| && |Head(l)| == |Head(r)| && Fold(Head(l)) == Fold(Head(r))
    ensures |Head(l)| < |l| ==> Fold(l[|Head(l)| + 1..]) == Fold(r[|Head(r)| + 1..])
  {
    hide Head, Fold, Lower, NoSlash;
    var n := |Head(l)|;
    FoldNoSlashes(l, r, n);
    if n < |l| {
      FoldSlash(l, r, n);
      FoldParts(l, r, n + 1);
    }
    HeadUnique(r, n);
    FoldParts(l, r, n);
  }

  /** A path is its first component, and what follows the slash. */
  lemma HeadSplit(p: Bytes)
    ensures |Head(p)| == |p| ==> p == Head(p)
    ensures |Head(p)| < |p| ==> p == Head(p) + [SLASH] + p[|Head(p)| + 1..]
  {
    hide Head;
  }

  /** Two different paths with the same folding collide. */
  lemma {:induction false} SameFoldCollides(l: Bytes, r: Bytes)
    requires l != r && Fold(l) == Fold(r)
    ensures Collides(l, r)
    decreases |l|
  {
    hide Head, Fold;
    FoldHead(l, r);
    HeadSplit(l);
    HeadSplit(r);
    var a, b := Head(l), Head(r);
    if a == b {
      assert |a| < |l|;
      SameFoldCollides(l[|a| + 1..], r[|b| + 1..]);
    }
  }

  /** Two texts fold alike exactly when they differ at most in the case of ASCII letters. */
  lemma FoldsAlike(a: Bytes, b: Bytes)
    ensures Fold(a) == Fold(b) <==>
              |a| == |b| && forall i :: 0 <= i < |a| ==>
                a[i] == b[i] || (0x41 <= a[i] <= 0x5A && b[i] == a[i] + 0x20) || (0x41 <= b[i] <= 0x5A && a[i] == b[i] + 0x20)
  {
    if Fold(a) == Fold(b) {
      assert |Fold(a)| == |Fold(b)|;
      forall i | 0 <= i < |a|
        ensures a[i] == b[i] || (0x41 <= a[i] <= 0x5A && b[i] == a[i] + 0x20) || (0x41 <= b[i] <= 0x5A && a[i] == b[i] + 0x20)
      {
        assert Fold(a)[i] == Fold(b)[i];
      }
    }
  }

  /** Texts joined with slashes. */
  function Joined(cs: seq<Bytes>): Bytes {
    if cs == [] then [] else if |cs| == 1 then cs[0] else cs[0] + [0x2F] + Joined(cs[1..])
  }

  /** The components of a path are the one list of texts without a slash that joins back to it. */
  lemma {:induction false} ComponentsExactly(p: Bytes, cs: seq<Bytes>)
    requires cs != []
    ensures Components(p) == cs <==> p == Joined(cs) && forall i :: 0 <= i < |cs| ==> 0x2F !in cs[i]
    decreases |p|, |cs|
  {
    hide Head;
    HeadSplit(p);
    var h := Head(p);
    if |h| < |p| {
      var rest := p[|h| + 1..];
      ComponentsStep(p);
      if |cs| > 1 {
        ComponentsExactly(rest, cs[1..]);
        assert cs == [cs[0]] + cs[1..];
        if p == Joined(cs) && forall i :: 0 <= i < |cs| ==> 0x2F !in cs[i] {
          assert p[..|cs[0]|] == cs[0] && p[|cs[0]| + 1..] == Joined(cs[1..]);
          HeadUnique(p, |cs[0]|);
          assert forall i :: 0 <= i < |cs[1..]| ==> cs[1..][i] == cs[i + 1];
        }
        if Components(p) == cs {
          assert cs[1..] == Components(rest);
          assert forall i :: 1 <= i < |cs| ==> cs[i] == cs[1..][i - 1];
        }
      } else {
        assert |Components(rest)| > 0;
        assert p[|h|] == 0x2F;
      }
    } else {
      assert forall i :: 0 <= i < |p| ==> p[i] != 0x2F;
      if |cs| > 1 { assert Joined(cs)[|cs[0]|] == 0x2F; }
    }
  }

  // ------------------------------------------------------- the one-pass key

  /** Where the last component begins. */
  function LastCut(p: Bytes): (c: nat)
    ensures c <= |p| && (c > 0 ==> p[c - 1] == SLASH) && NoSlash(p[c..])
  {
    if p == [] then 0
    else if p[|p| - 1] == SLASH then |p|
    else
      var c := LastCut(p[..|p| - 1]);
      assert p[c..] == p[..|p| - 1][c..] + [p[|p| - 1]];
      c
  }

  /** The parent as it is, the last component folded. */
  function SiblingKey(p: Bytes): Bytes {
    p[..LastCut(p)] + Fold(p[LastCut(p)..])
  }

  /** casefoldSiblings: one pass over the paths with a map from keys. */
  method CasefoldSiblings(paths: seq<Bytes>) returns (first: Bytes, second: Bytes, collide: bool)
    ensures collide <==> KeyClash(paths)
    ensures collide ==> first in paths && second in paths && first != second && SiblingKey(first) == SiblingKey(second)
  {
    hide SiblingKey;
    var seen: map<Bytes, Bytes> := map[];
    var n := 0;
    while n < |paths|
      invariant 0 <= n <= |paths|
      invariant forall i :: 0 <= i < n ==> SiblingKey(paths[i]) in seen && seen[SiblingKey(paths[i])] == paths[i]
      invariant forall k :: k in seen ==> seen[k] in paths[..n] && SiblingKey(seen[k]) == k
    {
      var p := paths[n];
      var key := SiblingKey(p);
      if key in seen && seen[key] != p {
        var other := seen[key];
        var i :| 0 <= i < n && paths[..n][i] == other;
        assert paths[i] == other;
        return other, p, true;
      }
      assert paths[..n + 1] == paths[..n] + [p];
      seen := seen[key := p];
      n := n + 1;
    }
    return [], [], false;
  }

  /** Every path's ancestors are paths too. */
  ghost predicate AncestorClosed(paths: seq<Bytes>) {
    forall p, i :: p in paths && 0 <= i < |p| && p[i] == SLASH ==> p[..i] in paths
  }

  lemma CutUnique(p: Bytes, c: nat)
    requires c <= |p| && (c > 0 ==> p[c - 1] == SLASH) && NoSlash(p[c..])
    ensures LastCut(p) == c
  {
    hide LastCut;
    NoSlashFrom(p, c);
    NoSlashFrom(p, LastCut(p));
  }

  lemma HeadUnder(parent: Bytes, x: Bytes)
    requires |Head(parent)| < |parent|
    ensures Head(parent + x) == Head(parent)
  {
    hide Head;
    assert (parent + x)[..|Head(parent)|] == Head(parent);
    HeadUnique(parent + x, |Head(parent)|);
  }

  lemma HeadEnds(parent: Bytes)
    requires parent != [] && parent[|parent| - 1] == SLASH
    ensures |Head(parent)| < |parent|
  {
    hide Head;
    NoSlashBefore(parent, |Head(parent)|);
  }

  /** Under a common parent only the rest decides a collision. */
  lemma {:induction false} CollidesUnder(parent: Bytes, x: Bytes, y: Bytes)
    requires parent != [] ==> parent[|parent| - 1] == SLASH
    ensures Collides(parent + x, parent + y) <==> Collides(x, y)
    decreases |parent|
  {
    hide Head, Fold;
    if parent == [] {
      assert parent + x == x && parent + y == y;
    } else {
      HeadEnds(parent);
      HeadUnder(parent, x);
      HeadUnder(parent, y);
      var n := |Head(parent)| + 1;
      var rest := parent[n..];
      assert (parent + x)[n..] == rest + x && (parent + y)[n..] == rest + y;
      CollidesUnder(rest, x, y);
    }
  }

  lemma FoldNoSlash(s: Bytes)
    requires NoSlash(s)
    ensures NoSlash(Fold(s))
  {
    forall i | 0 <= i < |s| ensures Fold(s)[i] != SLASH {
      assert s[i] in s;
    }
  }

  /** A key cuts where its path does. */
  lemma KeyCut(p: Bytes)
    ensures LastCut(SiblingKey(p)) == LastCut(p)
    ensures |SiblingKey(p)| == |p| && SiblingKey(p)[..LastCut(p)] == p[..LastCut(p)]
    ensures SiblingKey(p)[LastCut(p)..] == Fold(p[LastCut(p)..])
  {
    hide LastCut, Fold;
    var c, k := LastCut(p), SiblingKey(p);
    FoldNoSlash(p[c..]);
    assert k[c..] == Fold(p[c..]);
    if c > 0 { assert k[c - 1] == p[c - 1]; }
    CutUnique(k, c);
  }

  /** Different paths with one key collide. */
  lemma SameKeyCollides(p: Bytes, q: Bytes)
    requires p != q && SiblingKey(p) == SiblingKey(q)
    ensures Collides(p, q)
  {
    hide SiblingKey, LastCut, Fold;
    KeyCut(p);
    KeyCut(q);
    var c := LastCut(p);
    var x, y := p[c..], q[c..];
    assert p == p[..c] + x && q == q[..c] + y;
    SameFoldCollides(x, y);
    CollidesUnder(p[..c], x, y);
  }

  lemma KeyUnder(parent: Bytes, a: Bytes)
    requires (parent != [] ==> parent[|parent| - 1] == SLASH) && NoSlash(a)
    ensures SiblingKey(parent + a) == parent + Fold(a)
  {
    hide LastCut, Fold;
    assert (parent + a)[|parent|..] == a && (parent + a)[..|parent|] == parent;
    CutUnique(parent + a, |parent|);
  }

  /** i is a place where a path may be cut into an ancestor: at a slash or at the end. */
  predicate CutPlace(p: Bytes, i: nat) {
    i == |p| || (i < |p| && p[i] == SLASH)
  }

  ghost predicate ClashAt(p: Bytes, q: Bytes, i: nat) {
    CutPlace(p, i) && CutPlace(q, i) && p[..i] != q[..i] && SiblingKey(p[..i]) == SiblingKey(q[..i])
  }

  lemma CutUnder(parent: Bytes, x: Bytes)
    ensures (parent + x)[..|parent| + |Head(x)|] == parent + Head(x)
    ensures CutPlace(parent + x, |parent| + |Head(x)|)
  {
    hide Head;
    var n := |Head(x)|;
    assert (parent + x)[..|parent| + n] == parent + x[..n];
  }

  lemma {:induction false} ClashHere(parent: Bytes, x: Bytes, y: Bytes)
    requires parent != [] ==> parent[|parent| - 1] == SLASH
    requires Head(x) != Head(y) && Fold(Head(x)) == Fold(Head(y))
    ensures ClashAt(parent + x, parent + y, |parent| + |Head(x)|)
  {
    hide Head, SiblingKey, Fold, CutPlace;
    var a, b := Head(x), Head(y);
    assert |a| == |Fold(a)| == |Fold(b)| == |b|;
    CutUnder(parent, x);
    CutUnder(parent, y);
    KeyUnder(parent, a);
    KeyUnder(parent, b);
    assert (parent + a)[|parent|..] == a && (parent + b)[|parent|..] == b;
  }

  lemma Regroup(parent: Bytes, x: Bytes)
    requires |Head(x)| < |x|
    ensures parent + x == (parent + Head(x) + [SLASH]) + x[|Head(x)| + 1..]
  {
    hide Head;
    HeadSplit(x);
    var a, m := Head(x), x[|Head(x)| + 1..];
    assert parent + (a + [SLASH] + m) == (parent + a + [SLASH]) + m;
  }

  /** Colliding paths have colliding ancestors, or are themselves, siblings with one key. */
  lemma {:induction false} CollisionPoint(parent: Bytes, x: Bytes, y: Bytes) returns (i: nat)
    requires parent != [] ==> parent[|parent| - 1] == SLASH
    requires Collides(x, y)
    ensures ClashAt(parent + x, parent + y, i)
    decreases |x|
  {
    hide Head, Fold, ClashAt;
    if Head(x) != Head(y) {
      i := |parent| + |Head(x)|;
      ClashHere(parent, x, y);
    } else {
      Regroup(parent, x);
      Regroup(parent, y);
      i := CollisionPoint(parent + Head(x) + [SLASH], x[|Head(x)| + 1..], y[|Head(y)| + 1..]);
    }
  }

  ghost predicate KeyClash(paths: seq<Bytes>) {
    exists i, j :: 0 <= i < j < |paths| && paths[i] != paths[j] && SiblingKey(paths[i]) == SiblingKey(paths[j])
  }

  ghost predicate PairClash(paths: seq<Bytes>) {
    exists i, j :: 0 <= i < j < |paths| && Collides(paths[i], paths[j])
  }

  lemma ClashOf(paths: seq<Bytes>, u: Bytes, v: Bytes)
    requires u in paths && v in paths && u != v && SiblingKey(u) == SiblingKey(v)
    ensures KeyClash(paths)
  {
    hide SiblingKey;
    var s :| 0 <= s < |paths| && paths[s] == u;
    var t :| 0 <= t < |paths| && paths[t] == v;
    var i, j := if s < t then s else t, if s < t then t else s;
    assert 0 <= i < j < |paths| && paths[i] != paths[j] && SiblingKey(paths[i]) == SiblingKey(paths[j]);
  }

  lemma CutIsPath(paths: seq<Bytes>, p: Bytes, i: nat)
    requires AncestorClosed(paths) && p in paths && CutPlace(p, i)
    ensures p[..i] in paths
  {
    if i == |p| { assert p[..i] == p; }
  }

  /** On an ancestor-closed list the one pass finds a collision exactly when some pair collides. */
  lemma OnePassIsExact(paths: seq<Bytes>)
    requires AncestorClosed(paths)
    ensures KeyClash(paths) <==> PairClash(paths)
  {
    hide SiblingKey, Collides, AncestorClosed;
    if KeyClash(paths) {
      var i, j :| 0 <= i < j < |paths| && paths[i] != paths[j] && SiblingKey(paths[i]) == SiblingKey(paths[j]);
      SameKeyCollides(paths[i], paths[j]);
    }
    if PairClash(paths) {
      var i, j :| 0 <= i < j < |paths| && Collides(paths[i], paths[j]);
      var p, q := paths[i], paths[j];
      assert [] + p == p && [] + q == q;
      var k := CollisionPoint([], p, q);
      CutIsPath(paths, p, k);
      CutIsPath(paths, q, k);
      ClashOf(paths, p[..k], q[..k]);
    }
  }
}
