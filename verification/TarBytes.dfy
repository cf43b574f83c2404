/**
 The archive byte by byte: every field of a header at its offset, when a path is split and where, the
 pax record in front of a path that is not, and the end of the stream.
 */
module TarBytes {
  import opened ByteStrings
  import opened PackageTar
  import opened PackageTree
  import opened Paths
  import opened TarHeader
  import opened Wrappers

  // ------------------------------------------------------------------ the header

  /** b[from..to] begins with the text and goes on with NULs. */
  ghost predicate TextField(b: Bytes, from: nat, to: nat, s: Bytes) {
    && from + |s| <= to <= |b|
    && (forall i :: 0 <= i < |s| ==> b[from + i] == s[i])
    && (forall i :: from + |s| <= i < to ==> b[i] == 0)
  }

  /** b[from..to] is the number in octal digits, padded with zeros in front, and one NUL. */
  ghost predicate OctalText(b: Bytes, from: nat, to: nat, v: nat) {
    && from < to <= |b| && b[to - 1] == 0
    && (forall i :: from <= i < to - 1 ==> 0x30 <= b[i] <= 0x37)
    && TarHeader.Value(b[from..to - 1], 8) == v
  }

  ghost predicate All(b: Bytes, from: nat, to: nat, c: byte) {
    to <= |b| && forall i :: from <= i < to ==> b[i] == c
  }

  lemma TextAt(b: Bytes, from: nat, to: nat, s: Bytes)
    requires from + |s| <= to <= |b| && b[from..to] == Padded(s, to - from)
    ensures TextField(b, from, to, s)
  {
    forall i | 0 <= i < |s| ensures b[from + i] == s[i] { assert b[from + i] == b[from..to][i]; }
    forall i | from + |s| <= i < to ensures b[i] == 0 { assert b[i] == b[from..to][i - from]; }
  }

  lemma OctalAt(b: Bytes, from: nat, to: nat, v: nat)
    requires from < to <= |b| && |Octal(v)| < to - from && b[from..to] == OctalField(v, to - from)
    ensures OctalText(b, from, to, v)
  {
    hide Numeral;
    var f := b[from..to];
    OctalReads(v, to - from);
    assert b[to - 1] == f[to - from - 1];
    assert b[from..to - 1] == f[..to - from - 1];
    forall i | from <= i < to - 1 ensures 0x30 <= b[i] <= 0x37 { assert b[i] == f[..to - from - 1][i - from]; }
  }

  lemma FillAt(b: Bytes, from: nat, to: nat, c: byte)
    requires from <= to <= |b| && b[from..to] == Fill(to - from, c)
    ensures All(b, from, to, c)
  {
    forall i | from <= i < to ensures b[i] == c { assert b[i] == b[from..to][i - from]; }
  }

  /** name, mode, two zero numbers, size, zero time, checksum, type, no link, ustar and version 00, no owners, prefix. */
  lemma HeaderExactly(h: Head)
    requires Fits(h)
    ensures var b := Header(h);
            && |b| == 512
            && TextField(b, 0, 100, h.name) && OctalText(b, 100, 108, h.mode)
            && OctalText(b, 108, 116, 0) && OctalText(b, 116, 124, 0)
            && OctalText(b, 124, 136, h.size) && OctalText(b, 136, 148, 0)
            && b[156] == h.typ && All(b, 157, 257, 0)
            && b[257..265] == [0x75, 0x73, 0x74, 0x61, 0x72, 0, 0x30, 0x30]
            && All(b, 265, 345, 0) && TextField(b, 345, 500, h.prefix) && All(b, 500, 512, 0)
    ensures var b := Header(h);
            && OctalText(b, 148, 155, Sum(b[..148] + Fill(8, 0x20) + b[156..])) && b[155] == 0x20
  {
    hide Numeral, Header, SumAgrees, TextField, OctalText, Padded, OctalField, Sum;
    var b := Header(h);
    Regions(h, b);
    Rest(h, b);
    TextAt(b, 0, 100, h.name);
    TextAt(b, 345, 500, h.prefix);
    OctalAt(b, 100, 108, h.mode);
    OctalAt(b, 108, 116, 0);
    OctalAt(b, 116, 124, 0);
    OctalAt(b, 124, 136, h.size);
    OctalAt(b, 136, 148, 0);
    FillAt(b, 157, 257, 0);
    FillAt(b, 265, 345, 0);
    FillAt(b, 500, 512, 0);
    MagicIs();
    assert b[257..265] == b[257..263] + b[263..265];
    ChecksumAt(h, b);
  }

  lemma MagicIs()
    ensures Magic() == [0x75, 0x73, 0x74, 0x61, 0x72, 0] && Ascii("00") == [0x30, 0x30]
  {}

  lemma Rest(h: Head, b: Bytes)
    requires Fits(h) && b == Header(h)
    ensures b[157..257] == Fill(100, 0) && b[265..345] == Fill(80, 0) && b[500..512] == Fill(12, 0)
  {
    hide Numeral, Front, Padded, Magic, Ascii, Sum;
    SumFits(Unsummed(h));
    var k := Back(h);
    assert b[156..] == k;
    assert b[157..257] == k[1..101] && b[265..345] == k[109..189] && b[500..512] == k[344..356];
  }

  lemma ChecksumAt(h: Head, b: Bytes)
    requires Fits(h) && b == Header(h)
    ensures OctalText(b, 148, 155, Sum(b[..148] + Fill(8, 0x20) + b[156..])) && b[155] == 0x20
  {
    hide Numeral, Header, Sum;
    CheckReads(h, b);
    var f := b[148..155];
    forall i | 148 <= i < 154 ensures 0x30 <= b[i] <= 0x37 { assert b[i] == f[..6][i - 148]; }
    assert b[148..154] == f[..6] && b[154] == f[6];
  }

  // ----------------------------------------------------------------- the split

  /** A slash that leaves a prefix of at most 155 bytes and a name of 1 to 100. */
  predicate Usable(path: Bytes, k: nat) {
    0 < k < |path| && path[k] == 0x2F && k <= 155 && 1 <= |path| - k - 1 <= 100
  }

  /** A stored path goes into the header whole, or split at its last usable slash; or, where it has none, not at all. */
  lemma SplitExactly(path: Bytes)
    ensures SplitPath(path).Split? <==> 1 <= |path| <= 511 && (|path| <= 100 || exists k: nat :: Usable(path, k))
    ensures 1 <= |path| <= 100 ==> SplitPath(path) == Split(path, [])
    ensures 100 < |path| && SplitPath(path).Split? ==>
              exists k: nat :: Usable(path, k) && SplitPath(path) == Split(path[k + 1..], path[..k]) && forall j: nat :: k < j < |path| ==> !Usable(path, j)
  {
    SplitBeforeMeans(path, |path|);
    if 100 < |path| <= 511 {
      if SplitPath(path).Split? {
        var k :| 0 < k < |path| && SplitsAt(path, k) && SplitPath(path) == Split(path[k + 1..], path[..k])
                 && forall j :: k < j < |path| ==> !SplitsAt(path, j);
        assert Usable(path, k);
        forall j: nat | k < j < |path| ensures !Usable(path, j) { assert !SplitsAt(path, j); }
      } else if k: nat :| Usable(path, k) {
        assert SplitsAt(path, k);
      }
    }
  }

  // --------------------------------------------------------------------- entries

  /** Content and the zeros that fill its last block. */
  ghost predicate Blocks(b: Bytes, content: Bytes) {
    content <= b && |b| % 512 == 0 && |b| < |content| + 512 && forall i :: |content| <= i < |b| ==> b[i] == 0
  }

  lemma BodyBlocks(c: Bytes)
    ensures Blocks(Body(c), c)
  {
    var b := Body(c);
    assert b[..|c|] == c;
    assert |b| % 512 == 0;
  }

  /** What the header of a member's own entry holds. */
  function OwnHead(m: TarMember, name: Bytes, prefix: Bytes): Head {
    Head(name, prefix, if m.isDir then 493 else m.mode, |m.content|, if m.isDir then 0x35 else 0x30)
  }

  /**
   A member whose stored path, a directory's with a closing slash, goes into the header: that header, and a
   file's content in whole blocks.  A member whose path does not: a header of type x for the lone record
   "n path=p\n" that counts its own n bytes, the record in whole blocks, and then the entry under a placeholder.
   */
  lemma EntryExactly(m: TarMember)
    requires Packable(m)
    ensures Entry(m).Some?
    ensures var stored := if m.isDir then m.path + [0x2F] else m.path;
            if SplitPath(stored).Split?
            then
              var h := OwnHead(m, SplitPath(stored).name, SplitPath(stored).prefix);
              exists data :: (if m.isDir then data == [] else Blocks(data, m.content))
                             && Fits(h) && Entry(m).value == Header(h) + data
            else
              var h := OwnHead(m, Ascii("PaxPayload/aiiospkg"), []);
              exists n: nat, record, data ::
                && record == Decimal(|record|) + [0x20, 0x70, 0x61, 0x74, 0x68, 0x3D] + m.path + [0x0A] && |record| == n
                && var x := Head(Ascii("PaxHeaders/aiiospkg"), [], 420, n, 0x78);
                   exists padded :: Blocks(padded, record) && (if m.isDir then data == [] else Blocks(data, m.content))
                     && Fits(x) && Fits(h) && Entry(m).value == Header(x) + padded + Header(h) + data
  {
    hide SplitPath, Header, PaxRecord, Numeral, Blocks, Body, Ascii, Fits;
    var stored := Stored(m);
    var data := DataBlocks(m);
    BodyBlocks(m.content);
    if SplitPath(stored).Split? {
      OwnHeader(stored, m);
    } else {
      PlaceholdersSplit();
      ShortNames();
      OwnHeader(PaxPlaceholder(), m);
      PaxIsSelfConsistent(m.path);
      var record := PaxRecord(m.path);
      BodyBlocks(record);
      PaxHeader(|record|);
      RecordIs(m.path);
      var x, h := Head(Ascii("PaxHeaders/aiiospkg"), [], 420, |record|, 0x78), OwnHead(m, Ascii("PaxPayload/aiiospkg"), []);
      var padded := Body(record);
      assert Entry(m).value == Header(x) + padded + Header(h) + data;
    }
  }

  lemma ShortNames()
    ensures SplitPath(PaxHeaderPath()) == Split(Ascii("PaxHeaders/aiiospkg"), [])
    ensures SplitPath(PaxPlaceholder()) == Split(Ascii("PaxPayload/aiiospkg"), [])
  {}

  lemma PaxHeader(n: nat)
    requires n <= 521
    ensures var x := Head(Ascii("PaxHeaders/aiiospkg"), [], 420, n, 0x78);
            Fits(x) && HeaderFor(PaxHeaderPath(), n, MODE_REGULAR, PAX_LOCAL) == Some(Header(x))
  {
    hide SplitPath, Header, Numeral, Ascii;
    ShortNames();
    PlaceholdersSplit();
    HeaderExists(PaxHeaderPath(), n, MODE_REGULAR, PAX_LOCAL);
  }

  lemma OwnHeader(stored: Bytes, m: TarMember)
    requires Packable(m) && SplitPath(stored).Split?
    ensures var h := OwnHead(m, SplitPath(stored).name, SplitPath(stored).prefix);
            Fits(h) && HeaderAt(stored, m) == Some(Header(h))
  {
    hide SplitPath, Header, Numeral;
    HeaderExists(stored, |m.content|, if m.isDir then MODE_DIR else m.mode, if m.isDir then DIRECTORY else REGULAR);
  }

  lemma RecordIs(path: Bytes)
    requires PathInBounds(path)
    ensures var r := PaxRecord(path);
            r == Decimal(|r|) + [0x20, 0x70, 0x61, 0x74, 0x68, 0x3D] + path + [0x0A]
  {
    hide Numeral, PaxTotal;
    PaxIsSelfConsistent(path);
    assert PathKey() == [0x20, 0x70, 0x61, 0x74, 0x68, 0x3D];
  }

  /** The stream is the entries in order and then 1024 zeros. */
  lemma {:induction false} StreamExactly(ms: seq<TarMember>, k: nat)
    requires Stream(ms).Some? && k <= |ms|
    ensures Stream(ms[k..]).Some?
    ensures k < |ms| ==> Entry(ms[k]).Some? && Stream(ms[k..]).value == Entry(ms[k]).value + Stream(ms[k + 1..]).value
    ensures k == |ms| ==> |Stream(ms[k..]).value| == 1024 && All(Stream(ms[k..]).value, 0, 1024, 0)
    ensures ms[0..] == ms
    decreases |ms|
  {
    hide Entry;
    assert ms[0..] == ms;
    if k == 0 {
      if ms != [] { assert ms[1..] == ms[0 + 1..]; }
    } else {
      StreamExactly(ms[1..], k - 1);
      assert ms[1..][k - 1..] == ms[k..];
      if k < |ms| { assert ms[1..][k..] == ms[k + 1..]; }
    }
  }
}
