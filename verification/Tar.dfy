/**
 The canonical package archive: ustar members with pax path records where a path does not
 fit ("pax Extended Header", pax utility, IEEE Std 1003.1), and an independent reader.
 */
module PackageTar {
  import opened ByteStrings
  import opened PackageTree
  import opened Paths
  import opened TarHeader
  import opened Wrappers

  // ------------------------------------------------------------ the pax path record

  function Decimal(n: nat): Bytes {
    Numeral(n, 10)
  }

  /** The shortest length that counts its own digits: length, blank, "path=", the path, newline. */
  function PaxTotal(n: nat): nat {
    if n + 8 < 10 then n + 8 else if n + 9 < 100 then n + 9 else n + 10
  }

  function PathKey(): (k: Bytes)
    ensures |k| == 6
  {
    Ascii(" path=")
  }

  function PaxRecord(path: Bytes): Bytes {
    Decimal(PaxTotal(|path|)) + PathKey() + path + [0x0A]
  }

  predicate PathInBounds(path: Bytes) {
    1 <= |path| <= MAX_MEMBER_PATH_BYTES
  }

  lemma DecimalWidth(n: nat)
    requires n < 1000
    ensures |Decimal(n)| == if n < 10 then 1 else if n < 100 then 2 else 3
  {
    assert n >= 10 ==> Numeral(n, 10) == Numeral(n / 10, 10) + [ZERO + n % 10];
    assert n >= 100 ==> Numeral(n / 10, 10) == Numeral(n / 10 / 10, 10) + [ZERO + n / 10 % 10];
  }

  /** The record's length is the number it begins with, and no smaller number would do. */
  lemma PaxIsSelfConsistent(path: Bytes)
    requires PathInBounds(path)
    ensures |PaxRecord(path)| == PaxTotal(|path|) <= 521
    ensures forall t: nat :: t == |path| + 7 + |Decimal(t)| ==> PaxTotal(|path|) <= t
  {
    DecimalWidth(PaxTotal(|path|));
    forall t: nat | t == |path| + 7 + |Decimal(t)| ensures PaxTotal(|path|) <= t {
      if t < 1000 { DecimalWidth(t); }
    }
  }

  /** paxBuildPathRecord; that its self-consistency error is never raised is part of the contract. */
  method PaxBuildPathRecord(path: Bytes) returns (record: Bytes, ok: bool)
    ensures ok <==> PathInBounds(path)
    ensures ok ==> record == PaxRecord(path)
  {
    hide Numeral, Decimal;
    if |path| == 0 || |path| > MAX_MEMBER_PATH_BYTES {
      return [], false;
    }
    var digits := 1;
    var total := |path| + 7 + digits;
    DecimalWidth(total);
    while |Decimal(total)| != digits
      invariant total == |path| + 7 + digits <= PaxTotal(|path|)
      invariant 1 <= digits <= |Decimal(total)| <= 3
      decreases 4 - digits
    {
      digits := |Decimal(total)|;
      DecimalWidth(total);
      total := |path| + 7 + digits;
      DecimalWidth(total);
    }
    DecimalWidth(total);
    record := Decimal(total) + PathKey() + path + [0x0A];
    if |record| != total {
      return [], false;
    }
    return record, true;
  }

  // --------------------------------------------------------------------- the stream

  function Padding(n: nat): nat {
    if n % BLOCK == 0 then 0 else BLOCK - n % BLOCK
  }

  function Body(c: Bytes): (b: Bytes)
    ensures |b| == |c| + Padding(|c|)
  {
    c + Fill(Padding(|c|), 0)
  }

  function PaxHeaderPath(): Bytes {
    Ascii("PaxHeaders/aiiospkg")
  }

  function PaxPlaceholder(): Bytes {
    Ascii("PaxPayload/aiiospkg")
  }

  function Stored(m: TarMember): Bytes {
    if m.isDir then m.path + [SLASH] else m.path
  }

  function HeaderAt(stored: Bytes, m: TarMember): Option<Bytes> {
    if m.isDir then HeaderFor(stored, |m.content|, MODE_DIR, DIRECTORY)
    else HeaderFor(stored, |m.content|, m.mode, REGULAR)
  }

  function DataBlocks(m: TarMember): Bytes {
    if m.isDir then [] else Body(m.content)
  }

  function PaxPart(path: Bytes): Option<Bytes> {
    if !PathInBounds(path) then None
    else
      var h := HeaderFor(PaxHeaderPath(), |PaxRecord(path)|, MODE_REGULAR, PAX_LOCAL);
      if h.None? then None else Some(h.value + Body(PaxRecord(path)))
  }

  /** The bytes of one member, or None where the packer answers an error. */
  function Entry(m: TarMember): Option<Bytes> {
    if SplitPath(Stored(m)).Split? then
      var h := HeaderAt(Stored(m), m);
      if h.None? then None else Some(h.value + DataBlocks(m))
    else
      var x, h := PaxPart(m.path), HeaderAt(PaxPlaceholder(), m);
      if x.None? || h.None? then None else Some(x.value + h.value + DataBlocks(m))
  }

  function Stream(ms: seq<TarMember>): Option<Bytes> {
    if ms == [] then Some(Fill(2 * BLOCK, 0))
    else
      var e, rest := Entry(ms[0]), Stream(ms[1..]);
      if e.None? || rest.None? then None else Some(e.value + rest.value)
  }

  method WriteBlockPadding(buf: Bytes, n: nat) returns (out: Bytes)
    ensures out == buf + Fill(Padding(n), 0)
  {
    var pad := n % BLOCK;
    if pad != 0 {
      return buf + Fill(BLOCK - pad, 0);
    }
    assert Fill(0, 0) == [];
    return buf;
  }

  method PathFitsUstar(stored: Bytes) returns (fits: bool)
    ensures fits <==> SplitPath(stored).Split?
  {
    var name, prefix, ok := TarSplitPath(stored);
    return ok;
  }

  /** One turn of the packer's loop. */
  method WriteMember(buf: Bytes, m: TarMember) returns (out: Bytes, ok: bool)
    ensures ok <==> Entry(m).Some?
    ensures ok ==> out == buf + Entry(m).value
  {
    hide SplitPath, HeaderFor, Numeral, PaxRecord, Ascii, Padding;
    out := buf;
    var typ, mode := REGULAR, m.mode;
    if m.isDir { typ, mode := DIRECTORY, MODE_DIR; }
    var stored := m.path;
    if m.isDir { stored := stored + [SLASH]; }
    var fits := PathFitsUstar(stored);
    if fits {
      var hdr, good := BuildTarHeader(stored, |m.content|, mode, typ);
      if !good { return out, false; }
      out := out + hdr[..];
    } else {
      var record, recorded := PaxBuildPathRecord(m.path);
      if !recorded { return out, false; }
      var paxHdr, paxed := BuildTarHeader(PaxHeaderPath(), |record|, MODE_REGULAR, PAX_LOCAL);
      if !paxed { return out, false; }
      out := out + paxHdr[..];
      out := out + record;
      out := WriteBlockPadding(out, |record|);
      var hdr, good := BuildTarHeader(PaxPlaceholder(), |m.content|, mode, typ);
      if !good { return out, false; }
      assert out == buf + PaxPart(m.path).value;
      out := out + hdr[..];
    }
    ghost var headed := out;
    if !m.isDir {
      out := out + m.content;
      out := WriteBlockPadding(out, |m.content|);
    }
    assert out == headed + DataBlocks(m);
    return out, true;
  }

  function Before(b: Bytes, s: Option<Bytes>): Option<Bytes> {
    if s.None? then None else Some(b + s.value)
  }

  lemma BeforeNothing(s: Option<Bytes>)
    ensures Before([], s) == s
  {
    if s.Some? { assert [] + s.value == s.value; }
  }

  method WriteCanonicalTar(ms: seq<TarMember>) returns (tar: Bytes, ok: bool)
    ensures ok <==> Stream(ms).Some?
    ensures ok ==> Stream(ms) == Some(tar)
  {
    hide Entry;
    tar := [];
    var i := 0;
    assert ms[0..] == ms;
    BeforeNothing(Stream(ms));
    while i < |ms|
      invariant 0 <= i <= |ms|
      invariant Stream(ms) == Before(tar, Stream(ms[i..]))
    {
      ghost var rest := ms[i..];
      assert rest[0] == ms[i] && rest[1..] == ms[i + 1..];
      ghost var before := tar;
      var good;
      tar, good := WriteMember(tar, ms[i]);
      if !good {
        return [], false;
      }
      ghost var tail := Stream(ms[i + 1..]);
      if tail.Some? {
        assert before + (Entry(ms[i]).value + tail.value) == tar + tail.value;
      }
      i := i + 1;
    }
    return tar + Fill(2 * BLOCK, 0), true;
  }

  // -------------------------------------------------------- an independent reader

  /** The size bytes after a header, when they and their zero padding are there. */
  function Take(s: Bytes, size: nat): Option<Bytes> {
    if |s| >= BLOCK + size + Padding(size) && s[BLOCK + size..BLOCK + size + Padding(size)] == Fill(Padding(size), 0)
    then Some(s[BLOCK..BLOCK + size]) else None
  }

  /** A lone pax record that sets the path. */
  function ParsePath(r: Bytes): Option<Bytes> {
    var d := Digits(r);
    if d > 0 && |r| >= d + 7 && Value(r[..d], 10) == |r| && r[d..d + 6] == PathKey() && r[|r| - 1] == 0x0A
    then Some(r[d + 6..|r| - 1]) else None
  }

  function ReadHead(s: Bytes): Option<Head> {
    if |s| < BLOCK then None else ParseHeader(s[..BLOCK])
  }

  datatype Step = Stuck | Step(m: TarMember, n: nat)

  function TrimSlash(p: Bytes): Bytes {
    if p != [] && p[|p| - 1] == SLASH then p[..|p| - 1] else p
  }

  function Finish(s: Bytes, h: Head, path: Bytes): (r: Step) {
    if h.typ == REGULAR then
      var c := Take(s, h.size);
      if c.None? then Stuck else Step(TarMember(path, false, h.mode, c.value), BLOCK + h.size + Padding(h.size))
    else if h.typ == DIRECTORY && h.size == 0 then Step(TarMember(TrimSlash(path), true, h.mode, []), BLOCK)
    else Stuck
  }

  /** A member, behind its pax header where it has one, and how far it reaches. */
  function ReadEntry(s: Bytes): Step {
    var h := ReadHead(s);
    if h.None? then Stuck
    else if h.value.typ == PAX_LOCAL then
      var c := Take(s, h.value.size);
      if c.None? || ParsePath(c.value).None? then Stuck
      else
        var n := BLOCK + h.value.size + Padding(h.value.size);
        var g := ReadHead(s[n..]);
        if g.None? then Stuck
        else
          var f := Finish(s[n..], g.value, ParsePath(c.value).value);
          if f.Stuck? then Stuck else Step(f.m, n + f.n)
    else Finish(s, h.value, Join(h.value.name, h.value.prefix))
  }

  function ReadTar(s: Bytes): Option<seq<TarMember>>
    decreases |s|
  {
    if s == Fill(2 * BLOCK, 0) then Some([])
    else
      var e := ReadEntry(s);
      if e.Stuck? || e.n == 0 || e.n > |s| then None
      else
        var rest := ReadTar(s[e.n..]);
        if rest.None? then None else Some([e.m] + rest.value)
  }

  // ------------------------------------------------------------------ reading back

  /** A member as Tree.Members lists it. */
  predicate Packable(m: TarMember) {
    && PathInBounds(m.path) && 0 !in m.path && m.path[|m.path| - 1] != SLASH
    && (m.isDir ==> m.mode == MODE_DIR && m.content == [])
    && (!m.isDir ==> (m.mode == MODE_REGULAR || m.mode == MODE_EXECUTABLE) && |m.content| <= MAX_PAYLOAD_BYTES)
  }

  lemma HeaderForReads(stored: Bytes, size: nat, mode: nat, typ: byte, rest: Bytes)
    requires SplitPath(stored).Split? && 0 !in stored && size <= MAX_PAYLOAD_BYTES && mode < 0x200
    ensures HeaderFor(stored, size, mode, typ).Some?
    ensures var s, h := SplitPath(stored), ReadHead(HeaderFor(stored, size, mode, typ).value + rest);
            h == Some(Head(s.name, s.prefix, mode, size, typ)) && Join(s.name, s.prefix) == stored
  {
    hide Numeral, Header, ParseHeader, SplitPath;
    HeaderExists(stored, size, mode, typ);
    SplitJoins(stored);
    var s := SplitPath(stored);
    var h := Head(s.name, s.prefix, mode, size, typ);
    NulFree(s.name, s.prefix);
    HeaderReads(h);
    assert (Header(h) + rest)[..BLOCK] == Header(h);
  }

  lemma NulFree(name: Bytes, prefix: Bytes)
    requires 0 !in Join(name, prefix)
    ensures 0 !in name && 0 !in prefix
  {
    var j := Join(name, prefix);
    if prefix != [] {
      assert forall i :: 0 <= i < |prefix| ==> prefix[i] == j[i];
      assert forall i :: 0 <= i < |name| ==> name[i] == j[|prefix| + 1 + i];
    }
  }

  lemma TakeReads(header: Bytes, c: Bytes, rest: Bytes)
    requires |header| == BLOCK
    ensures Take(header + Body(c) + rest, |c|) == Some(c)
  {
    hide Padding;
    var s := header + Body(c) + rest;
    assert s[BLOCK..BLOCK + |c|] == c;
    assert s[BLOCK + |c|..BLOCK + |c| + Padding(|c|)] == Fill(Padding(|c|), 0);
  }

  lemma {:induction false} DigitsThen(d: Bytes, t: Bytes)
    requires AllDigits(d, 10) && t != [] && !IsDigit(t[0])
    ensures Digits(d + t) == |d|
  {
    if d == [] {
      assert d + t == t;
    } else {
      assert (d + t)[1..] == d[1..] + t;
      DigitsThen(d[1..], t);
    }
  }

  lemma RecordReads(path: Bytes)
    requires PathInBounds(path)
    ensures ParsePath(PaxRecord(path)) == Some(path)
  {
    hide Numeral, Digits, PaxTotal;
    var r, n := PaxRecord(path), Decimal(PaxTotal(|path|));
    PaxIsSelfConsistent(path);
    NumeralReads(PaxTotal(|path|), 10);
    var t := PathKey() + path + [0x0A];
    assert r == n + t;
    assert t[0] == 0x20;
    DigitsThen(n, t);
    assert r[..|n|] == n;
    assert r[|n|..|n| + 6] == PathKey();
    assert r[|n| + 6..|r| - 1] == path;
  }

  /** The end of an entry: the member's own header and its content. */
  lemma FinishReads(stored: Bytes, m: TarMember, path: Bytes, rest: Bytes)
    requires Packable(m) && SplitPath(stored).Split? && 0 !in stored && TrimSlash(path) == m.path && (!m.isDir ==> path == m.path)
    ensures HeaderAt(stored, m).Some?
    ensures var s := HeaderAt(stored, m).value + DataBlocks(m) + rest;
            ReadHead(s).Some? && ReadHead(s).value.typ != PAX_LOCAL
            && Join(ReadHead(s).value.name, ReadHead(s).value.prefix) == stored
            && Finish(s, ReadHead(s).value, path) == Step(m, BLOCK + |DataBlocks(m)|)
  {
    hide HeaderFor, SplitPath, ReadHead, Join, Take, Padding;
    if m.isDir {
      HeaderForReads(stored, 0, MODE_DIR, DIRECTORY, rest);
      var h := HeaderFor(stored, 0, MODE_DIR, DIRECTORY).value;
      assert h + [] + rest == h + rest;
    } else {
      var tail := Body(m.content) + rest;
      HeaderForReads(stored, |m.content|, m.mode, REGULAR, tail);
      var h := HeaderFor(stored, |m.content|, m.mode, REGULAR).value;
      assert h + Body(m.content) + rest == h + tail;
      TakeReads(h, m.content, rest);
    }
  }

  lemma PlaceholdersSplit()
    ensures SplitPath(PaxHeaderPath()).Split? && 0 !in PaxHeaderPath()
    ensures SplitPath(PaxPlaceholder()).Split? && 0 !in PaxPlaceholder()
  {}

  lemma HeaderLength(stored: Bytes, m: TarMember)
    requires HeaderAt(stored, m).Some?
    ensures |HeaderAt(stored, m).value| == BLOCK
  {}

  lemma EntryReads(m: TarMember, rest: Bytes)
    requires Packable(m)
    ensures Entry(m).Some? && ReadEntry(Entry(m).value + rest) == Step(m, |Entry(m).value|)
  {
    hide HeaderAt, HeaderFor, SplitPath, PaxPart, Finish, ReadHead, Join, DataBlocks, TrimSlash;
    StoredTrims(m);
    if SplitPath(Stored(m)).Split? {
      FinishReads(Stored(m), m, Stored(m), rest);
      assert Entry(m).value + rest == HeaderAt(Stored(m), m).value + DataBlocks(m) + rest;
      HeaderLength(Stored(m), m);
    } else {
      PaxEntryReads(m, rest);
    }
  }

  lemma StoredTrims(m: TarMember)
    requires Packable(m)
    ensures 0 !in Stored(m) && TrimSlash(Stored(m)) == m.path && TrimSlash(m.path) == m.path
  {}

  lemma PaxPartReads(path: Bytes, rest: Bytes)
    requires PathInBounds(path)
    ensures PaxPart(path).Some?
    ensures var s, h := PaxPart(path).value + rest, ReadHead(PaxPart(path).value + rest);
            h.Some? && h.value.typ == PAX_LOCAL && Take(s, h.value.size) == Some(PaxRecord(path))
            && BLOCK + h.value.size + Padding(h.value.size) == |PaxPart(path).value|
  {
    hide HeaderFor, SplitPath, ReadHead, Join, Take, Padding, PaxRecord, PaxTotal, Decimal, Numeral;
    PlaceholdersSplit();
    PaxIsSelfConsistent(path);
    var r := PaxRecord(path);
    var tail := Body(r) + rest;
    HeaderForReads(PaxHeaderPath(), |r|, MODE_REGULAR, PAX_LOCAL, tail);
    var h := HeaderFor(PaxHeaderPath(), |r|, MODE_REGULAR, PAX_LOCAL).value;
    assert h + Body(r) + rest == h + tail;
    TakeReads(h, r, rest);
  }

  lemma PaxEntryReads(m: TarMember, rest: Bytes)
    requires Packable(m) && SplitPath(Stored(m)).NoSplit?
    ensures Entry(m).Some? && ReadEntry(Entry(m).value + rest) == Step(m, |Entry(m).value|)
  {
    hide HeaderFor, SplitPath, PaxPart, Finish, ReadHead, Join, DataBlocks, TrimSlash, Stored, Padding, Take, ParsePath;
    StoredTrims(m);
    PlaceholdersSplit();
    FinishReads(PaxPlaceholder(), m, m.path, rest);
    var x, h := PaxPart(m.path), HeaderAt(PaxPlaceholder(), m);
    var tail := h.value + DataBlocks(m) + rest;
    PaxPartReads(m.path, tail);
    RecordReads(m.path);
    var s := Entry(m).value + rest;
    assert s == x.value + tail;
    assert s[|x.value|..] == tail;
  }

  lemma NotTheEnd(s: Bytes)
    requires ReadEntry(s).Step?
    ensures s != Fill(2 * BLOCK, 0)
  {
    assert ReadHead(s).Some?;
    assert s[..BLOCK][257..263] == Magic();
    assert s[257] == s[..BLOCK][257..263][0] == Magic()[0] == 0x75;
  }

  /** The tar stream of any list of packable members reads back to exactly that list. */
  lemma {:induction false} StreamReadsBack(ms: seq<TarMember>)
    requires forall i :: 0 <= i < |ms| ==> Packable(ms[i])
    ensures Stream(ms).Some? && ReadTar(Stream(ms).value) == Some(ms)
  {
    hide Entry, ReadEntry, Packable;
    if ms != [] {
      StreamReadsBack(ms[1..]);
      var rest := Stream(ms[1..]).value;
      EntryReads(ms[0], rest);
      var e := Entry(ms[0]).value;
      NotTheEnd(e + rest);
      EntryNotEmpty(ms[0]);
      assert (e + rest)[|e|..] == rest;
      assert ms == [ms[0]] + ms[1..];
    }
  }

  lemma EntryNotEmpty(m: TarMember)
    requires Entry(m).Some?
    ensures |Entry(m).value| >= BLOCK
  {
    hide HeaderFor, SplitPath, PaxPart;
  }

  // ------------------------------------------------------------ accepted packages

  predicate PlainBytes(s: Bytes) {
    s != [] && 0 !in s && s[|s| - 1] != SLASH
  }

  lemma ComponentBytes(c: Bytes)
    requires ValidComponent(c)
    ensures PlainBytes(c)
  {
    hide DeviceStem;
  }

  lemma JoinedBytes(h: Bytes, rest: Bytes)
    requires PlainBytes(h) && PlainBytes(rest)
    ensures PlainBytes(h + [SLASH] + rest)
  {}

  lemma {:induction false} PathBytes(p: Bytes)
    requires forall i :: 0 <= i < |Components(p)| ==> ValidComponent(Components(p)[i])
    ensures PlainBytes(p)
    decreases |p|
  {
    hide ValidComponent, PlainBytes, Components, Paths.Head;
    var h := Paths.Head(p);
    ComponentsHead(p);
    HeadSplit(p);
    ComponentBytes(h);
    if |h| < |p| {
      ComponentsStep(p);
      var rest := p[|h| + 1..];
      forall i | 0 <= i < |Components(rest)| ensures ValidComponent(Components(rest)[i]) {
        assert Components(rest)[i] == Components(p)[i + 1];
      }
      PathBytes(rest);
      JoinedBytes(h, rest);
    }
  }

  lemma ContentFits(ms: seq<TarMember>, i: nat)
    requires i < |ms| && !ms[i].isDir
    ensures |ms[i].content| <= Payload(ms)
  {
    PayloadMono(ms, i + 1);
    assert ms[..i + 1][|ms[..i + 1]| - 1] == ms[i];
  }

  lemma MembersPackable(t: Tree, ms: seq<TarMember>)
    requires Lists(t, ms) && AcceptedMembers(t.root, ms)
    ensures forall i :: 0 <= i < |ms| ==> Packable(ms[i])
  {
    hide ValidComponent, IsDir, Under, NoSlash, Apart, Payload;
    forall i | 0 <= i < |ms| ensures Packable(ms[i]) {
      assert ms[i] in ms && IsMember(t, ms[i]);
      assert ValidPath(ms[i].path);
      PathBytes(ms[i].path);
      if !ms[i].isDir { ContentFits(ms, i); }
    }
  }

  /** Whatever Tree.Members accepts is packed without an error, and the stream reads back to it. */
  lemma PackageReadsBack(t: Tree, ms: seq<TarMember>)
    requires Lists(t, ms) && Sorted(ms) && AcceptedMembers(t.root, ms)
    ensures Stream(ms).Some? && ReadTar(Stream(ms).value) == Some(ms)
  {
    hide Lists, Sorted, AcceptedMembers, Packable, Stream, ReadTar;
    MembersPackable(t, ms);
    StreamReadsBack(ms);
  }

  // ----------------------------------------------------------------- the ceiling

  const CATALOG_MAX_TAR_BYTES: nat := 2147483648 + 2048 * 512 + 1024 * 1024 + 1023 * 511 + 2 * 512

  function Files(ms: seq<TarMember>): nat {
    if ms == [] then 0 else (if ms[0].isDir then 0 else 1) + Files(ms[1..])
  }

  function Contents(ms: seq<TarMember>): nat {
    if ms == [] then 0 else (if ms[0].isDir then 0 else |ms[0].content|) + Contents(ms[1..])
  }

  lemma {:induction false} ContentsFromLeft(ms: seq<TarMember>, m: TarMember)
    ensures Contents(ms + [m]) == Contents(ms) + (if m.isDir then 0 else |m.content|)
  {
    if ms == [] {
      assert (ms + [m])[1..] == [];
    } else {
      assert (ms + [m])[1..] == ms[1..] + [m];
      ContentsFromLeft(ms[1..], m);
    }
  }

  lemma {:induction false} ContentsArePayload(ms: seq<TarMember>)
    ensures Contents(ms) == Payload(ms)
    decreases |ms|
  {
    if ms != [] {
      var init := ms[..|ms| - 1];
      ContentsArePayload(init);
      ContentsFromLeft(init, ms[|ms| - 1]);
      assert ms == init + [ms[|ms| - 1]];
    }
  }

  /** A member costs at most two headers, a padded path record, and its content rounded up. */
  lemma EntryLength(m: TarMember)
    requires Entry(m).Some?
    ensures |Entry(m).value| <= 2048 + (if m.isDir then 0 else |m.content| + 511)
  {
    hide HeaderFor, SplitPath, PaxRecord, Body;
    PaddedLength(m.content);
    if SplitPath(Stored(m)).NoSplit? {
      PaxIsSelfConsistent(m.path);
      PaddedLength(PaxRecord(m.path));
    }
  }

  lemma PaddedLength(c: Bytes)
    ensures |Body(c)| <= |c| + 511
    ensures |c| <= 1024 ==> |Body(c)| <= 1024
  {}

  lemma {:induction false} StreamLength(ms: seq<TarMember>)
    requires Stream(ms).Some?
    ensures |Stream(ms).value| <= 2048 * |ms| + 511 * Files(ms) + Contents(ms) + 1024
  {
    hide Entry;
    if ms != [] {
      EntryLength(ms[0]);
      StreamLength(ms[1..]);
    }
  }

  lemma {:induction false} FilesAtMost(ms: seq<TarMember>)
    ensures Files(ms) <= |ms|
  {
    if ms != [] { FilesAtMost(ms[1..]); }
  }

  /** No package that is accepted outgrows the ceiling a publisher enforces when it reads one. */
  lemma PackageFitsTheCatalog(t: Tree, ms: seq<TarMember>)
    requires Lists(t, ms) && Sorted(ms) && AcceptedMembers(t.root, ms)
    ensures Stream(ms).Some? && |Stream(ms).value| <= CATALOG_MAX_TAR_BYTES
  {
    hide Lists, Sorted, Packable, Stream, ReadTar, Entry, ValidPath, Apart, Payload, Contents;
    PackageReadsBack(t, ms);
    RootComesFirst(t, ms);
    StreamLength(ms);
    FilesAtMost(ms[1..]);
    ContentsArePayload(ms);
  }
}
