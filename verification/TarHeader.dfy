/**
 The ustar header block ("ustar Interchange Format", pax utility, IEEE Std 1003.1):
 how the packer writes one in place, and an independent reader for it.
 */
module TarHeader {
  import opened ByteStrings
  import opened Wrappers

  const BLOCK: nat := 512
  const MAX_PATH: nat := 511
  const REGULAR: byte := 0x30
  const DIRECTORY: byte := 0x35
  const PAX_LOCAL: byte := 0x78
  const NAME_BYTES: nat := 100
  const PREFIX_BYTES: nat := 155

  function Fill(n: nat, c: byte): (z: Bytes)
    ensures |z| == n && forall i :: 0 <= i < n ==> z[i] == c
  {
    seq(n, _ => c)
  }

  // ------------------------------------------------------------------ numerals

  lemma QuotientBelow(n: nat, base: nat)
    requires 2 <= base <= n
    ensures 0 < n / base < n
  {
    var q := n / base;
    assert n == base * q + n % base;
    assert q <= 0 ==> base * q <= 0;
    assert base * q >= 2 * q;
  }

  /** strconv.FormatInt of a non-negative number. */
  function Numeral(n: nat, base: nat): (s: Bytes)
    requires 2 <= base <= 10
    ensures s != [] && forall i :: 0 <= i < |s| ==> ZERO <= s[i] < ZERO + base
    decreases n
  {
    if n < base then [ZERO + n]
    else
      QuotientBelow(n, base);
      Numeral(n / base, base) + [ZERO + n % base]
  }

  function Octal(n: nat): Bytes {
    Numeral(n, 8)
  }

  predicate AllDigits(s: Bytes, base: nat) {
    forall i :: 0 <= i < |s| ==> ZERO <= s[i] < ZERO + base
  }

  function Value(s: Bytes, base: nat): nat
    requires AllDigits(s, base)
  {
    if s == [] then 0 else Value(s[..|s| - 1], base) * base + (s[|s| - 1] - ZERO)
  }

  lemma ValueLast(s: Bytes, d: byte, base: nat)
    requires AllDigits(s, base) && ZERO <= d < ZERO + base
    ensures AllDigits(s + [d], base) && Value(s + [d], base) == Value(s, base) * base + (d - ZERO)
  {
    assert (s + [d])[..|s + [d]| - 1] == s;
  }

  lemma {:induction false} NumeralReads(n: nat, base: nat)
    requires 2 <= base <= 10
    ensures Value(Numeral(n, base), base) == n
    decreases n
  {
    if n < base {
      assert Value([ZERO + n][..0], base) == 0;
    } else {
      QuotientBelow(n, base);
      NumeralReads(n / base, base);
      DivMod(n, base);
      ValueLast(Numeral(n / base, base), ZERO + n % base, base);
    }
  }

  lemma {:induction false} LeadingZeros(k: nat, s: Bytes, base: nat)
    requires base > 0 && AllDigits(s, base)
    ensures AllDigits(Fill(k, ZERO) + s, base) && Value(Fill(k, ZERO) + s, base) == Value(s, base)
    decreases k + |s|
  {
    var t := Fill(k, ZERO) + s;
    if s == [] {
      assert t == Fill(k, ZERO);
      if k > 0 {
        assert t[..k - 1] == Fill(k - 1, ZERO) + [];
        LeadingZeros(k - 1, [], base);
      }
    } else {
      assert t[..|t| - 1] == Fill(k, ZERO) + s[..|s| - 1];
      LeadingZeros(k, s[..|s| - 1], base);
    }
  }

  function Power(base: nat, w: nat): nat {
    if w == 0 then 1 else base * Power(base, w - 1)
  }

  lemma {:induction false} NumeralWidth(n: nat, base: nat, w: nat)
    requires 2 <= base <= 10 && w > 0 && n < Power(base, w)
    ensures |Numeral(n, base)| <= w
    decreases w
  {
    if n >= base {
      assert Power(base, w) == base * Power(base, w - 1) && Power(base, 0) == 1;
      QuotientUnder(n, base, Power(base, w - 1));
      NumeralWidth(n / base, base, w - 1);
    }
  }

  lemma MulAtLeast(a: nat, b: nat, c: nat)
    requires b >= c
    ensures a * b >= a * c
  {}

  lemma MulGrows(a: nat, b: nat, c: nat)
    ensures b > c ==> a * b >= a * c + a
  {
    if b > c { MulAtLeast(a, b, c + 1); }
  }

  lemma QuotientUnder(n: nat, base: nat, p: nat)
    requires base > 0 && n < base * p
    ensures n / base < p
  {
    DivMod(n, base);
    MulGrows(base, n / base + 1, p);
    assert base * (n / base + 1) == n / base * base + base;
  }

  lemma DivMod(n: nat, base: nat)
    requires base > 0
    ensures n / base * base + n % base == n
  {
    assert n == base * (n / base) + n % base;
  }

  // ----------------------------------------------------- splitting a stored path

  datatype Split = NoSplit | Split(name: Bytes, prefix: Bytes)

  predicate SplitsAt(path: Bytes, k: nat)
    requires k < |path|
  {
    path[k] == SLASH && k <= PREFIX_BYTES && 0 < |path| - k - 1 <= NAME_BYTES
  }

  /** The rightmost usable slash before n. */
  function SplitBefore(path: Bytes, n: nat): Split
    requires n <= |path|
  {
    if n <= 1 then NoSplit
    else if SplitsAt(path, n - 1) then Split(path[n..], path[..n - 1])
    else SplitBefore(path, n - 1)
  }

  function SplitPath(path: Bytes): Split {
    if |path| == 0 || |path| > MAX_PATH then NoSplit
    else if |path| <= NAME_BYTES then Split(path, [])
    else SplitBefore(path, |path|)
  }

  method TarSplitPath(path: Bytes) returns (name: Bytes, prefix: Bytes, ok: bool)
    ensures ok <==> SplitPath(path).Split?
    ensures ok ==> SplitPath(path) == Split(name, prefix)
  {
    if |path| == 0 || |path| > MAX_PATH {
      return [], [], false;
    }
    if |path| <= 100 {
      return path, [], true;
    }
    var split: int := |path| - 1;
    while split > 0
      invariant 0 <= split < |path|
      invariant SplitPath(path) == SplitBefore(path, split + 1)
    {
      if path[split] == SLASH {
        var prefixLen, nameLen := split, |path| - split - 1;
        if prefixLen <= 155 && nameLen > 0 && nameLen <= 100 {
          return path[split + 1..], path[..split], true;
        }
      }
      split := split - 1;
    }
    return [], [], false;
  }

  function Join(name: Bytes, prefix: Bytes): Bytes {
    if prefix == [] then name else prefix + [SLASH] + name
  }

  /** The split is at the rightmost usable slash, and is missed only when there is none. */
  lemma {:induction false} SplitBeforeMeans(path: Bytes, n: nat)
    requires n <= |path|
    ensures var r := SplitBefore(path, n);
            if r.NoSplit? then forall k :: 0 < k < n ==> !SplitsAt(path, k)
            else exists k :: 0 < k < n && SplitsAt(path, k) && r == Split(path[k + 1..], path[..k])
                             && forall j :: k < j < n ==> !SplitsAt(path, j)
  {
    if n > 1 && !SplitsAt(path, n - 1) { SplitBeforeMeans(path, n - 1); }
  }

  /** A split fits the two fields and joins back to the path. */
  lemma SplitJoins(path: Bytes)
    requires SplitPath(path).Split?
    ensures var s := SplitPath(path);
            0 < |s.name| <= NAME_BYTES && |s.prefix| <= PREFIX_BYTES && Join(s.name, s.prefix) == path
  {
    if |path| > NAME_BYTES {
      var s := SplitPath(path);
      SplitBeforeMeans(path, |path|);
      var k :| 0 < k < |path| && SplitsAt(path, k) && s == Split(path[k + 1..], path[..k]);
      assert path == path[..k] + [SLASH] + path[k + 1..];
    }
  }

  // ------------------------------------------------------------------ the block

  datatype Head = Head(name: Bytes, prefix: Bytes, mode: nat, size: nat, typ: byte)

  predicate Fits(h: Head) {
    |h.name| <= NAME_BYTES && |h.prefix| <= PREFIX_BYTES && |Octal(h.mode)| <= 7 && |Octal(h.size)| <= 11
  }

  function Padded(s: Bytes, n: nat): (r: Bytes)
    requires |s| <= n
    ensures |r| == n
  {
    s + Fill(n - |s|, 0)
  }

  function OctalField(v: nat, n: nat): (r: Bytes)
    requires |Octal(v)| < n
    ensures |r| == n
  {
    Fill(n - 1 - |Octal(v)|, ZERO) + Octal(v) + [0]
  }

  lemma OctalZero()
    ensures |Octal(0)| == 1
  {}

  function Magic(): (m: Bytes)
    ensures |m| == 6
  {
    Ascii("ustar") + [0]
  }

  function Front(h: Head): (b: Bytes)
    requires Fits(h)
    ensures |b| == 148
  {
    Padded(h.name, NAME_BYTES) + OctalField(h.mode, 8) + ZeroField(8) + ZeroField(8) + OctalField(h.size, 12) + ZeroField(12)
  }

  function ZeroField(n: nat): (r: Bytes)
    requires n > 1
    ensures |r| == n
  {
    OctalField(0, n)
  }

  function Back(h: Head): (b: Bytes)
    requires Fits(h)
    ensures |b| == 356
  {
    [h.typ] + Fill(100, 0) + Magic() + Ascii("00") + Fill(80, 0) + Padded(h.prefix, PREFIX_BYTES) + Fill(12, 0)
  }

  function Sum(b: Bytes): (n: nat)
    ensures n <= 255 * |b|
  {
    if b == [] then 0 else Sum(b[..|b| - 1]) + b[|b| - 1]
  }

  /** The block with its checksum field blank. */
  function Unsummed(h: Head): (b: Bytes)
    requires Fits(h)
    ensures |b| == BLOCK
  {
    Front(h) + Fill(8, 0x20) + Back(h)
  }

  /** Six octal digits, NUL, space. */
  function CheckField(sum: nat): (r: Bytes)
    requires |Octal(sum)| <= 6
    ensures |r| == 8
  {
    Fill(6 - |Octal(sum)|, ZERO) + Octal(sum) + [0, 0x20]
  }

  /** No block's sum needs a seventh digit. */
  lemma SumFits(b: Bytes)
    requires |b| == BLOCK
    ensures |Octal(Sum(b))| <= 6
  {
    assert Power(8, 6) == 262144;
    NumeralWidth(Sum(b), 8, 6);
  }

  function Header(h: Head): (b: Bytes)
    requires Fits(h)
    ensures |b| == BLOCK
  {
    SumFits(Unsummed(h));
    Front(h) + CheckField(Sum(Unsummed(h))) + Back(h)
  }

  /** What buildTarHeader answers. */
  function HeaderFor(stored: Bytes, size: nat, mode: nat, typ: byte): (r: Option<Bytes>)
    ensures r.Some? ==> |r.value| == BLOCK
  {
    var s := SplitPath(stored);
    if s.NoSplit? then None
    else
      var h := Head(s.name, s.prefix, mode % 0x200, size, typ);
      if Fits(h) then Some(Header(h)) else None
  }

  lemma ModeFits(mode: nat)
    ensures |Octal(mode % 0x200)| <= 3
  {
    assert Power(8, 3) == 512;
    NumeralWidth(mode % 0x200, 8, 3);
  }

  lemma SizeFits(size: nat)
    requires size < 0x2_0000_0000
    ensures |Octal(size)| <= 11
  {
    assert Power(8, 6) == 262144;
    assert Power(8, 11) == 8589934592;
    NumeralWidth(size, 8, 11);
  }

  /** A header can be built for every path that splits and every size under 8 GiB. */
  lemma HeaderExists(stored: Bytes, size: nat, mode: nat, typ: byte)
    requires SplitPath(stored).Split? && size < 0x2_0000_0000
    ensures HeaderFor(stored, size, mode, typ).Some?
  {
    hide Numeral, Header, SplitPath;
    SplitJoins(stored);
    ModeFits(mode);
    SizeFits(size);
  }

  // ------------------------------------------------------------ writing in place

  method WriteAt(h: array<byte>, at: nat, src: Bytes)
    requires at + |src| <= h.Length
    modifies h
    ensures forall i :: 0 <= i < h.Length ==> h[i] == if at <= i < at + |src| then src[i - at] else old(h[i])
  {
    forall i | 0 <= i < |src| {
      h[at + i] := src[i];
    }
  }

  method WriteOctal(h: array<byte>, at: nat, n: nat, value: nat) returns (ok: bool)
    requires n > 0 && at + n <= h.Length
    modifies h
    ensures ok <==> |Octal(value)| < n
    ensures ok ==> h[at..at + n] == OctalField(value, n)
    ensures forall i :: 0 <= i < h.Length && !(at <= i < at + n) ==> h[i] == old(h[i])
  {
    hide Numeral;
    var width := n - 1;
    var s := Octal(value);
    if |s| > width {
      return false;
    }
    var i := 0;
    while i < width - |s|
      invariant 0 <= i <= width - |s|
      invariant forall k :: at <= k < at + i ==> h[k] == ZERO
      invariant forall k :: 0 <= k < h.Length && !(at <= k < at + n) ==> h[k] == old(h[k])
    {
      h[at + i] := ZERO;
      i := i + 1;
    }
    WriteAt(h, at + width - |s|, s);
    h[at + width] := 0;
    assert h[at..at + n] == OctalField(value, n);
    return true;
  }

  /** A block is the concatenation of its regions. */
  lemma AssembleBlock(b: Bytes, h: Head)
    requires |b| == BLOCK && Fits(h)
    requires b[0..100] == Padded(h.name, NAME_BYTES) && b[100..108] == OctalField(h.mode, 8)
    requires |Octal(0)| == 1 && b[108..116] == ZeroField(8) && b[116..124] == ZeroField(8)
    requires b[124..136] == OctalField(h.size, 12) && b[136..148] == ZeroField(12)
    requires b[148..156] == Fill(8, 0x20) && b[156] == h.typ && b[157..257] == Fill(100, 0)
    requires b[257..263] == Magic() && b[263..265] == Ascii("00") && b[265..345] == Fill(80, 0)
    requires b[345..500] == Padded(h.prefix, PREFIX_BYTES) && b[500..512] == Fill(12, 0)
    ensures b == Unsummed(h)
  {
    hide Numeral, OctalField, ZeroField, Padded, Magic, Ascii, Fits;
    assert b[..148] == Front(h);
    assert b[156..] == Back(h);
    assert b == b[..148] + b[148..156] + b[156..];
  }

  method WriteNumbers(h: array<byte>, size: nat, mode: nat) returns (ok: bool)
    requires h.Length == BLOCK
    modifies h
    ensures |Octal(mode % 0x200)| <= 7 && |Octal(0)| == 1
    ensures ok <==> |Octal(size)| <= 11
    ensures ok ==> h[100..108] == OctalField(mode % 0x200, 8) && h[124..136] == OctalField(size, 12)
    ensures ok ==> h[108..116] == ZeroField(8) && h[116..124] == ZeroField(8) && h[136..148] == ZeroField(12)
    ensures forall i :: 0 <= i < BLOCK && !(100 <= i < 148) ==> h[i] == old(h[i])
  {
    hide Numeral, OctalField, Power, Octal;
    ModeFits(mode);
    OctalZero();
    ok := WriteOctal(h, 100, 8, mode % 0x200);
    if !ok { return; }
    ok := WriteOctal(h, 124, 12, size);
    if !ok { return; }
    ok := WriteOctal(h, 108, 8, 0);
    if !ok { return; }
    ok := WriteOctal(h, 116, 8, 0);
    if !ok { return; }
    ok := WriteOctal(h, 136, 12, 0);
  }

  /** The blank checksum, the type and the two magic fields. */
  method WriteMarks(h: array<byte>, typ: byte)
    requires h.Length == BLOCK
    modifies h
    ensures h[148..156] == Fill(8, 0x20) && h[156] == typ && h[257..263] == Magic() && h[263..265] == Ascii("00")
    ensures forall k :: 0 <= k < BLOCK && !(148 <= k <= 156) && !(257 <= k < 265) ==> h[k] == old(h[k])
  {
    var i := 148;
    while i < 156
      invariant 148 <= i <= 156
      invariant forall k :: 148 <= k < i ==> h[k] == 0x20
      invariant forall k :: 0 <= k < BLOCK && !(148 <= k < i) ==> h[k] == old(h[k])
    {
      h[i] := 0x20;
      i := i + 1;
    }
    h[156] := typ;
    WriteAt(h, 257, Magic());
    WriteAt(h, 263, Ascii("00"));
  }

  lemma KeepSlice(b: Bytes, c: Bytes, lo: nat, hi: nat)
    requires |b| == |c| && lo <= hi <= |b| && forall k :: lo <= k < hi ==> c[k] == b[k]
    ensures c[lo..hi] == b[lo..hi]
  {}

  lemma Marked(b: Bytes, c: Bytes, h: Head)
    requires |b| == |c| == BLOCK && Fits(h) && |Octal(0)| == 1
    requires forall k :: 0 <= k < BLOCK && !(148 <= k <= 156) && !(257 <= k < 265) ==> c[k] == b[k]
    requires b[0..100] == Padded(h.name, NAME_BYTES) && b[100..108] == OctalField(h.mode, 8)
    requires b[108..116] == ZeroField(8) && b[116..124] == ZeroField(8)
    requires b[124..136] == OctalField(h.size, 12) && b[136..148] == ZeroField(12)
    requires b[157..257] == Fill(100, 0) && b[265..345] == Fill(80, 0)
    requires b[345..500] == Padded(h.prefix, PREFIX_BYTES) && b[500..512] == Fill(12, 0)
    requires c[148..156] == Fill(8, 0x20) && c[156] == h.typ && c[257..263] == Magic() && c[263..265] == Ascii("00")
    ensures c == Unsummed(h)
  {
    hide Numeral, OctalField, ZeroField, Padded, Magic, Ascii, Unsummed;
    KeepSlice(b, c, 0, 100);
    KeepSlice(b, c, 100, 108);
    KeepSlice(b, c, 108, 116);
    KeepSlice(b, c, 116, 124);
    KeepSlice(b, c, 124, 136);
    KeepSlice(b, c, 136, 148);
    KeepSlice(b, c, 157, 257);
    KeepSlice(b, c, 265, 345);
    KeepSlice(b, c, 345, 500);
    KeepSlice(b, c, 500, 512);
    AssembleBlock(c, h);
  }

  method WriteFields(h: array<byte>, name: Bytes, prefix: Bytes, size: nat, mode: nat, typ: byte) returns (ok: bool)
    requires h.Length == BLOCK && |name| <= NAME_BYTES && |prefix| <= PREFIX_BYTES
    requires forall i :: 0 <= i < BLOCK ==> h[i] == 0
    modifies h
    ensures ok <==> Fits(Head(name, prefix, mode % 0x200, size, typ))
    ensures ok ==> h[..] == Unsummed(Head(name, prefix, mode % 0x200, size, typ))
  {
    hide Numeral, OctalField, ZeroField, Octal, Unsummed, Sum;
    WriteAt(h, 0, name);
    WriteAt(h, 345, prefix);
    ok := WriteNumbers(h, size, mode);
    if !ok { return; }
    ghost var before := h[..];
    assert before[0..100] == Padded(name, NAME_BYTES) && before[345..500] == Padded(prefix, PREFIX_BYTES);
    assert before[157..257] == Fill(100, 0) && before[265..345] == Fill(80, 0) && before[500..512] == Fill(12, 0);
    WriteMarks(h, typ);
    Marked(before, h[..], Head(name, prefix, mode % 0x200, size, typ));
  }

  /** buildTarHeader; that its checksum-overflow branch is never taken is part of the contract. */
  method BuildTarHeader(stored: Bytes, size: nat, mode: nat, typ: byte) returns (h: array<byte>, ok: bool)
    ensures fresh(h) && h.Length == BLOCK
    ensures ok <==> HeaderFor(stored, size, mode, typ).Some?
    ensures ok ==> HeaderFor(stored, size, mode, typ) == Some(h[..])
  {
    hide SplitPath, Numeral, Front, Back, Fits;
    h := new byte[512](_ => 0);
    var name, prefix, split := TarSplitPath(stored);
    if !split {
      return h, false;
    }
    SplitJoins(stored);
    ghost var hd := Head(name, prefix, mode % 0x200, size, typ);
    ok := WriteFields(h, name, prefix, size, mode, typ);
    if !ok { return; }
    var sum: nat, i: nat := 0, 0;
    assert h[..0] == [];
    while i < 512
      invariant 0 <= i <= 512
      invariant sum == Sum(h[..i])
    {
      assert h[..i + 1][..i] == h[..i];
      sum := sum + h[i];
      i := i + 1;
    }
    assert h[..512] == h[..];
    SumFits(h[..]);
    var chk := Octal(sum);
    if |chk| > 6 {
      return h, false;
    }
    ghost var before := h[..];
    WriteCheck(h, chk);
    assert h[..] == before[..148] + CheckField(sum) + before[156..];
    assert before[..148] == Front(hd) && before[156..] == Back(hd);
  }

  method WriteCheck(h: array<byte>, chk: Bytes)
    requires h.Length == BLOCK && |chk| <= 6
    modifies h
    ensures h[..] == old(h[..148]) + (Fill(6 - |chk|, ZERO) + chk + [0, 0x20]) + old(h[156..])
  {
    var i := 0;
    while i < 6 - |chk|
      invariant 0 <= i <= 6 - |chk|
      invariant forall k :: 148 <= k < 148 + i ==> h[k] == ZERO
      invariant forall k :: 0 <= k < BLOCK && !(148 <= k < 156) ==> h[k] == old(h[k])
    {
      h[148 + i] := ZERO;
      i := i + 1;
    }
    WriteAt(h, 148 + 6 - |chk|, chk);
    h[154] := 0;
    h[155] := 0x20;
  }

  // --------------------------------------------------------- an independent reader

  /** A NUL-terminated text in a field it may fill. */
  function CText(f: Bytes): Bytes {
    if f == [] || f[0] == 0 then [] else [f[0]] + CText(f[1..])
  }

  /** An octal number and its terminating NUL. */
  function ReadOctal(f: Bytes): Option<nat>
    requires f != []
  {
    if f[|f| - 1] == 0 && AllDigits(f[..|f| - 1], 8) then Some(Value(f[..|f| - 1], 8)) else None
  }

  /** The checksum: the sum of the block's bytes with the checksum field read as spaces. */
  predicate SumAgrees(b: Bytes)
    requires |b| == BLOCK
  {
    && ReadOctal(b[148..155]) == Some(Sum(b[..148] + Fill(8, 0x20) + b[156..]))
    && b[155] == 0x20
  }

  function ParseHeader(b: Bytes): Option<Head>
    requires |b| == BLOCK
  {
    if b[257..263] != Magic() || b[263..265] != Ascii("00") || !SumAgrees(b) then None
    else
      var mode, size := ReadOctal(b[100..108]), ReadOctal(b[124..136]);
      if mode.None? || size.None? || ReadOctal(b[108..116]) != Some(0) || ReadOctal(b[116..124]) != Some(0)
        || ReadOctal(b[136..148]) != Some(0) then None
      else Some(Head(CText(b[..100]), CText(b[345..500]), mode.value, size.value, b[156]))
  }

  lemma {:induction false} CTextReads(s: Bytes, n: nat)
    requires |s| <= n && 0 !in s
    ensures CText(Padded(s, n)) == s
    decreases |s|
  {
    var p := Padded(s, n);
    if s != [] {
      assert p[0] == s[0] && s[0] in s;
      assert p[1..] == Padded(s[1..], n - 1);
      CTextReads(s[1..], n - 1);
    }
  }

  lemma OctalReads(v: nat, n: nat)
    requires |Octal(v)| < n
    ensures ReadOctal(OctalField(v, n)) == Some(v)
  {
    var f, s := OctalField(v, n), Octal(v);
    NumeralReads(v, 8);
    assert f[..n - 1] == Fill(n - 1 - |s|, ZERO) + s;
    LeadingZeros(n - 1 - |s|, s, 8);
  }

  /** The regions of a header. */
  lemma Regions(h: Head, b: Bytes)
    requires Fits(h) && b == Header(h)
    ensures |Octal(0)| == 1
    ensures b[..100] == Padded(h.name, NAME_BYTES) && b[100..108] == OctalField(h.mode, 8)
    ensures b[108..116] == ZeroField(8) && b[116..124] == ZeroField(8)
    ensures b[124..136] == OctalField(h.size, 12) && b[136..148] == ZeroField(12)
    ensures b[156] == h.typ && b[345..500] == Padded(h.prefix, PREFIX_BYTES)
    ensures b[257..263] == Magic() && b[263..265] == Ascii("00")
  {
    hide Numeral, OctalField, ZeroField, Padded, Magic, Ascii, CheckField, Unsummed, Sum;
    SumFits(Unsummed(h));
    OctalZero();
    var f, k := Front(h), Back(h);
    assert b[..148] == f && b[156..] == k;
    assert b[..100] == f[..100] && b[100..108] == f[100..108] && b[108..116] == f[108..116] && b[116..124] == f[116..124];
    assert b[124..136] == f[124..136] && b[136..148] == f[136..148];
    assert b[345..500] == k[189..344] && b[257..263] == k[101..107] && b[263..265] == k[107..109];
  }

  lemma CheckReads(h: Head, b: Bytes)
    requires Fits(h) && b == Header(h)
    ensures SumAgrees(b)
  {
    hide Numeral, Front, Back, Sum, Power;
    var u := Unsummed(h);
    SumFits(u);
    var f := CheckField(Sum(u));
    assert b[..148] == Front(h) && b[156..] == Back(h) && b[148..156] == f;
    var digits := Octal(Sum(u));
    assert b[148..155] == OctalField(Sum(u), 7);
    OctalReads(Sum(u), 7);
    assert b[155] == f[7];
  }

  /** A header reads back as the fields it was built from, with its checksum correct. */
  lemma HeaderReads(h: Head)
    requires Fits(h) && 0 !in h.name && 0 !in h.prefix
    ensures ParseHeader(Header(h)) == Some(h)
  {
    hide Numeral, OctalField, Padded, Header, SumAgrees, ReadOctal, CText, Magic, Ascii;
    var b := Header(h);
    Regions(h, b);
    CheckReads(h, b);
    OctalReads(h.mode, 8);
    OctalReads(h.size, 12);
    OctalReads(0, 8);
    OctalReads(0, 12);
    CTextReads(h.name, NAME_BYTES);
    CTextReads(h.prefix, PREFIX_BYTES);
  }
}
