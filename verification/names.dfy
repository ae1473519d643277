/**
  The 8.3 name encoder of write_dirent: last path component, upper-cased,
  split at its first dot, base cut to 8 bytes and space-padded, extension
  cut to 3 bytes over a "___" default. Names are byte strings.
 */
module Names {
  import opened Fat
  import opened Dirent

  const Slash: byte := 0x2F
  const Backslash: byte := 0x5C
  const Space: byte := 0x20
  const Underscore: byte := 0x5F

  predicate IsSeparator(b: byte) {
    b == Slash || b == Backslash
  }

  predicate IsLower(b: byte) {
    0x61 <= b <= 0x7A
  }

  /** The bytes of a C string, terminator excluded. */
  predicate IsCString(s: seq<byte>) {
    forall i :: 0 <= i < |s| ==> s[i] != 0
  }

  /** The part of a path after its last '/' or '\'. */
  function LastComponent(s: seq<byte>): (r: seq<byte>)
    ensures |r| <= |s| && r == s[|s| - |r|..]
    ensures forall i :: 0 <= i < |r| ==> !IsSeparator(r[i])
    ensures |r| < |s| ==> IsSeparator(s[|s| - |r| - 1])
  {
    if |s| == 0 then []
    else if IsSeparator(s[|s| - 1]) then []
    else LastComponent(s[..|s| - 1]) + [s[|s| - 1]]
  }

  /** toupper in the C locale. */
  function ToUpper(b: byte): byte {
    if IsLower(b) then b - 0x20 else b
  }

  function UpperCase(s: seq<byte>): seq<byte> {
    seq(|s|, i requires 0 <= i < |s| => ToUpper(s[i]))
  }

  /** toupper over every byte: lower-case letters move to upper case, every other byte stays. */
  lemma UpperCaseBytes(s: seq<byte>)
    ensures |UpperCase(s)| == |s|
    ensures forall i :: 0 <= i < |s| ==> !IsLower(UpperCase(s)[i])
    ensures forall i :: 0 <= i < |s| && !IsLower(s[i]) ==> UpperCase(s)[i] == s[i]
    ensures forall i :: 0 <= i < |s| && IsLower(s[i]) ==> UpperCase(s)[i] as int + 0x20 == s[i] as int
  {
  }

  datatype Split = NoDot(whole: seq<byte>) | Dotted(base: seq<byte>, after: seq<byte>)

  /** strchr(s, '.'): split at the first dot, if any. */
  function SplitAtFirstDot(s: seq<byte>): (r: Split)
    ensures r.NoDot? ==> r.whole == s && DotMark !in s
    ensures r.Dotted? ==> s == r.base + [DotMark] + r.after && DotMark !in r.base
  {
    if |s| == 0 then NoDot([])
    else if s[0] == DotMark then Dotted([], s[1..])
    else match SplitAtFirstDot(s[1..])
      case NoDot(_) => NoDot(s)
      case Dotted(b, a) => Dotted([s[0]] + b, a)
  }

  /** A fixed-width field: the first `width` bytes of `s`, then `fill`. */
  function Field(s: seq<byte>, width: nat, fill: byte): (r: seq<byte>)
    ensures |r| == width
    ensures forall i :: 0 <= i < width ==> r[i] == if i < |s| then s[i] else fill
  {
    if |s| >= width then s[..width] else s + seq(width - |s|, _ => fill)
  }

  /** write_dirent: a fresh entry for `filename` with the given start cluster and size. */
  function WriteDirent(filename: seq<byte>, start: u16, size: u32): (e: Entry)
    requires IsCString(filename)
    ensures WellFormedEntry(e)
    ensures e.attr == AttrNormal && e.start == start && e.size == size
  {
    var upper := UpperCase(LastComponent(filename));
    match SplitAtFirstDot(upper)
    case NoDot(w) => Entry(Field(w, 8, Space), [Underscore, Underscore, Underscore], AttrNormal, start, size)
    case Dotted(b, a) => Entry(Field(b, 8, Space), Field(a, 3, Underscore), AttrNormal, start, size)
  }

  /** Drops every trailing `pad` byte. */
  function TrimRight(s: seq<byte>, pad: byte): seq<byte> {
    if |s| > 0 && s[|s| - 1] == pad then TrimRight(s[..|s| - 1], pad) else s
  }

  /**
    The encoder's own inverse: each field without the padding write_dirent
    filled it with (spaces after the base, '_' after the extension). The
    program reads fields back differently; see ReadBack.
   */
  function StoredBase(e: Entry): seq<byte> {
    TrimRight(e.name, Space)
  }

  function StoredExt(e: Entry): seq<byte> {
    TrimRight(e.ext, Underscore)
  }

  /**
    How print_dirent and find_dirent read a name or extension field back:
    trailing spaces are dropped, but never the field's first byte.
   */
  function ReadBack(s: seq<byte>): (r: seq<byte>)
    ensures |r| <= |s| && r == s[..|r|]
    ensures |s| > 0 ==> 1 <= |r|
    ensures 1 < |r| ==> r[|r| - 1] != Space
    ensures forall i :: |r| <= i < |s| ==> s[i] == Space
  {
    if |s| > 1 && s[|s| - 1] == Space then ReadBack(s[..|s| - 1]) else s
  }

  /** Bytes that survive encoding unchanged and do not end the base. */
  predicate PlainByte(b: byte) {
    b != 0 && !IsSeparator(b) && b != DotMark && !IsLower(b)
  }

  predicate AllPlain(s: seq<byte>) {
    forall i :: 0 <= i < |s| ==> PlainByte(s[i])
  }

  lemma {:induction false} TrimPadded(s: seq<byte>, k: nat, pad: byte)
    requires |s| == 0 || s[|s| - 1] != pad
    ensures TrimRight(s + seq(k, _ => pad), pad) == s
    decreases k
  {
    if k == 0 {
      assert s + seq(k, _ => pad) == s;
    } else {
      var t := s + seq(k, _ => pad);
      assert t[..|t| - 1] == s + seq(k - 1, _ => pad);
      TrimPadded(s, k - 1, pad);
    }
  }

  lemma TrimField(s: seq<byte>, width: nat, pad: byte)
    requires |s| <= width
    requires |s| == 0 || s[|s| - 1] != pad
    ensures TrimRight(Field(s, width, pad), pad) == s
  {
    TrimPadded(s, width - |s|, pad);
  }

  lemma {:induction false} LastComponentOfPlain(s: seq<byte>)
    requires forall i :: 0 <= i < |s| ==> !IsSeparator(s[i])
    ensures LastComponent(s) == s
    decreases |s|
  {
    if |s| > 0 {
      LastComponentOfPlain(s[..|s| - 1]);
      assert s[..|s| - 1] + [s[|s| - 1]] == s;
    }
  }

  lemma UpperCaseOfUpper(s: seq<byte>)
    requires forall i :: 0 <= i < |s| ==> !IsLower(s[i])
    ensures UpperCase(s) == s
  {
  }

  /** Bytes that pass through path stripping and upper-casing unchanged. */
  predicate Encodable(f: seq<byte>) {
    forall i :: 0 <= i < |f| ==> f[i] != 0 && !IsSeparator(f[i]) && !IsLower(f[i])
  }

  lemma DottedEncodable(base: seq<byte>, ext: seq<byte>)
    requires AllPlain(base) && AllPlain(ext)
    ensures Encodable(base + [DotMark] + ext)
  {
    var f := base + [DotMark] + ext;
    forall i | 0 <= i < |f|
      ensures f[i] != 0 && !IsSeparator(f[i]) && !IsLower(f[i])
    {
      if i < |base| {
        assert f[i] == base[i];
      } else if i > |base| {
        assert f[i] == ext[i - |base| - 1];
      }
    }
  }

  lemma WriteDirentDotted(base: seq<byte>, ext: seq<byte>, start: u16, size: u32)
    requires Encodable(base + [DotMark] + ext) && DotMark !in base
    ensures IsCString(base + [DotMark] + ext)
    ensures WriteDirent(base + [DotMark] + ext, start, size)
         == Entry(Field(base, 8, Space), Field(ext, 3, Underscore), AttrNormal, start, size)
  {
    var f := base + [DotMark] + ext;
    LastComponentOfPlain(f);
    UpperCaseOfUpper(f);
    SplitUnique(base, ext, SplitAtFirstDot(f));
  }

  /**
    Round trip through the encoder's inverse: a base of 1..8 plain bytes and
    an extension of at most 3 plain bytes, written as "base.ext", lose
    exactly their padding.
   */
  lemma NameRoundTrip(base: seq<byte>, ext: seq<byte>, start: u16, size: u32)
    requires 1 <= |base| <= 8 && |ext| <= 3
    requires AllPlain(base) && base[|base| - 1] != Space
    requires AllPlain(ext) && (|ext| == 0 || ext[|ext| - 1] != Underscore)
    ensures IsCString(base + [DotMark] + ext)
    ensures var e := WriteDirent(base + [DotMark] + ext, start, size);
            StoredBase(e) == base && StoredExt(e) == ext
  {
    DottedEncodable(base, ext);
    assert DotMark !in base by {
      forall i | 0 <= i < |base| ensures base[i] != DotMark {
        assert PlainByte(base[i]);
      }
    }
    WriteDirentDotted(base, ext, start, size);
    TrimField(base, 8, Space);
    TrimField(ext, 3, Underscore);
  }

  lemma {:induction false} ReadBackPadded(s: seq<byte>, k: nat)
    requires 1 <= |s| && s[|s| - 1] != Space
    ensures ReadBack(s + seq(k, _ => Space)) == s
    decreases k
  {
    if k == 0 {
      assert s + seq(k, _ => Space) == s;
    } else {
      var t := s + seq(k, _ => Space);
      assert t[..|t| - 1] == s + seq(k - 1, _ => Space);
      ReadBackPadded(s, k - 1);
    }
  }

  /**
    What the program itself reads back from the entry written for
    "base.ext": the base, but the extension with write_dirent's '_'
    padding still on it, so an extension shorter than 3 bytes never
    reads back as itself.
   */
  lemma ProgramReadsName(base: seq<byte>, ext: seq<byte>, start: u16, size: u32)
    requires 1 <= |base| <= 8 && |ext| <= 3
    requires AllPlain(base) && base[|base| - 1] != Space
    requires AllPlain(ext) && (|ext| == 0 || ext[|ext| - 1] != Space)
    ensures IsCString(base + [DotMark] + ext)
    ensures var e := WriteDirent(base + [DotMark] + ext, start, size);
            && ReadBack(e.name) == base
            && ReadBack(e.ext) == Field(ext, 3, Underscore)
            && (|ext| < 3 ==> ReadBack(e.ext) != ext)
  {
    DottedEncodable(base, ext);
    assert DotMark !in base by {
      forall i | 0 <= i < |base| ensures base[i] != DotMark {
        assert PlainByte(base[i]);
      }
    }
    WriteDirentDotted(base, ext, start, size);
    ReadBackFields(base, ext);
  }

  /** The program's reading of the two padded fields. */
  lemma ReadBackFields(base: seq<byte>, ext: seq<byte>)
    requires 1 <= |base| <= 8 && |ext| <= 3 && base[|base| - 1] != Space
    requires |ext| == 0 || ext[|ext| - 1] != Space
    ensures ReadBack(Field(base, 8, Space)) == base
    ensures ReadBack(Field(ext, 3, Underscore)) == Field(ext, 3, Underscore)
  {
    assert Field(base, 8, Space) == base + seq(8 - |base|, _ => Space);
    ReadBackPadded(base, 8 - |base|);
    var x := Field(ext, 3, Underscore);
    assert x[2] != Space;
  }

  /** A dot-free base splits before the first dot of `base . after`. */
  lemma {:induction false} SplitUnique(base: seq<byte>, after: seq<byte>, sp: Split)
    requires DotMark !in base
    requires sp == SplitAtFirstDot(base + [DotMark] + after)
    ensures sp == Dotted(base, after)
    decreases |base|
  {
    var s := base + [DotMark] + after;
    if |base| == 0 {
      assert s[0] == DotMark && s[1..] == after;
    } else {
      assert s[0] == base[0] && s[1..] == base[1..] + [DotMark] + after;
      SplitUnique(base[1..], after, SplitAtFirstDot(s[1..]));
      assert [base[0]] + base[1..] == base;
    }
  }

  /** Without a dot the whole (cut) name is the base and the extension reads as empty. */
  lemma NoDotRoundTrip(base: seq<byte>, start: u16, size: u32)
    requires 1 <= |base| <= 8
    requires AllPlain(base) && base[|base| - 1] != Space
    ensures IsCString(base)
    ensures var e := WriteDirent(base, start, size);
            StoredBase(e) == base && e.ext == [Underscore, Underscore, Underscore] && StoredExt(e) == []
  {
    LastComponentOfPlain(base);
    UpperCaseOfUpper(base);
    assert DotMark !in base by {
      forall i | 0 <= i < |base| ensures base[i] != DotMark {
        assert PlainByte(base[i]);
      }
    }
    assert SplitAtFirstDot(base) == NoDot(base);
    TrimField(base, 8, Space);
    TrimUnderscores();
  }

  lemma TrimUnderscores()
    ensures TrimRight([Underscore, Underscore, Underscore], Underscore) == []
  {
    var u: seq<byte> := [Underscore, Underscore, Underscore];
    var u2: seq<byte> := [Underscore, Underscore];
    var u1: seq<byte> := [Underscore];
    assert u[..2] == u2 && u2[..1] == u1 && u1[..0] == [];
    assert TrimRight(u1, Underscore) == [];
    assert TrimRight(u2, Underscore) == [];
  }

  lemma LastComponentSnoc(s: seq<byte>, b: byte)
    ensures LastComponent(s + [b]) == if IsSeparator(b) then [] else LastComponent(s) + [b]
  {
    assert (s + [b])[..|s|] == s;
  }

  lemma {:induction false} LastComponentAfterSeparator(dir: seq<byte>, sep: byte, f: seq<byte>)
    requires IsSeparator(sep)
    ensures LastComponent(dir + [sep] + f) == LastComponent(f)
    decreases |f|
  {
    if |f| == 0 {
      LastComponentSnoc(dir, sep);
      assert dir + [sep] + f == dir + [sep];
    } else {
      var init := f[..|f| - 1];
      var last := f[|f| - 1];
      assert f == init + [last];
      assert dir + [sep] + f == (dir + [sep] + init) + [last];
      LastComponentSnoc(dir + [sep] + init, last);
      LastComponentSnoc(init, last);
      LastComponentAfterSeparator(dir, sep, init);
    }
  }

  /** Only the last path component reaches the entry. */
  lemma OnlyLastComponentMatters(dir: seq<byte>, sep: byte, f: seq<byte>, start: u16, size: u32)
    requires IsSeparator(sep) && IsCString(dir) && IsCString(f)
    ensures IsCString(dir + [sep] + f)
    ensures WriteDirent(dir + [sep] + f, start, size) == WriteDirent(f, start, size)
  {
    var s := dir + [sep] + f;
    assert forall i :: 0 <= i < |s| ==> s[i] != 0 by {
      forall i | 0 <= i < |s| ensures s[i] != 0 {
        if i < |dir| { assert s[i] == dir[i]; }
        else if i > |dir| { assert s[i] == f[i - |dir| - 1]; }
      }
    }
    LastComponentAfterSeparator(dir, sep, f);
  }

  /** Upper-casing keeps separators and non-separators apart. */
  lemma UpperKeepsSeparators(b: byte)
    ensures IsSeparator(ToUpper(b)) <==> IsSeparator(b)
  {
  }

  /**
    Of two equally long strings with separators at the same places, a
    separator-free suffix of one is no longer than the last component of
    the other.
   */
  lemma SuffixNotLonger(s: seq<byte>, u: seq<byte>, r: seq<byte>, q: seq<byte>)
    requires |u| == |s|
    requires forall j :: 0 <= j < |s| ==> (IsSeparator(u[j]) <==> IsSeparator(s[j]))
    requires |r| <= |s| && (|r| < |s| ==> IsSeparator(s[|s| - |r| - 1]))
    requires |q| <= |u| && q == u[|u| - |q|..]
    requires forall i :: 0 <= i < |q| ==> !IsSeparator(q[i])
    ensures |q| <= |r|
  {
    if |r| < |s| {
      var j := |s| - |r| - 1;
      assert IsSeparator(u[j]);
      forall i | |u| - |q| <= i < |u| ensures !IsSeparator(u[i]) {
        assert u[i] == q[i - (|u| - |q|)];
      }
    }
  }

  lemma UpperCaseAt(s: seq<byte>)
    ensures |UpperCase(s)| == |s| && forall j :: 0 <= j < |s| ==> UpperCase(s)[j] == ToUpper(s[j])
  {
  }

  /** The last components of a string and of its upper-cased copy line up byte for byte. */
  lemma LastComponentsAlign(s: seq<byte>, u: seq<byte>, r: seq<byte>, q: seq<byte>)
    requires |u| == |s| && forall j :: 0 <= j < |s| ==> u[j] == ToUpper(s[j])
    requires |r| <= |s| && r == s[|s| - |r|..] && (|r| < |s| ==> IsSeparator(s[|s| - |r| - 1]))
    requires forall i :: 0 <= i < |r| ==> !IsSeparator(r[i])
    requires |q| <= |u| && q == u[|u| - |q|..] && (|q| < |u| ==> IsSeparator(u[|u| - |q| - 1]))
    requires forall i :: 0 <= i < |q| ==> !IsSeparator(q[i])
    ensures q == UpperCase(r)
  {
    UpperCaseAt(r);
    forall j | 0 <= j < |s| ensures IsSeparator(u[j]) <==> IsSeparator(s[j]) {
      UpperKeepsSeparators(s[j]);
    }
    SuffixNotLonger(s, u, r, q);
    SuffixNotLonger(u, s, q, r);
    forall k | 0 <= k < |q| ensures q[k] == ToUpper(r[k]) {
      assert q[k] == u[|s| - |q| + k];
      assert r[k] == s[|s| - |r| + k];
    }
  }

  lemma LastComponentOfUpper(s: seq<byte>)
    ensures LastComponent(UpperCase(s)) == UpperCase(LastComponent(s))
  {
    var u := UpperCase(s);
    var r := LastComponent(s);
    var q := LastComponent(u);
    UpperCaseAt(s);
    LastComponentsAlign(s, u, r, q);
  }

  /** Letter case in the file name never matters: upper-casing it first changes nothing. */
  lemma CaseIgnored(f: seq<byte>, start: u16, size: u32)
    requires IsCString(f)
    ensures IsCString(UpperCase(f))
    ensures WriteDirent(UpperCase(f), start, size) == WriteDirent(f, start, size)
  {
    UpperCaseKeepsCString(f);
    LastComponentOfUpper(f);
    var c := LastComponent(f);
    UpperCaseIdempotent(c);
    assert UpperCase(LastComponent(UpperCase(f))) == UpperCase(c);
  }

  lemma UpperCaseKeepsCString(f: seq<byte>)
    requires IsCString(f)
    ensures IsCString(UpperCase(f))
  {
    var u := UpperCase(f);
    forall i | 0 <= i < |u| ensures u[i] != 0 {
      assert u[i] == ToUpper(f[i]);
    }
  }

  lemma UpperCaseIdempotent(s: seq<byte>)
    ensures UpperCase(UpperCase(s)) == UpperCase(s)
  {
    var u := UpperCase(s);
    assert forall i :: 0 <= i < |u| ==> ToUpper(u[i]) == u[i];
  }

  /**
    A written entry is a live regular file for the inspector, unless its
    last path component starts with the deleted-slot byte.
   */
  lemma WrittenEntryIsFile(f: seq<byte>, start: u16, size: u32)
    requires IsCString(f)
    ensures var c := LastComponent(f);
            Classify(WriteDirent(f, start, size)) == RegularFile
            <==> !(|c| > 0 && c[0] == SlotDeleted)
  {
    var c := LastComponent(f);
    var e := WriteDirent(f, start, size);
    WrittenFirstByte(f, start, size);
    if |c| > 0 {
      assert c[0] == f[|f| - |c|];
    }
    if e.name[0] != SlotDeleted {
      NormalEntryIsFile(e);
    }
  }

  /** The first name byte: the upper-cased first byte of the component, or a space when the base is empty. */
  lemma WrittenFirstByte(f: seq<byte>, start: u16, size: u32)
    requires IsCString(f)
    ensures var c := LastComponent(f);
            WriteDirent(f, start, size).name[0]
            == if |c| == 0 || ToUpper(c[0]) == DotMark then Space else ToUpper(c[0])
  {
    var c := LastComponent(f);
    var u := UpperCase(c);
    match SplitAtFirstDot(u)
    case NoDot(w) =>
      if |c| > 0 {
        assert u[0] == ToUpper(c[0]);
      }
    case Dotted(b, a) =>
      if |b| > 0 {
        assert u[0] == b[0];
      } else if |c| > 0 {
        assert u[0] == DotMark;
      }
  }

  /** sprintf("%d", n) for a non-negative n. */
  function Decimal(n: nat): (r: seq<byte>)
    ensures 1 <= |r|
    ensures forall i :: 0 <= i < |r| ==> 0x30 <= r[i] <= 0x39
    decreases n
  {
    if n < 10 then [0x30 + n] else Decimal(n / 10) + [0x30 + n % 10]
  }

  /** The number a string of decimal digits denotes. */
  function DigitsValue(s: seq<byte>): nat
    requires forall i :: 0 <= i < |s| ==> 0x30 <= s[i] <= 0x39
  {
    if |s| == 0 then 0 else 10 * DigitsValue(s[..|s| - 1]) + (s[|s| - 1] - 0x30)
  }

  lemma {:induction false} DecimalRoundTrip(n: nat)
    ensures DigitsValue(Decimal(n)) == n
    decreases n
  {
    if n >= 10 {
      var d := Decimal(n);
      assert d[..|d| - 1] == Decimal(n / 10);
      DecimalRoundTrip(n / 10);
    }
  }

  const FoundPrefix: seq<byte> := [0x66, 0x6F, 0x75, 0x6E, 0x64]     // "found"
  const DatSuffix: seq<byte> := [0x2E, 0x64, 0x61, 0x74]             // ".dat"
  const FoundUpper: seq<byte> := [0x46, 0x4F, 0x55, 0x4E, 0x44]      // "FOUND"
  const DatUpper: seq<byte> := [0x44, 0x41, 0x54]                    // "DAT"

  /** The name given to the n-th recovered cluster: found<n>.dat. */
  function OrphanName(n: nat): seq<byte> {
    FoundPrefix + Decimal(n) + DatSuffix
  }

  lemma OrphanNameNoSeparator(n: nat)
    ensures IsCString(OrphanName(n))
    ensures LastComponent(OrphanName(n)) == OrphanName(n)
  {
    var d := Decimal(n);
    var f := OrphanName(n);
    forall i | 0 <= i < |f| ensures f[i] != 0 && !IsSeparator(f[i]) {
      if 5 <= i < 5 + |d| { assert f[i] == d[i - 5]; }
    }
    LastComponentOfPlain(f);
  }

  lemma OrphanNameUpper(n: nat)
    ensures UpperCase(OrphanName(n)) == (FoundUpper + Decimal(n)) + [DotMark] + DatUpper
  {
    var d := Decimal(n);
    var f := OrphanName(n);
    var u := UpperCase(f);
    var w := (FoundUpper + d) + [DotMark] + DatUpper;
    assert |u| == |w|;
    forall i | 0 <= i < |u| ensures u[i] == w[i] {
      if 5 <= i < 5 + |d| { assert f[i] == d[i - 5]; assert w[i] == d[i - 5]; }
    }
  }

  lemma OrphanBaseHasNoDot(n: nat)
    ensures DotMark !in FoundUpper + Decimal(n)
  {
    var d := Decimal(n);
    var base := FoundUpper + d;
    forall i | 0 <= i < |base| ensures base[i] != DotMark {
      if 5 <= i { assert base[i] == d[i - 5]; }
    }
  }

  lemma WriteOrphanDirent(n: nat, start: u16, size: u32)
    ensures IsCString(OrphanName(n))
    ensures WriteDirent(OrphanName(n), start, size)
         == Entry(Field(FoundUpper + Decimal(n), 8, Space), DatUpper, AttrNormal, start, size)
  {
    OrphanNameNoSeparator(n);
    OrphanNameUpper(n);
    OrphanBaseHasNoDot(n);
    SplitUnique(FoundUpper + Decimal(n), DatUpper, SplitAtFirstDot((FoundUpper + Decimal(n)) + [DotMark] + DatUpper));
    assert Field(DatUpper, 3, Underscore) == DatUpper;
  }

  /**
    A recovered entry reads back as FOUND<n> . DAT (the base cut to 8 bytes),
    and the inspector sees it as a live regular file.
   */
  lemma OrphanEntryShape(n: nat, start: u16, size: u32)
    ensures IsCString(OrphanName(n))
    ensures var e := WriteDirent(OrphanName(n), start, size);
            && e.name[..5] == FoundUpper
            && e.ext == DatUpper
            && StoredBase(e) == (FoundUpper + Decimal(n))[..Min8(5 + |Decimal(n)|)]
            && Classify(e) == RegularFile
  {
    WriteOrphanDirent(n, start, size);
    var e := WriteDirent(OrphanName(n), start, size);
    assert e.name[..5] == FoundUpper;
    OrphanStoredBase(n);
    NormalEntryIsFile(e);
  }

  lemma OrphanStoredBase(n: nat)
    ensures TrimRight(Field(FoundUpper + Decimal(n), 8, Space), Space)
         == (FoundUpper + Decimal(n))[..Min8(5 + |Decimal(n)|)]
  {
    var base := FoundUpper + Decimal(n);
    forall i | 0 <= i < |base| ensures base[i] != Space {
      if 5 <= i { assert base[i] == Decimal(n)[i - 5]; }
    }
    TrimPlainField(base, 8);
    assert Field(base, 8, Space)[..Min8(|base|)] == base[..Min8(|base|)];
  }

  function Min8(k: nat): nat {
    if k < 8 then k else 8
  }

  /** A field filled with a base of non-space bytes reads back as the (cut) base. */
  lemma TrimPlainField(base: seq<byte>, width: nat)
    requires 1 <= width
    requires forall i :: 0 <= i < |base| ==> base[i] != Space
    requires |base| >= 1
    ensures TrimRight(Field(base, width, Space), Space)
         == Field(base, width, Space)[..if |base| < width then |base| else width]
  {
    var k := if |base| < width then |base| else width;
    var cut := base[..k];
    if |base| < width {
      assert Field(base, width, Space) == cut + seq(width - k, _ => Space);
    } else {
      assert Field(base, width, Space) == cut + seq(0, _ => Space);
    }
    TrimPadded(cut, width - k, Space);
  }
}
