/** The bookkeeping of the script scanner: where a script's main file is, the
    two registries of scanned scripts (every name.version, and the newest
    version per name), the numeric id packed from a script's short name, and
    the checksum combined from the digests of a script's files. */
module ScriptScanning {
  import opened Ints

  type byte = bv8

  const PATHSEPCHAR: char := '/'
  const MAIN_SCRIPT: string := "main.nut"

  datatype Option<T> = None | Some(value: T)

  // ---------------------------------------------------------------------------
  // The main-script path
  // ---------------------------------------------------------------------------

  /** std::string::rfind(PATHSEPCHAR): the last separator's position, or -1 for npos. */
  function LastSep(s: string): (p: int)
    ensures -1 <= p < |s|
    ensures p >= 0 ==> s[p] == PATHSEPCHAR
    ensures forall j :: p < j < |s| ==> s[j] != PATHSEPCHAR
  {
    if s == [] then -1
    else if s[|s| - 1] == PATHSEPCHAR then |s| - 1
    else LastSep(s[..|s| - 1])
  }

  /** A position with a separator and none after it is the last separator. */
  lemma LastSepUnique(s: string, p: int)
    requires -1 <= p < |s| && (p >= 0 ==> s[p] == PATHSEPCHAR)
    requires forall j :: p < j < |s| ==> s[j] != PATHSEPCHAR
    ensures LastSep(s) == p
  {
    var r := LastSep(s);
    if r > p {
      assert false;
    } else if r < p {
      assert false;
    }
  }

  /** The file name cut just after its last separator (or emptied when it has
      none), followed by "main.nut". */
  function MainScriptPath(filename: string): string {
    filename[..LastSep(filename) + 1] + MAIN_SCRIPT
  }

  /** The main script lies in the directory of the scanned file, and deriving
      the main script of a main script gives it back. */
  lemma MainScriptSameDirectory(filename: string)
    ensures LastSep(MainScriptPath(filename)) == LastSep(filename)
    ensures MainScriptPath(filename)[..LastSep(filename) + 1] == filename[..LastSep(filename) + 1]
    ensures MainScriptPath(MainScriptPath(filename)) == MainScriptPath(filename)
  {
    var q := LastSep(filename);
    var dir := filename[..q + 1];
    var m := dir + MAIN_SCRIPT;
    assert m == MainScriptPath(filename);
    assert forall j :: 0 <= j < |MAIN_SCRIPT| ==> MAIN_SCRIPT[j] != PATHSEPCHAR;
    assert forall j :: q < j < |m| ==> m[j] == MAIN_SCRIPT[j - q - 1];
    assert q >= 0 ==> m[q] == filename[q];
    LastSepUnique(m, q);
    assert m[..q + 1] == dir;
  }

  // ---------------------------------------------------------------------------
  // Script info and registry keys
  // ---------------------------------------------------------------------------

  /** What the scanner reads from a ScriptInfo. The short name is the byte
      buffer GetShortName points at; its C string ends at the first NUL, or at
      the end of the buffer. */
  datatype ScriptInfo = ScriptInfo(
    name: string,
    version: int32,
    shortName: seq<byte>,
    mainScript: string,
    developerOnly: bool)

  /** strlen: the bytes before the first NUL. */
  function CStrLen(s: seq<byte>): (n: nat)
    ensures n <= |s|
    ensures forall j :: 0 <= j < n ==> s[j] != 0
    ensures n < |s| ==> s[n] == 0
  {
    if s == [] || s[0] == 0 then 0 else 1 + CStrLen(s[1..])
  }

  function DigitChar(d: nat): (c: char)
    requires d < 10
  {
    ('0' as int + d) as char
  }

  /** The decimal digits of `n`, most significant first. */
  function Digits(n: nat): (s: string)
    ensures |s| >= 1
    ensures forall i :: 0 <= i < |s| ==> '0' <= s[i] <= '9'
  {
    if n < 10 then [DigitChar(n)] else Digits(n / 10) + [DigitChar(n % 10)]
  }

  /** How fmt::format writes an int: a minus sign for negative values, then the digits. */
  function DecimalString(v: int): string {
    if v < 0 then "-" + Digits(-v) else Digits(v)
  }

  function DigitsValue(s: string): int {
    if s == [] then 0 else DigitsValue(s[..|s| - 1]) * 10 + (s[|s| - 1] as int - '0' as int)
  }

  /** Reading a decimal string back. */
  function ParseDecimal(s: string): int {
    if |s| > 0 && s[0] == '-' then -DigitsValue(s[1..]) else DigitsValue(s)
  }

  lemma {:induction false} DigitsRoundTrip(n: nat)
    ensures DigitsValue(Digits(n)) == n
  {
    if n >= 10 {
      DigitsRoundTrip(n / 10);
      var s := Digits(n);
      assert s[..|s| - 1] == Digits(n / 10);
    }
  }

  /** The version written into a key can be read back. */
  lemma DecimalRoundTrip(v: int)
    ensures ParseDecimal(DecimalString(v)) == v
  {
    if v < 0 {
      DigitsRoundTrip(-v);
      assert ("-" + Digits(-v))[1..] == Digits(-v);
    } else {
      DigitsRoundTrip(v);
    }
  }

  /** The registry key "<name>.<version>". */
  function ScriptKey(name: string, version: int): string {
    name + "." + DecimalString(version)
  }

  /** The dot a key is built with is its last one: versions have no dots. */
  lemma KeyLastDot(name: string, version: int)
    ensures ScriptKey(name, version)[|name|] == '.'
    ensures forall i :: |name| < i < |ScriptKey(name, version)| ==> ScriptKey(name, version)[i] != '.'
  {
    var d := DecimalString(version);
    assert forall i :: 0 <= i < |d| ==> d[i] != '.';
    var k := ScriptKey(name, version);
    assert forall i :: |name| < i < |k| ==> k[i] == d[i - |name| - 1];
  }

  /** Keys tell scripts apart: the same key means the same name and version. */
  lemma ScriptKeyInjective(n1: string, v1: int, n2: string, v2: int)
    requires ScriptKey(n1, v1) == ScriptKey(n2, v2)
    ensures n1 == n2 && v1 == v2
  {
    var k := ScriptKey(n1, v1);
    KeyLastDot(n1, v1);
    KeyLastDot(n2, v2);
    assert |n1| == |n2|;
    assert n1 == k[..|n1|] == n2;
    assert DecimalString(v1) == k[|n1| + 1..] == DecimalString(v2);
    DecimalRoundTrip(v1);
    DecimalRoundTrip(v2);
  }

  // ---------------------------------------------------------------------------
  // The short-name id
  // ---------------------------------------------------------------------------

  /** A `char` promoted to int on a platform where char is signed, seen as the
      32 bits `|=` combines: bytes from 0x80 up fill the upper bits with ones. */
  function SignExtend(b: byte): bv32 {
    if b < 0x80 then b as bv32 else (b as bv32) | 0xFFFF_FF00
  }

  /** `x << (8 * j)` for the four byte positions of a 32-bit id. */
  function ShiftToByte(x: bv32, j: nat): bv32
    requires j < 4
  {
    if j == 0 then x else if j == 1 then x << 8 else if j == 2 then x << 16 else x << 24
  }

  /** The id after the loop has taken the first `n` bytes. */
  function IdUpTo(s: seq<byte>, n: nat): bv32
    requires n <= |s| && n <= 4
  {
    if n == 0 then 0 else IdUpTo(s, n - 1) | ShiftToByte(SignExtend(s[n - 1]), n - 1)
  }

  function Min(a: nat, b: nat): nat {
    if a < b then a else b
  }

  /** The id IsSameScript packs from a short name: at most four bytes, stopping
      at the terminator. */
  function ShortNameId(s: seq<byte>): bv32 {
    IdUpTo(s, Min(4, CStrLen(s)))
  }

  function Pack4(b0: byte, b1: byte, b2: byte, b3: byte): bv32 {
    (b0 as bv32) | ((b1 as bv32) << 8) | ((b2 as bv32) << 16) | ((b3 as bv32) << 24)
  }

  /** The little-endian packing the id is meant to be: byte `j` at bits 8j,
      for the first `n` bytes. */
  function LittleEndianUpTo(s: seq<byte>, n: nat): bv32
    requires n <= |s| && n <= 4
  {
    Pack4(if n > 0 then s[0] else 0, if n > 1 then s[1] else 0,
          if n > 2 then s[2] else 0, if n > 3 then s[3] else 0)
  }

  /** Byte `j` of a packed id. */
  function IdByte(id: bv32, j: nat): byte
    requires j < 4
  {
    ((if j == 0 then id else if j == 1 then id >> 8 else if j == 2 then id >> 16 else id >> 24) & 0xFF) as bv8
  }

  /** For bytes below 0x80 the sign extension does not show: the id is the
      little-endian packing. */
  lemma {:induction false} AsciiIdIsLittleEndian(s: seq<byte>, n: nat)
    requires n <= |s| && n <= 4
    requires forall j :: 0 <= j < n ==> s[j] < 0x80
    ensures IdUpTo(s, n) == LittleEndianUpTo(s, n)
  {
    if n > 0 {
      AsciiIdIsLittleEndian(s, n - 1);
    }
  }

  /** The four bytes of a little-endian packing can be read back. */
  lemma LittleEndianBytes(b0: byte, b1: byte, b2: byte, b3: byte)
    ensures IdByte(Pack4(b0, b1, b2, b3), 0) == b0 && IdByte(Pack4(b0, b1, b2, b3), 1) == b1
    ensures IdByte(Pack4(b0, b1, b2, b3), 2) == b2 && IdByte(Pack4(b0, b1, b2, b3), 3) == b3
  {
  }

  /** A four-character short name below 0x80 can be read back from its id. */
  lemma ShortNameIdDecodes(s: seq<byte>)
    requires CStrLen(s) >= 4
    requires forall j :: 0 <= j < 4 ==> s[j] < 0x80
    ensures forall j :: 0 <= j < 4 ==> IdByte(ShortNameId(s), j) == s[j]
  {
    AsciiIdIsLittleEndian(s, 4);
    LittleEndianBytes(s[0], s[1], s[2], s[3]);
    assert ShortNameId(s) == Pack4(s[0], s[1], s[2], s[3]);
    forall j | 0 <= j < 4
      ensures IdByte(ShortNameId(s), j) == s[j]
    {
    }
  }

  /** With a byte from 0x80 up, its sign extension swallows the later bytes:
      two different short names then share an id. */
  lemma HighByteSwallowsLaterBytes()
    ensures ShortNameId([0x80, 0x41, 0x42, 0x43]) == ShortNameId([0x80, 0x58, 0x59, 0x5A]) == 0xFFFF_FF80
  {
  }

  /** The id loop of IsSameScript. */
  method PackShortName(s: seq<byte>) returns (id: bv32)
    ensures id == ShortNameId(s)
  {
    id := 0;
    var j := 0;
    while j < 4 && j < |s| && s[j] != 0
      invariant 0 <= j <= 4 && j <= CStrLen(s)
      invariant id == IdUpTo(s, j)
    {
      id := id | ShiftToByte(SignExtend(s[j]), j);
      j := j + 1;
    }
  }

  // ---------------------------------------------------------------------------
  // The combined checksum
  // ---------------------------------------------------------------------------

  type Digest = s: seq<byte> | |s| == 16 witness [0, 0, 0, 0, 0, 0, 0, 0, 0, 0, 0, 0, 0, 0, 0, 0]

  const ZERO_DIGEST: Digest := [0, 0, 0, 0, 0, 0, 0, 0, 0, 0, 0, 0, 0, 0, 0, 0]

  function XorDigest(a: Digest, b: Digest): Digest {
    seq(16, i requires 0 <= i < 16 => a[i] ^ b[i])
  }

  /** The checksum after XOR-ing in each digest of `ds`, in order. */
  function XorAll(ds: seq<Digest>): Digest {
    if ds == [] then ZERO_DIGEST else XorDigest(XorAll(ds[..|ds| - 1]), ds[|ds| - 1])
  }

  lemma XorDigestFacts(a: Digest, b: Digest, c: Digest)
    ensures XorDigest(a, b) == XorDigest(b, a)
    ensures XorDigest(XorDigest(a, b), c) == XorDigest(a, XorDigest(b, c))
    ensures XorDigest(a, ZERO_DIGEST) == a
    ensures XorDigest(a, a) == ZERO_DIGEST
  {
    assert forall i :: 0 <= i < 16 ==> XorDigest(XorDigest(a, b), c)[i] == XorDigest(a, XorDigest(b, c))[i];
  }

  /** Checksumming two groups of files is XOR-ing their checksums. */
  lemma {:induction false} XorAllAppend(a: seq<Digest>, b: seq<Digest>)
    ensures XorAll(a + b) == XorDigest(XorAll(a), XorAll(b))
  {
    if b == [] {
      assert a + b == a;
      XorDigestFacts(XorAll(a), ZERO_DIGEST, ZERO_DIGEST);
    } else {
      var b' := b[..|b| - 1];
      var x := b[|b| - 1];
      assert (a + b)[..|a + b| - 1] == a + b';
      XorAllAppend(a, b');
      XorDigestFacts(XorAll(a), XorAll(b'), x);
    }
  }

  /** Taking one `x` off both sides of a multiset equality. */
  lemma MultisetCancel(a: seq<Digest>, b1: seq<Digest>, x: Digest, b2: seq<Digest>)
    requires multiset(a + [x]) == multiset(b1 + [x] + b2)
    ensures multiset(a) == multiset(b1 + b2)
  {
    assert multiset(a + [x]) == multiset(a) + multiset{x};
    assert multiset(b1 + [x]) == multiset(b1) + multiset{x};
    assert multiset(b1 + [x] + b2) == multiset(b1 + [x]) + multiset(b2);
    assert multiset(b1 + b2) == multiset(b1) + multiset(b2);
    assert multiset(b1 + [x] + b2) == multiset(b1 + b2) + multiset{x};
    assert multiset(a) == multiset(a + [x]) - multiset{x};
    assert multiset(b1 + b2) == multiset(b1 + [x] + b2) - multiset{x};
  }

  /** A digest in the middle of the list can be moved to the end. */
  lemma XorAllMoveLast(b1: seq<Digest>, x: Digest, b2: seq<Digest>)
    ensures XorAll(b1 + [x] + b2) == XorAll(b1 + b2 + [x])
  {
    XorAllAppend(b1 + [x], b2);
    XorAllAppend(b1, [x]);
    XorAllAppend(b1, b2);
    XorAllAppend(b1 + b2, [x]);
    assert XorAll([x]) == XorDigest(ZERO_DIGEST, x);
    XorDigestFacts(x, ZERO_DIGEST, ZERO_DIGEST);
    XorDigestFacts(ZERO_DIGEST, x, ZERO_DIGEST);
    XorDigestFacts(XorAll(b1), x, XorAll(b2));
    XorDigestFacts(x, XorAll(b2), ZERO_DIGEST);
    XorDigestFacts(XorAll(b1), XorAll(b2), x);
  }

  /** The order the files are found in does not matter. */
  lemma {:induction false} XorAllOrderIndependent(a: seq<Digest>, b: seq<Digest>)
    requires multiset(a) == multiset(b)
    ensures XorAll(a) == XorAll(b)
    decreases |a|
  {
    if a != [] {
      var a' := a[..|a| - 1];
      var x := a[|a| - 1];
      assert a == a' + [x];
      assert x in multiset(b);
      var k :| 0 <= k < |b| && b[k] == x;
      var b1, b2 := b[..k], b[k + 1..];
      assert b == b1 + [x] + b2;
      MultisetCancel(a', b1, x, b2);
      XorAllOrderIndependent(a', b1 + b2);
      XorAllMoveLast(b1, x, b2);
      assert (b1 + b2 + [x])[..|b1 + b2|] == b1 + b2;
    }
  }

  /** A file counted twice cancels out. */
  lemma XorAllTwiceCancels(ds: seq<Digest>, d: Digest)
    ensures XorAll(ds + [d, d]) == XorAll(ds)
  {
    assert (ds + [d, d])[..|ds| + 1] == ds + [d];
    assert (ds + [d])[..|ds|] == ds;
    XorDigestFacts(XorAll(ds), d, d);
    XorDigestFacts(d, d, d);
    XorDigestFacts(XorAll(ds), ZERO_DIGEST, ZERO_DIGEST);
  }

  /** The digests of the files that could be opened, in order. */
  function Opened(files: seq<Option<Digest>>): seq<Digest> {
    if files == [] then []
    else Opened(files[..|files| - 1]) + (if files[|files| - 1].Some? then [files[|files| - 1].value] else [])
  }

  /** ScriptFileChecksumCreator: a 16-byte checksum starting at all zeros, into
      which the digest of every file added is XOR-ed. */
  class ChecksumCreator {
    const md5sum: array<byte>

    constructor ()
      ensures fresh(md5sum) && md5sum[..] == ZERO_DIGEST
    {
      md5sum := new byte[16](_ => 0);
    }

    /** Adds one file: false when it cannot be opened (`None`), and then the
        checksum is unchanged. */
    method AddFile(file: Option<Digest>) returns (ok: bool)
      requires md5sum.Length == 16
      modifies md5sum
      ensures ok <==> file.Some?
      ensures md5sum[..] == if ok then XorDigest(old(md5sum[..]), file.value) else old(md5sum[..])
    {
      if file.None? {
        return false;
      }
      var tmp := file.value;
      var i := 0;
      while i < 16
        invariant 0 <= i <= 16
        invariant forall k :: 0 <= k < i ==> md5sum[k] == old(md5sum[k]) ^ tmp[k]
        invariant forall k :: i <= k < 16 ==> md5sum[k] == old(md5sum[k])
      {
        md5sum[i] := md5sum[i] ^ tmp[i];
        i := i + 1;
      }
      return true;
    }
  }

  /** What IsSameScript answers, given the files found for the script: the ids
      agree, and when asked, so do the checksums. */
  function SameScript(ciId: bv32, ciMd5: Digest, md5sum: bool, info: ScriptInfo,
                      files: seq<Option<Digest>>): bool {
    ShortNameId(info.shortName) == ciId && (!md5sum || XorAll(Opened(files)) == ciMd5)
  }

  /** IsSameScript: compares the id packed from the short name and, when
      `md5sum` is set, the checksum of the script's files. */
  method IsSameScript(ciId: bv32, ciMd5: Digest, md5sum: bool, info: ScriptInfo,
                      files: seq<Option<Digest>>) returns (same: bool)
    ensures same <==> SameScript(ciId, ciMd5, md5sum, info, files)
  {
    var id := PackShortName(info.shortName);
    if id != ciId {
      return false;
    }
    if !md5sum {
      return true;
    }
    var checksum := new ChecksumCreator();
    var i := 0;
    while i < |files|
      invariant 0 <= i <= |files|
      invariant checksum.md5sum.Length == 16
      invariant checksum.md5sum[..] == XorAll(Opened(files[..i]))
    {
      assert files[..i + 1][..i] == files[..i];
      ghost var before := checksum.md5sum[..];
      var _ := checksum.AddFile(files[i]);
      assert Opened(files[..i + 1]) ==
        Opened(files[..i]) + (if files[i].Some? then [files[i].value] else []);
      if files[i].Some? {
        assert (Opened(files[..i]) + [files[i].value])[..|Opened(files[..i])|] == Opened(files[..i]);
        assert checksum.md5sum[..] == XorDigest(before, files[i].value);
      } else {
        assert Opened(files[..i + 1]) == Opened(files[..i]);
      }
      i := i + 1;
    }
    assert files[..|files|] == files;
    return checksum.md5sum[..] == ciMd5;
  }

  // ---------------------------------------------------------------------------
  // The scanner
  // ---------------------------------------------------------------------------

  /** A script goes into the newest-version list unless it is for developers
      only and the developer tools are off. */
  predicate Eligible(info: ScriptInfo, developerTools: bool) {
    !info.developerOnly || developerTools
  }

  /** The registries' invariant: keys match their scripts, every newest entry
      is also registered under its own key, and no eligible registered script
      is newer than the entry for its name. */
  ghost predicate RegistriesValid(list: map<string, ScriptInfo>, single: map<string, ScriptInfo>,
                                  developerTools: bool) {
    (forall k :: k in list ==>
       k == ScriptKey(list[k].name, list[k].version) && CStrLen(list[k].shortName) == 4) &&
    (forall n :: n in single ==>
       single[n].name == n && Eligible(single[n], developerTools) &&
       ScriptKey(n, single[n].version) in list &&
       list[ScriptKey(n, single[n].version)] == single[n]) &&
    (forall k :: k in list && Eligible(list[k], developerTools) ==>
       list[k].name in single && list[k].version <= single[list[k].name].version)
  }

  /** Whether RegisterScript takes `info`: a four-character short name and a
      name and version not registered yet. */
  predicate Accepted(list: map<string, ScriptInfo>, info: ScriptInfo) {
    CStrLen(info.shortName) == 4 && ScriptKey(info.name, info.version) !in list
  }

  /** Whether the accepted `info` becomes the entry for its name. */
  predicate BecomesNewest(single: map<string, ScriptInfo>, info: ScriptInfo, developerTools: bool) {
    Eligible(info, developerTools) &&
    (info.name !in single || single[info.name].version < info.version)
  }

  /** The list of every script after registering `info`. */
  function RegisteredList(list: map<string, ScriptInfo>, info: ScriptInfo): (r: map<string, ScriptInfo>)
    ensures list.Keys <= r.Keys
    ensures forall k :: k in list ==> r[k] == list[k]
    ensures forall k :: k in r && k !in list ==>
      k == ScriptKey(info.name, info.version) && r[k] == info && CStrLen(info.shortName) == 4
  {
    if Accepted(list, info) then list[ScriptKey(info.name, info.version) := info] else list
  }

  /** The newest-version list after registering `info`. */
  function RegisteredSingle(list: map<string, ScriptInfo>, single: map<string, ScriptInfo>,
                            info: ScriptInfo, developerTools: bool): (r: map<string, ScriptInfo>)
    ensures single.Keys <= r.Keys
    ensures forall n :: n in single ==> single[n].version <= r[n].version
    ensures forall n :: n in r && (n !in single || r[n] != single[n]) ==>
      n == info.name && r[n] == info && Eligible(info, developerTools) && Accepted(list, info)
  {
    if Accepted(list, info) && BecomesNewest(single, info, developerTools)
    then single[info.name := info] else single
  }

  lemma RegisterKeepsNewestRegistered(list: map<string, ScriptInfo>, single: map<string, ScriptInfo>,
                                      info: ScriptInfo, d: bool)
    requires RegistriesValid(list, single, d)
    ensures forall n :: n in RegisteredSingle(list, single, info, d) ==>
      var single', list' := RegisteredSingle(list, single, info, d), RegisteredList(list, info);
      single'[n].name == n && Eligible(single'[n], d) &&
      ScriptKey(n, single'[n].version) in list' &&
      list'[ScriptKey(n, single'[n].version)] == single'[n]
  {
    var single', list' := RegisteredSingle(list, single, info, d), RegisteredList(list, info);
    forall n | n in single'
      ensures single'[n].name == n && Eligible(single'[n], d)
      ensures ScriptKey(n, single'[n].version) in list'
      ensures list'[ScriptKey(n, single'[n].version)] == single'[n]
    {
      if Accepted(list, info) && n != info.name {
        assert single'[n] == single[n];
        assert ScriptKey(n, single[n].version) in list;
      }
    }
  }

  lemma RegisterKeepsNoneNewer(list: map<string, ScriptInfo>, single: map<string, ScriptInfo>,
                               info: ScriptInfo, d: bool)
    requires RegistriesValid(list, single, d)
    ensures forall k :: k in RegisteredList(list, info) && Eligible(RegisteredList(list, info)[k], d) ==>
      var single', list' := RegisteredSingle(list, single, info, d), RegisteredList(list, info);
      list'[k].name in single' && list'[k].version <= single'[list'[k].name].version
  {
    var single', list' := RegisteredSingle(list, single, info, d), RegisteredList(list, info);
    forall k | k in list' && Eligible(list'[k], d)
      ensures list'[k].name in single' && list'[k].version <= single'[list'[k].name].version
    {
      if k !in list {
        assert list'[k] == info;
      } else {
        assert list'[k] == list[k];
        assert list[k].name in single;
      }
    }
  }

  /** Registering keeps the registries' invariant. */
  lemma RegisterKeepsValid(list: map<string, ScriptInfo>, single: map<string, ScriptInfo>,
                           info: ScriptInfo, d: bool)
    ensures RegistriesValid(list, single, d) ==>
      RegistriesValid(RegisteredList(list, info), RegisteredSingle(list, single, info, d), d)
  {
    if RegistriesValid(list, single, d) {
      RegisterKeepsNewestRegistered(list, single, info, d);
      RegisterKeepsNoneNewer(list, single, info, d);
    }
  }

  /** The scripts `infos` as the info file registers them while the scanner
      holds `mainScript`: each takes the scanner's main script as its own. */
  function WithMainScript(infos: seq<ScriptInfo>, mainScript: string): (r: seq<ScriptInfo>)
    ensures |r| == |infos|
    ensures forall i :: 0 <= i < |r| ==> r[i] == infos[i].(mainScript := mainScript)
  {
    seq(|infos|, i requires 0 <= i < |infos| => infos[i].(mainScript := mainScript))
  }

  /** Both registries after registering each of `infos` in turn. A script
      already in the list of every script is never replaced. */
  function RegisteredAll(list: map<string, ScriptInfo>, single: map<string, ScriptInfo>,
                         infos: seq<ScriptInfo>, developerTools: bool)
    : (r: (map<string, ScriptInfo>, map<string, ScriptInfo>))
    ensures list.Keys <= r.0.Keys && single.Keys <= r.1.Keys
    ensures forall k :: k in list ==> r.0[k] == list[k]
    decreases |infos|
  {
    if infos == [] then (list, single)
    else
      var before := RegisteredAll(list, single, infos[..|infos| - 1], developerTools);
      var info := infos[|infos| - 1];
      (RegisteredList(before.0, info), RegisteredSingle(before.0, before.1, info, developerTools))
  }

  /** Registering any number of scripts keeps the registries' invariant. */
  lemma {:induction false} RegisteredAllKeepsValid(list: map<string, ScriptInfo>, single: map<string, ScriptInfo>,
                                                   infos: seq<ScriptInfo>, d: bool)
    requires RegistriesValid(list, single, d)
    ensures RegistriesValid(RegisteredAll(list, single, infos, d).0, RegisteredAll(list, single, infos, d).1, d)
    decreases |infos|
  {
    if infos != [] {
      var before := RegisteredAll(list, single, infos[..|infos| - 1], d);
      RegisteredAllKeepsValid(list, single, infos[..|infos| - 1], d);
      RegisterKeepsValid(before.0, before.1, infos[|infos| - 1], d);
    }
  }

  class ScriptScanner {
    var mainScript: string
    var tarFile: string
    /** Every registered script, by "<name>.<version>". */
    var infoList: map<string, ScriptInfo>
    /** The newest registered version of each script, by name. */
    var infoSingleList: map<string, ScriptInfo>

    ghost predicate Valid(developerTools: bool)
      reads this
    {
      RegistriesValid(infoList, infoSingleList, developerTools)
    }

    constructor ()
      ensures infoList == map[] && infoSingleList == map[]
      ensures forall d :: Valid(d)
    {
      mainScript, tarFile := "", "";
      infoList, infoSingleList := map[], map[];
    }

    /** AddFile: remembers the tar file and the main script beside `filename`
        and, when both files exist, loads the script. Loading runs the info
        file, which registers `registered` in turn (each with the main script
        just stored) through RegisterScript; `loads` says whether the load ends
        without a fatal error. */
    method AddFile(filename: string, tarFilename: string, fileExists: string -> bool,
                   registered: seq<ScriptInfo>, loads: bool, developerTools: bool)
      returns (ok: bool)
      modifies this
      ensures mainScript == MainScriptPath(filename) && tarFile == tarFilename
      ensures ok <==> fileExists(filename) && fileExists(mainScript) && loads
      ensures var infos := if fileExists(filename) && fileExists(mainScript)
                           then WithMainScript(registered, mainScript) else [];
        (infoList, infoSingleList) == RegisteredAll(old(infoList), old(infoSingleList), infos, developerTools)
      ensures old(Valid(developerTools)) ==> Valid(developerTools)
    {
      mainScript := filename;
      tarFile := tarFilename;
      var p := LastSep(mainScript);
      mainScript := mainScript[..p + 1];
      mainScript := mainScript + MAIN_SCRIPT;
      if !fileExists(filename) || !fileExists(mainScript) {
        return false;
      }
      RegisterEach(WithMainScript(registered, mainScript), developerTools);
      return loads;
    }

    /** The RegisterScript calls a script load makes, in order. */
    method RegisterEach(infos: seq<ScriptInfo>, developerTools: bool)
      modifies this
      ensures (infoList, infoSingleList) == RegisteredAll(old(infoList), old(infoSingleList), infos, developerTools)
      ensures old(Valid(developerTools)) ==> Valid(developerTools)
      ensures mainScript == old(mainScript) && tarFile == old(tarFile)
    {
      var i := 0;
      while i < |infos|
        invariant 0 <= i <= |infos|
        invariant mainScript == old(mainScript) && tarFile == old(tarFile)
        invariant (infoList, infoSingleList) == RegisteredAll(old(infoList), old(infoSingleList), infos[..i], developerTools)
        invariant old(Valid(developerTools)) ==> Valid(developerTools)
      {
        RegisterScript(infos[i], developerTools);
        assert infos[..i + 1][..i] == infos[..i];
        i := i + 1;
      }
      assert infos[..i] == infos;
    }

    /** Forgets every registered script. */
    method Reset()
      modifies this
      ensures infoList == map[] && infoSingleList == map[]
      ensures mainScript == old(mainScript) && tarFile == old(tarFile)
      ensures forall d :: Valid(d)
    {
      infoList := map[];
      infoSingleList := map[];
    }

    /** Registers a scanned script. A short name that is not four characters,
        or a name and version already registered, leaves both lists as they
        are (the first registration wins). Otherwise the script is registered
        and, when eligible, becomes the entry for its name if there is none or
        the entry has a strictly lower version. */
    method RegisterScript(info: ScriptInfo, developerTools: bool)
      modifies this
      ensures infoList == RegisteredList(old(infoList), info)
      ensures infoSingleList == RegisteredSingle(old(infoList), old(infoSingleList), info, developerTools)
      ensures old(Valid(developerTools)) ==> Valid(developerTools)
      ensures mainScript == old(mainScript) && tarFile == old(tarFile)
    {
      var originalName := info.name;
      var scriptName := ScriptKey(originalName, info.version);
      if CStrLen(info.shortName) != 4 {
        return;
      }
      if scriptName in infoList {
        return;
      }
      ghost var list0, single0 := infoList, infoSingleList;
      assert Accepted(list0, info);
      RegisterKeepsValid(list0, single0, info, developerTools);
      infoList := infoList[scriptName := info];
      if Eligible(info, developerTools) {
        if originalName !in infoSingleList {
          infoSingleList := infoSingleList[originalName := info];
        } else if infoSingleList[originalName].version < info.version {
          infoSingleList := infoSingleList[originalName := info];
        }
      }
      assert infoList == RegisteredList(list0, info);
      assert infoSingleList == RegisteredSingle(list0, single0, info, developerTools);
      assert old(Valid(developerTools)) == RegistriesValid(list0, single0, developerTools);
    }

    /** Whether any registered script is the one described by the content
        entry `ciId`/`ciMd5`; `filesOf` gives the digests of each script's files. */
    method HasScript(ciId: bv32, ciMd5: Digest, md5sum: bool, filesOf: ScriptInfo -> seq<Option<Digest>>)
      returns (found: bool)
      ensures found <==> exists k :: k in infoList && SameScript(ciId, ciMd5, md5sum, infoList[k], filesOf(infoList[k]))
    {
      var keys := infoList.Keys;
      while keys != {}
        invariant keys <= infoList.Keys
        invariant forall k :: k in infoList && k !in keys ==>
          !SameScript(ciId, ciMd5, md5sum, infoList[k], filesOf(infoList[k]))
        decreases |keys|
      {
        var k :| k in keys;
        var same := IsSameScript(ciId, ciMd5, md5sum, infoList[k], filesOf(infoList[k]));
        if same {
          return true;
        }
        keys := keys - {k};
      }
      return false;
    }

    /** FindMainScript: the main script of a registered script that is the one
        described by the content entry, or None when there is none. */
    method FindMainScript(ciId: bv32, ciMd5: Digest, md5sum: bool, filesOf: ScriptInfo -> seq<Option<Digest>>)
      returns (r: Option<string>)
      ensures r.None? <==> !exists k :: k in infoList && SameScript(ciId, ciMd5, md5sum, infoList[k], filesOf(infoList[k]))
      ensures r.Some? ==> exists k :: k in infoList && SameScript(ciId, ciMd5, md5sum, infoList[k], filesOf(infoList[k])) &&
                                      r.value == infoList[k].mainScript
    {
      var keys := infoList.Keys;
      while keys != {}
        invariant keys <= infoList.Keys
        invariant forall k :: k in infoList && k !in keys ==>
          !SameScript(ciId, ciMd5, md5sum, infoList[k], filesOf(infoList[k]))
        decreases |keys|
      {
        var k :| k in keys;
        var same := IsSameScript(ciId, ciMd5, md5sum, infoList[k], filesOf(infoList[k]));
        if same {
          return Some(infoList[k].mainScript);
        }
        keys := keys - {k};
      }
      return None;
    }
  }

  /** Registering the same name and version twice keeps the first script. */
  lemma FirstRegistrationWins(list: map<string, ScriptInfo>, first: ScriptInfo, second: ScriptInfo)
    requires first.name == second.name && first.version == second.version
    requires Accepted(list, first)
    ensures RegisteredList(RegisteredList(list, first), second) == RegisteredList(list, first)
    ensures RegisteredList(RegisteredList(list, first), second)[ScriptKey(second.name, second.version)] == first
  {
  }
}
