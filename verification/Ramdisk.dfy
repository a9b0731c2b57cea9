/**
 The RAM disk (ramdisk.c): an archive in the ustar Interchange Format (IEEE Std 1003.1, pax
 utility) is walked header by header and indexed by name.
 */
module Ramdisk {
  import opened Machine

  const ZERO: nat := 48      // '0'
  const BLOCK: nat := 512
  const NAME: nat := 100     // the length of the name field
  const SIZE_AT: nat := 124  // where the size field starts

  // ----- the size field

  // A char is signed on the machine.
  function Digit(b: byte): int {
    (if b < 128 then b else b - 256) - ZERO
  }

  function Value(field: seq<byte>): int {
    if field == [] then 0 else Value(field[..|field| - 1]) * 8 + Digit(field[|field| - 1])
  }

  function Power(n: nat): nat {
    if n == 0 then 1 else 8 * Power(n - 1)
  }

  // n in octal, with exactly k digits.
  function Octal(n: nat, k: nat): (s: seq<byte>)
    ensures |s| == k
  {
    if k == 0 then [] else Octal(n / 8, k - 1) + [ZERO + n % 8]
  }

  lemma {:induction false} OctalRoundTrip(n: nat, k: nat)
    requires n < Power(k)
    ensures Value(Octal(n, k)) == n
  {
    if k > 0 {
      OctalRoundTrip(n / 8, k - 1);
      assert Octal(n, k)[..k - 1] == Octal(n / 8, k - 1);
    }
  }

  // get_size on the 12-byte field at `at`: 11 digits, from the last to the first.
  method GetSize(mem: seq<byte>, at: nat) returns (size: nat)
    requires at + 11 <= |mem|
    ensures size == Wrap(Value(mem[at..at + 11]))
  {
    ghost var field := mem[at..at + 11];
    ghost var sum, power := 0, 1;
    size := 0;
    var count := 1;
    var j := 11;
    assert field[..11] == field;
    while j > 0
      invariant 0 <= j <= 11 && power == Power(11 - j) && (j > 0 ==> count == power)
      invariant size == Wrap(sum) && Value(field) == Value(field[..j]) * power + sum
    {
      ghost var digit := Digit(field[j - 1]);
      assert field[..j][..j - 1] == field[..j - 1];
      Shifted(Value(field[..j - 1]), digit, power);
      WrapAdd(sum, digit * power);
      PowerFits(11 - j);
      size := Wrap(size + Digit(mem[at + j - 1]) * count);
      count := Wrap(count * 8);
      sum, power := sum + digit * power, 8 * power;
      j := j - 1;
      if j > 0 { PowerFits(11 - j); }
    }
  }

  lemma Shifted(v: int, digit: int, power: int)
    ensures (v * 8 + digit) * power == v * (8 * power) + digit * power
  {
  }

  lemma WrapAdd(x: int, y: int)
    ensures Wrap(Wrap(x) + y) == Wrap(x + y)
  {
  }

  lemma PowerFits(n: nat)
    ensures n <= 10 ==> Power(n) < WORD
  {
    assert Power(10) == 0x4000_0000;
    if n < 10 { PowerGrows(n, 10); }
  }

  lemma {:induction false} PowerGrows(n: nat, m: nat)
    requires n <= m
    ensures Power(n) <= Power(m)
    decreases m - n
  {
    if n < m { PowerGrows(n + 1, m); }
  }

  // ----- the layout

  // A file: its name, the three fields between name and size, everything after the digits
  // of the size, and its contents.
  datatype File = File(name: seq<byte>, owner: seq<byte>, rest: seq<byte>, data: seq<byte>)

  predicate ValidFile(f: File) {
    && 0 < |f.name| <= NAME && 0 !in f.name
    && |f.owner| == SIZE_AT - NAME && |f.rest| == BLOCK - SIZE_AT - 11
    && |f.data| < WORD
  }

  function Padding(n: nat): nat {
    (BLOCK - n % BLOCK) % BLOCK
  }

  lemma PaddingExactly(n: nat)
    ensures Padding(n) < 512 && (n + Padding(n)) % 512 == 0
  {
  }

  function EncodeFile(f: File): (s: seq<byte>)
    requires ValidFile(f)
    ensures |s| == BLOCK + |f.data| + Padding(|f.data|)
  {
    f.name + ZeroBytes(NAME - |f.name|) + f.owner + Octal(|f.data|, 11) + f.rest + f.data + ZeroBytes(Padding(|f.data|))
  }

  function Encode(files: seq<File>): seq<byte>
    requires forall f <- files :: ValidFile(f)
  {
    if files == [] then [] else Encode(files[..|files| - 1]) + EncodeFile(files[|files| - 1])
  }

  // Two blocks of zeros end an archive.
  function Archive(files: seq<File>): seq<byte>
    requires forall f <- files :: ValidFile(f)
  {
    Encode(files) + ZeroBytes(2 * BLOCK)
  }

  function Offset(files: seq<File>, k: nat): nat
    requires k <= |files| && forall f <- files :: ValidFile(f)
  {
    |Encode(files[..k])|
  }

  // ----- reading an archive

  // File k of the archive lies at its offset.
  lemma {:induction false} FileAt(files: seq<File>, k: nat)
    requires k < |files| && forall f <- files :: ValidFile(f)
    ensures var o := Offset(files, k);
            && o + |EncodeFile(files[k])| == Offset(files, k + 1) <= |Encode(files)|
            && Encode(files)[o..Offset(files, k + 1)] == EncodeFile(files[k])
  {
    hide EncodeFile, ValidFile;
    var init := files[..|files| - 1];
    if k == |files| - 1 {
      assert files[..k] == init && files[..k + 1] == files;
    } else {
      FileAt(init, k);
      assert init[..k] == files[..k] && init[..k + 1] == files[..k + 1] && init[k] == files[k];
    }
  }

  // The encoded file f lies at offset o of the memory.
  predicate Lies(mem: seq<byte>, o: nat, f: File)
    requires ValidFile(f)
  {
    o + |EncodeFile(f)| <= |mem| && mem[o..o + |EncodeFile(f)|] == EncodeFile(f)
  }

  lemma FileLies(files: seq<File>, k: nat)
    requires k < |files| && forall f <- files :: ValidFile(f)
    ensures Lies(Archive(files), Offset(files, k), files[k])
  {
    FileAt(files, k);
    var o, e := Offset(files, k), EncodeFile(files[k]);
    assert Archive(files)[o..o + |e|] == Encode(files)[o..o + |e|];
  }

  // The fields of an encoded file.
  lemma Fields(f: File)
    requires ValidFile(f)
    ensures var e := EncodeFile(f);
            && e[..|f.name|] == f.name && (if |f.name| < NAME then e[|f.name|] == 0 else e[NAME] == f.owner[0])
            && e[SIZE_AT..SIZE_AT + 11] == Octal(|f.data|, 11)
            && e[BLOCK..BLOCK + |f.data|] == f.data
  {
  }

  lemma Part(mem: seq<byte>, o: nat, e: seq<byte>, a: nat, b: nat)
    requires o + |e| <= |mem| && mem[o..o + |e|] == e && a <= b <= |e|
    ensures mem[o + a..o + b] == e[a..b]
    ensures forall i :: a <= i < b ==> mem[o + i] == e[i]
  {
    forall i | a <= i < b ensures mem[o + i] == e[i] {
      assert mem[o..o + |e|][i] == mem[o + i];
    }
  }

  // What the walk reads in a header.
  lemma HeaderReads(mem: seq<byte>, o: nat, f: File)
    requires ValidFile(f) && Lies(mem, o, f)
    ensures o + BLOCK + |f.data| <= |mem| && mem[o] != 0
    ensures mem[o..o + |f.name|] == f.name && (if |f.name| < NAME then mem[o + |f.name|] == 0 else mem[o + NAME] == f.owner[0])
    ensures Wrap(Value(mem[o + SIZE_AT..o + SIZE_AT + 11])) == |f.data|
    ensures mem[o + BLOCK..o + BLOCK + |f.data|] == f.data
  {
    hide EncodeFile, Octal, Value, Power;
    var e := EncodeFile(f);
    Fields(f);
    Part(mem, o, e, 0, NAME + 1);
    Part(mem, o, e, 0, |f.name|);
    Part(mem, o, e, SIZE_AT, SIZE_AT + 11);
    Part(mem, o, e, BLOCK, BLOCK + |f.data|);
    assert f.name[0] in f.name;
    SizeReads(|f.data|);
  }

  lemma SizeReads(size: nat)
    requires size < WORD
    ensures Wrap(Value(Octal(size, 11))) == size
  {
    assert Power(11) == 0x2_0000_0000;
    OctalRoundTrip(size, 11);
  }

  // ----- names

  // strcmp finds `name` at p: these characters and then a NUL.
  predicate NameIs(mem: seq<byte>, p: nat, name: seq<byte>) {
    p + |name| < |mem| && mem[p..p + |name|] == name && mem[p + |name|] == 0
  }

  // The name ends inside its field, or by luck just behind it.
  predicate Terminated(f: File) {
    ValidFile(f) && (|f.name| < NAME || f.owner[0] == 0)
  }

  lemma PrefixAt(mem: seq<byte>, p: nat, a: seq<byte>, b: seq<byte>)
    requires |a| < |b| && p + |b| <= |mem| && mem[p..p + |b|] == b && mem[p + |a|] == 0
    ensures 0 in b
  {
    assert b[|a|] == mem[p + |a|];
  }

  // A lookup of a name that fits the field matches a file exactly if it is the file's name
  // and that is terminated: a name that fills its field and runs on into the next is lost.
  lemma NameMatches(mem: seq<byte>, o: nat, f: File, name: seq<byte>)
    requires ValidFile(f) && Lies(mem, o, f) && 0 !in name && |name| <= NAME
    ensures NameIs(mem, o, name) <==> name == f.name && Terminated(f)
  {
    HeaderReads(mem, o, f);
    if NameIs(mem, o, name) {
      if |name| < |f.name| { PrefixAt(mem, o, name, f.name); }
      if |f.name| < |name| { PrefixAt(mem, o, f.name, name); }
    }
  }

  // A name that fills its field and runs on into the next one is never found.
  lemma FullNameIsLost(mem: seq<byte>, o: nat, f: File)
    requires ValidFile(f) && Lies(mem, o, f) && !Terminated(f)
    ensures !NameIs(mem, o, f.name)
  {
    HeaderReads(mem, o, f);
  }

  // The first file with this name, or |files|.
  function FirstNamed(files: seq<File>, name: seq<byte>): (k: nat)
    requires forall f <- files :: ValidFile(f)
    ensures k <= |files| && (k < |files| ==> files[k].name == name && Terminated(files[k]))
    ensures forall i :: 0 <= i < k ==> !(files[i].name == name && Terminated(files[i]))
  {
    if files == [] then 0
    else
      var k := FirstNamed(files[..|files| - 1], name);
      var last := files[|files| - 1];
      if k < |files| - 1 || (last.name == name && Terminated(last)) then k else |files|
  }

  // ----- the walk and the index

  // The address of the next header, in 32-bit arithmetic.
  function Next(address: nat, size: nat): u32 {
    var next := Wrap(address + Wrap((size / BLOCK + 1) * BLOCK));
    if size % BLOCK != 0 then Wrap(next + BLOCK) else next
  }

  lemma NextIsBehind(address: nat, f: File)
    requires ValidFile(f) && address + |EncodeFile(f)| < WORD
    ensures Next(address, |f.data|) == address + |EncodeFile(f)|
  {
    var n := |f.data|;
    assert |EncodeFile(f)| == BLOCK + n + Padding(n);
    hide EncodeFile;
    Span(n);
  }

  lemma Span(n: nat)
    ensures BLOCK + n + Padding(n) == (n / BLOCK + 1) * BLOCK + if n % BLOCK != 0 then BLOCK else 0
  {
  }

  lemma OffsetsGrow(files: seq<File>, k: nat)
    requires k <= |files| && forall f <- files :: ValidFile(f)
    ensures Offset(files, k) <= Offset(files, |files|)
  {
    assert files[..|files|] == files;
    if k < |files| { FileAt(files, k); }
  }

  class Index {
    const base: nat          // where the archive lies
    const mem: seq<byte>     // the memory from there on
    ghost const list: seq<File>
    var files: array?<nat>   // the addresses of the headers
    var fileno: nat

    ghost predicate Archived() {
      && (forall f <- list :: ValidFile(f)) && Archive(list) <= mem && base + |mem| <= WORD
    }

    ghost predicate Valid()
      reads this, files
    {
      && Archived()
      && (files != null ==>
            files.Length == fileno == |list| && forall k :: 0 <= k < fileno ==> files[k] == base + Offset(list, k))
    }

    constructor (base: nat, mem: seq<byte>, ghost list: seq<File>)
      requires (forall f <- list :: ValidFile(f)) && Archive(list) <= mem && base + |mem| <= WORD
      ensures Valid() && files == null && this.base == base && this.mem == mem && this.list == list
    {
      this.base, this.mem, this.list := base, mem, list;
      files, fileno := null, 0;
    }

    lemma At(k: nat)
      requires Archived() && k < |list|
      ensures Lies(mem, Offset(list, k), list[k])
      ensures Offset(list, k + 1) == Offset(list, k) + |EncodeFile(list[k])|
    {
      LiesInMemory(list, mem, k);
      FileAt(list, k);
    }

    lemma AtEnd()
      requires Archived()
      ensures Offset(list, |list|) < |mem| && mem[Offset(list, |list|)] == 0
    {
      assert list[..|list|] == list;
      assert Archive(list)[|Encode(list)|] == 0;
    }

    // The step to the next header, as both walks take it.
    method Advance(address: u32, ghost k: nat) returns (next: u32)
      requires Archived() && k < |list| && address == base + Offset(list, k)
      ensures next == base + Offset(list, k + 1)
    {
      hide EncodeFile, Lies, Value, Next;
      HeaderFacts(k);
      var size := GetSize(mem, address - base + SIZE_AT);
      next := Next(address, size);
    }

    lemma HeaderFacts(k: nat)
      requires Archived() && k < |list|
      ensures var o := Offset(list, k); var n := |list[k].data|;
              && o + BLOCK + n <= |mem| && mem[o] != 0 && Wrap(Value(mem[o + SIZE_AT..o + SIZE_AT + 11])) == n
              && Next(base + o, n) == base + Offset(list, k + 1) && Offset(list, k + 1) < |mem|
    {
      At(k);
      AtEnd();
      OffsetsGrow(list, k + 1);
      HeaderReads(mem, Offset(list, k), list[k]);
      NextIsBehind(base + Offset(list, k), list[k]);
    }

    method CountFiles() returns (n: nat)
      requires Archived()
      ensures n == |list|
    {
      hide Offset, Archive, Value, Next;
      AtEnd();
      FirstAtZero();
      var address := base;
      n := 0;
      while mem[address - base] != 0
        invariant 0 <= n <= |list| && address == base + Offset(list, n) && Offset(list, n) < |mem|
        decreases |list| - n
      {
        HeaderFacts(n);
        address := Advance(address, n);
        n := n + 1;
      }
      if n < |list| { HeaderFacts(n); }
    }

    lemma FirstAtZero()
      requires Archived()
      ensures Offset(list, 0) == 0 && mem != []
    {
      AtEnd();
    }

    method AddFilesToList()
      requires Archived() && files != null && files.Length == |list|
      modifies files
      ensures forall k :: 0 <= k < |list| ==> files[k] == base + Offset(list, k)
    {
      hide Offset, Archive, Value, Next;
      AtEnd();
      FirstAtZero();
      var address, i := base, 0;
      while mem[address - base] != 0
        invariant 0 <= i <= |list| && address == base + Offset(list, i) && Offset(list, i) < |mem|
        invariant forall k :: 0 <= k < i ==> files[k] == base + Offset(list, k)
        decreases |list| - i
      {
        HeaderFacts(i);
        files[i] := address;
        address := Advance(address, i);
        i := i + 1;
      }
      if i < |list| { HeaderFacts(i); }
    }

    // InitRamdisk; `ok` is false when an assertion fails: address 0, or an empty archive.
    method Init() returns (ok: bool)
      requires Valid()
      modifies this
      ensures Valid() && ok == (base != 0 && list != [])
      ensures ok ==> files != null && fileno == |list|
    {
      ok := base != 0;
      if !ok { return; }
      files := null;
      fileno := CountFiles();
      ok := fileno != 0;
      if !ok { return; }
      files := new nat[fileno];
      AddFilesToList();
    }

    // strcmp finds this name at the header of file k.
    ghost predicate Matches(k: nat, name: seq<byte>)
      requires Archived() && k < |list|
    {
      NameIs(mem, Offset(list, k), name)
    }

    // The loop of both lookups: the index of the first header that matches, or fileno.
    method Search(name: seq<byte>) returns (i: nat)
      requires Valid() && files != null && 0 !in name
      ensures i <= |list| && (i < |list| ==> Matches(i, name)) && forall k :: 0 <= k < i ==> !Matches(k, name)
    {
      hide Offset, Archive;
      i := 0;
      while i < fileno
        invariant 0 <= i <= fileno
        invariant forall k :: 0 <= k < i ==> !Matches(k, name)
      {
        At(i);
        if NameIs(mem, files[i] - base, name) { return; }
        i := i + 1;
      }
    }

    // A name that fits the field is looked up by file name.
    lemma FirstMatch(name: seq<byte>, i: nat)
      requires Archived() && 0 !in name && |name| <= NAME
      requires i <= |list| && (i < |list| ==> Matches(i, name)) && forall k :: 0 <= k < i ==> !Matches(k, name)
      ensures i == FirstNamed(list, name)
    {
      hide Offset, Archive, Lies;
      forall k | 0 <= k < |list| ensures Matches(k, name) <==> list[k].name == name && Terminated(list[k]) {
        At(k);
        NameMatches(mem, Offset(list, k), list[k], name);
      }
    }

    // GetRamDiskFile: the address of the first header with this name, or NULL. (A longer name
    // may match a header whose name runs on behind its field.)
    method GetFile(name: seq<byte>) returns (header: nat)
      requires Valid() && 0 !in name
      ensures |name| <= NAME ==>
                var k := FirstNamed(list, name);
                header == if files != null && k < |list| then base + Offset(list, k) else 0
      ensures header != 0 ==> exists k :: 0 <= k < |list| && header == base + Offset(list, k) && Matches(k, name)
    {
      header := 0;
      if files == null { return; }
      var i := Search(name);
      if |name| <= NAME { FirstMatch(name, i); }
      if i < fileno { header := files[i]; }
    }

    // RamDiskFileContent: the address of its contents, or 0.
    method GetContent(name: seq<byte>) returns (address: nat)
      requires Valid() && 0 !in name
      ensures |name| <= NAME ==>
                var k := FirstNamed(list, name);
                address == if files != null && k < |list| then base + Offset(list, k) + BLOCK else 0
      ensures address != 0 ==> exists k :: 0 <= k < |list| && address == base + Offset(list, k) + BLOCK && Matches(k, name)
    {
      address := 0;
      if files == null { return; }
      var i := Search(name);
      if |name| <= NAME { FirstMatch(name, i); }
      if i < fileno { address := files[i] + BLOCK; }
    }
  }

  // The round trip: with pairwise distinct names, looking up the name of file k leads to
  // its own header (or nowhere, if it fills its field unterminated), behind which lie its contents, and the size read there is its length.
  lemma RoundTrip(files: seq<File>, mem: seq<byte>, k: nat)
    requires (forall f <- files :: ValidFile(f)) && Archive(files) <= mem && k < |files|
    requires forall i, j :: 0 <= i < j < |files| ==> files[i].name != files[j].name
    ensures FirstNamed(files, files[k].name) == if Terminated(files[k]) then k else |files|
    ensures var o, n := Offset(files, k), |files[k].data|;
            && o + BLOCK + n <= |mem| && mem[o + BLOCK..o + BLOCK + n] == files[k].data
            && Wrap(Value(mem[o + SIZE_AT..o + SIZE_AT + 11])) == n
  {
    LiesInMemory(files, mem, k);
    HeaderReads(mem, Offset(files, k), files[k]);
    hide EncodeFile, Lies, Value;
  }

  lemma LiesInMemory(files: seq<File>, mem: seq<byte>, k: nat)
    requires (forall f <- files :: ValidFile(f)) && Archive(files) <= mem && k < |files|
    ensures Lies(mem, Offset(files, k), files[k])
  {
    FileLies(files, k);
    var o, e := Offset(files, k), EncodeFile(files[k]);
    assert Archive(files)[o..o + |e|] == mem[o..o + |e|];
  }
}
