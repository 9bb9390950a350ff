/**
 The tar archive: the walk over the member headers, and directory listings from them.
 */
module Tar {

  import opened Octets
  import opened Slices

  const BLOCK: nat := 512
  const SIZE_AT: nat := 100 + 8 + 8 + 8 // the size field, behind name, mode, uid and gid
  const DIGITS: nat := 11
  const WORD: nat := 0x1_0000_0000
  const HEADERS: nat := 200

  // ---------- Sizes ----------

  /** A `char` as a number. */
  function Signed(b: Octet): int { if b < 128 then b else b - 256 }

  /** The value of digits, most significant first. */
  function Octal(s: seq<Octet>): int {
    if s == [] then 0 else 8 * Octal(s[..|s| - 1]) + Signed(s[|s| - 1]) - 48
  }

  predicate IsOctal(s: seq<Octet>) {
    forall i :: 0 <= i < |s| ==> 48 <= s[i] < 56
  }

  function Power8(n: nat): nat { if n == 0 then 1 else 8 * Power8(n - 1) }

  lemma OctalAppend(s: seq<Octet>, b: Octet)
    ensures Octal(s + [b]) == 8 * Octal(s) + Signed(b) - 48
  {
    assert (s + [b])[..|s|] == s;
  }

  /** One more digit in front. */
  lemma {:induction false} OctalPrepend(b: Octet, s: seq<Octet>)
    ensures Octal([b] + s) == (Signed(b) - 48) * Power8(|s|) + Octal(s)
  {
    hide Octal;
    if s == [] {
      assert [b] + s == [] + [b];
      OctalAppend([], b);
      OctalEmpty();
    } else {
      var r, z := s[..|s| - 1], s[|s| - 1];
      OctalPrepend(b, r);
      assert s == r + [z] && [b] + s == ([b] + r) + [z];
      OctalAppend([b] + r, z);
      OctalAppend(r, z);
      Times8(Signed(b) - 48, Power8(|r|));
    }
  }

  lemma OctalEmpty()
    ensures Octal([]) == 0 && IsOctal([])
  {
  }

  lemma Times8(d: int, p: int)
    ensures d * (8 * p) == 8 * (d * p)
  {
  }

  /** The last `k` octal digits of `n`, as characters. */
  function Digits(n: nat, k: nat): (s: seq<Octet>)
    ensures |s| == k
  {
    if k == 0 then [] else Digits(n / 8, k - 1) + [48 + n % 8]
  }

  lemma OneMoreDigit(s: seq<Octet>, d: Octet)
    requires IsOctal(s) && 48 <= d < 56
    ensures IsOctal(s + [d])
  {
  }

  /** What is written in octal is read back. */
  lemma {:induction false} OctalOfDigits(n: nat, k: nat)
    requires n < Power8(k)
    ensures Octal(Digits(n, k)) == n && IsOctal(Digits(n, k))
  {
    hide IsOctal, Octal;
    OctalEmpty();
    if k > 0 {
      OctalOfDigits(n / 8, k - 1);
      OctalAppend(Digits(n / 8, k - 1), 48 + n % 8);
      OneMoreDigit(Digits(n / 8, k - 1), 48 + n % 8);
    }
  }

  lemma {:induction false} OctalBound(s: seq<Octet>)
    requires IsOctal(s)
    ensures 0 <= Octal(s) < Power8(|s|)
  {
    if s != [] { OctalBound(s[..|s| - 1]); }
  }

  lemma AddMod(a: int, b: int)
    ensures (a % WORD + b) % WORD == (a + b) % WORD
  {
    var q := a / WORD;
    assert a + b == (a % WORD + b) + q * WORD;
    ModShift(a % WORD + b, q);
  }

  lemma ModShift(x: int, q: int)
    ensures (x + q * WORD) % WORD == x % WORD
  {
    var y := x + q * WORD;
    assert y == (x / WORD + q) * WORD + x % WORD;
  }

  /**
     getsize: 32-bit sums of the eleven digits, least significant first.  The kernel keeps
     them in a signed int; the wrap-around is that of the unsigned value it returns.
   */
  method GetSize(headerSize: seq<Octet>) returns (size: nat)
    requires |headerSize| >= DIGITS
    ensures size == Octal(headerSize[..DIGITS]) % WORD
  {
    var digits := headerSize[..DIGITS];
    var j, count := DIGITS, 1;
    size := 0;
    while j > 0
      invariant 0 <= j <= DIGITS && count == Power8(DIGITS - j)
      invariant size == Octal(digits[j..]) % WORD
    {
      OctalPrepend(digits[j - 1], digits[j..]);
      assert digits[j - 1..] == [digits[j - 1]] + digits[j..];
      AddMod(Octal(digits[j..]), (Signed(digits[j - 1]) - 48) * count);
      size := (size + (Signed(headerSize[j - 1]) - 48) * count) % WORD;
      count := count * 8;
      j := j - 1;
    }
    assert digits[0..] == digits;
  }

  /** moveTarfsHeader's step, in the kernel's 32-bit unsigned arithmetic. */
  function StepSize(size: nat): nat {
    (size / BLOCK + 1) * BLOCK % WORD + (if size % BLOCK != 0 then BLOCK else 0)
  }

  /** Bytes a member of `size` bytes takes: its header and its data in whole blocks. */
  function Taken(size: nat): nat { BLOCK * (1 + (size + BLOCK - 1) / BLOCK) }

  /** The least number of whole blocks that holds a header and `size` bytes. */
  lemma TakenMeans(size: nat)
    ensures Taken(size) % 512 == 0 && 512 + size <= Taken(size) < 512 + size + 512
  {
  }

  /** The step is right for exactly the sizes below 2^32 - 512. */
  lemma StepIsRight(size: nat)
    ensures StepSize(size % WORD) == Taken(size) <==> size < WORD - BLOCK
  {
    var low := size % WORD;
    var q := low / BLOCK;
    assert low == q * BLOCK + low % BLOCK && 0 <= q < 8388608;
    assert Taken(size) >= BLOCK + size;
    if size < WORD - BLOCK {
      assert low == size && (q + 1) * BLOCK < WORD;
    } else if low < WORD - BLOCK {
      assert StepSize(low) <= low + 2 * BLOCK;
    } else {
      assert q == 8388607;
    }
  }

  /** For the other sizes the step is too short. */
  lemma StepIsShort(size: nat)
    requires size >= WORD - BLOCK
    ensures StepSize(size % WORD) < Taken(size)
  {
    StepIsRight(size);
    var low := size % WORD;
    assert low == low / BLOCK * BLOCK + low % BLOCK && low / BLOCK <= 8388607;
    assert Taken(size) >= BLOCK + size;
    assert StepSize(low) <= low / BLOCK * BLOCK + BLOCK + (if low % BLOCK != 0 then BLOCK else 0);
  }

  // ---------- The walk ----------

  function StepAt(image: seq<Octet>, at: nat): nat
    requires at + BLOCK <= |image|
  {
    StepSize(Octal(image[at + SIZE_AT..at + SIZE_AT + DIGITS]) % WORD)
  }

  /** Every header met lies inside the image and every step moves on. */
  ghost predicate Advances(image: seq<Octet>, at: nat)
    decreases |image| - at
  {
    at < |image| ==> at + BLOCK <= |image| && StepAt(image, at) > 0 && Advances(image, at + StepAt(image, at))
  }

  /** The header offsets the walk meets. */
  ghost function Walk(image: seq<Octet>, at: nat): seq<nat>
    requires Advances(image, at)
    decreases |image| - at
  {
    if at >= |image| then [] else [at] + Walk(image, at + StepAt(image, at))
  }

  method MoveTarfsHeader(image: seq<Octet>, tarfsAddr: nat) returns (next: nat)
    requires tarfsAddr + BLOCK <= |image|
    ensures next == tarfsAddr + StepAt(image, tarfsAddr)
  {
    var size := GetSize(image[tarfsAddr + SIZE_AT..]);
    SliceOfTail(image, tarfsAddr + SIZE_AT, 0, DIGITS);
    assert image[tarfsAddr + SIZE_AT..][0..DIGITS] == image[tarfsAddr + SIZE_AT..][..DIGITS];
    next := tarfsAddr + (size / BLOCK + 1) * BLOCK % WORD;
    if size % BLOCK != 0 { next := next + BLOCK; }
  }

  method InitTarfs(image: seq<Octet>, headers: array<nat>) returns (filecount: nat)
    requires Advances(image, 0) && headers.Length == HEADERS && |Walk(image, 0)| <= HEADERS
    modifies headers
    ensures filecount <= headers.Length && headers[..filecount] == Walk(image, 0)
  {
    var tarfsAddr := 0;
    filecount := 0;
    while tarfsAddr < |image|
      invariant Advances(image, tarfsAddr) && filecount <= HEADERS
      invariant headers[..][..filecount] + Walk(image, tarfsAddr) == Walk(image, 0)
      decreases |image| - tarfsAddr
    {
      headers[filecount] := tarfsAddr;
      PrefixGrows(headers[..], filecount, Walk(image, tarfsAddr + StepAt(image, tarfsAddr)));
      tarfsAddr := MoveTarfsHeader(image, tarfsAddr);
      filecount := filecount + 1;
    }
  }

  // ---------- Archives ----------

  /** A member in the ustar Interchange Format: header, data, padding to a whole block. */
  datatype Member = Member(header: seq<Octet>, data: seq<Octet>, padding: seq<Octet>)

  ghost predicate IsMember(m: Member) {
    && |m.header| == BLOCK && |m.header| + |m.data| + |m.padding| == Taken(|m.data|)
    && IsOctal(m.header[SIZE_AT..SIZE_AT + DIGITS])
    && Octal(m.header[SIZE_AT..SIZE_AT + DIGITS]) == |m.data|
  }

  function Bytes(m: Member): seq<Octet> { m.header + m.data + m.padding }

  function Layout(ms: seq<Member>): seq<Octet> {
    if ms == [] then [] else Bytes(ms[0]) + Layout(ms[1..])
  }

  /** Where the members' headers are, in order. */
  function Offsets(ms: seq<Member>, at: nat): seq<nat> {
    if ms == [] then [] else [at] + Offsets(ms[1..], at + |Bytes(ms[0])|)
  }

  ghost predicate Archive(ms: seq<Member>) {
    forall i :: 0 <= i < |ms| ==> IsMember(ms[i]) && |ms[i].data| < WORD - BLOCK
  }

  lemma HeaderSteps(image: seq<Octet>, at: nat, m: Member)
    requires IsMember(m) && |m.data| < WORD - BLOCK
    requires at + |Bytes(m)| <= |image| && image[at..at + |Bytes(m)|] == Bytes(m)
    ensures at + BLOCK <= |image| && StepAt(image, at) == |Bytes(m)| > 0
  {
    Parts(image, at, m);
    StepIsRight(|m.data|);
    assert |m.data| % WORD == |m.data|;
  }

  /** The walk over members followed by anything: their offsets, then whatever the rest gives. */
  lemma {:induction false} WalkMembers(image: seq<Octet>, ms: seq<Member>, at: nat)
    requires Archive(ms) && at + |Layout(ms)| <= |image| && image[at..at + |Layout(ms)|] == Layout(ms)
    requires Advances(image, at + |Layout(ms)|)
    ensures Advances(image, at)
    ensures Walk(image, at) == Offsets(ms, at) + Walk(image, at + |Layout(ms)|)
    decreases |ms|
  {
    hide IsMember, Taken, StepAt, Bytes;
    if ms != [] {
      var m, next := ms[0], at + |Bytes(ms[0])|;
      var whole := image[at..at + |Layout(ms)|];
      assert image[at..next] == whole[..|Bytes(m)|] == Bytes(m);
      assert image[next..at + |Layout(ms)|] == whole[|Bytes(m)|..] == Layout(ms[1..]);
      HeaderSteps(image, at, m);
      WalkMembers(image, ms[1..], next);
    }
  }

  /** For every archive the walk records exactly the members' headers, in order, and ends. */
  lemma WalkFindsMembers(ms: seq<Member>)
    requires Archive(ms)
    ensures Advances(Layout(ms), 0) && Walk(Layout(ms), 0) == Offsets(ms, 0)
  {
    var image := Layout(ms);
    assert image[0..0 + |image|] == image;
    WalkMembers(image, ms, 0);
  }

  ghost predicate Members(ms: seq<Member>) {
    forall i :: 0 <= i < |ms| ==> IsMember(ms[i])
  }

  /** The walk from `at` records exactly the headers of `ms`, and ends. */
  ghost predicate Finds(image: seq<Octet>, ms: seq<Member>, at: nat) {
    Advances(image, at) && Walk(image, at) == Offsets(ms, at)
  }

  lemma HeaderReads(image: seq<Octet>, at: nat, m: Member)
    requires IsMember(m) && at + |Bytes(m)| <= |image| && image[at..at + |Bytes(m)|] == Bytes(m)
    ensures |Bytes(m)| == Taken(|m.data|) >= BLOCK && at + BLOCK <= |image|
    ensures StepAt(image, at) == StepSize(|m.data| % WORD)
  {
    Parts(image, at, m);
  }

  /** A step that is right leads on to the next member ... */
  lemma FindsNext(image: seq<Octet>, ms: seq<Member>, at: nat)
    requires ms != [] && at < |image| && at + BLOCK <= |image| && StepAt(image, at) == |Bytes(ms[0])| > 0
    ensures Finds(image, ms, at) <==> Finds(image, ms[1..], at + |Bytes(ms[0])|)
  {
    hide StepAt, Bytes;
    var next := at + |Bytes(ms[0])|;
    assert Offsets(ms, at) == [at] + Offsets(ms[1..], next);
    if Advances(image, next) {
      assert Walk(image, at) == [at] + Walk(image, next);
      SameRest(at, Walk(image, next), Offsets(ms[1..], next));
    }
  }

  lemma SameRest(x: nat, a: seq<nat>, b: seq<nat>)
    ensures [x] + a == [x] + b <==> a == b
  {
    if [x] + a == [x] + b {
      assert ([x] + a)[1..] == a && ([x] + b)[1..] == b;
    }
  }

  /** ... and one that is too short into the member's own data. */
  lemma FindsNothing(image: seq<Octet>, ms: seq<Member>, at: nat)
    requires ms != [] && at + BLOCK <= |image| && at + |Bytes(ms[0])| <= |image|
    requires StepAt(image, at) < |Bytes(ms[0])|
    ensures !Finds(image, ms, at)
  {
    hide StepAt, Bytes;
    var next, right := at + StepAt(image, at), at + |Bytes(ms[0])|;
    OffsetsStart(ms[1..], right);
    if Finds(image, ms, at) {
      assert Walk(image, at) == [at] + Walk(image, next) && Walk(image, next)[0] == next;
      SameRest(at, Walk(image, next), Offsets(ms[1..], right));
    }
  }

  lemma OffsetsStart(ms: seq<Member>, at: nat)
    ensures if ms == [] then Offsets(ms, at) == [] else Offsets(ms, at) != [] && Offsets(ms, at)[0] == at
  {
  }

  lemma {:induction false} WalkIsExactIff(image: seq<Octet>, ms: seq<Member>, at: nat)
    requires Members(ms) && at + |Layout(ms)| == |image| && image[at..] == Layout(ms)
    ensures Finds(image, ms, at) <==> Archive(ms)
    decreases |ms|
  {
    hide IsMember, Taken, StepAt, Bytes, Finds;
    if ms == [] {
      NothingToFind(image, at);
    } else {
      var m, next := ms[0], at + |Bytes(ms[0])|;
      LayoutSplits(image, ms, at);
      HeaderReads(image, at, m);
      StepIsRight(|m.data|);
      if |m.data| < WORD - BLOCK {
        FindsNext(image, ms, at);
        WalkIsExactIff(image, ms[1..], next);
        ArchiveFirst(ms);
      } else {
        StepIsShort(|m.data|);
        FindsNothing(image, ms, at);
      }
    }
  }

  lemma NothingToFind(image: seq<Octet>, at: nat)
    requires at >= |image|
    ensures Finds(image, [], at)
  {
  }

  lemma LayoutSplits(image: seq<Octet>, ms: seq<Member>, at: nat)
    requires ms != [] && at + |Layout(ms)| == |image| && image[at..] == Layout(ms)
    ensures at + |Bytes(ms[0])| <= |image| && image[at..at + |Bytes(ms[0])|] == Bytes(ms[0])
    ensures at + |Bytes(ms[0])| + |Layout(ms[1..])| == |image| && image[at + |Bytes(ms[0])|..] == Layout(ms[1..])
  {
    hide Bytes;
    var n := |Bytes(ms[0])|;
    SliceOfTail(image, at, 0, n);
    TailOfTail(image, at, n);
    assert Layout(ms)[0..n] == Bytes(ms[0]) && Layout(ms)[n..] == Layout(ms[1..]);
  }

  lemma ArchiveFirst(ms: seq<Member>)
    requires Members(ms) && ms != [] && |ms[0].data| < WORD - BLOCK
    ensures Archive(ms) <==> Archive(ms[1..])
  {
    hide IsMember;
    if Archive(ms[1..]) {
      forall i | 0 <= i < |ms| ensures IsMember(ms[i]) && |ms[i].data| < WORD - BLOCK {
        if i > 0 { assert ms[i] == ms[1..][i - 1]; }
      }
    }
  }

  /**
   For every sequence of members, of any size eleven octal digits can say: the walk over
   their image records exactly their headers, and ends, if and only if each of them is
   smaller than 2^32 - 512 bytes.
   */
  lemma WalkFindsMembersIff(ms: seq<Member>)
    requires Members(ms)
    ensures Finds(Layout(ms), ms, 0) <==> forall i :: 0 <= i < |ms| ==> |ms[i].data| < WORD - BLOCK
  {
    hide IsMember, Finds;
    assert Layout(ms)[0..] == Layout(ms);
    WalkIsExactIff(Layout(ms), ms, 0);
  }

  /** Reading at a recorded offset gives the member back. */
  lemma {:induction false} MemberIsThere(ms: seq<Member>, image: seq<Octet>, at: nat, i: nat)
    requires i < |ms| && at + |Layout(ms)| <= |image| && image[at..at + |Layout(ms)|] == Layout(ms)
    ensures |Offsets(ms, at)| == |ms|
    ensures Offsets(ms, at)[i] + |Bytes(ms[i])| <= |image|
    ensures image[Offsets(ms, at)[i]..Offsets(ms, at)[i] + |Bytes(ms[i])|] == Bytes(ms[i])
    decreases |ms|
  {
    hide Bytes;
    var next, whole := at + |Bytes(ms[0])|, image[at..at + |Layout(ms)|];
    OffsetsCount(ms, at);
    if i == 0 {
      assert image[at..next] == whole[..|Bytes(ms[0])|] == Bytes(ms[0]);
    } else {
      assert image[next..at + |Layout(ms)|] == whole[|Bytes(ms[0])|..] == Layout(ms[1..]);
      MemberIsThere(ms[1..], image, next, i - 1);
    }
  }

  lemma OffsetsCount(ms: seq<Member>, at: nat)
    ensures |Offsets(ms, at)| == |ms|
  {
    if ms != [] { OffsetsCount(ms[1..], at + |Bytes(ms[0])|); }
  }

  function Zeros(n: nat): (s: seq<Octet>)
    ensures |s| == n && forall i :: 0 <= i < n ==> s[i] == 0
  {
    seq(n, _ => 0)
  }

  lemma {:induction false} OctalZeros(n: nat)
    ensures 7 * Octal(Zeros(n)) == -48 * (Power8(n) - 1)
  {
    if n > 0 {
      assert Zeros(n)[..n - 1] == Zeros(n - 1);
      OctalZeros(n - 1);
    }
  }

  /** An end block of zeros is recorded as one more header, and the walk ends with it. */
  lemma EndBlockIsRecorded(ms: seq<Member>, n: nat)
    requires Archive(ms) && BLOCK <= n <= 0x4000_0000
    ensures Advances(Layout(ms) + Zeros(n), 0)
    ensures Walk(Layout(ms) + Zeros(n), 0) == Offsets(ms, 0) + [|Layout(ms)|]
  {
    var image, at := Layout(ms) + Zeros(n), |Layout(ms)|;
    assert image[at + SIZE_AT..at + SIZE_AT + DIGITS] == Zeros(DIGITS);
    OctalZeros(DIGITS);
    assert Power8(4) == 4096 && Power8(8) == 16777216 && Power8(11) == 8589934592;
    assert Octal(Zeros(DIGITS)) % WORD == 1227133520;
    assert StepAt(image, at) >= n;
    assert image[0..0 + at] == Layout(ms);
    WalkMembers(image, ms, 0);
  }

  /** What a recorded header says leads to the member's own data. */
  lemma DataIsThere(ms: seq<Member>, i: nat)
    requires Archive(ms) && i < |ms|
    ensures Advances(Layout(ms), 0) && i < |Walk(Layout(ms), 0)|
    ensures
      var image, at := Layout(ms), Walk(Layout(ms), 0)[i];
      && at + BLOCK + |ms[i].data| <= |image| && image[at..at + BLOCK] == ms[i].header
      && Octal(image[at + SIZE_AT..at + SIZE_AT + DIGITS]) == |ms[i].data|
      && image[at + BLOCK..at + BLOCK + |ms[i].data|] == ms[i].data
  {
    hide Octal, IsOctal, Taken, StepAt, Layout, Offsets, Bytes;
    var image := Layout(ms);
    assert image[0..0 + |image|] == image;
    WalkFindsMembers(ms);
    MemberIsThere(ms, image, 0, i);
    Parts(image, Walk(image, 0)[i], ms[i]);
  }

  lemma Parts(image: seq<Octet>, at: nat, m: Member)
    requires IsMember(m) && at + |Bytes(m)| <= |image| && image[at..at + |Bytes(m)|] == Bytes(m)
    ensures at + BLOCK + |m.data| <= |image| && image[at..at + BLOCK] == m.header
    ensures image[at + SIZE_AT..at + SIZE_AT + DIGITS] == m.header[SIZE_AT..SIZE_AT + DIGITS]
    ensures image[at + BLOCK..at + BLOCK + |m.data|] == m.data
  {
    hide Octal, IsOctal, Taken;
    var e := at + |Bytes(m)|;
    SliceOfSlice(image, at, e, 0, BLOCK);
    SliceOfSlice(image, at, at + BLOCK, SIZE_AT, SIZE_AT + DIGITS);
    SliceOfSlice(image, at, e, BLOCK, BLOCK + |m.data|);
    assert Bytes(m)[0..BLOCK] == m.header && Bytes(m)[BLOCK..BLOCK + |m.data|] == m.data;
  }

  // ---------- Directory listings ----------

  type Text = seq<char>

  const LISTED: nat := 32

  /** Characters two strings have in common at the start (one more than starts_with returns). */
  function Common(a: Text, b: Text): (n: nat)
    ensures n <= |a| && n <= |b| && a[..n] == b[..n]
    ensures n < |a| && n < |b| ==> a[n] != b[n]
  {
    if a == [] || b == [] || a[0] != b[0] then 0 else 1 + Common(a[1..], b[1..])
  }

  /** A header counts as inside a directory when two characters agree, or the directory is the root. */
  predicate Inside(name: Text, dir: Text) { Common(name, dir) > 1 || dir == "/" }

  lemma InsideMeans(name: Text, dir: Text)
    ensures Inside(name, dir) <==>
      (|name| >= 2 && |dir| >= 2 && name[0] == dir[0] && name[1] == dir[1]) || dir == "/"
  {
    if |name| >= 2 && |dir| >= 2 && name[0] == dir[0] && name[1] == dir[1] {
      assert Common(name, dir) == 2 + Common(name[1..][1..], dir[1..][1..]);
    }
    var n := Common(name, dir);
    if n > 1 {
      assert name[..n][0] == dir[..n][0] && name[..n][1] == dir[..n][1];
    }
  }

  /** Of a name that begins with the directory's, what is handed out is the rest. */
  lemma RestIsBelow(dir: Text, rest: Text)
    ensures Common(dir + rest, dir) == |dir| && (dir + rest)[|dir|..] == rest
  {
  }

  /** Positions of the first `n` names that count as inside. */
  function Entries(names: seq<Text>, dir: Text, n: nat): (es: seq<nat>)
    requires n <= |names|
    ensures forall k :: 0 <= k < |es| ==> es[k] < n && Inside(names[es[k]], dir)
    ensures forall j, k :: 0 <= j < k < |es| ==> es[j] < es[k]
    ensures forall i :: 0 <= i < n && Inside(names[i], dir) ==> i in es
  {
    if n == 0 then [] else
    var es := Entries(names, dir, n - 1);
    if Inside(names[n - 1], dir) then es + [n - 1] else es
  }

  lemma {:induction false} EntriesGrow(names: seq<Text>, dir: Text, m: nat, n: nat)
    requires m <= n <= |names|
    ensures Entries(names, dir, m) <= Entries(names, dir, n)
    decreases n - m
  {
    hide Entries;
    if m < n {
      EntriesGrow(names, dir, m, n - 1);
      EntriesStep(names, dir, n - 1);
      PrefixStays(Entries(names, dir, m), Entries(names, dir, n - 1), Entries(names, dir, n));
    }
  }

  lemma PrefixStays(a: seq<nat>, b: seq<nat>, c: seq<nat>)
    requires a <= b && b <= c
    ensures a <= c
  {
  }

  lemma EntriesStep(names: seq<Text>, dir: Text, i: nat)
    requires i < |names|
    ensures Entries(names, dir, i + 1) == Entries(names, dir, i) + (if Inside(names[i], dir) then [i] else [])
  {
  }

  lemma NoEntries(names: seq<Text>, dir: Text)
    ensures Entries(names, dir, 0) == []
  {
  }

  /** An entry met on the way is at its place in the whole list. */
  lemma EntryFound(names: seq<Text>, dir: Text, i: nat)
    requires i < Shown(names) && Inside(names[i], dir)
    ensures |Entries(names, dir, i)| < |Entries(names, dir, Shown(names))|
    ensures Entries(names, dir, Shown(names))[|Entries(names, dir, i)|] == i
  {
    hide Entries, Inside;
    EntriesStep(names, dir, i);
    EntriesGrow(names, dir, i + 1, Shown(names));
    assert Entries(names, dir, i + 1)[|Entries(names, dir, i)|] == i;
  }

  function Shown(names: seq<Text>): (n: nat)
    ensures n <= |names|
  { if |names| < LISTED then |names| else LISTED }

  lemma OneMoreListed(es: seq<nat>, k: nat)
    requires 1 <= k - 1 < |es|
    ensures es[1..k] == es[1..k - 1] + [es[k - 1]]
  {
  }

  /** What is listed: among the first 32 names every entry that has one before it, in order. */
  lemma AllButFirst(names: seq<Text>, dir: Text)
    ensures var es := Entries(names, dir, Shown(names));
      var rest := if es == [] then [] else es[1..];
      && (forall j, k :: 0 <= j < k < |rest| ==> rest[j] < rest[k])
      && (forall i :: i in rest ==> i < |names| && i < 32)
      && forall i :: 0 <= i < |names| && i < 32 ==>
           (i in rest <==> Inside(names[i], dir) && exists j :: 0 <= j < i && Inside(names[j], dir))
  {
    hide Inside, Entries;
    var es := Entries(names, dir, Shown(names));
    var rest := if es == [] then [] else es[1..];
    forall i | 0 <= i < |names| && i < 32
      ensures i in rest <==> Inside(names[i], dir) && exists j :: 0 <= j < i && Inside(names[j], dir)
    {
      if i in rest {
        var k :| 0 <= k < |rest| && rest[k] == i;
        assert es[k + 1] == i && es[0] < i && Inside(names[es[0]], dir);
      }
      if j :| 0 <= j < i && Inside(names[j], dir) && Inside(names[i], dir) {
        assert i in es && j in es;
        var k :| 0 <= k < |es| && es[k] == i;
        assert k > 0 && rest[k - 1] == i;
      }
    }
  }

  /** An open directory. */
  class Directory {
    var entry: nat
    const file_name: Text

    constructor (name: Text)
      ensures entry == 0 && file_name == name
    {
      entry, file_name := 0, name;
    }

    /**
     readDirTarfsFile: passes over the first entry, the directory itself, and then hands
     out the others one call at a time.
     */
    method ReadDir(names: seq<Text>) returns (found: bool, which: nat, rest: Text)
      modifies this`entry
      ensures
        var es := Entries(names, file_name, Shown(names));
        var k := if old(entry) == 0 then 1 else old(entry);
        && (found <==> k < |es|)
        && (found ==> which == es[k] && entry == k + 1 && rest == names[which][Common(names[which], file_name)..])
        && (!found ==> entry == if es == [] then old(entry) else k)
    {
      hide Entries, Inside, Common, Shown;
      ghost var e0, k := entry, if entry == 0 then 1 else entry;
      NoEntries(names, file_name);
      var i, count := 0, 0;
      while i < Shown(names)
        invariant i <= Shown(names) && count == |Entries(names, file_name, i)| <= k
        invariant entry == if count == 0 then e0 else k
      {
        EntriesStep(names, file_name, i);
        if Inside(names[i], file_name) {
          if count == 0 && entry == 0 {
            entry := entry + 1;
          } else if count == entry {
            entry := entry + 1;
            EntryFound(names, file_name, i);
            found, which, rest := true, i, names[i][Common(names[i], file_name)..];
            return;
          }
          count := count + 1;
        }
        i := i + 1;
      }
      found, which, rest := false, 0, [];
    }

    /** Calling until nothing is left lists every entry but the first, each once, in order. */
    method ListAll(names: seq<Text>) returns (listed: seq<nat>)
      requires entry == 0
      modifies this`entry
      ensures
        var es := Entries(names, file_name, Shown(names));
        listed == if es == [] then [] else es[1..]
    {
      hide Entries, Inside, Shown;
      ghost var es := Entries(names, file_name, Shown(names));
      listed := [];
      var found, which, rest := ReadDir(names);
      while found
        invariant found ==> 1 < entry <= |es| && which == es[entry - 1] && listed == es[1..entry - 1]
        invariant !found ==> listed == if es == [] then [] else es[1..]
        decreases |es| - entry, found
      {
        OneMoreListed(es, entry);
        listed := listed + [which];
        found, which, rest := ReadDir(names);
      }
    }
  }
}
