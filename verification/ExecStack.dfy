/**
 The stack image exec leaves for a new program, and the startup code that reads it.

 `mem` is memory byte by byte: below `top` lies the user stack, index `a` being the
 address `ORIGIN + a`; from `top` on lie the kernel's copies of the strings.  Words are
 64-bit, least significant byte first.
 */
module ExecStack {

  import opened Octets
  import opened Slices

  const ORIGIN: nat := 0x100F_FEFF_0000
  const ADDRESSES: nat := 0x1_0000_0000_0000_0000
  const ARGS: nat := 20    // argv[20] of the startup code
  const ENVS: nat := 100   // env[100] of the startup code
  const STRIDE: nat := 100 // bytes a row of args[100][100] and envs[100][100]

  // ---------- Words ----------

  function Power256(n: nat): nat {
    if n == 0 then 1 else 256 * Power256(n - 1)
  }

  function Encode(v: nat, n: nat): (s: seq<Octet>)
    ensures |s| == n
  {
    if n == 0 then [] else [v % 256] + Encode(v / 256, n - 1)
  }

  function Decode(s: seq<Octet>): nat {
    if s == [] then 0 else s[0] + 256 * Decode(s[1..])
  }

  /** Reading the low `k` bytes of a word gives the value, if it fits in them. */
  lemma {:induction false} DecodeLow(v: nat, n: nat, k: nat)
    requires v < Power256(k) && k <= n
    ensures Decode(Encode(v, n)[..k]) == v
  {
    if k > 0 {
      DecodeLow(v / 256, n - 1, k - 1);
      assert Encode(v, n)[..k] == [v % 256] + Encode(v / 256, n - 1)[..k - 1];
    }
  }

  lemma Powers()
    ensures Power256(4) == 0x1_0000_0000 && Power256(8) == ADDRESSES
  {
    assert Power256(2) == 65536;
    assert Power256(4) == 0x1_0000_0000;
    assert Power256(6) == 0x1_0000_0000_0000;
  }

  // ---------- What memory holds ----------

  predicate WordAt(m: seq<Octet>, a: int, v: nat) {
    0 <= a && a + 8 <= |m| && m[a..a + 8] == Encode(v, 8)
  }

  /** A C string: its characters and a NUL. */
  predicate StringAt(m: seq<Octet>, a: int, s: seq<Octet>) {
    0 <= a && a + |s| + 1 <= |m| && m[a..a + |s| + 1] == s + [0]
  }

  /** What a C string may hold: no NUL inside. */
  predicate IsText(s: seq<Octet>) {
    forall i :: 0 <= i < |s| ==> s[i] != 0
  }

  /** Strings in the rows of a `char [100][100]` at `at`. */
  ghost predicate Rows(m: seq<Octet>, at: nat, ss: seq<seq<Octet>>) {
    forall i :: 0 <= i < |ss| ==> |ss[i]| < STRIDE && IsText(ss[i]) && StringAt(m, Row(at, i), ss[i])
  }

  function Row(at: nat, i: nat): nat { at + STRIDE * i }

  lemma RowsMean(m: seq<Octet>, at: nat, ss: seq<seq<Octet>>)
    ensures Rows(m, at, ss) <==>
      forall i :: 0 <= i < |ss| ==>
        |ss[i]| < 100 && 0 !in ss[i] && 0 <= at + 100 * i && at + 100 * i + |ss[i]| < |m| &&
        m[at + 100 * i..at + 100 * i + |ss[i]| + 1] == ss[i] + [0]
  {
    if Rows(m, at, ss) {
      forall i | 0 <= i < |ss| ensures at + 100 * i + |ss[i]| < |m| && 0 !in ss[i] &&
        m[at + 100 * i..at + 100 * i + |ss[i]| + 1] == ss[i] + [0]
      {
        assert StringAt(m, Row(at, i), ss[i]) && Row(at, i) == at + 100 * i;
      }
    }
  }

  /** `n` is memory `m` after writes below `lo` only. */
  predicate SameFrom(m: seq<Octet>, n: seq<Octet>, lo: nat) {
    |m| == |n| && lo <= |m| && m[lo..] == n[lo..]
  }

  lemma KeepsWord(m: seq<Octet>, n: seq<Octet>, lo: nat, a: int, v: nat)
    requires SameFrom(m, n, lo) && WordAt(m, a, v) && a >= lo
    ensures WordAt(n, a, v)
  {
    SameSlice(m, n, lo, a, a + 8);
  }

  lemma KeepsString(m: seq<Octet>, n: seq<Octet>, lo: nat, a: int, s: seq<Octet>)
    requires SameFrom(m, n, lo) && StringAt(m, a, s) && a >= lo
    ensures StringAt(n, a, s)
  {
    SameSlice(m, n, lo, a, a + |s| + 1);
  }

  lemma SameTrans(m: seq<Octet>, n: seq<Octet>, o: seq<Octet>, lo: nat, hi: nat)
    requires SameFrom(m, n, hi) && SameFrom(n, o, lo) && lo <= hi
    ensures SameFrom(m, o, hi)
  {
    SameTail(n, o, lo, hi);
  }

  // ---------- The layout ----------

  /** Stack words taken by the strings from the i-th on; a string of l bytes takes l words. */
  function StringWords(ss: seq<seq<Octet>>, i: nat): nat
    requires i <= |ss|
    decreases |ss| - i
  {
    if i == |ss| then 0 else |ss[i]| + 1 + StringWords(ss, i + 1)
  }

  /** Where string `i` starts when the strings are pushed below `top`, the last one first. */
  function StringPos(ss: seq<seq<Octet>>, top: int, i: nat): int
    requires i <= |ss|
  {
    top - 8 * StringWords(ss, i)
  }

  lemma {:induction false} PosMonotone(ss: seq<seq<Octet>>, top: int, i: nat, j: nat)
    requires i < j <= |ss|
    ensures StringPos(ss, top, i) + 8 * (|ss[i]| + 1) <= StringPos(ss, top, j) <= top
    decreases j - i
  {
    if i + 1 < j { PosMonotone(ss, top, i + 1, j); }
  }

  /** Stack words for the whole image. */
  function ImageWords(args: seq<seq<Octet>>, envs: seq<seq<Octet>>): nat {
    StringWords(envs, 0) + StringWords(args, 0) + |envs| + |args| + 3
  }

  /** The strings from the i-th on lie where StringPos says. */
  ghost predicate Strings(m: seq<Octet>, ss: seq<seq<Octet>>, top: int, i: nat)
    requires i <= |ss|
  {
    forall k :: i <= k < |ss| ==> StringAt(m, StringPos(ss, top, k), ss[k])
  }

  /** A NULL-terminated vector at `a` of pointers to the strings, from the i-th on. */
  ghost predicate Vector(m: seq<Octet>, a: int, ss: seq<seq<Octet>>, top: int, i: nat)
    requires i <= |ss| && ORIGIN + StringPos(ss, top, 0) >= 0
  {
    && WordAt(m, a + 8 * |ss|, 0)
    && forall k :: i <= k < |ss| ==> PointerAt(m, a + 8 * k, ss, top, k)
  }

  ghost predicate PointerAt(m: seq<Octet>, a: int, ss: seq<seq<Octet>>, top: int, k: nat)
    requires k < |ss|
  {
    StringPos(ss, top, k) >= 0 && WordAt(m, a, ORIGIN + StringPos(ss, top, k))
  }

  /** The finished image: argc, the argv vector, NULL, the env vector, NULL, the strings. */
  ghost predicate Image(m: seq<Octet>, rsp: nat, args: seq<seq<Octet>>, envs: seq<seq<Octet>>, top: nat) {
    var argTop := StringPos(envs, top, 0);
    && rsp + 8 * ImageWords(args, envs) == top <= |m|
    && WordAt(m, rsp, |args|)
    && Vector(m, rsp + 8, args, argTop, 0)
    && Vector(m, rsp + 16 + 8 * |args|, envs, top, 0)
    && Strings(m, args, argTop, 0)
    && Strings(m, envs, top, 0)
  }

  lemma StringsKept(m: seq<Octet>, n: seq<Octet>, lo: nat, ss: seq<seq<Octet>>, top: int, i: nat)
    requires i <= |ss| && SameFrom(m, n, lo) && Strings(m, ss, top, i) && lo <= StringPos(ss, top, i)
    ensures Strings(n, ss, top, i)
  {
    hide StringWords, StringPos, StringAt, SameFrom;
    forall k | i <= k < |ss| ensures StringAt(n, StringPos(ss, top, k), ss[k]) {
      if i < k { PosMonotone(ss, top, i, k); }
      KeepsString(m, n, lo, StringPos(ss, top, k), ss[k]);
    }
  }

  lemma VectorKept(m: seq<Octet>, n: seq<Octet>, lo: nat, a: int, ss: seq<seq<Octet>>, top: int, i: nat)
    requires i <= |ss| && ORIGIN + StringPos(ss, top, 0) >= 0
    requires SameFrom(m, n, lo) && Vector(m, a, ss, top, i) && lo <= a + 8 * i
    ensures Vector(n, a, ss, top, i)
  {
    hide StringWords, StringPos, WordAt, SameFrom;
    KeepsWord(m, n, lo, a + 8 * |ss|, 0);
    forall k | i <= k < |ss| ensures PointerAt(n, a + 8 * k, ss, top, k) {
      KeepsWord(m, n, lo, a + 8 * k, ORIGIN + StringPos(ss, top, k));
    }
  }

  // ---------- Writing the image ----------

  /** Memory `n` is memory `m` with the bytes `lo..hi` taken from `shift` further on. */
  ghost predicate Moved(m: seq<Octet>, n: seq<Octet>, shift: int, lo: nat, hi: nat) {
    && |m| == |n| && 0 <= lo + shift && hi <= |m| && hi + shift <= |m|
    && forall a {:trigger n[a]} :: 0 <= a < |m| ==> n[a] == if lo <= a < hi then m[a + shift] else m[a]
  }

  lemma MoveDown(m: seq<Octet>, n: seq<Octet>, shift: int, lo: nat, hi: nat)
    requires shift < 0 < lo <= hi <= |m| == |n| && 0 <= lo - 1 + shift && Moved(m, n, shift, lo, hi)
    ensures Moved(m, n[lo - 1 := n[lo - 1 + shift]], shift, lo - 1, hi)
  {
  }

  lemma MoveUp(m: seq<Octet>, n: seq<Octet>, shift: int, lo: nat, hi: nat)
    requires 0 <= shift && lo <= hi && hi + shift < |m| == |n| && Moved(m, n, shift, lo, hi)
    ensures Moved(m, n[hi := n[hi + shift]], shift, lo, hi + 1)
  {
  }

  /** memcpy of process.c: right for overlapping ranges too. */
  method Memcpy(mem: array<Octet>, dest: nat, src: nat, n: nat)
    requires dest + n <= mem.Length && src + n <= mem.Length
    modifies mem
    ensures Moved(old(mem[..]), mem[..], src - dest, dest, dest + n)
  {
    hide Moved;
    ghost var m, shift := mem[..], src - dest;
    if src < dest {
      var left := n;
      NothingMoved(m, shift, dest + n);
      while left > 0
        invariant 0 <= left <= n && Moved(m, mem[..], shift, dest + left, dest + n)
      {
        MoveDown(m, mem[..], shift, dest + left, dest + n);
        left := left - 1;
        SetByte(mem, dest + left, mem[src + left]);
      }
    } else {
      var k := 0;
      NothingMoved(m, shift, dest);
      while k < n
        invariant k <= n && Moved(m, mem[..], shift, dest, dest + k)
      {
        MoveUp(m, mem[..], shift, dest, dest + k);
        SetByte(mem, dest + k, mem[src + k]);
        k := k + 1;
      }
    }
  }

  method SetByte(mem: array<Octet>, a: nat, b: Octet)
    requires a < mem.Length
    modifies mem
    ensures mem[..] == old(mem[..])[a := b]
  {
    mem[a] := b;
  }

  lemma NothingMoved(m: seq<Octet>, shift: int, at: nat)
    requires at <= |m| && 0 <= at + shift <= |m|
    ensures Moved(m, m, shift, at, at)
  {
  }

  method Strlen(mem: array<Octet>, a: nat, ghost s: seq<Octet>) returns (n: nat)
    requires StringAt(mem[..], a, s) && IsText(s)
    ensures n == |s|
  {
    n := 0;
    assert mem[..][a..a + |s| + 1] == mem[a..a + |s| + 1];
    assert mem[a] == (s + [0])[0];
    while mem[a + n] != 0
      invariant n <= |s| && mem[a + n] == (s + [0])[n]
      decreases |s| - n
    {
      n := n + 1;
      assert mem[a + n] == mem[a..a + |s| + 1][n];
    }
  }

  /** `*rsp = v`. */
  method PutWord(mem: array<Octet>, rsp: nat, v: nat)
    requires rsp + 8 <= mem.Length
    modifies mem
    ensures WordAt(mem[..], rsp, v) && SameFrom(old(mem[..]), mem[..], rsp + 8)
  {
    ghost var m := mem[..];
    var left, k := v, 0;
    while k < 8
      invariant k <= 8 && mem[rsp..rsp + k] + Encode(left, 8 - k) == Encode(v, 8)
      invariant mem[rsp + 8..] == m[rsp + 8..]
    {
      assert Encode(left, 8 - k) == [left % 256] + Encode(left / 256, 7 - k);
      ghost var before := mem[rsp..rsp + k];
      mem[rsp + k] := left % 256;
      assert mem[rsp..rsp + k + 1] == before + [left % 256];
      left, k := left / 256, k + 1;
    }
    assert mem[..][rsp..rsp + 8] == mem[rsp..rsp + 8];
  }

  /** One turn of the string loops: `rsp` counts words, so a string of l bytes takes 8 l bytes. */
  method PushString(mem: array<Octet>, rsp: nat, from: nat, ghost s: seq<Octet>) returns (rsp': nat)
    requires IsText(s) && StringAt(mem[..], from, s) && 8 * (|s| + 1) <= rsp <= from
    modifies mem
    ensures rsp' == rsp - 8 * (|s| + 1)
    ensures StringAt(mem[..], rsp', s) && SameFrom(old(mem[..]), mem[..], rsp)
  {
    ghost var m := mem[..];
    var l := Strlen(mem, from, s);
    l := l + 1;
    rsp' := rsp - 8 * l;
    Memcpy(mem, rsp', from, l);
    assert mem[..][rsp'..rsp' + l] == m[from..from + l];
    assert mem[..][rsp..] == m[rsp..];
  }

  /** The loop over the strings: pushes them last to first, remembering where each one went. */
  method PushStrings(mem: array<Octet>, top: nat, at: nat, n: nat, ghost ss: seq<seq<Octet>>)
    returns (rsp: nat, temp: array<nat>)
    requires n == |ss| && top <= mem.Length && top <= at && Rows(mem[..], at, ss) && StringPos(ss, top, 0) >= 0
    modifies mem
    ensures rsp == StringPos(ss, top, 0) && fresh(temp) && temp.Length == n
    ensures forall k :: 0 <= k < n ==> StringPos(ss, top, k) >= 0 && temp[k] == ORIGIN + StringPos(ss, top, k)
    ensures Strings(mem[..], ss, top, 0) && SameFrom(old(mem[..]), mem[..], top)
  {
    hide StringAt, SameFrom, IsText;
    ghost var m := mem[..];
    temp := new nat[n];
    rsp := top;
    var i := n;
    SameRefl(m, top);
    while i > 0
      invariant 0 <= i <= n && rsp == StringPos(ss, top, i)
      invariant forall k :: i <= k < n ==> StringPos(ss, top, k) >= 0 && temp[k] == ORIGIN + StringPos(ss, top, k)
      invariant Strings(mem[..], ss, top, i) && SameFrom(m, mem[..], top)
    {
      i := i - 1;
      ghost var before := mem[..];
      KeepsString(m, before, top, Row(at, i), ss[i]);
      Room(ss, top, i);
      rsp := PushString(mem, rsp, Row(at, i), ss[i]);
      StringsKept(before, mem[..], StringPos(ss, top, i + 1), ss, top, i + 1);
      SameTrans(m, before, mem[..], StringPos(ss, top, i + 1), top);
      temp[i] := ORIGIN + rsp;
    }
  }

  lemma Room(ss: seq<seq<Octet>>, top: int, i: nat)
    requires i < |ss| && StringPos(ss, top, 0) >= 0
    ensures 0 <= StringPos(ss, top, i) && StringPos(ss, top, i + 1) <= top
    ensures StringPos(ss, top, i) == StringPos(ss, top, i + 1) - 8 * (|ss[i]| + 1)
  {
    if i > 0 { PosMonotone(ss, top, 0, i); }
    PosMonotone(ss, top, i, i + 1);
  }

  lemma SameRefl(m: seq<Octet>, lo: nat)
    requires lo <= |m|
    ensures SameFrom(m, m, lo)
  {
  }

  /** Pushes NULL and then the pointers, last to first. */
  method PushPointers(mem: array<Octet>, start: nat, n: nat, temp: array<nat>,
                      ghost ss: seq<seq<Octet>>, ghost top: int)
    returns (rsp: nat)
    requires n == |ss| && 8 * (n + 1) <= start <= mem.Length && StringPos(ss, top, 0) >= 0
    requires temp.Length == n
    requires forall k :: 0 <= k < n ==> StringPos(ss, top, k) >= 0 && temp[k] == ORIGIN + StringPos(ss, top, k)
    modifies mem
    ensures rsp == start - 8 * (n + 1)
    ensures Vector(mem[..], rsp, ss, top, 0) && SameFrom(old(mem[..]), mem[..], start)
  {
    hide StringWords, StringPos, WordAt, SameFrom;
    ghost var m := mem[..];
    rsp := start - 8;
    PutWord(mem, rsp, 0);
    var i := n;
    ghost var a := start - 8 * (n + 1);
    while i > 0
      invariant 0 <= i <= n && rsp == a + 8 * i
      invariant Vector(mem[..], a, ss, top, i) && SameFrom(m, mem[..], start)
    {
      i := i - 1;
      rsp := rsp - 8;
      ghost var before := mem[..];
      PutWord(mem, rsp, temp[i]);
      VectorKept(before, mem[..], rsp + 8, a, ss, top, i + 1);
      SameTrans(m, before, mem[..], rsp + 8, start);
      assert PointerAt(mem[..], a + 8 * i, ss, top, i);
    }
  }

  /** setRSPandExec, up to the jump into the program. */
  method SetRSPandExec(mem: array<Octet>, top: nat, envl: nat, argc: nat, envsAt: nat, argsAt: nat,
                       ghost envs: seq<seq<Octet>>, ghost args: seq<seq<Octet>>)
    returns (rsp: nat)
    requires envl == |envs| && argc == |args| && top <= envsAt && top <= argsAt
    requires Rows(mem[..], envsAt, envs) && Rows(mem[..], argsAt, args)
    requires 8 * ImageWords(args, envs) <= top <= mem.Length
    modifies mem
    ensures rsp == top - 8 * ImageWords(args, envs)
    ensures Image(mem[..], rsp, args, envs, top)
    ensures SameFrom(old(mem[..]), mem[..], top)
  {
    hide StringWords, StringAt, WordAt, SameFrom, Rows, Strings, Vector;
    ghost var m0, mid := mem[..], StringPos(envs, top, 0);
    var temp1, temp;
    rsp, temp1 := PushStrings(mem, top, envsAt, envl, envs);
    ghost var m1 := mem[..];
    RowsKept(m0, m1, top, argsAt, args);
    rsp, temp := PushStrings(mem, rsp, argsAt, argc, args);
    ghost var m2, low := mem[..], rsp;
    StringsKept(m1, m2, mid, envs, top, 0);
    SameTrans(m0, m1, m2, mid, top);
    rsp := PushPointers(mem, rsp, envl, temp1, envs, top);
    ghost var m3, e := mem[..], rsp;
    StringsKept(m2, m3, low, envs, top, 0);
    StringsKept(m2, m3, low, args, mid, 0);
    SameTrans(m0, m2, m3, low, top);
    rsp := PushPointers(mem, rsp, argc, temp, args, mid);
    ghost var m4, a := mem[..], rsp;
    StringsKept(m3, m4, e, envs, top, 0);
    StringsKept(m3, m4, e, args, mid, 0);
    VectorKept(m3, m4, e, e, envs, top, 0);
    SameTrans(m0, m3, m4, e, top);
    rsp := rsp - 8;
    PutWord(mem, rsp, argc);
    StringsKept(m4, mem[..], a, envs, top, 0);
    StringsKept(m4, mem[..], a, args, mid, 0);
    VectorKept(m4, mem[..], a, e, envs, top, 0);
    VectorKept(m4, mem[..], a, a, args, mid, 0);
    SameTrans(m0, m4, mem[..], a, top);
  }

  lemma RowsKept(m: seq<Octet>, n: seq<Octet>, lo: nat, at: nat, ss: seq<seq<Octet>>)
    requires SameFrom(m, n, lo) && Rows(m, at, ss) && lo <= at
    ensures Rows(n, at, ss)
  {
    hide StringAt, SameFrom, IsText;
    forall i | 0 <= i < |ss| ensures |ss[i]| < STRIDE && IsText(ss[i]) && StringAt(n, Row(at, i), ss[i]) {
      KeepsString(m, n, lo, Row(at, i), ss[i]);
    }
  }

  // ---------- Reading it back ----------

  function LoadWord(m: seq<Octet>, a: int): nat {
    if 0 <= a && a + 8 <= |m| then Decode(m[a..a + 8]) else 0
  }

  /** `*(int *) a`, for values below 2^31. */
  function LoadInt(m: seq<Octet>, a: int): nat {
    if 0 <= a && a + 4 <= |m| then Decode(m[a..a + 4]) else 0
  }

  /** The string at `a`, up to its NUL. */
  function Text(m: seq<Octet>, a: int): seq<Octet>
    decreases |m| - a
  {
    if 0 <= a < |m| && m[a] != 0 then [m[a]] + Text(m, a + 1) else []
  }

  /** What _start's loops leave, given where the env vector ends. */
  method Start(mem: array<Octet>, rsp: nat, argv: array<nat>, env: array<nat>, ghost envl: nat)
    returns (argc: nat, iter: nat)
    requires argv != env && argv.Length == ARGS && env.Length == ENVS && envl <= ENVS
    requires LoadInt(mem[..], rsp) <= ARGS && rsp + 16 + 8 * LoadInt(mem[..], rsp) + 8 * envl + 8 <= mem.Length
    requires forall k :: 0 <= k < envl ==> LoadWord(mem[..], rsp + 16 + 8 * LoadInt(mem[..], rsp) + 8 * k) != 0
    requires LoadWord(mem[..], rsp + 16 + 8 * LoadInt(mem[..], rsp) + 8 * envl) == 0
    modifies argv, env
    ensures argc == LoadInt(mem[..], rsp) && iter == envl
    ensures forall k :: 0 <= k < argc ==> argv[k] == LoadWord(mem[..], rsp + 8 + 8 * k)
    ensures forall k :: 0 <= k < envl ==> env[k] == LoadWord(mem[..], rsp + 16 + 8 * argc + 8 * k)
  {
    hide LoadInt, LoadWord;
    argc := LoadInt(mem[..], rsp);
    var at := rsp + 8;
    iter := 0;
    while iter < argc
      invariant iter <= argc && at == rsp + 8 + 8 * iter
      invariant forall k :: 0 <= k < iter ==> argv[k] == LoadWord(mem[..], rsp + 8 + 8 * k)
    {
      argv[iter] := LoadWord(mem[..], at);
      iter, at := iter + 1, at + 8;
    }
    iter := 0;
    at := at + 8;
    while LoadWord(mem[..], at) != 0
      invariant iter <= envl && at == rsp + 16 + 8 * argc + 8 * iter
      invariant forall k :: 0 <= k < argc ==> argv[k] == LoadWord(mem[..], rsp + 8 + 8 * k)
      invariant forall k :: 0 <= k < iter ==> env[k] == LoadWord(mem[..], rsp + 16 + 8 * argc + 8 * k)
      decreases envl - iter
    {
      env[iter] := LoadWord(mem[..], at);
      iter, at := iter + 1, at + 8;
    }
  }

  // ---------- The round trip ----------

  lemma {:induction false} TextAt(m: seq<Octet>, a: int, s: seq<Octet>)
    requires StringAt(m, a, s) && IsText(s)
    ensures Text(m, a) == s
    decreases |s|
  {
    var w := s + [0];
    assert m[a] == m[a..a + |s| + 1][0] == w[0];
    if s != [] {
      TailIsString(m, a, s);
      TextAt(m, a + 1, s[1..]);
      assert s == [s[0]] + s[1..];
    }
  }

  lemma TailIsString(m: seq<Octet>, a: int, s: seq<Octet>)
    requires StringAt(m, a, s) && s != []
    ensures StringAt(m, a + 1, s[1..])
  {
    var n := |s| + 1;
    SliceOfSlice(m, a, a + n, 1, n);
    assert (s + [0])[1..n] == s[1..] + [0];
  }

  lemma WordReads(m: seq<Octet>, a: int, v: nat)
    requires WordAt(m, a, v) && v < ADDRESSES
    ensures LoadWord(m, a) == v
    ensures v < 0x1_0000_0000 ==> LoadInt(m, a) == v
  {
    Powers();
    assert Encode(v, 8)[..8] == Encode(v, 8);
    DecodeLow(v, 8, 8);
    if v < 0x1_0000_0000 {
      DecodeLow(v, 8, 4);
      SliceOfSlice(m, a, a + 8, 0, 4);
      assert m[a..a + 8][0..4] == m[a..a + 8][..4];
    }
  }

  /** Entry `k` of a vector at `a` points to a string reading as `s`. */
  ghost predicate PointsTo(m: seq<Octet>, a: int, s: seq<Octet>) {
    LoadWord(m, a) != 0 && Text(m, LoadWord(m, a) - ORIGIN) == s
  }

  lemma VectorReads(m: seq<Octet>, a: int, ss: seq<seq<Octet>>, top: int)
    requires StringPos(ss, top, 0) >= 0 && top <= |m| && ORIGIN + |m| < ADDRESSES
    requires Vector(m, a, ss, top, 0) && Strings(m, ss, top, 0)
    requires forall k :: 0 <= k < |ss| ==> IsText(ss[k])
    ensures forall k :: 0 <= k < |ss| ==> PointsTo(m, a + 8 * k, ss[k])
    ensures LoadWord(m, a + 8 * |ss|) == 0
  {
    hide StringWords, WordAt, StringAt, IsText;
    forall k | 0 <= k < |ss| ensures PointsTo(m, a + 8 * k, ss[k]) {
      assert PointerAt(m, a + 8 * k, ss, top, k);
      PosMonotone(ss, top, k, |ss|);
      WordReads(m, a + 8 * k, ORIGIN + StringPos(ss, top, k));
      TextAt(m, StringPos(ss, top, k), ss[k]);
    }
    WordReads(m, a + 8 * |ss|, 0);
  }

  /** What the startup code's reads find in an image: argc, the arguments, the environment, its end. */
  lemma ImageReads(m: seq<Octet>, rsp: nat, args: seq<seq<Octet>>, envs: seq<seq<Octet>>, top: nat)
    requires Image(m, rsp, args, envs, top) && ORIGIN + |m| < ADDRESSES && |args| <= ARGS
    requires forall k :: 0 <= k < |args| ==> IsText(args[k])
    requires forall k :: 0 <= k < |envs| ==> IsText(envs[k])
    ensures LoadInt(m, rsp) == |args|
    ensures LoadWord(m, rsp + 8 + 8 * |args|) == 0
    ensures forall k :: 0 <= k < |args| ==> PointsTo(m, rsp + 8 + 8 * k, args[k])
    ensures forall k :: 0 <= k < |envs| ==> PointsTo(m, rsp + 16 + 8 * |args| + 8 * k, envs[k])
    ensures LoadWord(m, rsp + 16 + 8 * |args| + 8 * |envs|) == 0
  {
    hide WordAt, StringAt, IsText, Vector, Strings, PointsTo, StringWords;
    WordReads(m, rsp, |args|);
    VectorReads(m, rsp + 8, args, StringPos(envs, top, 0));
    VectorReads(m, rsp + 16 + 8 * |args|, envs, top);
  }

  /** No memory reads as two different argument or environment lists. */
  lemma ImageIsUnambiguous(m: seq<Octet>, rsp: nat, args: seq<seq<Octet>>, envs: seq<seq<Octet>>, top: nat,
                           args': seq<seq<Octet>>, envs': seq<seq<Octet>>, top': nat)
    requires ORIGIN + |m| < ADDRESSES && |args| <= ARGS && |args'| <= ARGS
    requires Image(m, rsp, args, envs, top) && Image(m, rsp, args', envs', top')
    requires forall k :: 0 <= k < |args| ==> IsText(args[k])
    requires forall k :: 0 <= k < |envs| ==> IsText(envs[k])
    requires forall k :: 0 <= k < |args'| ==> IsText(args'[k])
    requires forall k :: 0 <= k < |envs'| ==> IsText(envs'[k])
    ensures args == args' && envs == envs'
  {
    hide Image, IsText, LoadWord, LoadInt, Text;
    ImageReads(m, rsp, args, envs, top);
    ImageReads(m, rsp, args', envs', top');
    SameList(m, rsp + 8, args, args');
    NullIsOutside(m, rsp + 16 + 8 * |args|, envs, |envs'|);
    NullIsOutside(m, rsp + 16 + 8 * |args|, envs', |envs|);
    SameList(m, rsp + 16 + 8 * |args|, envs, envs');
  }

  lemma NullIsOutside(m: seq<Octet>, a: int, ss: seq<seq<Octet>>, n: nat)
    requires forall k :: 0 <= k < |ss| ==> PointsTo(m, a + 8 * k, ss[k])
    requires LoadWord(m, a + 8 * n) == 0
    ensures n >= |ss|
  {
    hide LoadWord, Text;
    assert forall k :: 0 <= k < |ss| ==> PointsTo(m, a + 8 * k, ss[k]) && LoadWord(m, a + 8 * k) != 0;
  }

  lemma SameList(m: seq<Octet>, a: int, ss: seq<seq<Octet>>, ss': seq<seq<Octet>>)
    requires |ss| == |ss'|
    requires forall k :: 0 <= k < |ss| ==> PointsTo(m, a + 8 * k, ss[k])
    requires forall k :: 0 <= k < |ss| ==> PointsTo(m, a + 8 * k, ss'[k])
    ensures ss == ss'
  {
    hide LoadWord, Text;
    forall k | 0 <= k < |ss| ensures ss[k] == ss'[k] {
      assert PointsTo(m, a + 8 * k, ss[k]) && PointsTo(m, a + 8 * k, ss'[k]);
    }
  }

  /** No string overlaps another or the vectors. */
  lemma StringsApart(args: seq<seq<Octet>>, envs: seq<seq<Octet>>, top: nat, rsp: nat)
    requires rsp + 8 * ImageWords(args, envs) == top
    ensures forall i, j :: 0 <= i < j < |args| ==>
      StringPos(args, StringPos(envs, top, 0), i) + |args[i]| + 1 <= StringPos(args, StringPos(envs, top, 0), j)
    ensures forall i, j :: 0 <= i < j < |envs| ==>
      StringPos(envs, top, i) + |envs[i]| + 1 <= StringPos(envs, top, j)
    ensures forall i, j :: 0 <= i < |args| && 0 <= j < |envs| ==>
      StringPos(args, StringPos(envs, top, 0), i) + |args[i]| + 1 <= StringPos(envs, top, j)
    ensures forall i :: 0 <= i < |args| ==>
      rsp + 8 * (|args| + |envs| + 3) <= StringPos(args, StringPos(envs, top, 0), i)
    ensures forall j :: 0 <= j < |envs| ==>
      rsp + 8 * (|args| + |envs| + 3) <= StringPos(envs, top, j) && StringPos(envs, top, j) + |envs[j]| + 1 <= top
  {
    var mid := StringPos(envs, top, 0);
    assert StringPos(args, mid, 0) == rsp + 8 * (|args| + |envs| + 3);
    Ordered(args, mid);
    Ordered(envs, top);
  }

  lemma Ordered(ss: seq<seq<Octet>>, top: int)
    ensures forall i, j :: 0 <= i < j < |ss| ==> StringPos(ss, top, i) + |ss[i]| + 1 <= StringPos(ss, top, j)
    ensures forall i :: 0 <= i < |ss| ==>
      StringPos(ss, top, 0) <= StringPos(ss, top, i) && StringPos(ss, top, i) + |ss[i]| + 1 <= top
    ensures StringPos(ss, top, 0) <= top
  {
    hide StringWords, StringPos;
    forall i, j | 0 <= i < j <= |ss|
      ensures StringPos(ss, top, i) + |ss[i]| + 1 <= StringPos(ss, top, j) && StringPos(ss, top, j) <= top
    {
      PosMonotone(ss, top, i, j);
    }
    forall i | 0 <= i < |ss|
      ensures StringPos(ss, top, 0) <= StringPos(ss, top, i) && StringPos(ss, top, i) + |ss[i]| + 1 <= top
    {
      PosMonotone(ss, top, i, |ss|);
    }
    if ss == [] { EmptyPos(ss, top); }
  }

  lemma EmptyPos(ss: seq<seq<Octet>>, top: int)
    requires ss == []
    ensures StringPos(ss, top, 0) == top
  {
  }

  /** exec followed by the new program's startup: main gets the lists exec was given. */
  method ExecThenStart(mem: array<Octet>, top: nat, envsAt: nat, argsAt: nat, argv: array<nat>, env: array<nat>,
                       envl: nat, argc: nat, ghost envs: seq<seq<Octet>>, ghost args: seq<seq<Octet>>)
    returns (count: nat, iter: nat)
    requires envl == |envs| <= ENVS && argc == |args| <= ARGS && top <= envsAt && top <= argsAt
    requires argv != env && argv.Length == ARGS && env.Length == ENVS
    requires Rows(mem[..], envsAt, envs) && Rows(mem[..], argsAt, args)
    requires 8 * ImageWords(args, envs) <= top <= mem.Length && ORIGIN + mem.Length < ADDRESSES
    modifies mem, argv, env
    ensures count == argc && iter == envl
    ensures forall k :: 0 <= k < argc ==> Text(mem[..], argv[k] - ORIGIN) == args[k]
    ensures forall k :: 0 <= k < envl ==> Text(mem[..], env[k] - ORIGIN) == envs[k]
  {
    hide StringWords, IsText, StringAt, Image, SameFrom, LoadWord, LoadInt, Text;
    RowsAreText(mem[..], envsAt, envs);
    RowsAreText(mem[..], argsAt, args);
    var rsp := SetRSPandExec(mem, top, envl, argc, envsAt, argsAt, envs, args);
    ImageReads(mem[..], rsp, args, envs, top);
    ImageFits(mem[..], rsp, args, envs, top);
    assert LoadInt(mem[..], rsp) == argc;
    forall k | 0 <= k < envl ensures LoadWord(mem[..], rsp + 16 + 8 * LoadInt(mem[..], rsp) + 8 * k) != 0 {
      assert PointsTo(mem[..], rsp + 16 + 8 * argc + 8 * k, envs[k]);
    }
    count, iter := Start(mem, rsp, argv, env, envl);
    assert forall k :: 0 <= k < argc ==> PointsTo(mem[..], rsp + 8 + 8 * k, args[k]);
    assert forall k :: 0 <= k < envl ==> PointsTo(mem[..], rsp + 16 + 8 * argc + 8 * k, envs[k]);
  }

  lemma RowsAreText(m: seq<Octet>, at: nat, ss: seq<seq<Octet>>)
    requires Rows(m, at, ss)
    ensures forall i :: 0 <= i < |ss| ==> IsText(ss[i])
  {
  }

  lemma ImageFits(m: seq<Octet>, rsp: nat, args: seq<seq<Octet>>, envs: seq<seq<Octet>>, top: nat)
    requires Image(m, rsp, args, envs, top)
    ensures rsp + 16 + 8 * |args| + 8 * |envs| + 8 <= |m|
  {
  }
}
