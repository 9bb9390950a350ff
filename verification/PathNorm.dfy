/**
 Path normalisation (deriveRelative): one pass over the path, erasing backwards on `..`.

 The buffer has one cell before its first character: the write position reaches -1 when
 `..` empties the path.
 */
module PathNorm {

  type Text = seq<char>

  // ---------- What a path means ----------

  /** The components of a path: the pieces between slashes. */
  function Split(t: Text): (cs: seq<Text>)
    ensures |cs| > 0
  {
    if t == [] then [[]]
    else
      var cs := Split(t[1..]);
      if t[0] == '/' then [[]] + cs else [[t[0]] + cs[0]] + cs[1..]
  }

  /** Each component followed by a slash. */
  function Dirs(cs: seq<Text>): Text {
    if cs == [] then [] else Dirs(cs[..|cs| - 1]) + cs[|cs| - 1] + ['/']
  }

  /** The components with slashes between them. */
  function Join(cs: seq<Text>): Text {
    if cs == [] then [] else Dirs(cs[..|cs| - 1]) + cs[|cs| - 1]
  }

  function Enter(stack: seq<Text>, c: Text): seq<Text> {
    if c != ".." then stack + [c] else if stack == [] then [] else stack[..|stack| - 1]
  }

  /** The directory reached from `stack`: `..` leaves one component, or stays at the root. */
  function Resolve(stack: seq<Text>, cs: seq<Text>): seq<Text>
    decreases |cs|
  {
    if cs == [] then stack else Resolve(Enter(stack, cs[0]), cs[1..])
  }

  function Normal(t: Text): Text { Join(Resolve([], Split(t))) }

  predicate IsDots(t: Text) { |t| >= 2 && t[0] == '.' && t[1] == '.' }

  predicate HasDots(t: Text) {
    t != [] && (IsDots(t) || HasDots(t[1..]))
  }

  /** `..` only as a whole component. */
  predicate CleanComponent(c: Text) { c == ".." || !HasDots(c) }

  predicate Clean(cs: seq<Text>) {
    forall i :: 0 <= i < |cs| ==> CleanComponent(cs[i])
  }

  predicate Slashless(cs: seq<Text>) {
    forall i :: 0 <= i < |cs| ==> '/' !in cs[i]
  }

  // ---------- Facts about meaning ----------

  lemma {:induction false} SplitJoins(t: Text)
    ensures Slashless(Split(t)) && Join(Split(t)) == t
  {
    hide Join, Dirs, Slashless;
    NothingJoined();
    if t != [] {
      var cs := Split(t[1..]);
      SplitJoins(t[1..]);
      if t[0] == '/' {
        JoinCons([], cs);
        SlashlessCons([], cs);
      } else {
        JoinHead(t[0], cs);
        SlashlessHead(t[0], cs);
      }
    }
  }

  lemma NothingJoined()
    ensures Join([[]]) == [] && Slashless([[]])
  {
    assert Dirs([[]][..0]) == [];
  }

  lemma SlashlessCons(c: Text, cs: seq<Text>)
    requires '/' !in c && Slashless(cs)
    ensures Slashless([c] + cs)
  {
  }

  lemma SlashlessHead(x: char, cs: seq<Text>)
    requires x != '/' && cs != [] && Slashless(cs)
    ensures Slashless([[x] + cs[0]] + cs[1..])
  {
    assert '/' !in cs[0];
    SlashlessCons([x] + cs[0], cs[1..]);
  }

  lemma {:induction false} DirsCons(c: Text, cs: seq<Text>)
    ensures Dirs([c] + cs) == c + ['/'] + Dirs(cs)
  {
    if cs == [] {
      assert [c] + cs == [c];
      assert Dirs([c][..0]) == [];
    } else {
      assert ([c] + cs)[..|cs|] == [c] + cs[..|cs| - 1];
      DirsCons(c, cs[..|cs| - 1]);
    }
  }

  lemma JoinCons(c: Text, cs: seq<Text>)
    requires cs != []
    ensures Join([c] + cs) == c + ['/'] + Join(cs)
  {
    hide Dirs;
    ConsPrefix(c, cs);
    DirsCons(c, cs[..|cs| - 1]);
    var d := Dirs(cs[..|cs| - 1]);
    Regroup(c, d, cs[|cs| - 1]);
  }

  lemma ConsPrefix(c: Text, cs: seq<Text>)
    requires cs != []
    ensures ([c] + cs)[..|cs|] == [c] + cs[..|cs| - 1] && ([c] + cs)[|cs|] == cs[|cs| - 1]
  {
  }

  lemma Regroup(a: Text, b: Text, c: Text)
    ensures a + ['/'] + b + c == a + ['/'] + (b + c)
  {
  }

  lemma JoinHead(x: char, cs: seq<Text>)
    requires cs != []
    ensures Join([[x] + cs[0]] + cs[1..]) == [x] + Join(cs)
  {
    hide Join;
    if |cs| > 1 {
      JoinCons(cs[0], cs[1..]);
      JoinCons([x] + cs[0], cs[1..]);
      assert cs == [cs[0]] + cs[1..];
      ConsRegroup(x, cs[0], Join(cs[1..]));
    } else {
      JoinOne(cs[0]);
      JoinOne([x] + cs[0]);
      assert cs == [cs[0]] && [[x] + cs[0]] + cs[1..] == [[x] + cs[0]];
    }
  }

  lemma ConsRegroup(x: char, a: Text, b: Text)
    ensures [x] + a + ['/'] + b == [x] + (a + ['/'] + b)
  {
  }

  /** Below a directory, a path splits into the directory's components and its own. */
  lemma {:induction false} SplitBelow(ds: seq<Text>, t: Text)
    requires Slashless(ds)
    ensures Split(Dirs(ds) + t) == ds + Split(t)
  {
    if ds == [] {
      assert Dirs(ds) + t == t;
      assert ds + Split(t) == Split(t);
    } else {
      var c := ds[0];
      assert ds == [c] + ds[1..];
      DirsCons(c, ds[1..]);
      assert Dirs(ds) + t == c + (['/'] + (Dirs(ds[1..]) + t));
      SplitBelow(ds[1..], t);
      SplitComponent(c, Dirs(ds[1..]) + t);
      assert [c] + (ds[1..] + Split(t)) == ds + Split(t);
    }
  }

  lemma {:induction false} SplitComponent(c: Text, t: Text)
    requires '/' !in c
    ensures Split(c + (['/'] + t)) == [c] + Split(t)
  {
    var u := c + (['/'] + t);
    if c == [] {
      assert u[1..] == t;
    } else {
      assert u[1..] == c[1..] + (['/'] + t);
      SplitComponent(c[1..], t);
      assert [c[0]] + c[1..] == c;
    }
  }

  /** What a component does: go down, come back up, or stay at the root. */
  lemma ResolveLaws(stack: seq<Text>, c: Text, cs: seq<Text>)
    ensures c != ".." ==> Resolve(stack, [c] + cs) == Resolve(stack + [c], cs)
    ensures Resolve(stack + [c], [".."] + cs) == Resolve(stack, cs)
    ensures Resolve([], [".."] + cs) == Resolve([], cs)
    ensures Resolve(stack, []) == stack
  {
    assert ([c] + cs)[1..] == cs && ([".."] + cs)[1..] == cs;
    assert (stack + [c])[..|stack|] == stack;
  }

  lemma {:induction false} ResolveConcat(stack: seq<Text>, a: seq<Text>, b: seq<Text>)
    ensures Resolve(stack, a + b) == Resolve(Resolve(stack, a), b)
    decreases |a|
  {
    if a == [] {
      assert a + b == b;
    } else {
      assert (a + b)[1..] == a[1..] + b;
      ResolveConcat(Enter(stack, a[0]), a[1..], b);
    }
  }

  lemma {:induction false} ResolvePlain(stack: seq<Text>, cs: seq<Text>)
    requires ".." !in cs
    ensures Resolve(stack, cs) == stack + cs
    decreases |cs|
  {
    if cs != [] {
      ResolvePlain(stack + [cs[0]], cs[1..]);
      assert stack + [cs[0]] + cs[1..] == stack + cs;
    } else {
      assert stack + cs == stack;
    }
  }

  lemma {:induction false} ResolvedHasNoDots(stack: seq<Text>, cs: seq<Text>)
    requires ".." !in stack && Slashless(stack) && Slashless(cs)
    ensures ".." !in Resolve(stack, cs) && Slashless(Resolve(stack, cs))
    decreases |cs|
  {
    if cs != [] { ResolvedHasNoDots(Enter(stack, cs[0]), cs[1..]); }
  }

  /** A relative path is resolved from the current directory, wherever that is. */
  lemma RelativeMeans(dir: seq<Text>, path: Text)
    requires Slashless(dir) && ".." !in dir
    ensures Normal(Dirs(dir) + path) == Join(Resolve(dir, Split(path)))
  {
    SplitBelow(dir, path);
    ResolveConcat([], dir, Split(path));
    ResolvePlain([], dir);
    assert [] + dir == dir;
  }

  lemma JoinSplits(cs: seq<Text>)
    requires Slashless(cs) && cs != []
    ensures Split(Join(cs)) == cs
  {
    SplitBelow(cs[..|cs| - 1], cs[|cs| - 1]);
    SplitOne(cs[|cs| - 1]);
    assert cs == cs[..|cs| - 1] + [cs[|cs| - 1]];
  }

  /** A normal form has no `..` component left and is its own normal form. */
  lemma NormalIsStable(t: Text)
    ensures ".." !in Split(Normal(t)) && Normal(Normal(t)) == Normal(t)
  {
    var cs := Resolve([], Split(t));
    SplitJoins(t);
    ResolvedHasNoDots([], Split(t));
    if cs == [] {
      var one: seq<Text> := [[]];
      assert one[..0] == [] && Split([]) == one && one[1..] == [] && Enter([], one[0]) == one;
      assert Resolve([], one) == Resolve(one, []);
    } else {
      JoinSplits(cs);
      ResolvePlain([], cs);
      assert [] + cs == cs;
    }
  }

  // ---------- The pass over the text ----------

  /** The write position, which may be before the start, and the text written below it. */
  datatype Cursor = Cursor(off: int, s: Text)

  function LastSlash(s: Text): (j: int)
    ensures -1 <= j < |s|
  {
    if s == [] then -1 else if s[|s| - 1] == '/' then |s| - 1 else LastSlash(s[..|s| - 1])
  }

  predicate Proper(c: Cursor) { |c.s| == if c.off < 0 then 0 else c.off }

  function Put(c: Cursor, x: char): Cursor {
    Cursor(c.off + 1, if c.off < 0 then [] else c.s + [x])
  }

  /** One back, then back to the slash before that. */
  function Back(c: Cursor): Cursor
    requires Proper(c)
  {
    if c.off <= 0 then Cursor(c.off - 1, []) else
    var j := LastSlash(c.s[..c.off - 1]);
    Cursor(j, if j < 0 then [] else c.s[..j])
  }

  function Pass(t: Text, c: Cursor): (r: Cursor)
    requires Proper(c)
    ensures Proper(r)
  {
    if t == [] then c
    else if IsDots(t) then Pass(t[2..], Back(c))
    else Pass(t[1..], Put(c, t[0]))
  }

  /** The write position never falls more than one cell below the start. */
  predicate Stays(t: Text, c: Cursor)
    requires Proper(c)
  {
    c.off >= -1 &&
    if t == [] then true
    else if IsDots(t) then Stays(t[2..], Back(c))
    else Stays(t[1..], Put(c, t[0]))
  }

  const ORIGIN: Cursor := Cursor(0, [])

  /** Right after component text of `stack`, each with its slash. */
  function Open(stack: seq<Text>): Cursor { Cursor(|Dirs(stack)|, Dirs(stack)) }

  /** The same without the last slash. */
  function Closed(stack: seq<Text>): Cursor {
    Cursor(|Dirs(stack)| - 1, Join(stack))
  }

  lemma DirsIsJoin(stack: seq<Text>)
    requires stack != []
    ensures Dirs(stack) == Join(stack) + ['/']
  {
  }

  lemma ClosedThenSlash(stack: seq<Text>)
    ensures Proper(Closed(stack)) && Put(Closed(stack), '/') == Open(stack)
  {
    if stack != [] { DirsIsJoin(stack); }
  }

  lemma {:induction false} NoSlash(s: Text, c: Text)
    requires '/' !in c
    ensures LastSlash(s + c) == LastSlash(s)
  {
    if c == [] {
      assert s + c == s;
    } else {
      assert (s + c)[..|s + c| - 1] == s + c[..|c| - 1];
      NoSlash(s, c[..|c| - 1]);
    }
  }

  lemma BackLeaves(stack: seq<Text>)
    requires Slashless(stack)
    ensures Back(Open(stack)) == Closed(Enter(stack, ".."))
    ensures Back(Open(stack)) == Closed(if stack == [] then [] else stack[..|stack| - 1])
  {
    if stack != [] {
      var up, c := stack[..|stack| - 1], stack[|stack| - 1];
      assert Dirs(stack)[..|Dirs(stack)| - 1] == Dirs(up) + c;
      NoSlash(Dirs(up), c);
      if up != [] {
        DirsIsJoin(up);
        assert Dirs(stack)[..|Dirs(up)| - 1] == Join(up);
      }
    }
  }

  /** What follows a component: nothing, or a slash. */
  predicate Boundary(t: Text) { t == [] || t[0] == '/' }

  /** A component without `..` is copied. */
  lemma {:induction false} PassPlain(c: Text, rest: Text, at: Cursor)
    requires Proper(at) && at.off >= 0 && !HasDots(c) && Boundary(rest)
    ensures Pass(c + rest, at) == Pass(rest, Cursor(at.off + |c|, at.s + c))
    ensures Stays(rest, Cursor(at.off + |c|, at.s + c)) ==> Stays(c + rest, at)
  {
    if c == [] {
      assert c + rest == rest && at.s + c == at.s;
    } else {
      assert !IsDots(c + rest);
      assert (c + rest)[1..] == c[1..] + rest;
      PassPlain(c[1..], rest, Put(at, c[0]));
      assert at.s + [c[0]] + c[1..] == at.s + c;
    }
  }

  lemma PassSlash(rest: Text, stack: seq<Text>)
    ensures Proper(Closed(stack))
    ensures Pass(['/'] + rest, Closed(stack)) == Pass(rest, Open(stack))
    ensures Stays(rest, Open(stack)) ==> Stays(['/'] + rest, Closed(stack))
  {
    ClosedThenSlash(stack);
    var t := ['/'] + rest;
    assert t[1..] == rest && !IsDots(t);
  }

  lemma PassDots(c: Text, rest: Text, at: Cursor)
    requires Proper(at) && c == ".." && at.off >= 0
    ensures Proper(Back(at)) && Pass(c + rest, at) == Pass(rest, Back(at))
    ensures Stays(rest, Back(at)) ==> Stays(c + rest, at)
  {
    assert (c + rest)[2..] == rest && IsDots(c + rest);
  }

  lemma EnterPlain(stack: seq<Text>, c: Text)
    ensures Closed(stack + [c]) == Cursor(|Dirs(stack)| + |c|, Dirs(stack) + c)
  {
    assert (stack + [c])[..|stack|] == stack;
  }

  /** Where the pass stands after a component. */
  lemma PassComponent(stack: seq<Text>, c: Text, rest: Text)
    requires Slashless(stack) && '/' !in c && CleanComponent(c) && Boundary(rest)
    ensures Proper(Closed(Enter(stack, c))) && Slashless(Enter(stack, c))
    ensures Pass(c + rest, Open(stack)) == Pass(rest, Closed(Enter(stack, c)))
    ensures Stays(rest, Closed(Enter(stack, c))) ==> Stays(c + rest, Open(stack))
  {
    hide Dirs, Pass, Stays, HasDots, Back, Closed, IsDots;
    ClosedThenSlash(Enter(stack, c));
    if c == ".." {
      BackLeaves(stack);
      PassDots(c, rest, Open(stack));
    } else {
      PassPlain(c, rest, Open(stack));
      EnterPlain(stack, c);
    }
  }

  /** The same, with the slash that follows. */
  lemma PassDir(stack: seq<Text>, c: Text, rest: Text)
    requires Slashless(stack) && '/' !in c && CleanComponent(c)
    ensures Slashless(Enter(stack, c))
    ensures Pass(c + (['/'] + rest), Open(stack)) == Pass(rest, Open(Enter(stack, c)))
    ensures Stays(rest, Open(Enter(stack, c))) ==> Stays(c + (['/'] + rest), Open(stack))
  {
    hide Dirs, Pass, Stays, CleanComponent, Closed, Enter;
    PassComponent(stack, c, ['/'] + rest);
    PassSlash(rest, Enter(stack, c));
  }

  /** The pass over a clean path ends at the normal form and needs one guard cell. */
  lemma {:induction false} PassIsResolve(stack: seq<Text>, cs: seq<Text>)
    requires Slashless(stack) && Slashless(cs) && Clean(cs) && cs != []
    ensures Pass(Join(cs), Open(stack)) == Closed(Resolve(stack, cs))
    ensures Stays(Join(cs), Open(stack))
    decreases |cs|
  {
    hide Dirs, CleanComponent, Enter;
    var c, next := cs[0], Enter(stack, cs[0]);
    if |cs| == 1 {
      JoinOne(c);
      assert cs == [c];
      PassComponent(stack, c, []);
      assert c + [] == c && Resolve(next, cs[1..]) == next;
    } else {
      assert cs == [c] + cs[1..];
      JoinCons(c, cs[1..]);
      assert Join(cs) == c + (['/'] + Join(cs[1..]));
      PassDir(stack, c, Join(cs[1..]));
      PassIsResolve(next, cs[1..]);
    }
  }

  lemma JoinOne(c: Text)
    ensures Join([c]) == c
  {
    assert [c][..0] == [];
  }

  /** What the pass makes of a text. */
  function Derived(t: Text): Text { Pass(t, ORIGIN).s }

  /** A path where `..` occurs only as a component is normalised, and one guard cell is enough. */
  lemma DerivedIsNormal(t: Text)
    requires Clean(Split(t))
    ensures Derived(t) == Normal(t) && Stays(t, ORIGIN)
  {
    SplitJoins(t);
    assert Open([]) == ORIGIN;
    PassIsResolve([], Split(t));
  }

  /** Each `..` shortens the output by at least three. */
  lemma {:induction false} DotsShorten(t: Text, at: Cursor)
    requires Proper(at)
    ensures Pass(t, at).off <= at.off + |t| - (if HasDots(t) then 3 else 0)
  {
    if t != [] {
      if IsDots(t) {
        DotsShorten(t[2..], Back(at));
      } else {
        DotsShorten(t[1..], Put(at, t[0]));
      }
    }
  }

  lemma {:induction false} PassDirs(stack: seq<Text>, ds: seq<Text>, t: Text)
    requires Slashless(stack) && Slashless(ds) && Clean(ds)
    ensures Slashless(Resolve(stack, ds))
    ensures Pass(Dirs(ds) + t, Open(stack)) == Pass(t, Open(Resolve(stack, ds)))
    decreases |ds|
  {
    hide Pass, CleanComponent, Enter;
    if ds == [] {
      assert Dirs(ds) + t == t;
    } else {
      var c, next := ds[0], Enter(stack, ds[0]);
      assert ds == [c] + ds[1..];
      DirsCons(c, ds[1..]);
      assert Dirs(ds) + t == c + (['/'] + (Dirs(ds[1..]) + t));
      PassDir(stack, c, Dirs(ds[1..]) + t);
      PassDirs(next, ds[1..], t);
    }
  }

  /**
   Below clean directories the last component decides: the result is the normal form if
   and only if `..` occurs in it as the whole component or not at all.
   */
  lemma LastComponentDecides(ds: seq<Text>, c: Text)
    requires Slashless(ds) && Clean(ds) && '/' !in c
    ensures Derived(Dirs(ds) + c) == Normal(Dirs(ds) + c) <==> CleanComponent(c)
  {
    hide Dirs, HasDots, Join;
    SplitBelow(ds, c);
    SplitOne(c);
    if CleanComponent(c) {
      DerivedIsNormal(Dirs(ds) + c);
    } else {
      TooShort(ds, c);
    }
  }

  /** The pass is right on the path made of the first `j` components. */
  predicate RightUpTo(cs: seq<Text>, j: nat)
    requires j <= |cs|
  {
    Derived(Join(cs[..j])) == Normal(Join(cs[..j]))
  }

  /**
   For every path: the pass is right on it and on all the paths it begins with if and only
   if `..` occurs in it as a whole component or not at all.
   */
  lemma EveryPrefixDecides(t: Text)
    ensures (forall j :: 1 <= j <= |Split(t)| ==> RightUpTo(Split(t), j)) <==> Clean(Split(t))
  {
    var cs := Split(t);
    SplitJoins(t);
    hide Split, Derived, Normal, CleanComponent, Join;
    if Clean(cs) {
      forall j | 1 <= j <= |cs| ensures RightUpTo(cs, j) {
        JoinSplits(cs[..j]);
        DerivedIsNormal(Join(cs[..j]));
      }
    } else {
      var j := FirstUnclean(cs);
      LastComponentDecides(cs[..j], cs[j]);
      JoinLast(cs, j);
      assert !RightUpTo(cs, j + 1);
    }
  }

  lemma JoinLast(cs: seq<Text>, j: nat)
    requires j < |cs|
    ensures Join(cs[..j + 1]) == Dirs(cs[..j]) + cs[j]
  {
    assert cs[..j + 1][..j] == cs[..j];
  }

  lemma {:induction false} FirstUnclean(cs: seq<Text>) returns (j: nat)
    requires !Clean(cs)
    ensures j < |cs| && Clean(cs[..j]) && !CleanComponent(cs[j])
  {
    hide CleanComponent;
    var n := |cs| - 1;
    if Clean(cs[..n]) {
      j := n;
    } else {
      j := FirstUnclean(cs[..n]);
      assert cs[..n][..j] == cs[..j];
    }
  }

  lemma TooShort(ds: seq<Text>, c: Text)
    requires Slashless(ds) && Clean(ds) && '/' !in c && !CleanComponent(c)
    ensures |Derived(Dirs(ds) + c)| < |Normal(Dirs(ds) + c)|
  {
    hide HasDots, Pass, Resolve, Dirs;
    var stack := Resolve([], ds);
    EmptyDirs();
    assert Open([]) == ORIGIN;
    PassDirs([], ds, c);
    DotsShorten(c, Open(stack));
    NormalBelow(ds, c);
    EnterPlain(stack, c);
    NotEmpty(c);
  }

  lemma EmptyDirs()
    ensures Dirs([]) == []
  {
  }

  lemma NotEmpty(c: Text)
    requires HasDots(c)
    ensures c != []
  {
  }

  lemma NormalBelow(ds: seq<Text>, c: Text)
    requires Slashless(ds) && '/' !in c && c != ".."
    ensures Normal(Dirs(ds) + c) == Join(Resolve([], ds) + [c])
  {
    hide Dirs, Join;
    SplitBelow(ds, c);
    SplitOne(c);
    ResolveConcat([], ds, [c]);
    assert Resolve(Resolve([], ds), [c]) == Resolve(Resolve([], ds) + [c], []);
  }

  lemma {:induction false} SplitOne(c: Text)
    requires '/' !in c
    ensures Split(c) == [c]
  {
    if c != [] {
      SplitOne(c[1..]);
      assert [c[0]] + c[1..] == c;
    }
  }

  // ---------- deriveRelative ----------

  /** The path the pass runs over. */
  function FilePath(path: Text, curr_dir: Text): Text
    requires curr_dir != []
  {
    if path == [] || path[0] != '/' then curr_dir[1..] + path else path[1..]
  }

  /** The C string in the buffer; cell 0 is the guard. */
  predicate Holds(buf: seq<char>, s: Text) {
    |s| + 2 <= |buf| && buf[1..|s| + 1] == s && buf[|s| + 1] == '\0' && '\0' !in s
  }

  /** What lies below the write position. */
  ghost predicate Written(buf: seq<char>, at: Cursor) {
    Proper(at) && -1 <= at.off && at.off + 2 < |buf| && buf[1..1 + |at.s|] == at.s
  }

  /** The pass leaves no NUL inside and does not outgrow its input. */
  lemma {:induction false} PassKeeps(t: Text, at: Cursor)
    requires Proper(at) && '\0' !in t && '\0' !in at.s
    ensures '\0' !in Pass(t, at).s
  {
    if t != [] {
      if IsDots(t) { PassKeeps(t[2..], Back(at)); } else { PassKeeps(t[1..], Put(at, t[0])); }
    }
  }

  /** The erasing loop of the pass. */
  method EraseComponent(buf: array<char>, pathOffset: int, ghost at: Cursor) returns (off: int)
    requires Written(buf[..], at) && pathOffset == at.off && at.off >= 0
    modifies buf
    ensures off == Back(at).off && Written(buf[..], Back(at))
  {
    hide LastSlash;
    off := pathOffset - 1;
    buf[off + 1] := '\0';
    ghost var low := off;
    while buf[off + 1] != '/' && off >= 0
      invariant -1 <= off <= low
      invariant off >= 0 ==> buf[off + 1] == (if off == low then '\0' else at.s[off])
      invariant forall k :: 0 <= k < off ==> buf[k + 1] == at.s[k]
      invariant low >= 0 ==> LastSlash(at.s[..low]) == LastSlash(at.s[..if off < low then off + 1 else low])
      decreases off
    {
      buf[off + 1] := '\0';
      if off < low { SlashIsBelow(at.s, off); }
      off := off - 1;
    }
    if 0 <= off < low { SlashIsHere(at.s, off); }
    if off < 0 { NoSlashLeft(); }
  }

  lemma SlashIsBelow(s: Text, k: nat)
    requires k < |s| && s[k] != '/'
    ensures LastSlash(s[..k + 1]) == LastSlash(s[..k])
  {
    assert s[..k + 1][..k] == s[..k];
  }

  lemma SlashIsHere(s: Text, k: nat)
    requires k < |s| && s[k] == '/'
    ensures LastSlash(s[..k + 1]) == k
  {
  }

  lemma NoSlashLeft()
    ensures LastSlash([]) == -1
  {
  }

  /** strcpy and strcat into file_path. */
  method CopyPath(buf: array<char>, curr_dir: Text, ghost path: Text) returns (file_path: Text)
    requires Holds(buf[..], path) && curr_dir != []
    ensures file_path == FilePath(path, curr_dir) + ['\0']
    ensures file_path == (if path == [] || path[0] != '/' then curr_dir[1..] + path else path[1..]) + ['\0']
  {
    var read, i := [], 1;
    assert path == buf[1..|path| + 1];
    while buf[i] != '\0'
      invariant 1 <= i <= |path| + 1 && read == buf[1..i] && buf[i] == (path + ['\0'])[i - 1]
      decreases |path| - i
    {
      read := read + [buf[i]];
      i := i + 1;
      assert i <= |path| ==> path[i - 1] == buf[1..|path| + 1][i - 1];
    }
    assert read == path;
    file_path := (if buf[1] != '/' then curr_dir[1..] + read else read[1..]) + ['\0'];
  }

  lemma NoNulInside(buf: seq<char>, path: Text, curr_dir: Text)
    requires Holds(buf, path) && curr_dir != [] && '\0' !in curr_dir
    ensures '\0' !in FilePath(path, curr_dir)
  {
  }

  /** The path in the buffer, relative to the current directory, normalised in place. */
  method DeriveRelative(buf: array<char>, curr_dir: Text, ghost path: Text, ghost dir: seq<Text>)
    requires Holds(buf[..], path) && curr_dir != [] && '\0' !in curr_dir
    requires |FilePath(path, curr_dir)| + 2 < buf.Length && Stays(FilePath(path, curr_dir), ORIGIN)
    modifies buf
    ensures Holds(buf[..], Derived(FilePath(path, curr_dir)))
    ensures Clean(Split(FilePath(path, curr_dir))) ==> Holds(buf[..], Normal(FilePath(path, curr_dir)))
    ensures
      (&& curr_dir == ['/'] + Dirs(dir) && Slashless(dir) && Clean(dir) && ".." !in dir
       && (path == [] || path[0] != '/') && Clean(Split(path))) ==>
        Holds(buf[..], Join(Resolve(dir, Split(path))))
    ensures path != [] && path[0] == '/' && Clean(Split(path[1..])) ==>
      Holds(buf[..], Join(Resolve([], Split(path[1..]))))
  {
    hide HasDots, Holds, Back, Pass, Stays, IsDots, FilePath, Split, Normal;
    var file_path := CopyPath(buf, curr_dir, path);
    ghost var t := FilePath(path, curr_dir);
    NoNulInside(buf[..], path, curr_dir);
    PassKeeps(t, ORIGIN);
    ghost var at := ORIGIN;
    buf[1] := '\0';
    var pathOffset, index := 0, 0;
    assert t[0..] == t;
    while file_path[index] != '\0'
      invariant 0 <= index <= |t| && at.off == pathOffset <= index
      invariant Written(buf[..], at) && Stays(t[index..], at) && Pass(t[index..], at) == Pass(t, ORIGIN)
      decreases |t| - index
    {
      PassStep(t, index, at);
      if file_path[index] == '.' && file_path[index + 1] == '.' {
        pathOffset := EraseComponent(buf, pathOffset, at);
        at := Back(at);
        index := index + 1;
      } else {
        PutChar(buf, pathOffset, file_path[index], at);
        at := Put(at, file_path[index]);
        pathOffset := pathOffset + 1;
      }
      index := index + 1;
    }
    PassEnds(at);
    assert t[index..] == [];
    Finish(buf, pathOffset, file_path[index], at);
    if Clean(Split(t)) { DerivedIsNormal(t); }
    RelativeFile(path, curr_dir, dir);
    AbsoluteFile(path, curr_dir);
  }

  /** A relative path is read below the current directory, component by component ... */
  lemma RelativeFile(path: Text, curr_dir: Text, dir: seq<Text>)
    requires curr_dir != []
    ensures
      (&& curr_dir == ['/'] + Dirs(dir) && Slashless(dir) && Clean(dir) && ".." !in dir
       && (path == [] || path[0] != '/') && Clean(Split(path))) ==>
        && Clean(Split(FilePath(path, curr_dir)))
        && Normal(FilePath(path, curr_dir)) == Join(Resolve(dir, Split(path)))
  {
    if curr_dir == ['/'] + Dirs(dir) && Slashless(dir) && Clean(dir) && ".." !in dir && Clean(Split(path)) {
      hide CleanComponent, Split, Dirs;
      RelativeMeans(dir, path);
      SplitBelow(dir, path);
      assert curr_dir[1..] == Dirs(dir);
      CleanConcat(dir, Split(path));
    }
  }

  lemma CleanConcat(a: seq<Text>, b: seq<Text>)
    requires Clean(a) && Clean(b)
    ensures Clean(a + b)
  {
    hide CleanComponent;
  }

  /** ... and one that begins with a slash from the root. */
  lemma AbsoluteFile(path: Text, curr_dir: Text)
    requires curr_dir != []
    ensures path != [] && path[0] == '/' ==>
      FilePath(path, curr_dir) == path[1..] && Normal(path[1..]) == Join(Resolve([], Split(path[1..])))
  {
  }

  /** `*(absPath + pathOffset) = c`. */
  method PutChar(buf: array<char>, pathOffset: int, c: char, ghost at: Cursor)
    requires Written(buf[..], at) && pathOffset == at.off && at.off + 3 < buf.Length
    modifies buf
    ensures Written(buf[..], Put(at, c))
  {
    buf[pathOffset + 1] := c;
  }

  method Finish(buf: array<char>, pathOffset: int, c: char, ghost at: Cursor)
    requires Written(buf[..], at) && pathOffset == at.off && c == '\0' && '\0' !in at.s
    modifies buf
    ensures Holds(buf[..], at.s)
  {
    buf[pathOffset + 1] := c;
    buf[pathOffset + 2] := '\0';
    Ended(buf[..], at);
  }

  lemma PassStep(t: Text, i: nat, at: Cursor)
    requires Proper(at) && i < |t| && Stays(t[i..], at) && '\0' !in t
    ensures IsDots(t[i..]) <==> t[i] == '.' && (t + ['\0'])[i + 1] == '.'
    ensures IsDots(t[i..]) ==> at.off >= 0 && Back(at).off < at.off
    ensures IsDots(t[i..]) ==>
      i + 2 <= |t| && Stays(t[i + 2..], Back(at)) && Pass(t[i..], at) == Pass(t[i + 2..], Back(at))
    ensures !IsDots(t[i..]) ==>
      Stays(t[i + 1..], Put(at, t[i])) && Pass(t[i..], at) == Pass(t[i + 1..], Put(at, t[i]))
  {
    hide Back;
    if IsDots(t[i..]) {
      assert t[i..][2..] == t[i + 2..];
      StaysBack(t[i..], at);
    } else {
      assert t[i..][1..] == t[i + 1..];
    }
  }

  lemma PassEnds(at: Cursor)
    requires Proper(at)
    ensures Pass([], at) == at
  {
  }

  lemma Ended(buf: seq<char>, at: Cursor)
    requires Written(buf, at) && buf[at.off + 2] == '\0' && buf[at.off + 1] == '\0' && '\0' !in at.s
    ensures Holds(buf, at.s)
  {
  }

  lemma StaysBack(t: Text, at: Cursor)
    requires Proper(at) && IsDots(t) && Stays(t, at)
    ensures at.off >= 0 && Back(at).off < at.off
  {
  }
}
