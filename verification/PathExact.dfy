/**
 When deriveRelative is right.  A component that contains `..` without being it makes the
 pass lose text; what is lost comes back only where the path returns to the root.
 */
module PathExact {
  import opened PathNorm

  // ---------- The written text as a stack ----------

  /** The stack without its last component. */
  function Base(m: seq<Text>): seq<Text> {
    if m == [] then [] else m[..|m| - 1]
  }

  lemma OpenIsClosed(m: seq<Text>)
    ensures Open(m) == Closed(m + [[]]) && Base(m + [[]]) == m
  {
    assert (m + [[]])[..|m|] == m;
  }

  lemma ClosedIsProper(m: seq<Text>)
    ensures Proper(Closed(m))
  {
    ClosedThenSlash(m);
  }

  /** A character other than a slash goes to the last component; with none it is lost. */
  lemma PutInside(m: seq<Text>, x: char) returns (n: seq<Text>)
    requires Slashless(m) && x != '/'
    ensures Put(Closed(m), x) == Closed(n) && Slashless(n) && Base(n) == Base(m)
    ensures m != [] ==> n == Base(m) + [m[|m| - 1] + [x]]
  {
    if m == [] {
      n := [[]];
      assert n[..0] == [];
    } else {
      n := Base(m) + [m[|m| - 1] + [x]];
      assert n[..|m| - 1] == Base(m);
    }
  }

  /** Going back leaves the last component, or the one before an empty one. */
  lemma BackInside(m: seq<Text>) returns (n: seq<Text>)
    requires Slashless(m) && m != []
    ensures Proper(Closed(m)) && Back(Closed(m)) == Closed(n) && Slashless(n)
    ensures n == if m[|m| - 1] == [] then Base(Base(m)) else Base(m)
  {
    hide Back, Closed, Slashless;
    ClosedIsProper(m);
    BaseIsSlashless(m);
    LastIsSlashless(m);
    var up := Base(m);
    assert m == up + [m[|m| - 1]];
    if m[|m| - 1] == [] {
      n := Base(up);
      OpenIsClosed(up);
      BackLeaves(up);
      BaseIsSlashless(up);
    } else {
      n := up;
      BackOverText(up, m[|m| - 1]);
    }
  }

  lemma BaseIsSlashless(m: seq<Text>)
    requires Slashless(m)
    ensures Slashless(Base(m))
  {
  }

  lemma LastIsSlashless(m: seq<Text>)
    requires Slashless(m) && m != []
    ensures '/' !in m[|m| - 1]
  {
  }

  lemma BackOverText(up: seq<Text>, c: Text)
    requires c != [] && '/' !in c
    ensures Proper(Closed(up + [c])) && Back(Closed(up + [c])) == Closed(up)
  {
    hide LastSlash, Dirs, Join;
    EnterPlain(up, c);
    DropLast(Dirs(up), c);
    NoSlash(Dirs(up), c[..|c| - 1]);
    if up == [] {
      EmptyDirs();
      LastSlashOfNothing();
      EmptyPath();
    } else {
      DirsIsJoin(up);
      LastSlashAtEnd(Join(up));
      KeepFront(Join(up), c);
    }
  }

  lemma EmptyPath()
    ensures Closed([]) == Cursor(-1, [])
  {
  }

  lemma DropLast(a: Text, c: Text)
    requires c != []
    ensures (a + c)[..|a + c| - 1] == a + c[..|c| - 1]
  {
  }

  lemma KeepFront(a: Text, c: Text)
    ensures (a + ['/'] + c)[..|a|] == a
  {
  }

  lemma LastSlashOfNothing()
    ensures LastSlash([]) == -1
  {
  }

  lemma LastSlashAtEnd(s: Text)
    ensures LastSlash(s + ['/']) == |s|
  {
  }

  lemma BasePrefix(m: seq<Text>)
    ensures Base(m) <= m && |Base(m)| <= |m|
  {
  }

  lemma PrefixTrans(a: seq<Text>, b: seq<Text>, c: seq<Text>)
    requires a <= b && b <= c
    ensures a <= c
  {
  }

  /** Whatever a component holds, the directories behind the pass only shrink. */
  lemma {:induction false} PassInside(c: Text, m: seq<Text>) returns (n: seq<Text>)
    requires Slashless(m) && '/' !in c && Proper(Closed(m)) && Stays(c, Closed(m))
    ensures Pass(c, Closed(m)) == Closed(n) && Slashless(n) && Base(n) <= Base(m)
    decreases |c|
  {
    hide Closed, Back, Slashless, Base;
    if c == [] {
      n := m;
    } else if IsDots(c) {
      StaysBack(c, Closed(m));
      ClosedAbove(m);
      var k := BackInside(m);
      ClosedIsProper(k);
      BackShrinks(m, k);
      n := PassInside(c[2..], k);
      PrefixTrans(Base(n), Base(k), Base(m));
    } else {
      var k := PutInside(m, c[0]);
      ClosedIsProper(k);
      n := PassInside(c[1..], k);
    }
  }

  lemma ClosedAbove(m: seq<Text>)
    requires Closed(m).off >= 0
    ensures m != []
  {
  }

  lemma BackShrinks(m: seq<Text>, k: seq<Text>)
    requires m != [] && k == if m[|m| - 1] == [] then Base(Base(m)) else Base(m)
    ensures Base(k) <= Base(m)
  {
    BasePrefix(Base(m));
    BasePrefix(Base(Base(m)));
  }

  /** A component with `..` in it costs at least one directory. */
  lemma {:induction false} PassUnclean(c: Text, p: seq<Text>, u: Text) returns (n: seq<Text>)
    requires Slashless(p) && '/' !in c && '/' !in u && HasDots(c)
    requires Proper(Closed(p + [u])) && Stays(c, Closed(p + [u]))
    ensures Pass(c, Closed(p + [u])) == Closed(n) && Slashless(n) && Base(n) <= Base(p)
    decreases |c|
  {
    hide Closed, Back, Base;
    var m := p + [u];
    BaseOfPush(p, u);
    if IsDots(c) {
      var k := BackInside(m);
      ClosedIsProper(k);
      BackCosts(p, u, k);
      n := PassInside(c[2..], k);
      PrefixTrans(Base(n), Base(k), Base(p));
    } else {
      var k := PutInside(m, c[0]);
      ClosedIsProper(k);
      n := PassUnclean(c[1..], p, u + [c[0]]);
    }
  }

  lemma BaseOfPush(p: seq<Text>, u: Text)
    ensures Base(p + [u]) == p && p + [u] != [] && (p + [u])[|p + [u]| - 1] == u
  {
  }

  lemma BackCosts(p: seq<Text>, u: Text, k: seq<Text>)
    requires k == if u == [] then Base(p) else p
    ensures Base(k) <= Base(p)
  {
    BasePrefix(Base(p));
  }

  // ---------- The pass, component by component ----------

  /** The pass over a component does not depend on what follows it. */
  lemma {:induction false} PassConcat(c: Text, rest: Text, at: Cursor)
    requires Proper(at) && Boundary(rest) && '/' !in c
    ensures Pass(c + rest, at) == Pass(rest, Pass(c, at))
    ensures Stays(c + rest, at) <==> Stays(c, at) && Stays(rest, Pass(c, at))
    decreases |c|
  {
    hide Back;
    if c == [] {
      assert c + rest == rest;
      StaysHere(rest, at);
    } else {
      assert IsDots(c + rest) <==> IsDots(c);
      if IsDots(c) {
        assert (c + rest)[2..] == c[2..] + rest;
        BackIsProper(at);
        PassConcat(c[2..], rest, Back(at));
      } else {
        assert (c + rest)[1..] == c[1..] + rest;
        PassConcat(c[1..], rest, Put(at, c[0]));
      }
    }
  }

  lemma BackIsProper(at: Cursor)
    requires Proper(at)
    ensures Proper(Back(at))
  {
  }

  lemma StaysHere(t: Text, at: Cursor)
    requires Proper(at)
    ensures Stays(t, at) ==> at.off >= -1
  {
  }

  lemma SlashNext(q: seq<Text>, rest: Text)
    ensures Proper(Closed(q)) && Pass(['/'] + rest, Closed(q)) == Pass(rest, Open(q))
    ensures Stays(['/'] + rest, Closed(q)) ==> Stays(rest, Open(q))
  {
    ClosedThenSlash(q);
    var t := ['/'] + rest;
    assert t[1..] == rest && !IsDots(t);
  }

  /** The text before a component's end and behind it: what the code makes of one component. */
  lemma CodeComponent(p: seq<Text>, c: Text, rest: Text) returns (q: seq<Text>)
    requires Slashless(p) && '/' !in c && Boundary(rest) && Stays(c + rest, Open(p))
    ensures Slashless(q) && Proper(Closed(q)) && Stays(rest, Closed(q))
    ensures Pass(c + rest, Open(p)) == Pass(rest, Closed(q))
    ensures CleanComponent(c) ==> q == Enter(p, c)
    ensures !CleanComponent(c) ==> Base(q) <= Base(p) && |Dirs(q)| <= |Dirs(p)| + |c|
  {
    hide Closed, HasDots, Base, Enter, Pass, Stays, Dirs;
    PassConcat(c, rest, Open(p));
    if CleanComponent(c) {
      q := Enter(p, c);
      EmptyEnds(c);
      PassComponent(p, c, []);
      ClosedIsProper(q);
      PassEnds(Closed(q));
    } else {
      OpenIsClosed(p);
      q := PassUnclean(c, p, []);
      ClosedIsProper(q);
      DotsShorten(c, Open(p));
      ClosedLength(q);
    }
  }

  lemma EmptyEnds(c: Text)
    ensures c + [] == c
  {
  }

  lemma ClosedLength(q: seq<Text>)
    ensures Closed(q).off == |Dirs(q)| - 1
  {
  }

  // ---------- The code's stack against the true one ----------

  /** `p` has lost text against `t`, here and in every directory above, down to the root. */
  predicate Lost(p: seq<Text>, t: seq<Text>)
    decreases |t|
  {
    if t == [] then p == [] else |Dirs(p)| < |Dirs(t)| && Lost(Base(p), Base(t))
  }

  predicate Related(p: seq<Text>, t: seq<Text>) {
    p == t || Lost(p, t)
  }

  lemma DirsGrow(m: seq<Text>, c: Text)
    ensures |Dirs(m + [c])| == |Dirs(m)| + |c| + 1 && Base(m + [c]) == m
  {
    assert (m + [c])[..|m|] == m;
  }

  lemma {:induction false} DirsPrefix(a: seq<Text>, b: seq<Text>)
    requires a <= b
    ensures |Dirs(a)| <= |Dirs(b)| && Base(a) <= Base(b)
    decreases |b|
  {
    hide Dirs;
    if |a| < |b| {
      assert b == Base(b) + [b[|b| - 1]];
      DirsGrow(Base(b), b[|b| - 1]);
      DirsPrefix(a, Base(b));
      BasePrefix(a);
      PrefixTrans(Base(a), a, Base(b));
    } else {
      assert a == b;
    }
  }

  lemma {:induction false} LostPrefix(a: seq<Text>, p: seq<Text>, t: seq<Text>)
    requires a <= p && Lost(p, t)
    ensures Lost(a, t)
    decreases |t|
  {
    hide Dirs;
    DirsPrefix(a, p);
    if t != [] { LostPrefix(Base(a), Base(p), Base(t)); }
  }

  /** A directory up is less, in this sense. */
  lemma {:induction false} LostBase(t: seq<Text>)
    ensures Lost(Base(t), t)
    decreases |t|
  {
    hide Dirs;
    if t != [] {
      var c := t[|t| - 1];
      assert t == Base(t) + [c];
      DirsGrow(Base(t), c);
      LostBase(Base(t));
    }
  }

  lemma RelatedAtRoot(p: seq<Text>)
    ensures Related(p, []) ==> p == []
  {
  }

  /** One component keeps the stacks related; only an unclean one sets them apart. */
  lemma RelatedStep(p: seq<Text>, t: seq<Text>, c: Text, q: seq<Text>)
    requires Related(p, t)
    requires CleanComponent(c) ==> q == Enter(p, c)
    requires !CleanComponent(c) ==> Base(q) <= Base(p) && |Dirs(q)| <= |Dirs(p)| + |c|
    ensures Related(q, Enter(t, c))
    ensures p == t && CleanComponent(c) ==> q == Enter(t, c)
    ensures p != t && CleanComponent(c) ==> Lost(q, Enter(t, c))
    ensures !CleanComponent(c) ==> Lost(q, Enter(t, c)) && Enter(t, c) != []
  {
    hide Dirs, HasDots;
    RelatedAtRoot(p);
    if CleanComponent(c) {
      if c != ".." {
        DirsGrow(p, c);
        DirsGrow(t, c);
      }
    } else {
      DirsGrow(t, c);
      LostBase(t);
      if p == t {
        LostPrefix(Base(q), Base(t), t);
      } else {
        BasePrefix(p);
        PrefixTrans(Base(q), Base(p), p);
        LostPrefix(Base(q), p, t);
        LostLength(p, t);
      }
    }
  }

  lemma LostLength(p: seq<Text>, t: seq<Text>)
    requires Lost(p, t)
    ensures |Dirs(p)| <= |Dirs(t)|
    ensures t != [] ==> p != t
  {
  }

  // ---------- The condition ----------

  /** Behind the first `i` components the path is at the root, and the rest is clean. */
  predicate AtRoot(cs: seq<Text>, i: nat)
    requires i <= |cs|
  {
    Resolve([], cs[..i]) == [] && Clean(cs[i..])
  }

  /** The same from a stack `t` on. */
  predicate Recovers(t: seq<Text>, cs: seq<Text>)
    decreases |cs|
  {
    (t == [] && Clean(cs)) || (cs != [] && Recovers(Enter(t, cs[0]), cs[1..]))
  }

  lemma {:induction false} RecoversMeans(t: seq<Text>, cs: seq<Text>)
    ensures Recovers(t, cs) <==> exists i :: 0 <= i <= |cs| && Resolve(t, cs[..i]) == [] && Clean(cs[i..])
    decreases |cs|
  {
    hide CleanComponent, Enter, Clean;
    if cs == [] {
      assert cs[..0] == [] && cs[0..] == [];
    } else {
      var t', rest := Enter(t, cs[0]), cs[1..];
      RecoversMeans(t', rest);
      assert cs[..0] == [] && cs[0..] == cs;
      forall i | 0 <= i <= |rest|
        ensures Resolve(t, cs[..i + 1]) == Resolve(t', rest[..i]) && cs[i + 1..] == rest[i..]
      {
        assert cs[..i + 1][1..] == rest[..i];
      }
      if exists i :: 0 <= i <= |cs| && Resolve(t, cs[..i]) == [] && Clean(cs[i..]) {
        var i :| 0 <= i <= |cs| && Resolve(t, cs[..i]) == [] && Clean(cs[i..]);
        if i > 0 {
          assert Resolve(t', rest[..i - 1]) == [] && Clean(rest[i - 1..]);
        }
      }
      if Recovers(t', rest) {
        var i :| 0 <= i <= |rest| && Resolve(t', rest[..i]) == [] && Clean(rest[i..]);
        assert Resolve(t, cs[..i + 1]) == [] && Clean(cs[i + 1..]);
      }
    }
  }

  lemma RecoversFromRoot(cs: seq<Text>)
    ensures Recovers([], cs) <==> exists i :: 0 <= i <= |cs| && AtRoot(cs, i)
  {
    hide Recovers, Clean, Resolve;
    RecoversMeans([], cs);
    if Recovers([], cs) {
      var i :| 0 <= i <= |cs| && Resolve([], cs[..i]) == [] && Clean(cs[i..]);
      assert AtRoot(cs, i);
    }
    if exists i :: 0 <= i <= |cs| && AtRoot(cs, i) {
      var i :| 0 <= i <= |cs| && AtRoot(cs, i);
      assert Resolve([], cs[..i]) == [] && Clean(cs[i..]);
    }
  }

  /** The code's stack `q` and the true one behind the components `cs`. */
  predicate Verdict(p: seq<Text>, t: seq<Text>, cs: seq<Text>, q: seq<Text>) {
    && Related(q, Resolve(t, cs))
    && (p == t && Clean(cs) ==> q == Resolve(t, cs))
    && (Recovers(t, cs) ==> q == Resolve(t, cs))
    && (!Recovers(t, cs) && !(p == t && Clean(cs)) ==> Lost(q, Resolve(t, cs)) && Resolve(t, cs) != [])
  }

  /** One component decided, and the rest. */
  lemma VerdictStep(p: seq<Text>, t: seq<Text>, cs: seq<Text>, p': seq<Text>, q: seq<Text>)
    requires cs != [] && Related(p, t)
    requires CleanComponent(cs[0]) ==> p' == Enter(p, cs[0])
    requires !CleanComponent(cs[0]) ==> Base(p') <= Base(p) && |Dirs(p')| <= |Dirs(p)| + |cs[0]|
    requires Verdict(p', Enter(t, cs[0]), cs[1..], q)
    ensures Verdict(p, t, cs, q)
  {
    hide Dirs, HasDots, Enter, CleanComponent, Lost, Base;
    var t', rest := Enter(t, cs[0]), cs[1..];
    RelatedStep(p, t, cs[0], p');
    CleanFirst(cs);
    RelatedAtRoot(p);
    if p' == t' && t' != [] {
      NotLost(t');
    }
    if t' == [] { RecoversAtRoot(rest); }
  }

  lemma CleanFirst(cs: seq<Text>)
    requires cs != []
    ensures Clean(cs) <==> CleanComponent(cs[0]) && Clean(cs[1..])
  {
    hide CleanComponent;
    if CleanComponent(cs[0]) && Clean(cs[1..]) {
      forall i | 0 <= i < |cs| ensures CleanComponent(cs[i]) {
        if i > 0 { assert cs[i] == cs[1..][i - 1]; }
      }
    }
  }

  lemma NotLost(t: seq<Text>)
    requires t != []
    ensures !Lost(t, t)
  {
  }

  lemma RecoversAtRoot(cs: seq<Text>)
    ensures Clean(cs) ==> Recovers([], cs)
  {
  }

  /** The pass over a whole path, whatever its components. */
  lemma {:induction false} PassTracks(p: seq<Text>, t: seq<Text>, cs: seq<Text>) returns (q: seq<Text>)
    requires Slashless(p) && Slashless(cs) && cs != [] && Related(p, t) && Stays(Join(cs), Open(p))
    ensures Pass(Join(cs), Open(p)) == Closed(q)
    ensures Verdict(p, t, cs, q)
    decreases |cs|
  {
    hide Pass, Stays, Join, Closed, Open, Related, Enter, Base, CleanComponent, Verdict;
    var c, t' := cs[0], Enter(t, cs[0]);
    if |cs| == 1 {
      assert cs == [c];
      JoinOne(c);
      EmptyEnds(c);
      q := CodeComponent(p, c, []);
      PassEnds(Closed(q));
      RelatedStep(p, t, c, q);
      VerdictEnds(q, t');
      assert cs[1..] == [];
      VerdictStep(p, t, cs, q, q);
    } else {
      assert cs == [c] + cs[1..];
      JoinCons(c, cs[1..]);
      JoinGroups(c, Join(cs[1..]));
      var p' := CodeComponent(p, c, ['/'] + Join(cs[1..]));
      SlashNext(p', Join(cs[1..]));
      RelatedStep(p, t, c, p');
      q := PassTracks(p', t', cs[1..]);
      VerdictStep(p, t, cs, p', q);
    }
  }

  lemma JoinGroups(c: Text, rest: Text)
    ensures c + ['/'] + rest == c + (['/'] + rest)
  {
  }

  lemma VerdictEnds(q: seq<Text>, t: seq<Text>)
    requires Related(q, t)
    ensures Verdict(q, t, [], q)
  {
    RelatedAtRoot(q);
  }

  // ---------- The result ----------

  lemma EqualText(q: seq<Text>, t: seq<Text>)
    requires Related(q, t)
    ensures q == t || t == [[]] ==> Join(q) == Join(t)
    ensures Lost(q, t) && t != [] && t != [[]] ==> Join(q) != Join(t)
  {
    JoinLength(q);
    JoinLength(t);
    if t == [[]] {
      assert t[..0] == [];
    }
  }

  lemma JoinLength(m: seq<Text>)
    ensures |Join(m)| == if m == [] then 0 else |Dirs(m)| - 1
    ensures Join(m) == [] <==> m == [] || m == [[]]
  {
    if m != [] && Join(m) == [] {
      assert Dirs(m[..|m| - 1]) == [] && m[|m| - 1] == [];
      assert |m| == 1;
    }
    if m == [[]] {
      assert m[..0] == [];
    }
  }

  /**
   deriveRelative is right on exactly the paths that are clean behind some point where
   they are at the root, and those that name the root in the end.
   */
  lemma DerivedIsNormalIff(t: Text)
    requires Stays(t, ORIGIN)
    ensures Derived(t) == Normal(t) <==>
              (exists i :: 0 <= i <= |Split(t)| && AtRoot(Split(t), i)) || Resolve([], Split(t)) == [[]]
  {
    hide Pass, Stays, Closed, Related, Verdict, Join, Recovers;
    var cs := Split(t);
    SplitJoins(t);
    OpensAtOrigin();
    var q := PassTracks([], [], cs);
    RecoversFromRoot(cs);
    VerdictAtRoot(cs, q);
    ClosedText(q);
    EqualText(q, Resolve([], cs));
  }

  lemma OpensAtOrigin()
    ensures Open([]) == ORIGIN && Related([], [])
  {
  }

  lemma ClosedText(q: seq<Text>)
    ensures Closed(q).s == Join(q)
  {
  }

  lemma VerdictAtRoot(cs: seq<Text>, q: seq<Text>)
    requires Verdict([], [], cs, q)
    ensures Related(q, Resolve([], cs))
    ensures Recovers([], cs) ==> q == Resolve([], cs)
    ensures !Recovers([], cs) ==> Lost(q, Resolve([], cs)) && Resolve([], cs) != []
  {
    hide Resolve, Clean;
    RecoversAtRoot(cs);
  }

  /** What the buffer holds after deriveRelative is the normal form on exactly those paths. */
  lemma BufferIsNormalIff(buf: seq<char>, t: Text)
    requires Holds(buf, Derived(t)) && Stays(t, ORIGIN)
    ensures Holds(buf, Normal(t)) <==>
              (exists i :: 0 <= i <= |Split(t)| && AtRoot(Split(t), i)) || Resolve([], Split(t)) == [[]]
  {
    hide Holds, Derived, Normal, Split, AtRoot;
    DerivedIsNormalIff(t);
    if Holds(buf, Normal(t)) { HoldsOne(buf, Derived(t), Normal(t)); }
  }

  lemma HoldsOne(buf: seq<char>, a: Text, b: Text)
    requires Holds(buf, a) && Holds(buf, b)
    ensures a == b
  {
    hide Holds;
    HoldsEnds(buf, a);
    HoldsEnds(buf, b);
    if |a| < |b| {
      HoldsAt(buf, b, |a|);
    } else if |b| < |a| {
      HoldsAt(buf, a, |b|);
    } else {
      forall k | 0 <= k < |a| ensures a[k] == b[k] {
        HoldsAt(buf, a, k);
        HoldsAt(buf, b, k);
      }
    }
  }

  lemma HoldsAt(buf: seq<char>, a: Text, k: nat)
    requires Holds(buf, a) && k < |a|
    ensures k + 1 < |buf| && buf[k + 1] == a[k] && a[k] != '\0'
  {
    assert buf[1..|a| + 1][k] == buf[k + 1];
  }

  lemma HoldsEnds(buf: seq<char>, a: Text)
    requires Holds(buf, a)
    ensures |a| + 1 < |buf| && buf[|a| + 1] == '\0'
  {
  }

  // ---------- An unclean component that is left again ----------

  /** At the root, as in `x../..`, leaving it mends the path ... */
  lemma LeavingMendsAtRoot(c: Text)
    requires '/' !in c && Stays(Join([c, ".."]), ORIGIN)
    ensures Derived(Join([c, ".."])) == Normal(Join([c, ".."]))
  {
    hide Stays, Derived, Normal, CleanComponent, Join;
    var cs := [c, ".."];
    JoinSplits(cs);
    LeftAgain(c);
    assert cs[..2] == cs && cs[2..] == [];
    assert AtRoot(cs, 2);
    DerivedIsNormalIff(Join(cs));
  }

  /** ... and below a directory, as in `d/x../..`, it does not. */
  lemma LeavingDoesNotMendBelow(d: Text, c: Text)
    requires '/' !in d && d != "" && d != ".." && '/' !in c && !CleanComponent(c)
    requires Stays(Join([d, c, ".."]), ORIGIN)
    ensures Derived(Join([d, c, ".."])) != Normal(Join([d, c, ".."]))
  {
    hide Stays, Derived, Normal, CleanComponent, Join;
    var cs := [d, c, ".."];
    JoinSplits(cs);
    NotDots(c);
    LeftAgainBelow(d, c);
    forall i | 0 <= i <= |cs| ensures !AtRoot(cs, i) {
      if i == 0 { assert cs[0..][1] == c; }
    }
    DerivedIsNormalIff(Join(cs));
  }

  lemma NotDots(c: Text)
    requires !CleanComponent(c)
    ensures c != ".."
  {
  }

  lemma LeftAgain(c: Text)
    ensures Resolve([], [c, ".."]) == []
  {
    var cs := [c, ".."];
    assert cs[1..] == [".."] && cs[1..][1..] == [];
    assert Resolve([], cs) == Resolve(Enter([], c), cs[1..]) == Resolve(Enter(Enter([], c), ".."), []);
  }

  lemma LeftAgainBelow(d: Text, c: Text)
    requires d != ".." && c != ".."
    ensures var cs := [d, c, ".."];
      && Resolve([], cs[..1]) == [d] && Resolve([], cs[..2]) == [d, c] && Resolve([], cs[..3]) == [d] == Resolve([], cs)
  {
    var cs := [d, c, ".."];
    assert cs[..1] == [d] && cs[..2] == [d, c] && cs[..3] == cs;
    ResolvePlain([], [d]);
    ResolvePlain([], [d, c]);
    ResolveConcat([], [d, c], [".."]);
    assert cs == [d, c] + [".."] && [] + [d] == [d] && [] + [d, c] == [d, c];
    assert Resolve([d, c], [".."]) == Resolve(Enter([d, c], ".."), []);
  }
}
