/**
 The keyboard's line buffer: intWrite puts characters in, intRead takes whole lines out.
 */
module Keyboard {

  const SIZE: nat := 4096
  const BACKSPACE: nat := 14
  const ENTER: nat := 28
  const CONTROL: nat := 29

  /** The two characters of a key, plain and shifted. */
  datatype Key = Key(plain: char, shifted: char)

  function Newlines(s: seq<char>): nat {
    if s == [] then 0 else Newlines(s[..|s| - 1]) + (if s[|s| - 1] == '\n' then 1 else 0)
  }

  lemma NewlinesConcat(a: seq<char>, b: seq<char>)
    ensures Newlines(a + b) == Newlines(a) + Newlines(b)
  {
    if b == [] {
      assert a + b == a;
    } else {
      assert (a + b)[..|a + b| - 1] == a + b[..|b| - 1];
      NewlinesConcat(a, b[..|b| - 1]);
    }
  }

  lemma NoNewline(s: seq<char>)
    ensures Newlines(s) == 0 <==> '\n' !in s
  {
    if s != [] {
      assert s == s[..|s| - 1] + [s[|s| - 1]];
      NoNewline(s[..|s| - 1]);
    }
  }

  /** No key but Enter gives a newline. */
  predicate NoNewlineKeys(keys: seq<Key>) {
    forall i :: 0 <= i < |keys| ==> keys[i].plain != '\n' && keys[i].shifted != '\n'
  }

  lemma KeyIsNoNewline(keys: seq<Key>, code: nat)
    requires NoNewlineKeys(keys) && code < |keys|
    ensures keys[code].plain != '\n' && keys[code].shifted != '\n'
  {
  }

  class LineBuffer {
    const inpStr: array<char>
    const codeMap: seq<Key>
    var strOffset: nat
    var offset: nat
    var lineCount: nat
    var caps: bool
    var controlValue: bool
    ghost var typed: seq<char>  // everything typed and not erased
    ghost var read: seq<char>   // the lines handed out, each with its newline

    /** The part of the buffer not yet read. */
    ghost function Pending(): seq<char>
      requires offset <= strOffset <= inpStr.Length
      reads this, inpStr
    {
      inpStr[offset..strOffset]
    }

    /** The buffer between readers and writer: nothing lost, nothing twice, in order. */
    ghost predicate Valid()
      reads this, inpStr
    {
      && inpStr.Length == SIZE && offset <= strOffset <= SIZE && |codeMap| == 58
      && NoNewlineKeys(codeMap)
      && read + Pending() == typed
    }

    /** lineCount is the number of complete lines pending. */
    ghost predicate Counted()
      requires Valid()
      reads this, inpStr
    {
      lineCount == Newlines(Pending())
    }

    constructor (buffer: array<char>, keys: seq<Key>)
      requires buffer.Length == SIZE && |keys| == 58 && NoNewlineKeys(keys)
      ensures Valid() && Counted() && typed == [] && read == []
    {
      inpStr, codeMap := buffer, keys;
      strOffset, offset, lineCount, caps, controlValue := 0, 0, 0, false, false;
      typed, read := [], [];
    }

    /** The buffer has no bounds check: the caller must leave room. */
    method Append(c: char)
      requires Valid() && strOffset < SIZE
      modifies inpStr, `strOffset, `typed
      ensures Valid() && typed == old(typed) + [c] && Pending() == old(Pending()) + [c]
      ensures strOffset == old(strOffset) + 1
      ensures Newlines(Pending()) == Newlines(old(Pending())) + (if c == '\n' then 1 else 0)
    {
      NewlinesOneMore(Pending(), c);
      inpStr[strOffset] := c;
      strOffset := strOffset + 1;
      typed := typed + [c];
      assert Pending() == old(Pending()) + [c];
    }

    /**
     intWrite for one scan code.  Code 58 is left out: the table has 58 entries and the
     kernel lets 58 through.  Counting stays right for every key but one: a backspace
     that erases the newline of an unread line.
     */
    method IntWrite(code: nat)
      requires Valid() && code != 58 && strOffset < SIZE
      modifies this, inpStr
      ensures Valid() && read == old(read) && offset == old(offset)
      ensures typed ==
        if code == BACKSPACE then (if old(Pending()) == [] then old(typed) else old(typed)[..|old(typed)| - 1])
        else if code == ENTER then old(typed) + ['\n']
        else if code == 0 || code == 42 || code == 54 || code > 58 then old(typed)
        else if code == CONTROL || old(caps) || old(controlValue) then old(typed) + [codeMap[code].shifted]
        else old(typed) + [codeMap[code].plain]
      ensures caps == (if code == 42 || code == 54 then true
                       else if code == 0 || code > 58 || code == BACKSPACE || code == ENTER || code == CONTROL
                       then old(caps) else false)
      ensures controlValue == (if code == CONTROL then true
                               else if code == 0 || code > 58 || code == BACKSPACE || code == ENTER ||
                                       code == 42 || code == 54
                               then old(controlValue) else false)
      ensures old(Counted()) ==>
        (Counted() <==> !(code == BACKSPACE && old(Pending()) != [] && old(Pending())[|old(Pending())| - 1] == '\n'))
    {
      hide Newlines, NoNewlineKeys;
      PendingLength();
      if code > 58 { return; }
      if code == BACKSPACE {
        if offset != strOffset { EraseLast(); }
      } else if code == ENTER {
        Append('\n');
        lineCount := lineCount + 1;
      } else if code == CONTROL {
        controlValue := true;
        KeyIsNoNewline(codeMap, code);
        Append(codeMap[code].shifted);
      } else if code == 42 || code == 54 {
        caps := true;
      } else if code > 0 {
        if controlValue {
          controlValue := false;
          caps := true;
        }
        KeyIsNoNewline(codeMap, code);
        var key_pressed := if caps then codeMap[code].shifted else codeMap[code].plain;
        caps := false;
        Append(key_pressed);
      }
    }

    lemma PendingLength()
      requires Valid()
      ensures Pending() == [] <==> offset == strOffset
    {
    }

    /** `*(inpStr + strOffset - 1) = '\0'; strOffset--`. */
    method EraseLast()
      requires Valid() && offset < strOffset
      modifies inpStr, `strOffset, `typed
      ensures Valid() && typed == old(typed)[..|old(typed)| - 1] && Pending() == old(Pending())[..|old(Pending())| - 1]
      ensures Newlines(old(Pending())) ==
        Newlines(Pending()) + (if old(Pending())[|old(Pending())| - 1] == '\n' then 1 else 0)
    {
      ghost var p := Pending();
      LastErased(typed, read, p);
      inpStr[strOffset - 1] := '\0';
      strOffset := strOffset - 1;
      typed := typed[..|typed| - 1];
      assert Pending() == p[..|p| - 1];
    }

    /**
     One scan of intRead.  While lineCount counts the pending lines it finds one whenever
     lineCount is positive, hands out its characters without the newline, and leaves the
     rest pending.
     */
    method ReadLine() returns (found: bool, line: seq<char>)
      requires Valid() && Counted()
      modifies this, inpStr
      ensures Valid() && Counted() && found == (old(lineCount) > 0) && typed == old(typed)
      ensures found ==> old(Pending()) == line + ['\n'] + Pending() && '\n' !in line && lineCount == old(lineCount) - 1
      ensures found ==> read == old(read) + line + ['\n']
      ensures !found ==> Pending() == old(Pending()) && read == old(read) && lineCount == 0
    {
      line, found := [], false;
      if lineCount > 0 {
        ghost var p := Pending();
        NoNewline(p);
        hide Newlines, NoNewlineKeys, LineBuffer.Taken;
        var at := offset;
        StopsInTime(p, 0);
        NothingTaken(p);
        while at < SIZE
          invariant Taken(at, line, p) && at < strOffset
          invariant lineCount == old(lineCount) && offset == old(offset) && strOffset == old(strOffset)
          invariant typed == old(typed) && read == old(read)
        {
          TakenMeans(at, line, p);
          if inpStr[at] == '\n' {
            FinishLine(at, line, p);
            found := true;
            return;
          }
          line := TakeChar(at, line, p);
          at := at + 1;
          TakenMeans(at, line, p);
          StopsInTime(p, at - offset);
        }
        assert false;
      } else {
        assert lineCount == 0;
      }
    }

    /** `line` is what the scan has read up to `at`. */
    ghost predicate Taken(at: nat, line: seq<char>, p: seq<char>)
      reads this, inpStr
    {
      Scanning(at, p) && line == p[..at - offset] && '\n' !in line
    }

    lemma NothingTaken(p: seq<char>)
      requires Valid() && p == Pending()
      ensures Taken(offset, [], p)
    {
    }

    lemma TakenMeans(at: nat, line: seq<char>, p: seq<char>)
      requires Taken(at, line, p)
      ensures Scanning(at, p) && line == p[..at - offset] && '\n' !in line
      ensures at < strOffset ==> inpStr[at] == p[at - offset]
    {
    }

    /** `*(inpString + stringOffset) = inpStr[at]; inpStr[at] = '\0'`. */
    method TakeChar(at: nat, line: seq<char>, ghost p: seq<char>) returns (line': seq<char>)
      requires Taken(at, line, p) && at < strOffset && inpStr[at] != '\n'
      modifies inpStr
      ensures Taken(at + 1, line', p)
    {
      OneFurther(p, at - offset);
      line' := line + [inpStr[at]];
      inpStr[at] := '\0';
    }

    /** `setoffset(at + 1); lineCount--` at the newline. */
    method FinishLine(at: nat, ghost line: seq<char>, ghost p: seq<char>)
      requires Scanning(at, p) && at < strOffset && p[at - offset] == '\n' && line == p[..at - offset] && '\n' !in line
      requires |codeMap| == 58 && NoNewlineKeys(codeMap)
      requires read + p == typed && lineCount == Newlines(p) && lineCount > 0
      modifies `offset, `lineCount, `read
      ensures Valid() && Counted() && lineCount == old(lineCount) - 1
      ensures read == old(read) + line + ['\n'] && p == line + ['\n'] + Pending()
    {
      hide Newlines, NoNewlineKeys;
      ghost var rest := p[at - offset + 1..];
      LineSplits(p, at - offset);
      RestIsPending(at, p);
      Regroup(read, line, rest);
      assert p == line + ['\n'] + rest && inpStr.Length == SIZE && strOffset <= SIZE;
      hide LineBuffer.Scanning;
      read := read + line + ['\n'];
      offset := at + 1;
      lineCount := lineCount - 1;
      assert Pending() == rest;
    }

    lemma RestIsPending(at: nat, p: seq<char>)
      requires Scanning(at, p) && at < strOffset
      ensures inpStr[at + 1..strOffset] == p[at - offset + 1..]
    {
      var a, b := inpStr[at + 1..strOffset], p[at - offset + 1..];
      assert |a| == |b|;
      forall k | 0 <= k < |a| ensures a[k] == b[k] {}
    }

    /** During the scan: what lies at or beyond `at` has not been touched. */
    ghost predicate Scanning(at: nat, p: seq<char>)
      reads this, inpStr
    {
      && inpStr.Length == SIZE && offset <= at <= strOffset <= SIZE && |p| == strOffset - offset
      && forall j :: at <= j < strOffset ==> inpStr[j] == p[j - offset]
    }
  }

  /** A scan that has met no newline yet has not met the end of the pending text. */
  lemma StopsInTime(p: seq<char>, k: nat)
    requires '\n' in p && k <= |p| && '\n' !in p[..k]
    ensures k < |p|
  {
    assert p[..|p|] == p;
  }

  lemma NewlinesOneMore(p: seq<char>, c: char)
    ensures Newlines(p + [c]) == Newlines(p) + (if c == '\n' then 1 else 0)
  {
    NewlinesConcat(p, [c]);
    OneNewline(c);
  }

  lemma Regroup(read: seq<char>, line: seq<char>, rest: seq<char>)
    ensures read + (line + ['\n'] + rest) == read + line + ['\n'] + rest
  {
  }

  lemma OneFurther(p: seq<char>, k: nat)
    requires k < |p|
    ensures p[..k + 1] == p[..k] + [p[k]]
    ensures '\n' !in p[..k] && p[k] != '\n' ==> '\n' !in p[..k + 1]
  {
  }

  lemma OneNewline(c: char)
    ensures Newlines([c]) == if c == '\n' then 1 else 0
  {
    assert [c][..0] == [];
  }

  lemma LastErased(typed: seq<char>, read: seq<char>, p: seq<char>)
    requires read + p == typed && p != []
    ensures typed != [] && read + p[..|p| - 1] == typed[..|typed| - 1]
    ensures Newlines(p) == Newlines(p[..|p| - 1]) + (if p[|p| - 1] == '\n' then 1 else 0)
  {
  }

  /** The first newline splits the pending text into a line and the rest. */
  lemma LineSplits(p: seq<char>, k: nat)
    requires k < |p| && p[k] == '\n' && '\n' !in p[..k]
    ensures p == p[..k] + ['\n'] + p[k + 1..]
    ensures Newlines(p) == 1 + Newlines(p[k + 1..])
  {
    NoNewline(p[..k]);
    OneNewline('\n');
    NewlinesConcat(p[..k] + ['\n'], p[k + 1..]);
    NewlinesConcat(p[..k], ['\n']);
  }
}
