/**
 `ReadFromOffset` and `LineReader` of glog's symbolize.cc: reading newline-terminated lines through a
 buffer that is refilled from a file, moving an incomplete line to the front each time.

 The file is a fixed sequence of characters.  How many bytes `pread` delivers of those asked for is
 nondeterministic; which of its calls fail is a parameter.
 */
module LineReader {
  import opened Wrappers

  function Min(a: nat, b: nat): nat { if a < b then a else b }

  // ---------- What the lines of a text are ----------

  /** `memchr(s, '\n', |s|)`. */
  function FirstNewline(s: seq<char>): (r: Option<nat>)
    ensures r.Some? ==> r.value < |s| && s[r.value] == '\n'
  {
    if s == [] then None
    else if s[0] == '\n' then Some(0)
    else
      var r := FirstNewline(s[1..]);
      if r.None? then None else Some(r.value + 1)
  }

  lemma {:induction false} FirstNewlineIsFirst(s: seq<char>)
    ensures FirstNewline(s).Some? ==> forall i :: 0 <= i < FirstNewline(s).value ==> s[i] != '\n'
    ensures FirstNewline(s).None? ==> forall i :: 0 <= i < |s| ==> s[i] != '\n'
  {
    if s != [] && s[0] != '\n' {
      FirstNewlineIsFirst(s[1..]);
      assert forall i :: 1 <= i < |s| ==> s[i] == s[1..][i - 1];
    }
  }

  /** Text behind the first newline does not matter. */
  lemma {:induction false} FirstNewlineExtends(s: seq<char>, t: seq<char>)
    requires FirstNewline(s).Some?
    ensures FirstNewline(s + t) == FirstNewline(s)
  {
    if s[0] != '\n' {
      FirstNewlineExtends(s[1..], t);
      assert (s + t)[1..] == s[1..] + t;
    }
  }

  /** The part of the unread text that fits a buffer of `cap` characters. */
  function Reach(rest: seq<char>, cap: nat): seq<char> {
    rest[..Min(cap, |rest|)]
  }

  /** The length of the next line, if its newline is within reach of the buffer. */
  function LineLength(rest: seq<char>, cap: nat): (r: Option<nat>)
    ensures r.Some? ==> r.value < |rest| && r.value < cap && rest[r.value] == '\n'
  {
    FirstNewline(Reach(rest, cap))
  }

  /** The lines of a text, up to the first one that does not end within reach of the buffer. */
  function Lines(rest: seq<char>, cap: nat): seq<seq<char>> {
    match LineLength(rest, cap)
    case None => []
    case Some(n) => [rest[..n]] + Lines(rest[n + 1..], cap)
  }

  /** The text behind those lines. */
  function Remainder(rest: seq<char>, cap: nat): seq<char> {
    match LineLength(rest, cap)
    case None => rest
    case Some(n) => Remainder(rest[n + 1..], cap)
  }

  function Unlines(ls: seq<seq<char>>): seq<char> {
    if ls == [] then [] else ls[0] + ['\n'] + Unlines(ls[1..])
  }

  /** No character is lost or repeated: the lines put together again, and the remainder, are the text. */
  lemma {:induction false} LinesTile(rest: seq<char>, cap: nat)
    ensures Unlines(Lines(rest, cap)) + Remainder(rest, cap) == rest
    decreases |rest|
  {
    match LineLength(rest, cap)
    case None =>
    case Some(n) =>
      var after := rest[n + 1..];
      LinesTile(after, cap);
      TileStep(rest, n, Lines(after, cap), Remainder(after, cap));
  }

  lemma TileStep(rest: seq<char>, n: nat, ls: seq<seq<char>>, tail: seq<char>)
    requires n < |rest| && rest[n] == '\n' && Unlines(ls) + tail == rest[n + 1..]
    ensures Unlines([rest[..n]] + ls) + tail == rest
  {
    var l := rest[..n];
    assert ([l] + ls)[1..] == ls;
    assert Unlines([l] + ls) + tail == l + ['\n'] + (Unlines(ls) + tail);
  }

  /** Some newline is at `i` or among the `cap - 1` characters behind it. */
  ghost predicate NewlineNear(s: seq<char>, i: nat, cap: nat) {
    exists k :: i <= k < |s| && k < i + cap && s[k] == '\n'
  }

  lemma NoLineIsFar(rest: seq<char>, cap: nat)
    requires LineLength(rest, cap).None?
    ensures !NewlineNear(rest, 0, cap)
  {
    FirstNewlineIsFirst(Reach(rest, cap));
    assert forall k :: 0 <= k < |rest| && k < cap ==> Reach(rest, cap)[k] == rest[k];
  }

  /**
   The reader gets through the whole text exactly when a newline is near every character: no line with
   its newline is longer than the buffer, and the last line is terminated.
   */
  lemma {:induction false} WholeText(rest: seq<char>, cap: nat)
    ensures Remainder(rest, cap) == [] <==> forall i :: 0 <= i < |rest| ==> NewlineNear(rest, i, cap)
    decreases |rest|
  {
    match LineLength(rest, cap)
    case None =>
      NoLineIsFar(rest, cap);
    case Some(n) =>
      var after := rest[n + 1..];
      WholeText(after, cap);
      NearBehindLine(rest, n, after, cap);
  }

  /** Characters of a line that is within reach are near its newline; for the others the line does not matter. */
  lemma NearBehindLine(rest: seq<char>, n: nat, after: seq<char>, cap: nat)
    requires n < |rest| && n < cap && rest[n] == '\n' && after == rest[n + 1..]
    ensures (forall i :: 0 <= i < |rest| ==> NewlineNear(rest, i, cap)) <==>
            (forall i :: 0 <= i < |after| ==> NewlineNear(after, i, cap))
  {
    forall i | 0 <= i <= n ensures NewlineNear(rest, i, cap) {
      assert i <= n < |rest| && n < i + cap && rest[n] == '\n';
    }
    forall i | 0 <= i < |after| ensures NewlineNear(after, i, cap) <==> NewlineNear(rest, n + 1 + i, cap) {
      if NewlineNear(after, i, cap) {
        var k :| i <= k < |after| && k < i + cap && after[k] == '\n';
        assert rest[n + 1 + k] == '\n';
      }
      if NewlineNear(rest, n + 1 + i, cap) {
        var k :| n + 1 + i <= k < |rest| && k < n + 1 + i + cap && rest[k] == '\n';
        assert after[k - n - 1] == '\n';
      }
    }
    if forall i :: 0 <= i < |after| ==> NewlineNear(after, i, cap) {
      forall i | 0 <= i < |rest| ensures NewlineNear(rest, i, cap) {
        if i > n {
          assert NewlineNear(after, i - n - 1, cap);
        }
      }
    }
  }

  // ---------- The reader ----------

  /** The file from `offset` on. */
  function Tail(file: seq<char>, offset: nat): seq<char> {
    if offset <= |file| then file[offset..] else []
  }

  /** Whether call `n` of `pread` fails, and whether one of several does. */
  predicate Fails(fails: nat -> bool, n: nat) {
    fails(n)
  }

  ghost predicate FailsIn(fails: nat -> bool, lo: nat, hi: nat) {
    exists n: nat :: lo <= n < hi && Fails(fails, n)
  }

  class Reader {
    const file: seq<char>
    const fails: nat -> bool
    var calls: nat    // how often pread has been called
    const buf: array<char>
    var offset: nat   // file position up to which the buffer has been filled
    var bol: nat
    var eol: nat
    var eod: nat

    ghost predicate Valid()
      reads this, buf
    {
      buf.Length > 0 && (eod != 0 ==> eol < eod <= buf.Length)
    }

    /** The text not yet returned: what the buffer holds behind the last line, then the rest of the file. */
    ghost function Rest(): seq<char>
      requires Valid()
      reads this, buf
    {
      (if eod == 0 then [] else buf[eol + 1..eod]) + Tail(file, offset)
    }

    /** A call of `pread` failed since there had been `n`. */
    ghost predicate Broken(n: nat)
      reads this`calls
    {
      FailsIn(fails, n, calls)
    }

    constructor (file: seq<char>, buf: array<char>, offset: nat, fails: nat -> bool)
      requires buf.Length > 0
      ensures Valid() && this.file == file && this.buf == buf && this.fails == fails && Rest() == Tail(file, offset)
    {
      this.file, this.buf, this.offset, this.fails := file, buf, offset, fails;
      bol, eol, eod, calls := 0, 0, 0, 0;
    }

    /** `ReadFromOffset`: short reads are continued until `count` characters or the end of the file. */
    method ReadFromOffset(at: nat, count: nat, from: nat) returns (n: int)
      requires at + count <= buf.Length
      modifies buf, this`calls
      ensures calls >= old(calls) && n == if Broken(old(calls)) then -1 else Min(count, |Tail(file, from)|)
      ensures n >= 0 ==> buf[..at + n] + Tail(file, from + n) == old(buf[..at]) + Tail(file, from)
    {
      ghost var front, tail := buf[..at], Tail(file, from);
      var got := 0;
      assert front + tail[..0] == front;
      while got < count
        invariant 0 <= got <= count && got <= |tail|
        invariant buf[..at + got] == front + tail[..got]
        invariant calls >= old(calls) && !Broken(old(calls))
      {
        calls := calls + 1;
        if Fails(fails, calls - 1) {
          return -1;
        }
        if from + got >= |file| {
          break;
        }
        var available := Min(count - got, |file| - from - got);
        var len: nat :| 1 <= len && len <= available;  // pread
        Copy(at + got, from + got, len);
        TailStep(file, from, front, got, len);
        got := got + len;
      }
      TailSplit(file, from, front, got);
      n := got;
    }

    /** What one successful `pread` does to the buffer. */
    method Copy(at: nat, from: nat, len: nat)
      requires at + len <= buf.Length && from + len <= |file|
      modifies buf
      ensures buf[..at + len] == old(buf[..at]) + file[from..from + len]
    {
      ghost var front := buf[..at];
      forall i | 0 <= i < len {
        buf[at + i] := file[from + i];
      }
      assert forall i :: 0 <= i < at ==> buf[i] == front[i];
      assert forall i :: at <= i < at + len ==> buf[i] == file[from + (i - at)];
    }

    /** `memmove` of the incomplete line to the front. */
    method MoveToFront(from: nat, len: nat)
      requires from + len <= buf.Length
      modifies buf
      ensures buf[..len] == old(buf[from..from + len])
    {
      ghost var was := buf[from..from + len];
      forall i | 0 <= i < len {
        buf[i] := buf[from + i];
      }
      assert forall i :: 0 <= i < len ==> was[i] == old(buf[from + i]);
    }

    /** Move the incomplete line to the front and append to it. */
    method Refill() returns (n: int)
      requires 0 < bol <= eod <= buf.Length
      modifies this, buf
      ensures n > 0 ==> bol == 0 < eod <= buf.Length
                        && buf[..eod] + Tail(file, offset) == old(buf[bol..eod]) + old(Tail(file, offset))
                        && eod == Min(buf.Length, |old(buf[bol..eod]) + old(Tail(file, offset))|)
      ensures n == 0 ==> old(Tail(file, offset)) == []
      ensures calls >= old(calls) && (n < 0 <==> Broken(old(calls)))
    {
      var inc := eod - bol;
      ghost var head, tail := buf[bol..eod], Tail(file, offset);
      assert |head + tail| == inc + |tail|;
      MoveToFront(bol, inc);
      assert buf[..inc] == head;
      n := ReadFromOffset(inc, buf.Length - inc, offset);
      if n > 0 {
        offset, eod, bol := offset + n, inc + n, 0;
      }
    }

    /** The next line, if there is one within reach, is in buf[bol..eod]. */
    ghost predicate Ready(rest: seq<char>)
      reads this, buf
    {
      && bol <= eod <= buf.Length && 0 < eod
      && buf[bol..eod] + Tail(file, offset) == rest
      && (FirstNewline(buf[bol..eod]).Some? || eod - bol == Min(buf.Length, |rest|))
    }

    /** buf[bol..eol] is the first line of `rest`, and what follows its newline is the text left. */
    ghost predicate Took(rest: seq<char>)
      reads this, buf
    {
      && Valid() && bol <= eol < buf.Length
      && LineLength(rest, buf.Length) == Some(eol - bol)
      && buf[bol..eol] == rest[..eol - bol] && Rest() == rest[eol - bol + 1..]
    }

    /** The first read of all. */
    method FirstFill() returns (n: int)
      requires buf.Length > 0 && eod == 0
      modifies this, buf
      ensures n > 0 ==> Ready(old(Tail(file, offset)))
      ensures n == 0 ==> old(Tail(file, offset)) == []
      ensures calls >= old(calls) && (n < 0 <==> Broken(old(calls)))
    {
      ghost var tail := Tail(file, offset);
      n := ReadFromOffset(0, buf.Length, offset);
      if n > 0 {
        offset, eod, bol := offset + n, n, 0;
        assert [] + tail == tail;
        assert buf[bol..eod] == buf[..eod];
      }
    }

    /** Every later read. */
    method NextFill() returns (n: int)
      requires eod != 0 && eol < eod <= buf.Length
      modifies this, buf
      ensures n > 0 ==> Ready(old(buf[eol + 1..eod]) + old(Tail(file, offset)))
      ensures n == 0 ==> old(Tail(file, offset)) == [] && FirstNewline(old(buf[eol + 1..eod])).None?
      ensures calls >= old(calls) && (n < 0 <==> Broken(old(calls)))
    {
      n := 1;
      bol := eol + 1;
      if FirstNewline(buf[bol..eod]).None? {
        n := Refill();
        assert n > 0 ==> buf[bol..eod] == buf[..eod];
      }
    }

    /** Make the next line available; failing without an error means that no line is within reach. */
    method Fill() returns (ready: bool, ioError: bool)
      requires Valid()
      modifies this, buf
      ensures ready ==> !ioError && Ready(old(Rest()))
      ensures !ready && !ioError ==> LineLength(old(Rest()), buf.Length).None?
      ensures calls >= old(calls) && (ioError <==> Broken(old(calls)))
    {
      ghost var rest := Rest();
      var n;
      if eod == 0 {
        assert rest == Tail(file, offset);
        n := FirstFill();
      } else {
        ghost var data, tail := buf[eol + 1..eod], Tail(file, offset);
        assert rest == data + tail;
        n := NextFill();
        assert tail == [] ==> rest == data;
        assert |data| <= buf.Length ==> Reach(data, buf.Length) == data;
      }
      ready, ioError := n > 0, n < 0;
    }

    /** `ReadLine`: the next line of the text, or nothing if its newline is not within reach of the buffer. */
    method ReadLine() returns (ok: bool, ioError: bool)
      requires Valid()
      modifies this, buf
      ensures ok ==> !ioError && Took(old(Rest()))
      ensures !ok && !ioError ==> LineLength(old(Rest()), buf.Length).None?
      ensures calls >= old(calls) && (ioError <==> Broken(old(calls)))
    {
      ghost var rest := Rest();
      var ready;
      ready, ioError := Fill();
      if !ready {
        return false, ioError;
      }
      ok := FindLine(rest);
    }

    /** Look for the newline in the buffer and end the line there. */
    method FindLine(ghost rest: seq<char>) returns (ok: bool)
      requires buf.Length > 0 && Ready(rest)
      modifies this`eol, buf
      ensures ok ==> Took(rest)
      ensures !ok ==> LineLength(rest, buf.Length).None?
    {
      ghost var data := buf[bol..eod];
      DataNewline(rest, data, Tail(file, offset), buf.Length);
      var r := FirstNewline(buf[bol..eod]);
      if r.None? {
        return false;
      }
      TakeLine(rest, data, Tail(file, offset), r.value);
      Terminate(r.value);
      ok := true;
    }

    /** Set `eol_` and overwrite the newline with a NUL. */
    method Terminate(n: nat)
      requires bol + n < eod <= buf.Length
      modifies this`eol, buf
      ensures eol == bol + n && buf[bol..eol] == old(buf[bol..eod])[..n] && buf[eol + 1..eod] == old(buf[bol..eod])[n + 1..]
    {
      eol := bol + n;
      buf[eol] := '\0';
    }

    /** Reading until `ReadLine` fails yields exactly the lines of the text, in order. */
    method ReadAll() returns (lines: seq<seq<char>>, ioError: bool)
      requires Valid()
      modifies this, buf
      ensures !ioError ==> lines == Lines(old(Rest()), buf.Length)
      ensures ioError ==> lines <= Lines(old(Rest()), buf.Length)
      ensures ioError <==> Broken(old(calls))
    {
      lines := [];
      ghost var all := Lines(Rest(), buf.Length);
      while true
        invariant Valid()
        invariant all == lines + Lines(Rest(), buf.Length)
        invariant calls >= old(calls) && !Broken(old(calls))
        decreases |Rest()|
      {
        var ok;
        ghost var rest := Rest();
        ok, ioError := ReadLine();
        if !ok {
          return;
        }
        LinesStep(lines, rest, buf.Length);
        lines := lines + [buf[bol..eol]];
      }
    }
  }

  lemma TailStep(file: seq<char>, from: nat, front: seq<char>, got: nat, len: nat)
    requires from + got + len <= |file|
    ensures var tail := Tail(file, from);
            front + tail[..got] + file[from + got..from + got + len] == front + tail[..got + len]
  {
    var tail := Tail(file, from);
    assert tail[..got + len] == tail[..got] + file[from + got..from + got + len];
  }

  lemma TailSplit(file: seq<char>, from: nat, front: seq<char>, got: nat)
    requires got <= |Tail(file, from)|
    ensures front + Tail(file, from)[..got] + Tail(file, from + got) == front + Tail(file, from)
  {
    var tail := Tail(file, from);
    assert tail == tail[..got] + tail[got..];
    assert tail[got..] == Tail(file, from + got);
  }

  lemma TakeLine(rest: seq<char>, data: seq<char>, tail: seq<char>, n: nat)
    requires rest == data + tail && n < |data|
    ensures rest[..n] == data[..n] && rest[n + 1..] == data[n + 1..] + tail
  {
  }

  lemma LinesStep(done: seq<seq<char>>, rest: seq<char>, cap: nat)
    requires LineLength(rest, cap).Some?
    ensures var n := LineLength(rest, cap).value;
            done + Lines(rest, cap) == (done + [rest[..n]]) + Lines(rest[n + 1..], cap)
  {
  }

  /** Searching the buffered part of the text is searching everything within reach. */
  lemma DataNewline(rest: seq<char>, data: seq<char>, tail: seq<char>, cap: nat)
    requires rest == data + tail && |data| <= cap
    ensures FirstNewline(data).Some? ==> LineLength(rest, cap) == FirstNewline(data)
    ensures FirstNewline(data).None? && |data| == Min(cap, |rest|) ==> LineLength(rest, cap).None?
  {
    var w := Reach(rest, cap);
    assert w == data + w[|data|..];
    if FirstNewline(data).Some? {
      FirstNewlineExtends(data, w[|data|..]);
    } else if |data| == |w| {
      assert w == data;
    }
  }
}
