/** gets (src/libs/scan.c:22-50): reading and editing a line in the caller's buffer. */
module LineInput {
  import opened Words

  const BACKSPACE: byte := 8
  const NEWLINE: byte := 10

  /** The character that getchar's -1 leaves in a char (scan.c:44). */
  const END: byte := 255

  /** One keystroke: a backspace takes the last character away, if there is one. */
  function Edit(line: seq<byte>, c: byte): seq<byte> {
    if c != BACKSPACE then line + [c] else if line == [] then [] else line[..|line| - 1]
  }

  /** The line after some keystrokes. */
  function Edited(keys: seq<byte>): (line: seq<byte>)
    ensures |line| <= |keys|
    decreases |keys|
  {
    if keys == [] then [] else Edit(Edited(keys[..|keys| - 1]), keys[|keys| - 1])
  }

  predicate Ends(c: byte) {
    c == NEWLINE || c == END
  }

  /** gets returns after these keystrokes: the last one ended the line or filled the buffer. */
  predicate Stops(keys: seq<byte>, size: nat) {
    keys != [] && (Ends(keys[|keys| - 1]) || |Edited(keys)| >= size - 1)
  }

  /** n is how many keystrokes gets takes. */
  predicate Takes(keys: seq<byte>, size: nat, n: nat) {
    n <= |keys| && Stops(keys[..n], size) && forall k :: 0 <= k < n ==> !Stops(keys[..k], size)
  }

  /** The buffer while the line is typed: each character is written after the line so far. */
  function Buffered(buffer: seq<byte>, keys: seq<byte>): (r: seq<byte>)
    ensures |r| == |buffer|
    decreases |keys|
  {
    if keys == [] then buffer
    else
      var front, c := keys[..|keys| - 1], keys[|keys| - 1];
      var b, at := Buffered(buffer, front), |Edited(front)|;
      if c == BACKSPACE || at >= |b| then b else b[at := c]
  }

  lemma NoKeys(buffer: seq<byte>)
    ensures Edited([]) == [] && Buffered(buffer, []) == buffer
  {}

  lemma NextKey(buffer: seq<byte>, keys: seq<byte>, n: nat)
    requires n < |keys|
    ensures Edited(keys[..n + 1]) == Edit(Edited(keys[..n]), keys[n])
    ensures Buffered(buffer, keys[..n + 1]) ==
            var b, at := Buffered(buffer, keys[..n]), |Edited(keys[..n])|;
            if keys[n] == BACKSPACE || at >= |b| then b else b[at := keys[n]]
  {
    assert keys[..n + 1][..n] == keys[..n];
  }

  datatype Outcome = Null | Blocked | Line(taken: nat)

  /** gets, given what getchar will return: it is blocked when that runs out before the line ends. */
  method Gets(s: array<byte>, size: nat, keys: seq<byte>) returns (r: Outcome)
    requires size <= s.Length
    modifies s
    ensures r.Null? <==> size <= 1
    ensures r.Null? ==> s[..] == old(s[..])
    ensures r.Line? ==> Takes(keys, size, r.taken) && |Edited(keys[..r.taken])| < size
    ensures r.Line? ==> s[..] == Buffered(old(s[..]), keys[..r.taken])[|Edited(keys[..r.taken])| := 0]
    ensures r.Blocked? ==> s[..] == Buffered(old(s[..]), keys)
                           && forall k :: 0 <= k <= |keys| ==> !Stops(keys[..k], size)
  {
    hide Edited, Buffered;
    if size <= 1 {
      return Null;
    }
    NoKeys(s[..]);
    assert keys[..0] == [];
    ghost var was := s[..];
    var at, room, n := 0, size, 0;
    var ended := false;
    while room > 1 && !ended
      invariant n <= |keys| && at == |Edited(keys[..n])| && at + room == size && room >= 1
      invariant s[..] == Buffered(was, keys[..n])
      invariant forall k :: 0 <= k < n ==> !Stops(keys[..k], size)
      invariant ended || room == 1 <==> Stops(keys[..n], size)
      decreases |keys| - n, !ended
    {
      if n == |keys| {
        assert keys[..n] == keys;
        return Blocked;
      }
      var c := keys[n];
      NextKey(was, keys, n);
      if c == BACKSPACE {
        if at > 0 {
          at, room := at - 1, room + 1;
        }
      } else {
        s[at] := c;
        at, room := at + 1, room - 1;
      }
      n := n + 1;
      ended := c == NEWLINE || c == END;
    }
    s[at] := 0;
    r := Line(n);
  }

  // What editing means.

  lemma {:induction false} EditedIgnoresThePast(a: seq<byte>, b: seq<byte>, rest: seq<byte>)
    requires Edited(a) == Edited(b)
    ensures Edited(a + rest) == Edited(b + rest)
    decreases |rest|
  {
    if rest == [] {
      assert a + rest == a && b + rest == b;
    } else {
      var front := rest[..|rest| - 1];
      EditedIgnoresThePast(a, b, front);
      assert (a + rest)[..|a + rest| - 1] == a + front && (b + rest)[..|b + rest| - 1] == b + front;
    }
  }

  /** A character and the backspace after it cancel, wherever they are. */
  lemma BackspaceCancels(before: seq<byte>, c: byte, after: seq<byte>)
    requires c != 8
    ensures Edited(before + [c, 8] + after) == Edited(before + after)
  {
    var typed := before + [c, BACKSPACE];
    assert typed[..|typed| - 1] == before + [c] && (before + [c])[..|before|] == before;
    assert Edited(typed) == Edited(before);
    EditedIgnoresThePast(typed, before, after);
  }

  /** A backspace at the start of the line does nothing. */
  lemma LeadingBackspace(after: seq<byte>)
    ensures Edited([8] + after) == Edited(after)
  {
    assert [BACKSPACE][..0] == [];
    EditedIgnoresThePast([BACKSPACE], [], after);
    assert [] + after == after;
  }

  /** With no backspace the line is what was typed. */
  lemma {:induction false} PlainTyping(keys: seq<byte>)
    requires 8 !in keys
    ensures Edited(keys) == keys
    decreases |keys|
  {
    if keys != [] {
      PlainTyping(keys[..|keys| - 1]);
    }
  }

  lemma {:induction false} EditedIsTyped(keys: seq<byte>)
    ensures forall c :: c in Edited(keys) ==> c in keys && c != BACKSPACE
    decreases |keys|
  {
    if keys != [] {
      var front, last := keys[..|keys| - 1], keys[|keys| - 1];
      assert keys == front + [last];
      EditedIsTyped(front);
      EditKeeps(Edited(front), last);
    }
  }

  lemma EditKeeps(line: seq<byte>, key: byte)
    ensures forall c :: c in Edit(line, key) ==> c in line || (c == key && c != BACKSPACE)
  {
    assert line != [] ==> line == line[..|line| - 1] + [line[|line| - 1]];
  }

  /** The line returned has no backspace, fits the buffer with its NUL, and has a line feed or a 255, if
      any, in last place; without one it fills the buffer. */
  lemma LineShape(keys: seq<byte>, size: nat, n: nat)
    requires size > 1 && Takes(keys, size, n)
    ensures var line := Edited(keys[..n]);
            && 8 !in line && 0 < |line| < size
            && (forall i :: 0 <= i < |line| - 1 ==> line[i] != 10 && line[i] != 255)
            && (line[|line| - 1] == 10 || line[|line| - 1] == 255 || |line| == size - 1)
  {
    var taken, before := keys[..n], keys[..n - 1];
    assert taken[..n - 1] == before;
    EditedIsTyped(taken);
    EditedIsTyped(before);
    forall c | c in before
      ensures c != 10 && c != 255
    {
      var i :| 0 <= i < |before| && before[i] == c;
      NoEarlyEnd(keys, size, n, i);
    }
    assert n > 1 ==> !Stops(before, size);
    var line := Edited(taken);
    assert forall i :: 0 <= i < |line| - 1 ==> line[i] in Edited(before);
    hide Edited;
  }

  /** A line feed or a 255 ends the line, if it has not ended before; so does the character that fills the
      buffer; nothing else does. */
  lemma TakesExactly(keys: seq<byte>, size: nat, n: nat)
    requires size > 1 && n < |keys| && forall k :: 0 <= k <= n ==> !Stops(keys[..k], size)
    ensures Takes(keys, size, n + 1) <==>
            keys[n] == 10 || keys[n] == 255 || (keys[n] != 8 && |Edited(keys[..n])| + 2 >= size)
  {
    NextKey([], keys, n);
    assert keys[..n + 1][n] == keys[n];
    assert !Stops(keys[..n], size);
    hide Edited;
    assert n > 0 ==> |Edited(keys[..n])| < size - 1;
  }

  lemma NoEarlyEnd(keys: seq<byte>, size: nat, n: nat, i: nat)
    requires Takes(keys, size, n) && i < n - 1
    ensures !Ends(keys[i])
  {
    hide Edited;
    assert !Stops(keys[..i + 1], size) && keys[..i + 1][i] == keys[i];
  }

  lemma {:induction false} BufferHoldsLine(buffer: seq<byte>, keys: seq<byte>)
    requires forall k :: 0 <= k <= |keys| ==> |Edited(keys[..k])| <= |buffer|
    ensures |Edited(keys)| <= |buffer| && Buffered(buffer, keys)[..|Edited(keys)|] == Edited(keys)
    decreases |keys|
  {
    assert keys[..|keys|] == keys;
    if keys != [] {
      var front := keys[..|keys| - 1];
      forall k | 0 <= k <= |front|
        ensures |Edited(front[..k])| <= |buffer|
      {
        assert front[..k] == keys[..k];
      }
      BufferHoldsLine(buffer, front);
    }
  }

  /** What gets leaves in the buffer starts with the line and a NUL. */
  lemma BufferIsTheLine(buffer: seq<byte>, keys: seq<byte>, size: nat, n: nat)
    requires 1 < size <= |buffer| && Takes(keys, size, n)
    ensures var line := Edited(keys[..n]);
            |line| < |buffer| && Buffered(buffer, keys[..n])[|line| := 0][..|line| + 1] == line + [0]
  {
    LineShape(keys, size, n);
    var taken := keys[..n];
    hide Edited, Buffered;
    forall k | 0 <= k <= n
      ensures |Edited(taken[..k])| <= |buffer|
    {
      assert taken[..k] == keys[..k];
      assert k == n || !Stops(keys[..k], size);
    }
    BufferHoldsLine(buffer, taken);
    Terminated(Buffered(buffer, taken), Edited(taken));
  }

  lemma Terminated(b: seq<byte>, line: seq<byte>)
    requires |line| < |b| && b[..|line|] == line
    ensures b[|line| := 0][..|line| + 1] == line + [0]
  {}
}
