/** The tokenizers of src/libs/string.c: tokenize and strtok, which write into a copy, and strcspn and
    strsep, which cut the string where it is. */
module Tokens {
  import opened Words

  const NUL: byte := 0

  // Splitting, on sequences.

  /** strcspn: how many characters come before the first one of the set. */
  function Span(s: seq<byte>, delims: seq<byte>): (n: nat)
    ensures n <= |s| && (n < |s| ==> s[n] in delims) && forall i :: 0 <= i < n ==> s[i] !in delims
  {
    if s == [] || s[0] in delims then 0 else 1 + Span(s[1..], delims)
  }

  /** The string cut at every delimiter. */
  function Fields(s: seq<byte>, delims: seq<byte>): (f: seq<seq<byte>>)
    ensures f != []
    decreases |s|
  {
    var n := Span(s, delims);
    if n == |s| then [s] else [s[..n]] + Fields(s[n + 1..], delims)
  }

  /** The fields with one character between each two. */
  function Join(fields: seq<seq<byte>>, c: byte): seq<byte> {
    if fields == [] then [] else if |fields| == 1 then fields[0] else fields[0] + [c] + Join(fields[1..], c)
  }

  function CountOf(s: seq<byte>, delims: seq<byte>): nat {
    if s == [] then 0 else (if s[0] in delims then 1 else 0) + CountOf(s[1..], delims)
  }

  predicate DelimiterFree(fields: seq<seq<byte>>, delims: seq<byte>) {
    forall i, k :: 0 <= i < |fields| && 0 <= k < |fields[i]| ==> fields[i][k] !in delims
  }

  /** The first delimiter is wherever a delimiter-free prefix ends. */
  lemma {:induction false} SpanIs(s: seq<byte>, delims: seq<byte>, n: nat)
    requires n <= |s| && (n < |s| ==> s[n] in delims) && forall i :: 0 <= i < n ==> s[i] !in delims
    ensures Span(s, delims) == n
    ensures Fields(s, delims) == if n == |s| then [s] else [s[..n]] + Fields(s[n + 1..], delims)
  {}

  lemma {:induction false} CountAfterSpan(s: seq<byte>, delims: seq<byte>)
    ensures var n := Span(s, delims);
            CountOf(s, delims) == if n == |s| then 0 else 1 + CountOf(s[n + 1..], delims)
  {
    if s != [] && s[0] !in delims {
      CountAfterSpan(s[1..], delims);
      var n := Span(s[1..], delims);
      if n < |s| - 1 {
        assert s[1..][n + 1..] == s[n + 2..];
      }
    }
  }

  /** There is one field more than delimiters, and no field holds one. */
  lemma {:induction false} FieldsCount(s: seq<byte>, delims: seq<byte>)
    ensures |Fields(s, delims)| == CountOf(s, delims) + 1
    ensures DelimiterFree(Fields(s, delims), delims)
    decreases |s|
  {
    CountAfterSpan(s, delims);
    var n := Span(s, delims);
    if n < |s| {
      FieldsCount(s[n + 1..], delims);
    }
  }

  lemma JoinCons(first: seq<byte>, rest: seq<seq<byte>>, c: byte)
    requires rest != []
    ensures Join([first] + rest, c) == first + [c] + Join(rest, c)
  {
    assert ([first] + rest)[1..] == rest;
  }

  lemma Around(s: seq<byte>, n: nat)
    requires n < |s|
    ensures s == s[..n] + [s[n]] + s[n + 1..]
  {}

  /** Joining the fields with the one delimiter gives the string back. */
  lemma {:induction false} JoinFields(s: seq<byte>, c: byte)
    ensures Join(Fields(s, [c]), c) == s
    decreases |s|
  {
    var n := Span(s, [c]);
    SpanIs(s, [c], n);
    if n < |s| {
      hide Fields, Span, Join;
      JoinFields(s[n + 1..], c);
      JoinCons(s[..n], Fields(s[n + 1..], [c]), c);
      Around(s, n);
    }
  }

  /** And splitting a join of delimiter-free fields gives the fields back. */
  lemma {:induction false} FieldsJoin(fields: seq<seq<byte>>, c: byte)
    requires fields != [] && DelimiterFree(fields, [c])
    ensures Fields(Join(fields, c), [c]) == fields
    decreases |fields|
  {
    var s, first, rest := Join(fields, c), fields[0], fields[1..];
    assert fields == [first] + rest;
    if rest == [] {
      SpanIs(s, [c], |s|);
    } else {
      JoinCons(first, rest, c);
      FieldsJoin(rest, c);
      hide Fields, Span, Join;
      var n := |first|;
      assert s[n] == c && s[..n] == first && s[n + 1..] == Join(rest, c);
      SpanIs(s, [c], n);
    }
  }

  /** Fields of a string one character longer. */
  lemma {:induction false} FieldsAppend(s: seq<byte>, c: byte, delims: seq<byte>)
    ensures var f := Fields(s, delims); var last := |f| - 1;
            Fields(s + [c], delims) == if c in delims then f + [[]] else f[..last] + [f[last] + [c]]
    decreases |s|
  {
    hide Fields, Span;
    var n := Span(s, delims);
    SpanIs(s, delims, n);
    if n < |s| {
      SpanIs(s + [c], delims, n);
      FieldsAppend(s[n + 1..], c, delims);
      assert (s + [c])[n + 1..] == s[n + 1..] + [c] && (s + [c])[..n] == s[..n];
      LaterField(s[..n], Fields(s[n + 1..], delims), c);
    } else if c in delims {
      SpanIs(s + [c], delims, n);
      assert (s + [c])[n + 1..] == [] && (s + [c])[..n] == s;
      SpanIs([], delims, 0);
    } else {
      SpanIs(s + [c], delims, n + 1);
    }
  }

  lemma LaterField(first: seq<byte>, rest: seq<seq<byte>>, c: byte)
    requires rest != []
    ensures var f := [first] + rest; var last, end := |rest| - 1, |f| - 1;
            && [first] + (rest + [[]]) == f + [[]]
            && [first] + (rest[..last] + [rest[last] + [c]]) == f[..end] + [f[end] + [c]]
  {}

  // tokenize.

  function NonEmpty(fields: seq<seq<byte>>): seq<seq<byte>> {
    if fields == [] then []
    else NonEmpty(fields[..|fields| - 1]) + if fields[|fields| - 1] == [] then [] else [fields[|fields| - 1]]
  }

  /** The first field, empty or not, and the non-empty ones of the rest. */
  function Kept(fields: seq<seq<byte>>): (t: seq<seq<byte>>)
    requires fields != []
    ensures t != []
  {
    [fields[0]] + NonEmpty(fields[1..])
  }

  /** The tokens of strtok. */
  function TokensOf(s: seq<byte>, delims: seq<byte>): (t: seq<seq<byte>>)
    ensures t != []
  {
    Kept(Fields(s, delims))
  }

  /** Strings one after the other, each with its NUL. */
  function Packed(strings: seq<seq<byte>>): seq<byte> {
    if strings == [] then [] else Packed(strings[..|strings| - 1]) + strings[|strings| - 1] + [NUL]
  }

  /** What tokenize has written for a prefix of the string: the packed tokens, without the last NUL
      while a token is still open. */
  predicate Tokenized(written: seq<byte>, s: seq<byte>, delims: seq<byte>, closed: bool) {
    var f := Fields(s, delims);
    && Packed(TokensOf(s, delims)) == (if closed then written else written + [NUL])
    && closed == (|f| > 1 && f[|f| - 1] == [])
    && |written| <= |s|
  }

  lemma NonEmptyAppend(fields: seq<seq<byte>>, x: seq<byte>)
    ensures NonEmpty(fields + [x]) == NonEmpty(fields) + if x == [] then [] else [x]
  {
    assert (fields + [x])[..|fields|] == fields;
  }

  lemma KeptAppend(front: seq<seq<byte>>, x: seq<byte>)
    requires front != []
    ensures Kept(front + [x]) == if x == [] then Kept(front) else Kept(front) + [x]
  {
    hide NonEmpty;
    assert (front + [x])[1..] == front[1..] + [x];
    NonEmptyAppend(front[1..], x);
  }

  lemma KeptExtend(f: seq<seq<byte>>, c: byte)
    requires f != []
    ensures var last, t := |f| - 1, Kept(f);
            Kept(f[..last] + [f[last] + [c]]) ==
            if |f| > 1 && f[last] == [] then t + [[c]] else t[..|t| - 1] + [t[|t| - 1] + [c]]
  {
    hide Kept;
    var front, x := f[..|f| - 1], f[|f| - 1];
    assert f == front + [x];
    if front == [] {
      KeptAlone(x);
      KeptAlone(x + [c]);
      assert front + [x + [c]] == [x + [c]];
    } else {
      KeptAppend(front, x);
      KeptAppend(front, x + [c]);
      assert x == [] ==> x + [c] == [c];
    }
  }

  lemma KeptAlone(x: seq<byte>)
    ensures Kept([x]) == [x]
  {
    assert [x][1..] == [];
  }

  lemma TokensAppend(s: seq<byte>, c: byte, delims: seq<byte>)
    ensures var f, t := Fields(s, delims), TokensOf(s, delims);
            TokensOf(s + [c], delims) ==
            if c in delims then t
            else if |f| > 1 && f[|f| - 1] == [] then t + [[c]]
            else t[..|t| - 1] + [t[|t| - 1] + [c]]
  {
    hide Fields, Kept;
    FieldsAppend(s, c, delims);
    KeptAppend(Fields(s, delims), []);
    KeptExtend(Fields(s, delims), c);
  }

  lemma TokenizedStep(written: seq<byte>, s: seq<byte>, c: byte, delims: seq<byte>, closed: bool)
    requires Tokenized(written, s, delims, closed)
    ensures c !in delims ==> Tokenized(written + [c], s + [c], delims, false)
    ensures c in delims && closed ==> Tokenized(written, s + [c], delims, true)
    ensures c in delims && !closed ==> Tokenized(written + [NUL], s + [c], delims, true)
  {
    FieldsAppend(s, c, delims);
    TokensAppend(s, c, delims);
    var t := TokensOf(s, delims);
    hide Fields, NonEmpty, Packed;
    hide TokensOf;
    if c !in delims {
      if closed {
        PackedAppend(t, [c]);
        assert t + [[c]] == TokensOf(s + [c], delims);
      } else {
        var front, last := t[..|t| - 1], t[|t| - 1];
        assert t == front + [last];
        PackedAppend(front, last);
        PackedAppend(front, last + [c]);
        SameBeforeNul(written, Packed(front) + last);
        assert written + [c] + [NUL] == Packed(front) + (last + [c]) + [NUL];
      }
    }
  }

  lemma PackedAppend(front: seq<seq<byte>>, t: seq<byte>)
    ensures Packed(front + [t]) == Packed(front) + t + [NUL]
  {
    assert (front + [t])[..|front|] == front;
  }

  lemma SameBeforeNul(a: seq<byte>, b: seq<byte>)
    requires a + [NUL] == b + [NUL]
    ensures a == b
  {
    assert (a + [NUL])[..|a|] == a && (b + [NUL])[..|b|] == b;
  }

  /** tokenize: the packed tokens and one more NUL, in at most |s| + 2 bytes. After a trailing
      delimiter the last NUL is already there, and two follow it. */
  method Tokenize(tokenized: array<byte>, s: seq<byte>, delims: seq<byte>) returns (ghost n: nat)
    requires tokenized.Length >= |s| + 2
    modifies tokenized
    ensures n <= |s| + 2 && forall k :: n <= k < tokenized.Length ==> tokenized[k] == old(tokenized[k])
    ensures tokenized[..n] ==
            Packed(TokensOf(s, delims)) + (if s != [] && s[|s| - 1] in delims then [NUL, NUL] else [NUL])
  {
    hide Tokenized, TokensOf, Packed, Fields;
    var at, i, dontRepeat := 0, 0, false;
    NothingTokenized(delims);
    assert s[..0] == [];
    while i < |s|
      invariant i <= |s| && at <= i
      invariant Tokenized(tokenized[..at], s[..i], delims, dontRepeat)
      invariant forall k :: at <= k < tokenized.Length ==> tokenized[k] == old(tokenized[k])
      invariant dontRepeat == (i > 0 && s[i - 1] in delims)
    {
      TokenizedStep(tokenized[..at], s[..i], s[i], delims, dontRepeat);
      assert s[..i + 1] == s[..i] + [s[i]];
      if s[i] !in delims {
        at := Put(tokenized, at, s[i]);
        dontRepeat := false;
      } else if !dontRepeat {
        at := Put(tokenized, at, NUL);
        dontRepeat := true;
      }
      i := i + 1;
    }
    assert s[..|s|] == s;
    TokenizedDone(tokenized[..at], s, delims, dontRepeat);
    at := Put(tokenized, at, NUL);
    at := Put(tokenized, at, NUL);
    n := at;
  }

  /** *tokenized++ = c. */
  method Put(tokenized: array<byte>, at: nat, c: byte) returns (next: nat)
    requires at < tokenized.Length
    modifies tokenized
    ensures next == at + 1 && tokenized[..next] == old(tokenized[..at]) + [c]
    ensures forall k :: next <= k < tokenized.Length ==> tokenized[k] == old(tokenized[k])
  {
    tokenized[at] := c;
    next := at + 1;
  }

  lemma TokenizedDone(written: seq<byte>, s: seq<byte>, delims: seq<byte>, closed: bool)
    requires Tokenized(written, s, delims, closed)
    ensures Packed(TokensOf(s, delims)) + (if closed then [NUL, NUL] else [NUL]) == written + [NUL] + [NUL]
  {
    hide Packed, TokensOf, Fields;
  }

  lemma NothingTokenized(delims: seq<byte>)
    ensures Tokenized([], [], delims, false)
  {
    SpanIs([], delims, 0);
    var none: seq<seq<byte>>, empty: seq<byte> := [], [];
    KeptAlone(empty);
    assert none + [empty] == [empty] && TokensOf([], delims) == [empty];
    PackedAppend(none, empty);
  }

  // strtok.

  /** The string t, and its NUL, are at position p. */
  predicate CStringAt(b: seq<byte>, p: nat, t: seq<byte>) {
    p + |t| < |b| && b[p..p + |t|] == t && NUL !in t && b[p + |t|] == NUL
  }

  /** The tokens still to come, the one last returned first: packed from p on, with a NUL after. */
  predicate HoldsTokens(b: seq<byte>, p: nat, tokens: seq<seq<byte>>) {
    && tokens != []
    && (forall t :: t in tokens ==> NUL !in t) && (forall t :: t in tokens[1..] ==> t != [])
    && p + |Packed(tokens)| < |b|
    && b[p..p + |Packed(tokens)|] == Packed(tokens) && b[p + |Packed(tokens)|] == NUL
  }

  lemma {:induction false} PackedCons(t: seq<byte>, rest: seq<seq<byte>>)
    ensures Packed([t] + rest) == t + [NUL] + Packed(rest)
    decreases |rest|
  {
    hide Packed;
    NothingPacked();
    if rest == [] {
      var none: seq<seq<byte>> := [];
      assert none + [t] == [t] + rest;
      PackedAppend(none, t);
    } else {
      var front, last := rest[..|rest| - 1], rest[|rest| - 1];
      PackedCons(t, front);
      PackedAppend(front, last);
      PackedAppend([t] + front, last);
      assert [t] + front + [last] == [t] + rest && front + [last] == rest;
      assert t + [NUL] + Packed(front) + last + [NUL] == t + [NUL] + (Packed(front) + last + [NUL]);
    }
  }

  lemma FirstOf(b: seq<byte>, p: nat, t: seq<byte>, others: seq<byte>)
    requires var all := t + [NUL] + others; p + |all| < |b| && b[p..p + |all|] == all && b[p + |all|] == NUL
    requires NUL !in t
    ensures CStringAt(b, p, t)
    ensures var q := p + |t| + 1; q + |others| < |b| && b[q..q + |others|] == others && b[q + |others|] == NUL
  {
    var all, q := t + [NUL] + others, p + |t| + 1;
    assert b[p..p + |t|] == all[..|t|] && b[p..p + |all|][|t|] == NUL;
    assert b[q..q + |others|] == all[|t| + 1..];
  }

  /** The first token is the string at p; past its NUL are the others, if there are any. */
  lemma NextToken(b: seq<byte>, p: nat, tokens: seq<seq<byte>>)
    requires HoldsTokens(b, p, tokens)
    ensures tokens != [] && CStringAt(b, p, tokens[0]) && p + |tokens[0]| + 1 < |b|
    ensures var q := p + |tokens[0]| + 1;
            if |tokens| == 1 then b[q] == NUL else b[q] != NUL && HoldsTokens(b, q, tokens[1..])
  {
    hide Packed, CStringAt;
    var t, rest := tokens[0], tokens[1..];
    assert tokens == [t] + rest && t in tokens;
    PackedCons(t, rest);
    FirstOf(b, p, t, Packed(rest));
    NothingPacked();
    if rest != [] {
      var q := p + |t| + 1;
      assert rest[0] in rest && rest[0] in tokens;
      PackedStart(rest);
      assert forall x :: x in rest ==> x in tokens;
      assert forall x :: x in rest[1..] ==> x in rest;
      assert b[q] == b[q..q + |Packed(rest)|][0] == rest[0][0];
    }
  }

  lemma NotNul(b: seq<byte>, p: nat, t: seq<byte>)
    requires CStringAt(b, p, t)
    ensures p + |t| < |b| && b[p + |t|] == NUL && forall j :: p <= j < p + |t| ==> b[j] != NUL
  {
    forall j | p <= j < p + |t|
      ensures b[j] != NUL
    {
      assert b[j] == t[j - p];
    }
  }

  lemma PackedStart(strings: seq<seq<byte>>)
    requires strings != [] && strings[0] != []
    ensures Packed(strings) != [] && Packed(strings)[0] == strings[0][0]
  {
    assert strings == [strings[0]] + strings[1..];
    PackedCons(strings[0], strings[1..]);
  }

  lemma NothingPacked()
    ensures Packed([]) == []
  {}

  lemma {:induction false} NonEmptyOf(fields: seq<seq<byte>>)
    ensures forall t :: t in NonEmpty(fields) ==> t in fields && t != []
    decreases |fields|
  {
    if fields != [] {
      NonEmptyOf(fields[..|fields| - 1]);
    }
  }

  lemma {:induction false} FieldsOf(s: seq<byte>, delims: seq<byte>)
    requires NUL !in s
    ensures forall t :: t in Fields(s, delims) ==> NUL !in t
    decreases |s|
  {
    var n := Span(s, delims);
    if n < |s| {
      FieldsOf(s[n + 1..], delims);
    }
  }

  /** The static state of strtok. */
  class Tokenizer {
    var tokenized: array?<byte>
    var p: Option<nat>
    ghost var left: seq<seq<byte>>

    constructor ()
      ensures Valid() && left == []
    {
      tokenized, p, left := null, None, [];
    }

    ghost predicate Valid()
      reads this, tokenized
    {
      if p.None? then left == [] else tokenized != null && HoldsTokens(tokenized[..], p.value, left)
    }

    /** strtok. `memory` says whether kalloc finds the memory for the copy. The first call returns
        the first token of the string, each later one with NULL the next, and NULL after the last. */
    method Strtok(str: Option<seq<byte>>, delims: seq<byte>, memory: bool) returns (r: Option<nat>)
      requires Valid() && (str.Some? ==> NUL !in str.value)
      modifies this
      ensures Valid() && r == p
      ensures str.Some? ==> left == if memory then TokensOf(str.value, delims) else []
      ensures str.None? ==> left == if old(left) == [] then [] else old(left)[1..]
      ensures str.None? ==> tokenized == old(tokenized)
      ensures if left == [] then r.None?
              else r.Some? && tokenized != null && CStringAt(tokenized[..], r.value, left[0])
    {
      hide HoldsTokens, TokensOf, CStringAt, Packed;
      if str.Some? {
        if !memory {
          tokenized, p, left := null, None, [];
          return None;
        }
        var copy := new byte[|str.value| + 2];
        ghost var n := Tokenize(copy, str.value, delims);
        tokenized, p, left := copy, Some(0), TokensOf(str.value, delims);
        FreshTokens(copy[..], n, str.value, delims);
        NextToken(copy[..], 0, left);
      } else if p.Some? {
        NextToken(tokenized[..], p.value, left);
        NotNul(tokenized[..], p.value, left[0]);
        var q := p.value;
        while tokenized[q] != NUL
          invariant p.value <= q <= p.value + |left[0]| < tokenized.Length
          decreases tokenized.Length - q
        {
          q := q + 1;
        }
        left := left[1..];
        p := Some(q + 1);
        if tokenized[q + 1] == NUL {
          p := None;
        } else {
          NextToken(tokenized[..], q + 1, left);
        }
      }
      r := p;
    }
  }

  /** strtok until it returns NULL (test.c:27-33), when there is memory: the strings at the addresses it
      returned are exactly the tokens, in order. */
  method AllTokens(k: Tokenizer, s: seq<byte>, delims: seq<byte>) returns (at: seq<nat>)
    requires k.Valid() && NUL !in s
    modifies k
    ensures k.Valid() && k.left == [] && k.tokenized != null && |at| == |TokensOf(s, delims)|
    ensures forall i :: 0 <= i < |at| ==> CStringAt(k.tokenized[..], at[i], TokensOf(s, delims)[i])
  {
    hide CStringAt, HoldsTokens;
    ghost var tokens := TokensOf(s, delims);
    hide TokensOf;
    var p := k.Strtok(Some(s), delims, true);
    at := [];
    while p.Some?
      invariant k.Valid() && k.p == p && k.tokenized != null
      invariant |at| <= |tokens| && k.left == tokens[|at|..]
      invariant k.left != [] ==> p.Some? && CStringAt(k.tokenized[..], p.value, k.left[0])
      invariant k.left == [] ==> p.None?
      invariant forall i :: 0 <= i < |at| ==> CStringAt(k.tokenized[..], at[i], tokens[i])
      decreases |k.left|
    {
      at := at + [p.value];
      p := k.Strtok(None, delims, true);
    }
  }

  /** Tokens hold no NUL, and only the first may be empty. */
  lemma TokensShape(s: seq<byte>, delims: seq<byte>)
    requires NUL !in s
    ensures forall t :: t in TokensOf(s, delims) ==> NUL !in t
    ensures forall t :: t in TokensOf(s, delims)[1..] ==> t != []
  {
    hide Fields;
    FieldsOf(s, delims);
    var f := Fields(s, delims);
    NonEmptyOf(f[1..]);
    assert TokensOf(s, delims)[1..] == NonEmpty(f[1..]);
    assert forall t :: t in f[1..] ==> t in f;
    hide NonEmpty;
  }

  lemma FreshTokens(b: seq<byte>, n: nat, s: seq<byte>, delims: seq<byte>)
    requires n <= |b| && NUL !in s
    requires b[..n] == Packed(TokensOf(s, delims)) + (if s != [] && s[|s| - 1] in delims then [NUL, NUL] else [NUL])
    ensures HoldsTokens(b, 0, TokensOf(s, delims))
  {
    hide TokensOf, Packed;
    TokensShape(s, delims);
    var k := |Packed(TokensOf(s, delims))|;
    assert b[0..k] == b[..n][..k] && b[k] == b[..n][k];
  }

  // strsep.

  /** strcspn on the string s at position `from`: two nested loops. */
  method Strcspn(b: array<byte>, from: nat, delims: seq<byte>, ghost s: seq<byte>) returns (n: nat)
    requires CStringAt(b[..], from, s)
    ensures n == Span(s, delims)
  {
    StringBytes(b[..], from, s);
    n := 0;
    while true
      invariant n <= |s| && Span(s, delims) == n + Span(s[n..], delims)
      decreases |s| - n
    {
      var c := b[from + n];
      var k := 0;
      while k < |delims| && delims[k] != c
        invariant k <= |delims| && c !in delims[..k]
      {
        k := k + 1;
      }
      if k < |delims| || c == NUL {
        return;
      }
      assert delims[..k] == delims && s[n..][1..] == s[n + 1..];
      n := n + 1;
    }
  }

  lemma StringBytes(b: seq<byte>, p: nat, s: seq<byte>)
    requires CStringAt(b, p, s)
    ensures p + |s| < |b| && b[p + |s|] == NUL && forall i :: 0 <= i < |s| ==> b[p + i] == s[i] != NUL
  {
    forall i | 0 <= i < |s|
      ensures b[p + i] == s[i] != NUL
    {
      assert b[p..p + |s|][i] == s[i];
    }
  }

  /** Cutting the string s at p after n characters. */
  lemma CutAt(b: seq<byte>, p: nat, s: seq<byte>, n: nat)
    requires CStringAt(b, p, s) && n < |s|
    ensures p + |s| < |b| && CStringAt(b[p + n := NUL], p, s[..n]) && CStringAt(b[p + n := NUL], p + n + 1, s[n + 1..])
  {
    var c, q := b[p + n := NUL], p + n + 1;
    assert c[p..p + n] == b[p..p + |s|][..n];
    assert c[q..q + |s[n + 1..]|] == b[p..p + |s|][n + 1..];
  }

  /** A string that ends before position q does not see what is written from q on. */
  lemma CutElsewhere(b: seq<byte>, c: seq<byte>, p: nat, t: seq<byte>, q: nat)
    requires CStringAt(b, p, t) && p + |t| < q <= |b| == |c| && b[..q] == c[..q]
    ensures CStringAt(c, p, t)
  {
    assert c[p..p + |t|] == c[..q][p..p + |t|] == b[..q][p..p + |t|];
    assert c[p + |t|] == c[..q][p + |t|];
  }

  /** strsep on the string s at *stringp: the token is cut off in place, at the first delimiter; the
      new *stringp is past it, or NULL after the last token. */
  method Strsep(b: array<byte>, stringp: Option<nat>, delims: seq<byte>, ghost s: seq<byte>)
    returns (token: Option<nat>, next: Option<nat>)
    requires stringp.Some? ==> CStringAt(b[..], stringp.value, s)
    modifies b
    ensures token == stringp
    ensures stringp.None? ==> next.None? && b[..] == old(b[..])
    ensures stringp.Some? ==>
              var p, n := stringp.value, Span(s, delims);
              if n == |s| then next.None? && b[..] == old(b[..])
              else next == Some(p + n + 1) && p + n < b.Length && b[..] == old(b[..])[p + n := NUL]
    ensures stringp.Some? ==> CStringAt(b[..], stringp.value, s[..Span(s, delims)])
    ensures next.Some? ==>
            stringp.Some? && Span(s, delims) < |s| && CStringAt(b[..], next.value, s[Span(s, delims) + 1..])
  {
    hide CStringAt, Span;
    if stringp.None? {
      return None, None;
    }
    var begin := stringp.value;
    StringBytes(b[..], begin, s);
    var n := Strcspn(b, begin, delims, s);
    var end := begin + n;
    token := stringp;
    if b[end] != NUL {
      CutAt(b[..], begin, s, n);
      b[end] := NUL;
      next := Some(end + 1);
    } else {
      assert s[..n] == s;
      next := None;
    }
  }

  /** The strings are at these positions, each ending before `bound`. */
  predicate Placed(b: seq<byte>, at: seq<nat>, strings: seq<seq<byte>>, bound: nat) {
    |at| == |strings| && forall i :: 0 <= i < |at| ==> CStringAt(b, at[i], strings[i]) && at[i] + |strings[i]| < bound
  }

  lemma PlacedNext(b: seq<byte>, c: seq<byte>, at: seq<nat>, strings: seq<seq<byte>>, p: nat, t: seq<byte>)
    requires Placed(b, at, strings, p) && p <= |b| == |c| && b[..p] == c[..p] && CStringAt(c, p, t)
    ensures Placed(c, at + [p], strings + [t], p + |t| + 1)
  {
    forall i | 0 <= i < |at|
      ensures CStringAt(c, at[i], strings[i])
    {
      CutElsewhere(b, c, at[i], strings[i], p);
    }
    hide CStringAt;
  }

  /** strsep until it returns NULL, as the shell does with its arguments (shell.c:200-201): the tokens
      in the buffer are exactly the fields of the string that was there. */
  method SplitInPlace(b: array<byte>, start: nat, delims: seq<byte>, ghost s: seq<byte>) returns (tokens: seq<nat>)
    requires CStringAt(b[..], start, s)
    modifies b
    ensures |tokens| == |Fields(s, delims)|
    ensures forall i :: 0 <= i < |tokens| ==> CStringAt(b[..], tokens[i], Fields(s, delims)[i])
  {
    hide CStringAt, Span, Placed;
    hide Fields;
    ghost var done: seq<seq<byte>>, rest, bound := [], s, start;
    var stringp: Option<nat> := Some(start);
    tokens := [];
    NonePlaced(b[..], start);
    while stringp.Some?
      invariant stringp.Some? ==> bound == stringp.value && CStringAt(b[..], bound, rest)
      invariant Fields(s, delims) == done + Uncut(stringp.Some?, rest, delims)
      invariant Placed(b[..], tokens, done, bound)
      decreases if stringp.Some? then 1 + |rest| else 0
    {
      ghost var before, n := b[..], Span(rest, delims);
      FieldTaken(done, rest, delims);
      StringBytes(before, bound, rest);
      var token;
      token, stringp := Strsep(b, stringp, delims, rest);
      PlacedNext(before, b[..], tokens, done, bound, rest[..n]);
      tokens := tokens + [token.value];
      done, bound := done + [rest[..n]], bound + n + 1;
      if stringp.Some? {
        rest := rest[n + 1..];
      }
    }
    ArePlaced(b[..], tokens, done, bound);
  }

  lemma NonePlaced(b: seq<byte>, bound: nat)
    ensures Placed(b, [], [], bound)
  {}

  lemma ArePlaced(b: seq<byte>, at: seq<nat>, strings: seq<seq<byte>>, bound: nat)
    requires Placed(b, at, strings, bound)
    ensures |at| == |strings| && forall i :: 0 <= i < |at| ==> CStringAt(b, at[i], strings[i])
  {}

  /** The fields still to be cut off, if any. */
  function Uncut(more: bool, rest: seq<byte>, delims: seq<byte>): seq<seq<byte>> {
    if more then Fields(rest, delims) else []
  }

  lemma FieldTaken(done: seq<seq<byte>>, rest: seq<byte>, delims: seq<byte>)
    ensures var n := Span(rest, delims);
            n <= |rest| && done + Uncut(true, rest, delims) ==
                           (done + [rest[..n]]) + Uncut(n < |rest|, if n < |rest| then rest[n + 1..] else rest, delims)
  {
    hide Fields, Span;
    var n := Span(rest, delims);
    SpanFits(rest, delims);
    SpanIs(rest, delims, n);
    if n == |rest| {
      assert rest[..n] == rest && Uncut(false, rest, delims) == [];
      assert (done + [rest]) + [] == done + [rest];
    } else {
      Regroup(done, rest[..n], Fields(rest[n + 1..], delims));
    }
  }

  lemma SpanFits(s: seq<byte>, delims: seq<byte>)
    ensures var n := Span(s, delims); (n < |s| ==> s[n] in delims) && forall i :: 0 <= i < n ==> s[i] !in delims
  {}

  lemma Regroup<T>(a: seq<T>, x: T, b: seq<T>)
    ensures a + ([x] + b) == (a + [x]) + b
  {}
}
