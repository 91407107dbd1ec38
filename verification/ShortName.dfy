/** Short directory names: how file.c packs a file name into eleven characters, and how dir.c
    unpacks them again to compare with a name it is looking for. */
module ShortName {
  import opened Words

  const NAME_LEN: nat := 8
  const EXT_LEN: nat := 3
  const SHORT_LEN: nat := 11

  /** The size of the buffer compare_short_name builds its string in. */
  const BUFFER_LEN: nat := 12

  // C strings.

  /** The text of a buffer that holds a terminator: the characters before the first one. */
  function Text(s: seq<char>): (r: seq<char>)
    ensures |r| <= |s| && ('\0' in s ==> |r| < |s| && s[|r|] == '\0')
    ensures forall i :: 0 <= i < |r| ==> r[i] == s[i] && r[i] != '\0'
  {
    if s == [] || s[0] == '\0' then [] else [s[0]] + Text(s[1..])
  }

  /** A string without a terminator in it is all text. */
  lemma {:induction false} AllText(s: seq<char>)
    requires '\0' !in s
    ensures Text(s) == s
  {
    if s != [] {
      assert s[0] in s;
      AllText(s[1..]);
    }
  }

  function ToUpper(c: char): char {
    if 'a' <= c <= 'z' then (c as int - 32) as char else c
  }

  function ToLower(c: char): char {
    if 'A' <= c <= 'Z' then (c as int + 32) as char else c
  }

  function Upper(s: seq<char>): (r: seq<char>)
    ensures |r| == |s| && forall i :: 0 <= i < |s| ==> r[i] == ToUpper(s[i])
  {
    seq(|s|, i requires 0 <= i < |s| => ToUpper(s[i]))
  }

  /** Equal up to the case of letters. */
  predicate SameLetters(a: seq<char>, b: seq<char>) {
    |a| == |b| && forall i :: 0 <= i < |a| ==> ToLower(a[i]) == ToLower(b[i])
  }

  /** What strcmp_insensitive accepts: its loop steps past the first characters before it compares,
      so they only have to be there (dir.c:156-160). */
  predicate SameFromSecond(a: seq<char>, b: seq<char>) {
    |a| == |b| && forall i :: 1 <= i < |a| ==> ToLower(a[i]) == ToLower(b[i])
  }

  method StrcmpInsensitive(a: seq<char>, b: seq<char>) returns (r: int)
    requires '\0' in a && '\0' in b
    ensures r == 0 <==> SameFromSecond(Text(a), Text(b))
  {
    ghost var ta, tb := Text(a), Text(b);
    hide Text;
    var i := 0;
    while true
      invariant 0 <= i <= |ta| && i <= |tb|
      invariant i > 0 ==> ToLower(a[i]) == ToLower(b[i])
      invariant forall k :: 1 <= k < i ==> ToLower(a[k]) == ToLower(b[k])
      decreases |a| - i
    {
      if a[i] == '\0' || b[i] == '\0' {
        r := a[i] as int - b[i] as int;
        return;
      }
      i := i + 1;
      if ToLower(a[i]) != ToLower(b[i]) {
        break;
      }
    }
    r := a[i] as int - b[i] as int;
  }

  // Packing.

  /** Where the first dot is, or the length. */
  function Dot(f: seq<char>): (r: nat)
    ensures r <= |f| && (r < |f| ==> f[r] == '.') && forall i :: 0 <= i < r ==> f[i] != '.'
  {
    if f == [] || f[0] == '.' then 0 else 1 + Dot(f[1..])
  }

  function Pad(s: seq<char>, n: nat): (r: seq<char>)
    requires |s| <= n
    ensures |r| == n
  {
    s + seq(n - |s|, _ => ' ')
  }

  /** The part before the dot, at most eight characters of it. */
  function Base(f: seq<char>): (r: seq<char>)
    ensures |r| <= NAME_LEN
  {
    f[..Min(Dot(f), NAME_LEN)]
  }

  /** Where the extension is taken from: past the dot if it came in time, else wherever the
      name was cut, even if a dot stands there (file.c:142-151). */
  function ExtStart(f: seq<char>): (r: nat)
    ensures r <= |f|
  {
    if Dot(f) < NAME_LEN then (if Dot(f) < |f| then Dot(f) + 1 else |f|) else NAME_LEN
  }

  function Extension(f: seq<char>): (r: seq<char>)
    ensures |r| <= EXT_LEN
  {
    f[ExtStart(f)..Min(ExtStart(f) + EXT_LEN, |f|)]
  }

  function Encode(f: seq<char>): (r: seq<char>)
    ensures |r| == SHORT_LEN
  {
    Pad(Upper(Base(f)), NAME_LEN) + PackedExtension(f)
  }

  lemma DotStep(f: seq<char>)
    ensures forall j :: 0 <= j < |f| && j <= Dot(f) ==> (f[j] == '.' <==> j == Dot(f))
  {}

  /** entry_name_copy: the eleven characters are written in place. */
  method EntryNameCopy(shortName: array<char>, filename: seq<char>)
    requires shortName.Length == SHORT_LEN && '\0' in filename
    modifies shortName
    ensures shortName[..] == Encode(Text(filename))
  {
    ghost var f := Text(filename);
    DotStep(f);
    EncodedAt(f);
    hide Text, Dot, Encode, Extension;
    for i := 0 to SHORT_LEN
      invariant forall k :: 0 <= k < i ==> shortName[k] == ' '
    {
      shortName[i] := ' ';
    }
    var j := 0;
    while j < NAME_LEN && filename[j] != '\0'
      invariant 0 <= j <= NAME_LEN && j <= |f| && j <= Dot(f)
      invariant forall k :: 0 <= k < SHORT_LEN ==> shortName[k] == if k < j then ToUpper(f[k]) else ' '
    {
      if filename[j] == '.' {
        break;
      }
      shortName[j] := ToUpper(filename[j]);
      j := j + 1;
    }
    assert j == |Base(f)|;
    if j < NAME_LEN && filename[j] != '\0' {
      j := j + 1;
    }
    CopyExtension(shortName, filename, j, PackedExtension(f));
    assert forall i :: 0 <= i < SHORT_LEN ==> shortName[i] == Encode(f)[i];
  }

  /** The packed extension: `ext` blank-padded to three characters. */
  function PackedExtension(f: seq<char>): (r: seq<char>)
    ensures |r| == EXT_LEN
  {
    Pad(Upper(Extension(f)), EXT_LEN)
  }

  lemma PackedExtensionAt(f: seq<char>)
    ensures forall i :: 0 <= i < EXT_LEN ==>
            PackedExtension(f)[i] == if ExtStart(f) + i < |f| then ToUpper(f[ExtStart(f) + i]) else ' '
  {}

  /** Its last loop: at most three characters, from where the first loop stopped. */
  method CopyExtension(shortName: array<char>, filename: seq<char>, start: nat, ghost packed: seq<char>)
    requires shortName.Length == SHORT_LEN && '\0' in filename
    requires start == ExtStart(Text(filename)) && packed == PackedExtension(Text(filename))
    requires forall i :: NAME_LEN <= i < SHORT_LEN ==> shortName[i] == ' '
    modifies shortName
    ensures forall i :: 0 <= i < NAME_LEN ==> shortName[i] == old(shortName[i])
    ensures forall i :: NAME_LEN <= i < SHORT_LEN ==> shortName[i] == packed[i - NAME_LEN]
  {
    ghost var f := Text(filename);
    PackedExtensionAt(f);
    hide Text, ExtStart, PackedExtension;
    var k := 0;
    while k < EXT_LEN && filename[start + k] != '\0'
      invariant 0 <= k <= EXT_LEN && start + k <= |f|
      invariant forall i :: 0 <= i < NAME_LEN ==> shortName[i] == old(shortName[i])
      invariant forall i :: NAME_LEN <= i < NAME_LEN + k ==> shortName[i] == packed[i - NAME_LEN]
      invariant forall i :: NAME_LEN + k <= i < SHORT_LEN ==> shortName[i] == ' '
    {
      shortName[NAME_LEN + k] := ToUpper(filename[start + k]);
      k := k + 1;
    }
  }

  /** The packed name character by character. */
  lemma EncodedAt(f: seq<char>)
    ensures forall i :: 0 <= i < NAME_LEN ==> Encode(f)[i] == if i < |Base(f)| then ToUpper(f[i]) else ' '
    ensures forall i :: NAME_LEN <= i < SHORT_LEN ==> Encode(f)[i] == PackedExtension(f)[i - NAME_LEN]
  {}

  /** A letter becomes its capital, and nothing else changes. */
  lemma Capital(c: char)
    ensures 'a' <= c <= 'z' ==> ToUpper(c) as int == c as int - 'a' as int + 'A' as int
    ensures !('a' <= c <= 'z') ==> ToUpper(c) == c
    ensures !('a' <= ToUpper(c) <= 'z')
  {}

  /** The eleven characters of any name, d being its first dot or its length: up to eight before the dot and up
      to three behind it, in capitals, the rest blank; with no dot among the first eight characters the
      extension starts at the ninth, whatever stands there. */
  lemma EncodedExactly(f: seq<char>, d: nat, i: nat)
    requires d <= |f| && (d < |f| ==> f[d] == '.') && (forall k :: 0 <= k < d ==> f[k] != '.') && i < 11
    ensures var from := if i < 8 then i else if d < 8 then d + 1 + (i - 8) else i;
            var there := if i < 8 then i < d else from < |f|;
            Encode(f)[i] == if there then ToUpper(f[from]) else ' '
    ensures !('a' <= Encode(f)[i] <= 'z')
  {
    assert Dot(f) == d;
    EncodedAt(f);
    PackedExtensionAt(f);
    hide Encode, Dot, PackedExtension;
  }

  // Unpacking.

  function BeforeSpace(s: seq<char>): (r: seq<char>)
    ensures |r| <= |s| && r == s[..|r|] && ' ' !in r && (|r| < |s| ==> s[|r|] == ' ')
  {
    if s == [] || s[0] == ' ' then [] else [s[0]] + BeforeSpace(s[1..])
  }

  /** The string compare_short_name builds from eleven characters. */
  function Decode(n: seq<char>): (r: seq<char>)
    requires |n| == SHORT_LEN
    ensures |r| <= BUFFER_LEN
  {
    BeforeSpace(n[..NAME_LEN]) + if n[NAME_LEN] == ' ' then [] else ['.'] + BeforeSpace(n[NAME_LEN..])
  }

  lemma BlankStops(s: seq<char>)
    ensures forall i :: 0 <= i < |s| && i <= |BeforeSpace(s)| ==> (s[i] == ' ' <==> i == |BeforeSpace(s)|)
  {
    forall i | 0 <= i < |s| && i < |BeforeSpace(s)|
      ensures s[i] != ' '
    {
      assert BeforeSpace(s)[i] == s[i];
    }
  }

  lemma NameBuilt(cells: seq<char>, i: nat, name: seq<char>, b: seq<char>, e: seq<char>)
    requires |name| == SHORT_LEN && b == BeforeSpace(name[..NAME_LEN]) && e == BeforeSpace(name[NAME_LEN..])
    requires i == (if name[NAME_LEN] == ' ' then |b| else |b| + 1 + |e|) <= |cells|
    requires forall k :: 0 <= k < |b| ==> cells[k] == b[k]
    requires name[NAME_LEN] != ' ' ==> cells[|b|] == '.' && forall k :: |b| < k < i ==> cells[k] == e[k - |b| - 1]
    ensures i <= BUFFER_LEN && cells[..i] == Decode(name)
  {
    hide BeforeSpace;
  }

  /** The string built in the local buffer, and its terminator; the buffer is one cell longer here than
      the source declares. */
  method BuildName(name: seq<char>) returns (built: array<char>, i: nat)
    requires |name| == SHORT_LEN
    ensures fresh(built) && built.Length == BUFFER_LEN + 1 && i <= BUFFER_LEN
    ensures built[..i] == Decode(name) && built[i] == '\0'
  {
    ghost var base, ext := name[..NAME_LEN], name[NAME_LEN..];
    ghost var b, e := BeforeSpace(base), BeforeSpace(ext);
    BlankStops(base);
    BlankStops(ext);
    hide BeforeSpace, Decode;
    built := new char[BUFFER_LEN + 1];
    i := 0;
    while i < NAME_LEN && name[i] != ' '
      invariant 0 <= i <= |b|
      invariant forall k :: 0 <= k < i ==> built[k] == b[k]
    {
      assert base[i] == name[i];
      built[i] := name[i];
      i := i + 1;
    }
    assert i < NAME_LEN ==> base[i] == name[i];
    if name[NAME_LEN] != ' ' {
      assert ext[0] == name[NAME_LEN];
      built[i] := '.';
      i := i + 1;
      var j := 0;
      while j < EXT_LEN && name[NAME_LEN + j] != ' '
        invariant 0 <= j <= |e| && i == |b| + 1 + j && built[|b|] == '.'
        invariant forall k :: 0 <= k < |b| ==> built[k] == b[k]
        invariant forall k :: |b| < k < i ==> built[k] == e[k - |b| - 1]
      {
        assert ext[j] == name[NAME_LEN + j];
        built[i] := name[NAME_LEN + j];
        i, j := i + 1, j + 1;
      }
      assert j < EXT_LEN ==> ext[j] == name[NAME_LEN + j];
    }
    NameBuilt(built[..], i, name, b, e);
    built[i] := '\0';
  }

  /** compare_short_name. The terminator is written past the twelve characters of the buffer, into
      whatever follows it, exactly for a name with no blank in it. */
  method CompareShortName(name: seq<char>, str: seq<char>) returns (r: int, overrun: bool)
    requires |name| == SHORT_LEN && '\0' in str
    ensures r == 0 <==> SameFromSecond(Text(Decode(name)), Text(str))
    ensures overrun <==> ' ' !in name
  {
    hide Text;
    var built, i := BuildName(name);
    overrun := i >= BUFFER_LEN;
    FullExactly(name);
    assert built[..][..i] == Decode(name);
    TextOfTerminated(built[..], i);
    assert built[..][i] == '\0';
    r := StrcmpInsensitive(built[..], str);
  }

  lemma {:induction false} BlankAt(s: seq<char>, k: nat)
    requires k <= |s| && ' ' !in s[..k] && (k < |s| ==> s[k] == ' ')
    ensures BeforeSpace(s) == s[..k]
  {
    var r := BeforeSpace(s);
    assert forall i :: 0 <= i < k ==> s[i] == s[..k][i] && s[i] in s[..k];
    assert forall i :: 0 <= i < |r| ==> s[i] == r[i] && s[i] in r;
  }

  lemma {:induction false} TextOfTerminated(s: seq<char>, i: nat)
    requires i < |s| && s[i] == '\0'
    ensures Text(s) == Text(s[..i])
  {
    if i > 0 && s[0] != '\0' {
      TextOfTerminated(s[1..], i - 1);
      assert s[1..][..i - 1] == s[..i][1..];
    }
  }

  lemma FullExactly(n: seq<char>)
    requires |n| == SHORT_LEN
    ensures |Decode(n)| == BUFFER_LEN <==> ' ' !in n
  {
    var base, ext := BeforeSpace(n[..NAME_LEN]), BeforeSpace(n[NAME_LEN..]);
    if ' ' !in n {
      BlankAt(n[..NAME_LEN], NAME_LEN);
      BlankAt(n[NAME_LEN..], EXT_LEN);
      assert n[NAME_LEN] in n;
    } else {
      var i :| 0 <= i < |n| && n[i] == ' ';
      if i < NAME_LEN {
        assert n[..NAME_LEN][i] == ' ' && |base| <= i;
      } else {
        assert n[NAME_LEN..][i - NAME_LEN] == ' ';
      }
    }
  }

  // What packing and unpacking promise together.

  /** Names that survive: at most eight characters and no dot, or at most seven, a dot, and one to
      three characters after it; no blank anywhere. */
  predicate Representable(f: seq<char>) {
    && ' ' !in f
    && (if Dot(f) == |f| then |f| <= NAME_LEN else Dot(f) < NAME_LEN && 1 <= |f| - Dot(f) - 1 <= EXT_LEN)
  }

  lemma UpperKeepsBlanks(c: char)
    ensures (ToUpper(c) == ' ' <==> c == ' ') && (ToUpper(c) == '.' <==> c == '.')
            && (ToUpper(c) == '\0' <==> c == '\0')
    ensures ToLower(ToUpper(c)) == ToLower(c)
  {}

  lemma UnpadUpper(s: seq<char>, n: nat)
    requires |s| <= n && ' ' !in s
    ensures BeforeSpace(Pad(Upper(s), n)) == Upper(s)
  {
    forall i | 0 <= i < |s|
      ensures Upper(s)[i] != ' '
    {
      UpperKeepsBlanks(s[i]);
      assert s[i] in s;
    }
    assert Pad(Upper(s), n)[..|s|] == Upper(s);
    BlankAt(Pad(Upper(s), n), |s|);
  }

  lemma EncodedParts(f: seq<char>)
    ensures Encode(f)[..NAME_LEN] == Pad(Upper(Base(f)), NAME_LEN)
    ensures Encode(f)[NAME_LEN..] == Pad(Upper(Extension(f)), EXT_LEN)
    ensures Encode(f)[NAME_LEN] == Pad(Upper(Extension(f)), EXT_LEN)[0]
  {}

  /** A base, and an extension behind a dot if there is one. */
  function Join(base: seq<char>, ext: seq<char>): (r: seq<char>)
    ensures |r| == if ext == [] then |base| else |base| + 1 + |ext|
  {
    if ext == [] then base else base + (['.'] + ext)
  }

  /** What comes back of a name without blanks: its two parts, joined. */
  lemma DecodeEncode(f: seq<char>)
    requires ' ' !in f
    ensures Decode(Encode(f)) == Join(Upper(Base(f)), Upper(Extension(f)))
  {
    EncodedParts(f);
    UnpadUpper(Base(f), NAME_LEN);
    UnpadUpper(Extension(f), EXT_LEN);
    if Extension(f) != [] {
      UpperKeepsBlanks(Extension(f)[0]);
      assert Extension(f)[0] in f;
    }
  }

  /** Round trip, exactly: a name comes back in capitals, without overrunning the buffer, if and
      only if it is representable. */
  lemma RoundTripExactly(f: seq<char>)
    ensures Decode(Encode(f)) == Upper(f) && ' ' in Encode(f) <==> Representable(f)
  {
    if ' ' in f {
      BlankIsLost(f);
    } else if Dot(f) >= NAME_LEN && |f| > NAME_LEN {
      LongBaseDiffers(f);
    } else {
      LeavesBlank(f);
      DecodeEncode(f);
      hide Decode, Encode, Join, Upper, Base, Extension;
      if Dot(f) == |f| {
        DotlessReturns(f);
      } else if 1 <= |f| - Dot(f) - 1 <= EXT_LEN {
        DottedReturns(f, Dot(f));
      } else {
        ExtensionLost(f, Dot(f));
      }
    }
  }

  lemma BlankIsLost(f: seq<char>)
    requires ' ' in f
    ensures Decode(Encode(f)) != Upper(f)
  {
    var i :| 0 <= i < |f| && f[i] == ' ';
    UpperKeepsBlanks(f[i]);
    var n := Encode(f);
    assert Upper(f)[i] == ' ' && ' ' !in Decode(n);
  }

  lemma DotlessReturns(f: seq<char>)
    requires Dot(f) == |f| <= NAME_LEN
    ensures Join(Upper(Base(f)), Upper(Extension(f))) == Upper(f)
  {
    assert Base(f) == f && |Upper(Extension(f))| == 0;
    JoinNothing(Upper(f), Upper(Extension(f)));
  }

  lemma JoinNothing(base: seq<char>, ext: seq<char>)
    requires |ext| == 0
    ensures Join(base, ext) == base
  {}

  lemma LeavesBlank(f: seq<char>)
    requires Dot(f) < NAME_LEN || |f| <= NAME_LEN
    ensures ' ' in Encode(f)
  {
    EncodedAt(f);
    PackedExtensionAt(f);
    if Dot(f) < NAME_LEN {
      assert |Base(f)| == Dot(f);
      hide Encode, Base, PackedExtension;
      assert Encode(f)[Dot(f)] == ' ';
    } else {
      assert ExtStart(f) == |f| == NAME_LEN;
      hide Encode, Base, PackedExtension;
      assert Encode(f)[NAME_LEN] == PackedExtension(f)[0] == ' ';
    }
  }

  lemma DottedReturns(f: seq<char>, d: nat)
    requires d == Dot(f) < |f| && d < NAME_LEN && 1 <= |f| - d - 1 <= EXT_LEN
    ensures Join(Upper(Base(f)), Upper(Extension(f))) == Upper(f)
  {
    DottedParts(f, d);
    UpperKeepsBlanks(f[d]);
    UpperParts(f, d);
    assert Upper(f[d + 1..]) != [];
    hide Upper, Dot, Base, Extension;
  }

  lemma DottedParts(f: seq<char>, d: nat)
    requires d == Dot(f) < |f| && d < NAME_LEN && 1 <= |f| - d - 1 <= EXT_LEN
    ensures Base(f) == f[..d] && Extension(f) == f[d + 1..]
  {
    hide Dot;
    assert f[d + 1..|f|] == f[d + 1..];
  }

  /** An extension that is empty or too long changes the length. */
  lemma ExtensionLost(f: seq<char>, d: nat)
    requires d == Dot(f) < |f| && d < NAME_LEN && !(1 <= |f| - d - 1 <= EXT_LEN)
    ensures |Join(Upper(Base(f)), Upper(Extension(f)))| != |Upper(f)|
  {
    assert |Base(f)| == d && |Extension(f)| == Min(EXT_LEN, |f| - d - 1);
    hide Join, Upper;
  }

  lemma UpperParts(f: seq<char>, d: nat)
    requires d < |f|
    ensures Upper(f) == Upper(f[..d]) + ([ToUpper(f[d])] + Upper(f[d + 1..]))
  {}

  /** A base of eight characters with more behind it gains a dot at position eight. It comes back
      only if that and everything after it is a dot, and then the buffer is overrun. */
  lemma LongBaseDiffers(f: seq<char>)
    requires ' ' !in f && Dot(f) >= NAME_LEN && |f| > NAME_LEN
    ensures Decode(Encode(f)) == Upper(f) ==> ' ' !in Encode(f)
  {
    DecodeEncode(f);
    var d, u := Decode(Encode(f)), Upper(f);
    if d == u {
      assert |d| == NAME_LEN + 1 + |Extension(f)| && |Extension(f)| == Min(EXT_LEN, |f| - NAME_LEN);
      FullExactly(Encode(f));
    }
  }

  /** Looking for a representable name finds its entry whatever the case of the letters, and
      stays inside the buffer. */
  lemma EncodedIsAccepted(f: seq<char>, g: seq<char>)
    requires Representable(f) && SameLetters(f, g) && '\0' !in f
    ensures SameFromSecond(Text(Decode(Encode(f))), g) && ' ' in Encode(f)
  {
    RoundTripExactly(f);
    forall i | 0 <= i < |f|
      ensures ToLower(Upper(f)[i]) == ToLower(f[i]) && Upper(f)[i] != '\0'
    {
      UpperKeepsBlanks(f[i]);
      assert f[i] in f;
    }
    AllText(Upper(f));
  }

  /** And accepts nothing else, but for the first character: the names accepted are those that
      agree from the second one on. */
  lemma AcceptedAgreesFromSecond(f: seq<char>, g: seq<char>)
    requires Representable(f) && '\0' !in f
    ensures SameFromSecond(Text(Decode(Encode(f))), g) <==> SameFromSecond(f, g)
    ensures SameLetters(f, g) <==> SameFromSecond(f, g) && (f == [] || ToLower(f[0]) == ToLower(g[0]))
  {
    RoundTripExactly(f);
    forall i | 0 <= i < |f|
      ensures ToLower(Upper(f)[i]) == ToLower(f[i]) && Upper(f)[i] != '\0'
    {
      UpperKeepsBlanks(f[i]);
      assert f[i] in f;
    }
    AllText(Upper(f));
  }

  /** Names that differ in the first letter only are taken for one another. */
  lemma FirstCharacterIgnored()
    ensures SameFromSecond(Text(Decode(Encode("cat"))), "bat") && !SameLetters("cat", "bat")
  {
    assert Dot("cat") == 3 by { assert "cat"[1..] == "at" && "at"[1..] == "t" && "t"[1..] == []; }
    AcceptedAgreesFromSecond("cat", "bat");
    assert ToLower("cat"[0]) != ToLower("bat"[0]);
  }

  /** Different representable names, up to case, have different encodings. */
  lemma EncodeInjective(f: seq<char>, g: seq<char>)
    requires Representable(f) && Representable(g)
    ensures Encode(f) == Encode(g) <==> Upper(f) == Upper(g)
  {
    RoundTripExactly(f);
    RoundTripExactly(g);
    if Upper(f) == Upper(g) {
      SameUpperSameCode(f, g);
    }
  }

  lemma SameUpperSameCode(f: seq<char>, g: seq<char>)
    requires Upper(f) == Upper(g)
    ensures Encode(f) == Encode(g)
  {
    SameUpperSameDot(f, g);
    var n, a, b := Min(Dot(f), NAME_LEN), ExtStart(f), Min(ExtStart(f) + EXT_LEN, |f|);
    SliceUpper(f, 0, n);
    SliceUpper(g, 0, n);
    SliceUpper(f, a, b);
    SliceUpper(g, a, b);
    hide Upper;
    assert f[0..n] == f[..n] && g[0..n] == g[..n];
  }

  lemma SameUpperSameDot(f: seq<char>, g: seq<char>)
    requires Upper(f) == Upper(g)
    ensures |f| == |g| && Dot(f) == Dot(g)
  {
    forall i | 0 <= i < |f|
      ensures f[i] == '.' <==> g[i] == '.'
    {
      UpperKeepsBlanks(f[i]);
      UpperKeepsBlanks(g[i]);
      assert Upper(f)[i] == Upper(g)[i];
    }
  }

  lemma SliceUpper(f: seq<char>, a: nat, b: nat)
    requires a <= b <= |f|
    ensures Upper(f[a..b]) == Upper(f)[a..b]
  {}
}
