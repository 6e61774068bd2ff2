/** 8.3 names: the padded, upper-case form under which a file name is stored and looked up. */
module FatNames {
  import opened FatLayout

  const PAD: byte := 0x20
  const DOT: byte := 0x2E

  /** A C string: no NUL inside. */
  predicate IsString(s: seq<byte>) { 0 !in s }

  function Upper(c: byte): byte { if 0x61 <= c <= 0x7A then c - 0x20 else c }

  function UpperAll(s: seq<byte>): (r: seq<byte>)
    ensures |r| == |s|
  {
    seq(|s|, i requires 0 <= i < |s| => Upper(s[i]))
  }

  /** The first `n` characters in upper case, padded to `n`. */
  function Field(s: seq<byte>, n: nat): (r: seq<byte>)
    ensures |r| == n
  {
    seq(n, i => if 0 <= i < |s| then Upper(s[i]) else PAD)
  }

  /** The part before the first dot, and the part after it. */
  function Base(s: seq<byte>): (b: seq<byte>)
    ensures |b| <= |s| && b <= s && DOT !in b && (|b| < |s| ==> s[|b|] == DOT)
  {
    if s == [] || s[0] == DOT then [] else [s[0]] + Base(s[1..])
  }

  function Extension(s: seq<byte>): seq<byte> { if |Base(s)| < |s| then s[|Base(s)| + 1..] else [] }

  function Name83(s: seq<byte>): (r: seq<byte>)
    ensures |r| == 11
  {
    Field(Base(s), 8) + Field(Extension(s), 3)
  }

  /**
   * Fills the eleven bytes with blanks, then the name up to the dot, then the extension. Byte counters never wrap below
   * 256 characters.
   */
  method Format83(filename: seq<byte>) returns (dst: seq<byte>)
    requires |filename| < 256
    ensures dst == Name83(filename)
  {
    dst := seq(11, _ => PAD);
    var dot := FindDot(filename);
    var end := if dot == -1 then |filename| else dot;
    BaseIs(filename, end);
    dst := CopyUpper(dst, 0, 8, filename[..end]);
    if dot != -1 {
      dst := CopyUpper(dst, 8, 3, filename[dot + 1..]);
    }
  }

  method FindDot(s: seq<byte>) returns (dot: int)
    ensures -1 <= dot < |s|
    ensures dot == -1 ==> DOT !in s
    ensures dot >= 0 ==> s[dot] == DOT && DOT !in s[..dot]
  {
    var i := 0;
    while i < |s|
      invariant 0 <= i <= |s| && DOT !in s[..i]
    {
      if s[i] == DOT {
        return i;
      }
      i := i + 1;
    }
    dot := -1;
  }

  /** Writes at most `n` characters of `s`, in upper case, over `dst[at..]`. */
  method CopyUpper(dst: seq<byte>, at: nat, n: nat, s: seq<byte>) returns (r: seq<byte>)
    requires at + n <= |dst| && forall i :: at <= i < at + n ==> dst[i] == PAD
    ensures r == dst[..at] + Field(s, n) + dst[at + n..]
  {
    r := dst;
    var i := 0;
    while i < |s| && i < n
      invariant 0 <= i <= |s| && i <= n && |r| == |dst|
      invariant forall j :: 0 <= j < |dst| ==> r[j] == if at <= j < at + i then Upper(s[j - at]) else dst[j]
    {
      r := r[at + i := Upper(s[i])];
      i := i + 1;
    }
  }

  lemma {:induction false} BaseIs(s: seq<byte>, end: nat)
    requires end <= |s| && DOT !in s[..end] && (end < |s| ==> s[end] == DOT)
    ensures Base(s) == s[..end]
  {
    if end > 0 {
      assert s[0] == s[..end][0];
      assert s[1..][..end - 1] == s[..end][1..];
      BaseIs(s[1..], end - 1);
    }
  }

  /**
   * Byte `i` of a stored name: the part before the first dot fills eight bytes and the part behind it three, letters
   * 'a' to 'z' become 'A' to 'Z', other characters are kept, and blanks fill up.
   */
  lemma StoredBytes(s: seq<byte>, i: nat)
    requires i < 11
    ensures var from := if i < 8 then 0 else |Base(s)| + 1;
            var end := if i < 8 then |Base(s)| else |s|;
            var at := from + if i < 8 then i else i - 8;
            && (at >= end ==> Name83(s)[i] == 0x20)
            && (at < end ==> at < |s| && Name83(s)[i] == if 0x61 <= s[at] <= 0x7A then s[at] - 0x20 else s[at])
  {
    hide Base;
    if i < 8 { FieldAt(Base(s), 8, i); } else { FieldAt(Extension(s), 3, i - 8); }
  }

  lemma FieldAt(s: seq<byte>, n: nat, i: nat)
    requires i < n
    ensures Field(s, n)[i] == if i >= |s| then 0x20 else if 0x61 <= s[i] <= 0x7A then s[i] - 0x20 else s[i]
  {}

  // ---------------------------------------------------------------- when two names are the same

  /** Neither blank nor dot, and its upper case neither: a character that 8.3 keeps. */
  predicate Plain(s: seq<byte>) { forall i :: 0 <= i < |s| ==> s[i] != PAD && s[i] != DOT }

  function Join83(base: seq<byte>, ext: seq<byte>): seq<byte> { if ext == [] then base else base + [DOT] + ext }

  lemma Parts(base: seq<byte>, ext: seq<byte>)
    requires Plain(base) && Plain(ext)
    ensures Base(Join83(base, ext)) == base && Extension(Join83(base, ext)) == ext
  {
    var s := Join83(base, ext);
    assert s[..|base|] == base;
    BaseIs(s, |base|);
    assert ext != [] ==> s[|base| + 1..] == ext;
  }

  lemma FieldShorter(s: seq<byte>, t: seq<byte>, n: nat)
    requires |s| < |t| <= n && Plain(t)
    ensures Field(s, n) != Field(t, n)
  {
    assert Field(s, n)[|s|] == PAD && Field(t, n)[|s|] == Upper(t[|s|]) != PAD;
  }

  lemma FieldInjective(s: seq<byte>, t: seq<byte>, n: nat)
    requires |s| <= n && |t| <= n && Plain(s) && Plain(t) && Field(s, n) == Field(t, n)
    ensures UpperAll(s) == UpperAll(t)
  {
    if |s| < |t| { FieldShorter(s, t, n); }
    if |t| < |s| { FieldShorter(t, s, n); }
    forall i | 0 <= i < |s| ensures Upper(s[i]) == Upper(t[i]) { assert Field(s, n)[i] == Field(t, n)[i]; }
  }

  lemma FieldUpper(s: seq<byte>, t: seq<byte>, n: nat)
    requires UpperAll(s) == UpperAll(t)
    ensures Field(s, n) == Field(t, n)
  {
    assert |s| == |t|;
    forall i | 0 <= i < |s| ensures Upper(s[i]) == Upper(t[i]) { assert UpperAll(s)[i] == UpperAll(t)[i]; }
  }

  /** The same character, or the small and the capital form of one letter. */
  predicate SameLetter(a: byte, b: byte) {
    a == b || (0x61 <= a <= 0x7A && b == a - 0x20) || (0x61 <= b <= 0x7A && a == b - 0x20)
  }

  predicate SameLetters(s: seq<byte>, t: seq<byte>) {
    |s| == |t| && forall i :: 0 <= i < |s| ==> SameLetter(s[i], t[i])
  }

  lemma SameUpper(s: seq<byte>, t: seq<byte>)
    ensures UpperAll(s) == UpperAll(t) <==> SameLetters(s, t)
  {
    if UpperAll(s) == UpperAll(t) {
      assert |s| == |t|;
      forall i | 0 <= i < |s| ensures SameLetter(s[i], t[i]) { assert UpperAll(s)[i] == UpperAll(t)[i]; }
    }
  }

  /** Two proper 8.3 names are stored alike exactly when they differ in letter case at most. */
  lemma SameNameIff(b1: seq<byte>, e1: seq<byte>, b2: seq<byte>, e2: seq<byte>)
    requires |b1| <= 8 && |e1| <= 3 && |b2| <= 8 && |e2| <= 3 && Plain(b1) && Plain(e1) && Plain(b2) && Plain(e2)
    ensures Name83(Join83(b1, e1)) == Name83(Join83(b2, e2)) <==>
              SameLetters(b1, b2) && SameLetters(e1, e2)
  {
    SameUpper(b1, b2);
    SameUpper(e1, e2);
    Parts(b1, e1);
    Parts(b2, e2);
    var n1, n2 := Name83(Join83(b1, e1)), Name83(Join83(b2, e2));
    assert n1[..8] == Field(b1, 8) && n1[8..] == Field(e1, 3) && n2[..8] == Field(b2, 8) && n2[8..] == Field(e2, 3);
    if n1 == n2 {
      FieldInjective(b1, b2, 8);
      FieldInjective(e1, e2, 3);
    }
    if UpperAll(b1) == UpperAll(b2) && UpperAll(e1) == UpperAll(e2) {
      FieldUpper(b1, b2, 8);
      FieldUpper(e1, e2, 3);
    }
  }

  /** A name is never stored with the end-of-directory mark, and with the deleted mark only when it begins with it. */
  lemma FirstByte(s: seq<byte>)
    requires IsString(s)
    ensures Name83(s)[0] != 0 && (Name83(s)[0] == 0xE5 <==> s != [] && s[0] == 0xE5)
  {
    assert s != [] && s[0] != DOT ==> Base(s)[0] == s[0];
    assert s == [] || s[0] == DOT ==> Base(s) == [];
    assert s != [] ==> s[0] in s;
  }
}
