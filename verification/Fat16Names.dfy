/** Directory entries: counting them, turning their 8.3 names into strings and looking a
    name up (src/fs/fat16.c). A directory in memory is a run of 32-byte entries: name at
    0, extension at 8, attribute byte at 11. */
module Fat16Names {
  import opened Memory
  import opened Int32
  import opened Streamer
  import opened Strings

  const ITEM: nat := 32
  const DOT: Byte := 0x2E
  const DELETED: Byte := 0xE5
  const ESCAPE: Byte := 0x05
  const NAME_LENGTH: nat := 8
  const EXT: nat := 8
  const ATTRIBUTE: nat := 11

  // ---- names ----

  /** The bytes at which a name ends: NUL and space. */
  predicate Ends(c: Byte) { c == 0 || c == 0x20 }

  /** A name that starts at index at ends within the memory. */
  predicate Bounded(mem: seq<Byte>, at: nat)
    decreases |mem| - at
  {
    at < |mem| && (Ends(mem[at]) || Bounded(mem, at + 1))
  }

  /** The bytes from at up to the first NUL or space. */
  function Proper(mem: seq<Byte>, at: nat): (s: seq<Byte>)
    requires Bounded(mem, at)
    ensures at + |s| < |mem| && Ends(mem[at + |s|]) && s == mem[at..at + |s|]
    ensures forall c :: c in s ==> !Ends(c)
    decreases |mem| - at
  {
    if Ends(mem[at]) then [] else [mem[at]] + Proper(mem, at + 1)
  }

  lemma {:induction false} ProperIs(mem: seq<Byte>, at: nat, n: nat)
    requires at + n < |mem| && Ends(mem[at + n]) && forall i :: at <= i < at + n ==> !Ends(mem[i])
    ensures Bounded(mem, at) && Proper(mem, at) == mem[at..at + n]
    decreases n
  {
    hide Ends;
    if n > 0 {
      ProperIs(mem, at + 1, n - 1);
      assert Proper(mem, at) == [mem[at]] + mem[at + 1..at + n] == mem[at..at + n];
    }
  }

  /** An entry's name can be built: its parts end within the memory. */
  predicate Nameable(mem: seq<Byte>, at: nat) {
    at + ITEM <= |mem| && Bounded(mem, at) && Bounded(mem, at + EXT)
  }

  /** The name that the code builds: up to the first end, and the extension likewise. */
  function FullName(mem: seq<Byte>, at: nat): (s: seq<Byte>)
    requires Nameable(mem, at)
    ensures 0 !in s
  {
    Proper(mem, at) + (if Ends(mem[at + EXT]) then [] else [DOT] + Proper(mem, at + EXT))
  }

  /** fat16_to_proper_string, writing to out from index pos on. */
  method ToProperString(mem: seq<Byte>, at: nat, out: array<Byte>, pos: nat) returns (end: nat)
    requires Bounded(mem, at) && pos + |Proper(mem, at)| < out.Length
    modifies out
    ensures end == pos + |Proper(mem, at)|
    ensures out[..] ==
      Write(old(out[..]), pos, Proper(mem, at) + (if mem[at + |Proper(mem, at)|] == 0x20 then [0] else []))
  {
    hide Write, Ends, Proper, Bounded;
    ghost var whole, before := Proper(mem, at), out[..];
    var i := at;
    end := pos;
    NoEndInside(mem, at);
    WriteOne(before, pos, whole[..0], 0);
    while !Ends(mem[i])
      invariant at <= i <= at + |whole|
      invariant end == pos + (i - at)
      invariant out[..] == Write(before, pos, whole[..i - at])
      decreases |mem| - i
    {
      assert whole[i - at] == mem[i];
      WriteOne(before, pos, whole[..i - at], mem[i]);
      assert whole[..i - at + 1] == whole[..i - at] + [mem[i]];
      out[end] := mem[i];
      end := end + 1;
      i := i + 1;
    }
    assert whole[..i - at] == whole;
    WriteOne(before, pos, whole, 0);
    if mem[i] == 0x20 {
      out[end] := 0;
    }
  }

  lemma NoEndInside(mem: seq<Byte>, at: nat)
    requires Bounded(mem, at)
    ensures forall e :: at <= e < at + |Proper(mem, at)| ==> !Ends(mem[e])
  {
    hide Proper, Bounded, Ends;
    var p := Proper(mem, at);
    forall e | at <= e < at + |p| ensures !Ends(mem[e]) {
      assert p[e - at] in p && p[e - at] == mem[e];
    }
  }

  lemma WriteOne(buf: seq<Byte>, pos: nat, s: seq<Byte>, c: Byte)
    requires pos + |s| < |buf|
    ensures Write(buf, pos, s)[pos + |s| := c] == Write(buf, pos, s + [c])
    ensures Write(buf, pos, []) == buf && s + [] == s
  {
  }

  /** fat16_get_full_relative_filename: the name, padded with zeros. */
  method GetFullRelativeFilename(mem: seq<Byte>, at: nat, out: array<Byte>)
    requires Nameable(mem, at) && |FullName(mem, at)| < out.Length
    modifies out
    ensures out[..] == Padded(FullName(mem, at), out.Length)
  {
    hide Write, Zeros, Padded, Proper;
    ghost var n, base := out.Length, Proper(mem, at);
    NameParts(mem, at);
    ClearAll(out);
    var tmp := ToProperString(mem, at, out, 0);
    WritePadded([], base, n);
    assert out[..] == Padded(base, n);
    if mem[at + EXT] != 0x00 && mem[at + EXT] != 0x20 {
      ghost var ext := Proper(mem, at + EXT);
      DotPadded(base, n);
      out[tmp] := DOT;
      assert out[..] == Padded(base + [DOT], n);
      tmp := tmp + 1;
      tmp := ToProperString(mem, at + EXT, out, tmp);
      WritePadded(base + [DOT], ext, n);
      assert out[..] == Padded(base + [DOT] + ext, n);
      WritePadded(base, ext, n);
    }
  }

  lemma NameParts(mem: seq<Byte>, at: nat)
    requires Nameable(mem, at)
    ensures Ends(mem[at + EXT]) ==> FullName(mem, at) == Proper(mem, at)
    ensures !Ends(mem[at + EXT]) ==> FullName(mem, at) == Proper(mem, at) + ([DOT] + Proper(mem, at + EXT))
  {
    assert Proper(mem, at) + [] == Proper(mem, at);
  }

  /** memset(out, 0, n) */
  method ClearAll(out: array<Byte>)
    modifies out
    ensures out[..] == Padded([], out.Length)
  {
    for i := 0 to out.Length
      invariant forall j :: 0 <= j < i ==> out[j] == 0
    {
      out[i] := 0;
    }
  }

  /** Writing the next part into a padded string, with or without a zero after it. */
  lemma WritePadded(s: seq<Byte>, t: seq<Byte>, n: nat)
    requires |s| + |t| < n
    ensures Write(Padded(s, n), |s|, t + [0]) == Padded(s + t, n)
    ensures Write(Padded(s, n), |s|, t + []) == Padded(s + t, n)
    ensures [] + t == t && s + [DOT] + t == s + ([DOT] + t)
  {
    assert t + [] == t;
  }

  lemma DotPadded(s: seq<Byte>, n: nat)
    requires |s| < n
    ensures Padded(s, n)[|s| := DOT] == Padded(s + [DOT], n)
  {
  }

  // ---- when the name is the 8.3 name ----

  predicate Stops(s: seq<Byte>) { exists i :: 0 <= i < |s| && Ends(s[i]) }

  /** s up to its first NUL or space. */
  function Trim(s: seq<Byte>): (r: seq<Byte>)
    ensures |r| <= |s| && r == s[..|r|] && (forall c :: c in r ==> !Ends(c))
    ensures |r| < |s| <==> Stops(s)
    ensures |r| < |s| ==> Ends(s[|r|])
  {
    if s == [] then []
    else if Ends(s[0]) then
      assert Stops(s);
      []
    else
      StopsLater(s);
      [s[0]] + Trim(s[1..])
  }

  lemma StopsLater(s: seq<Byte>)
    requires s != [] && !Ends(s[0])
    ensures Stops(s) <==> Stops(s[1..])
  {
    if i :| 0 <= i < |s| && Ends(s[i]) {
      assert Ends(s[1..][i - 1]);
    }
    if i :| 0 <= i < |s[1..]| && Ends(s[1..][i]) {
      assert Ends(s[i + 1]);
    }
  }

  /** s without the NULs and spaces that end it. */
  function Unpadded(s: seq<Byte>): (r: seq<Byte>)
    ensures |r| <= |s| && r == s[..|r|] && (forall i :: |r| <= i < |s| ==> Ends(s[i]))
    ensures r != [] ==> !Ends(r[|r| - 1])
  {
    if s == [] || !Ends(s[|s| - 1]) then s else Unpadded(s[..|s| - 1])
  }

  /** NULs and spaces stand only at the end of s. */
  predicate Plain(s: seq<Byte>) {
    forall i, j :: 0 <= i < j < |s| && Ends(s[i]) ==> Ends(s[j])
  }

  lemma PlainTrim(s: seq<Byte>)
    ensures Plain(s) ==> Trim(s) == Unpadded(s)
    ensures !Plain(s) ==> exists c :: c in Unpadded(s) && Ends(c)
  {
    hide Trim, Unpadded;
    var t, u := Trim(s), Unpadded(s);
    if Plain(s) {
      assert |u| > 0 ==> !Ends(s[|u| - 1]);
      assert |t| < |s| ==> Ends(s[|t|]);
      assert |u| <= |t|;
      assert |t| > 0 ==> t[|t| - 1] == s[|t| - 1] && t[|t| - 1] in t;
    } else {
      var i, j :| 0 <= i < j < |s| && Ends(s[i]) && !Ends(s[j]);
      assert j < |u| && u[i] == s[i] && u[i] in u;
    }
  }

  function NameField(mem: seq<Byte>, at: nat): seq<Byte>
    requires at + ITEM <= |mem|
  {
    mem[at..at + NAME_LENGTH]
  }

  function ExtensionField(mem: seq<Byte>, at: nat): seq<Byte>
    requires at + ITEM <= |mem|
  {
    mem[at + EXT..at + ATTRIBUTE]
  }

  /** In the first byte of a name the format writes 5 for 0xE5, which marks a deleted entry. */
  function Unescaped(s: seq<Byte>): (r: seq<Byte>)
    ensures |r| == |s| && forall i :: 0 < i < |s| ==> r[i] == s[i]
  {
    if s != [] && s[0] == ESCAPE then [DELETED] + s[1..] else s
  }

  /** The name and the extension of an entry, without padding. */
  function Base(mem: seq<Byte>, at: nat): seq<Byte>
    requires at + ITEM <= |mem|
  {
    Unescaped(Unpadded(NameField(mem, at)))
  }

  function Extension(mem: seq<Byte>, at: nat): seq<Byte>
    requires at + ITEM <= |mem|
  {
    Unpadded(ExtensionField(mem, at))
  }

  /** The name of an entry by the format: two fields of eight and three bytes, padded at
      the end, and a dot between them if there is an extension. */
  function Name83(mem: seq<Byte>, at: nat): seq<Byte>
    requires at + ITEM <= |mem|
  {
    Base(mem, at) + (if Extension(mem, at) == [] then [] else [DOT] + Extension(mem, at))
  }

  /** The same with each field cut at its first NUL or space. */
  function TrimmedName(mem: seq<Byte>, at: nat): seq<Byte>
    requires at + ITEM <= |mem|
  {
    Trim(mem[at..at + NAME_LENGTH]) + (if Ends(mem[at + EXT]) then [] else [DOT] + Trim(mem[at + EXT..at + ATTRIBUTE]))
  }

  /** Neither field has a NUL or a space before its padding. */
  predicate PlainFields(mem: seq<Byte>, at: nat)
    requires at + ITEM <= |mem|
  {
    Plain(NameField(mem, at)) && Plain(ExtensionField(mem, at))
  }

  /** The scan for the end of the name does not leave it, or runs into an empty
      extension; the scan of the extension does not leave it, or stops at the attribute. */
  predicate StaysInside(mem: seq<Byte>, at: nat)
    requires at + ITEM <= |mem|
  {
    && (Stops(mem[at..at + NAME_LENGTH]) || Ends(mem[at + EXT]))
    && (Ends(mem[at + EXT]) || Stops(mem[at + EXT..at + ATTRIBUTE]) || Ends(mem[at + ATTRIBUTE]))
  }

  lemma NoEnd(mem: seq<Byte>, at: nat, n: nat)
    requires at + n < |mem| && Bounded(mem, at)
    requires !Stops(mem[at..at + n]) && !Ends(mem[at + n])
    ensures |Proper(mem, at)| > n && Proper(mem, at)[..n] == mem[at..at + n]
  {
    hide Proper, Bounded;
    var f := mem[at..at + n];
    forall e | at <= e < at + n ensures !Ends(mem[e]) {
      assert f[e - at] == mem[e];
    }
  }

  /** The scan of a field of n bytes gives the field trimmed if and only if the field, or
      the byte after it, ends it. */
  lemma FieldExact(mem: seq<Byte>, at: nat, n: nat)
    requires at + n < |mem| && Bounded(mem, at)
    ensures Proper(mem, at) == Trim(mem[at..at + n]) <==> Stops(mem[at..at + n]) || Ends(mem[at + n])
    ensures !(Stops(mem[at..at + n]) || Ends(mem[at + n])) ==>
      |Proper(mem, at)| > n && Proper(mem, at)[..n] == mem[at..at + n]
  {
    hide Proper, Trim, Stops;
    if Stops(mem[at..at + n]) || Ends(mem[at + n]) {
      FieldStops(mem, at, n);
    } else {
      NoEnd(mem, at, n);
    }
  }

  lemma FieldStops(mem: seq<Byte>, at: nat, n: nat)
    requires at + n < |mem| && Bounded(mem, at) && (Stops(mem[at..at + n]) || Ends(mem[at + n]))
    ensures Proper(mem, at) == Trim(mem[at..at + n])
  {
    hide Proper, Trim, Stops, Bounded;
    var f := mem[at..at + n];
    var r := Trim(f);
    assert Ends(mem[at + |r|]) by {
      if |r| < n { assert f[|r|] == mem[at + |r|]; }
    }
    forall e | at <= e < at + |r| ensures !Ends(mem[e]) {
      assert r[e - at] == f[e - at] == mem[e];
    }
    ProperIs(mem, at, |r|);
    assert f[..|r|] == mem[at..at + |r|];
  }

  /** The string built from an entry is the cut name if and only if the scans stay inside. */
  lemma TrimmedExact(mem: seq<Byte>, at: nat)
    requires Nameable(mem, at)
    ensures FullName(mem, at) == TrimmedName(mem, at) <==> StaysInside(mem, at)
    ensures !StaysInside(mem, at) ==> |FullName(mem, at)| > |TrimmedName(mem, at)|
  {
    hide Proper, Trim, Stops, Bounded;
    FieldExact(mem, at, NAME_LENGTH);
    FieldExact(mem, at + EXT, 3);
    if !Stops(mem[at..at + NAME_LENGTH]) && !Ends(mem[at + EXT]) {
      assert |Proper(mem, at)| > 8 && |Proper(mem, at + EXT)| >= |Trim(mem[at + EXT..at + ATTRIBUTE])|;
      assert |FullName(mem, at)| > |TrimmedName(mem, at)|;
    } else if !Ends(mem[at + EXT]) && !Stops(mem[at + EXT..at + ATTRIBUTE]) && !Ends(mem[at + ATTRIBUTE]) {
      assert |FullName(mem, at)| > |TrimmedName(mem, at)|;
    }
  }

  lemma TrimEmpty(s: seq<Byte>)
    requires s != []
    ensures Trim(s) == [] <==> Ends(s[0])
  {
  }

  lemma PlainNames(mem: seq<Byte>, at: nat)
    requires at + ITEM <= |mem| && PlainFields(mem, at) && mem[at] != ESCAPE
    ensures Name83(mem, at) == TrimmedName(mem, at)
  {
    hide Trim, Unpadded, Plain;
    assert NameField(mem, at)[0] == mem[at];
    PlainTrim(NameField(mem, at));
    PlainTrim(ExtensionField(mem, at));
    TrimEmpty(ExtensionField(mem, at));
    assert ExtensionField(mem, at)[0] == mem[at + EXT];
  }

  /** The string built from an entry has no NUL or space. */
  lemma NoEnds(mem: seq<Byte>, at: nat)
    requires Nameable(mem, at)
    ensures forall c :: c in FullName(mem, at) ==> !Ends(c)
  {
    hide Proper, Bounded;
  }

  /** The scans stay inside, neither field has a NUL or a space before its padding, and the
      name does not start with the byte that stands for another. */
  predicate NameRight(mem: seq<Byte>, at: nat)
    requires at + ITEM <= |mem|
  {
    StaysInside(mem, at) && PlainFields(mem, at) && mem[at] != ESCAPE
  }

  /** An escaped first byte is built as it is stored. */
  lemma EscapedStart(mem: seq<Byte>, at: nat)
    requires Nameable(mem, at) && mem[at] == ESCAPE
    ensures FullName(mem, at) != [] && FullName(mem, at)[0] == ESCAPE
    ensures Name83(mem, at) != [] && Name83(mem, at)[0] == DELETED
  {
    hide Bounded;
    assert NameField(mem, at)[0] == mem[at];
    assert Proper(mem, at)[0] == mem[at];
  }

  /** A name with an inner NUL or space keeps it in upper case, where no built name has one. */
  lemma EndsInside(mem: seq<Byte>, at: nat)
    requires Nameable(mem, at) && !PlainFields(mem, at)
    ensures !SameName(FullName(mem, at), Name83(mem, at))
  {
    hide FullName, Unpadded, Plain, Bounded;
    NoEnds(mem, at);
    var n, f := Name83(mem, at), FullName(mem, at);
    PlainTrim(NameField(mem, at));
    PlainTrim(ExtensionField(mem, at));
    KeepsEnds(Unpadded(NameField(mem, at)));
    var c :| (c in Base(mem, at) || c in Extension(mem, at)) && Ends(c);
    assert c in n;
    var i :| 0 <= i < |n| && n[i] == c;
    if |f| == |n| {
      assert f[i] in f;
      assert !SameLetter(f[i], n[i]);
    }
  }

  lemma KeepsEnds(s: seq<Byte>)
    ensures (exists c :: c in s && Ends(c)) ==> exists c :: c in Unescaped(s) && Ends(c)
  {
    if c :| c in s && Ends(c) {
      var i :| 0 <= i < |s| && s[i] == c;
      assert Unescaped(s)[i] == c;
    }
  }

  /** The string built from an entry is its 8.3 name, exactly or ignoring case, if and only
      if the scans stay inside, the fields are plain and the first byte is no escape. */
  lemma NameExact(mem: seq<Byte>, at: nat)
    requires Nameable(mem, at)
    ensures FullName(mem, at) == Name83(mem, at) <==> NameRight(mem, at)
    ensures SameName(FullName(mem, at), Name83(mem, at)) <==> NameRight(mem, at)
  {
    hide FullName, Name83, StaysInside, TrimmedName, PlainFields, Bounded;
    if !PlainFields(mem, at) {
      EndsInside(mem, at);
    } else if mem[at] == ESCAPE {
      EscapedStart(mem, at);
      assert !SameLetter(FullName(mem, at)[0], Name83(mem, at)[0]);
    } else {
      PlainNames(mem, at);
      TrimmedExact(mem, at);
    }
  }

  // ---- looking a name up ----

  lemma PaddedLonger(s: seq<Byte>, t: seq<Byte>, n: nat)
    requires |s| < |t| <= n && 0 !in t
    ensures Padded(s, n) != Padded(t, n)
  {
    assert Padded(s, n)[|s|] == 0 && Padded(t, n)[|s|] == t[|s|];
  }

  /** Zero padding loses nothing of strings without zeros. */
  lemma PaddedInjective(s: seq<Byte>, t: seq<Byte>, n: nat)
    requires |s| <= n && |t| <= n && 0 !in s && 0 !in t
    ensures Padded(s, n) == Padded(t, n) <==> s == t
  {
    if |s| < |t| {
      PaddedLonger(s, t, n);
    } else if |t| < |s| {
      PaddedLonger(t, s, n);
    } else {
      assert s == Padded(s, n)[..|s|] && t == Padded(t, n)[..|t|];
    }
  }

  lemma UpperPadded(s: seq<Byte>, n: nat)
    requires |s| <= n
    ensures Upper(Padded(s, n)) == Padded(Upper(s), n)
    ensures 0 !in s ==> 0 !in Upper(s)
  {
  }

  /** Comparing the padded strings of two names ignoring case compares the names. */
  lemma PaddedCompare(s: seq<Byte>, t: seq<Byte>, n: nat)
    requires |s| <= n && |t| <= n && 0 !in s && 0 !in t
    ensures SameName(Padded(s, n), Padded(t, n)) <==> SameName(s, t)
  {
    UpperExact(Padded(s, n), Padded(t, n));
    UpperExact(s, t);
    UpperPadded(s, n);
    UpperPadded(t, n);
    PaddedInjective(Upper(s), Upper(t), n);
  }

  /** The string built from entry i of the directory in mem is the name, ignoring case. */
  ghost predicate Matches(mem: seq<Byte>, i: nat, name: seq<Byte>) {
    Nameable(mem, i * 32) && SameName(FullName(mem, i * 32), name)
  }

  // ---- names decide entries ----

  lemma DotNotUpper(s: seq<Byte>)
    requires DOT !in s
    ensures DOT !in Upper(s)
  {
  }

  lemma LongerBeforeDot(s: seq<Byte>, e: seq<Byte>, t: seq<Byte>, f: seq<Byte>)
    requires |s| < |t| && DOT !in t && (e == [] || e[0] == DOT)
    ensures s + e != t + f
  {
    if e != [] {
      assert (s + e)[|s|] == DOT && (t + f)[|s|] == t[|s|];
    }
  }

  /** A name without a dot, and what follows it from a dot on, can be told apart. */
  lemma SplitAtDot(s: seq<Byte>, e: seq<Byte>, t: seq<Byte>, f: seq<Byte>)
    requires DOT !in s && DOT !in t
    requires (e == [] || e[0] == DOT) && (f == [] || f[0] == DOT)
    ensures s + e == t + f <==> s == t && e == f
  {
    if |s| < |t| {
      LongerBeforeDot(s, e, t, f);
    } else if |t| < |s| {
      LongerBeforeDot(t, f, s, e);
    } else {
      assert s == (s + e)[..|s|] && t == (t + f)[..|t|];
      assert e == (s + e)[|s|..] && f == (t + f)[|t|..];
    }
  }

  lemma UpperConcat(s: seq<Byte>, t: seq<Byte>)
    ensures Upper(s + t) == Upper(s) + Upper(t) && Upper([DOT] + t) == [DOT] + Upper(t)
  {
  }

  /** Entries whose 8.3 names agree ignoring case have equal name and extension fields,
      ignoring case. */
  lemma NamesDecideEntries(mem: seq<Byte>, a: nat, b: nat)
    requires a + ITEM <= |mem| && b + ITEM <= |mem| && DOT !in Base(mem, a) && DOT !in Base(mem, b)
    requires SameName(Name83(mem, a), Name83(mem, b))
    ensures SameName(Base(mem, a), Base(mem, b)) && SameName(Extension(mem, a), Extension(mem, b))
  {
    hide Unpadded;
    hide SameName;
    var ba, ea, bb, eb := Base(mem, a), Extension(mem, a), Base(mem, b), Extension(mem, b);
    UpperExact(Name83(mem, a), Name83(mem, b));
    UpperExact(ba, bb);
    UpperExact(ea, eb);
    var ta := if ea == [] then [] else [DOT] + ea;
    var tb := if eb == [] then [] else [DOT] + eb;
    UpperConcat(ba, ta);
    UpperConcat(bb, tb);
    UpperConcat([], ea);
    UpperConcat([], eb);
    DotNotUpper(ba);
    DotNotUpper(bb);
    SplitAtDot(Upper(ba), Upper(ta), Upper(bb), Upper(tb));
    assert ea != [] ==> Upper(ea) == Upper(ta)[1..];
    assert eb != [] ==> Upper(eb) == Upper(tb)[1..];
  }

  // ---- counting the entries of a directory on disk ----

  /** First byte of entry i of the directory that starts at start. */
  function FirstByte(byteAt: int -> Byte, start: nat, i: nat): Byte {
    byteAt(start + 32 * i)
  }

  /** The directory ends at entry n, the first whose name starts with 0, and before byte
      2^31 of the disk. */
  ghost predicate EndsAt(byteAt: int -> Byte, start: nat, n: nat) {
    && start + 32 * (n + 1) <= 0x8000_0000
    && FirstByte(byteAt, start, n) == 0 && forall i :: 0 <= i < n ==> FirstByte(byteAt, start, i) != 0
  }

  predicate InUse(byteAt: int -> Byte, start: nat, i: nat) {
    FirstByte(byteAt, start, i) != DELETED
  }

  /** How many of the first n entries are not deleted. */
  function CountInUse(byteAt: int -> Byte, start: nat, n: nat): (r: nat)
    ensures r <= n
  {
    if n == 0 then 0 else CountInUse(byteAt, start, n - 1) + (if InUse(byteAt, start, n - 1) then 1 else 0)
  }

  lemma ItemAligned(start: nat, i: nat, n: nat)
    requires start % 512 == 0 && i <= n && start + 32 * (n + 1) <= 0x8000_0000
    ensures start + 32 * i < 0x8000_0000 && Aligned(start + 32 * i, ITEM)
  {
    var q, r := i / 16, i % 16;
    assert start + 32 * i == start + 512 * q + 32 * r;
    assert (start + 32 * i) % 512 == 32 * r by { ModOf(start / 512 + q, 32 * r, start + 32 * i); }
  }

  lemma ModOf(q: nat, r: nat, n: nat)
    requires r < 512 && n == 512 * q + r
    ensures n % 512 == r
  {
  }

  /** fat16_get_total_items_for_directory, for a directory that ends at entry n. */
  method GetTotalItemsForDirectory(stream: DiskStream, disk: Disk, directoryStartSector: nat, ghost n: nat)
    returns (r: int)
    requires EndsAt(disk.byteAt, directoryStartSector * 512, n)
    modifies stream
    ensures r == CountInUse(disk.byteAt, directoryStartSector * 512, n)
  {
    hide SourceOf, Write, Aligned, Wrap;
    var directoryStartPos := Wrap(directoryStartSector * 512);
    ghost var start := directoryStartSector * 512;
    assert directoryStartPos == start;
    var count := 0;
    r := DiskStreamerSeek(stream, directoryStartPos);
    ghost var i := 0;
    var more := true;
    while more
      invariant 0 <= i <= n && (more ==> stream.pos == start + 32 * i)
      invariant count == CountInUse(disk.byteAt, start, i)
      invariant !more ==> i == n
      decreases n - i, more
    {
      var item := Zeros(ITEM);
      ItemAligned(start, i, n);
      AlignedRead(disk, stream.pos, ITEM);
      r, item := DiskStreamerRead(stream, disk, item, 0, ITEM);
      assert item[0] == FirstByte(disk.byteAt, start, i) by { WholeItem(disk, start, i, item); }
      if item[0] == 0x00 {
        more := false;
      } else {
        if item[0] != DELETED {
          count := count + 1;
        }
        i := i + 1;
      }
    }
    r := count;
  }

  lemma WholeItem(disk: Disk, start: nat, i: nat, item: seq<Byte>)
    requires item == Write(Zeros(ITEM), 0, Slice(disk.byteAt, start + 32 * i, ITEM))
    ensures item[0] == FirstByte(disk.byteAt, start, i)
  {
  }

  lemma {:induction false} CountAll(byteAt: int -> Byte, start: nat, n: nat)
    ensures CountInUse(byteAt, start, n) == n <==> forall i :: 0 <= i < n ==> InUse(byteAt, start, i)
  {
    if n > 0 { CountAll(byteAt, start, n - 1); }
  }

  lemma {:induction false} CountRest(byteAt: int -> Byte, start: nat, m: nat, n: nat)
    requires m <= n
    ensures CountInUse(byteAt, start, m) <= CountInUse(byteAt, start, n)
    ensures CountInUse(byteAt, start, m) == CountInUse(byteAt, start, n) <==>
      forall i :: m <= i < n ==> !InUse(byteAt, start, i)
    decreases n
  {
    if m < n { CountRest(byteAt, start, m, n - 1); }
  }

  /** The lookup goes over as many slots as there are entries in use. That covers every
      entry in use if and only if no deleted one comes before one in use. */
  lemma CountCovers(byteAt: int -> Byte, start: nat, n: nat)
    ensures var total := CountInUse(byteAt, start, n);
      (forall i :: 0 <= i < n && InUse(byteAt, start, i) ==> i < total)
      <==> (forall i, j :: 0 <= i < j < n && InUse(byteAt, start, j) ==> InUse(byteAt, start, i))
  {
    hide InUse, CountInUse;
    var total := CountInUse(byteAt, start, n);
    CountAll(byteAt, start, total);
    CountRest(byteAt, start, total, n);
    if forall i, j :: 0 <= i < j < n && InUse(byteAt, start, j) ==> InUse(byteAt, start, i) {
      forall j | 0 <= j < n && InUse(byteAt, start, j) ensures j < total {
        CountAll(byteAt, start, j + 1);
        CountRest(byteAt, start, j + 1, n);
      }
    }
  }

  lemma StartAligned(sector: nat, n: nat)
    requires sector * 512 + n <= 0x8000_0000 && sector * 512 < 0x8000_0000
    ensures Aligned(sector * 512, n)
  {
    ModOf(sector, 0, sector * 512);
  }

  lemma WholeWrite(n: nat, s: seq<Byte>)
    requires |s| == n
    ensures Write(Zeros(n), 0, s) == s
  {
  }

  /** The root directory as fat16_get_root_directory reads it: if it ends at or before byte
      2^31, its items in memory are the disk's bytes from its sector on. */
  method ReadRootDirectory(stream: DiskStream, disk: Disk, rootDirSector: nat, rootDirEntries: nat, ghost n: nat)
    returns (items: seq<Byte>, total: int, endingSector: nat)
    requires EndsAt(disk.byteAt, rootDirSector * 512, n)
    modifies stream
    ensures items == StreamBytes(disk, Wrap(rootDirSector * 512), rootDirEntries * 32)
    ensures rootDirSector * 512 + rootDirEntries * 32 <= 0x8000_0000 ==>
      items == Slice(disk.byteAt, rootDirSector * 512, rootDirEntries * 32)
    ensures total == CountInUse(disk.byteAt, rootDirSector * 512, n)
    ensures endingSector == rootDirSector + rootDirEntries * 32 / 512
  {
    hide SourceOf, Write, Zeros, Aligned, CountInUse, Slice, Wrap;
    var size := rootDirEntries * 32;
    total := GetTotalItemsForDirectory(stream, disk, rootDirSector, n);
    items := Zeros(size);
    var r := DiskStreamerSeek(stream, Wrap(rootDirSector * 512));
    if rootDirSector * 512 + size <= 0x8000_0000 {
      StartAligned(rootDirSector, size);
      AlignedRead(disk, rootDirSector * 512, size);
    }
    r, items := DiskStreamerRead(stream, disk, items, 0, size);
    WholeWrite(size, StreamBytes(disk, Wrap(rootDirSector * 512), size));
    endingSector := rootDirSector + size / 512;
  }

  // ---- looking a name up in a directory on disk ----

  /** The bytes of entry i of the directory that starts at start. */
  function Item(byteAt: int -> Byte, start: nat, i: nat): (item: seq<Byte>)
    ensures |item| == ITEM
  {
    Slice(byteAt, start + 32 * i, ITEM)
  }

  /** Entry i is in use and its 8.3 name is the given one, ignoring case. */
  ghost predicate Named(byteAt: int -> Byte, start: nat, i: nat, name: seq<Byte>) {
    InUse(byteAt, start, i) && SameName(Name83(Item(byteAt, start, i), 0), name)
  }

  /** No deleted entry precedes one in use. */
  ghost predicate UsedFirst(byteAt: int -> Byte, start: nat, n: nat) {
    forall i, j :: 0 <= i < j < n && InUse(byteAt, start, j) ==> InUse(byteAt, start, i)
  }

  lemma {:induction false} BoundedBy(mem: seq<Byte>, at: nat, e: nat)
    requires at <= e < |mem| && Ends(mem[e])
    ensures Bounded(mem, at)
    decreases e - at
  {
    if at < e { BoundedBy(mem, at + 1, e); }
  }

  lemma StopsAt(mem: seq<Byte>, at: nat, n: nat)
    requires at + n < |mem| && (Stops(mem[at..at + n]) || Ends(mem[at + n]))
    ensures Bounded(mem, at)
  {
    if Stops(mem[at..at + n]) {
      var i :| 0 <= i < n && Ends(mem[at..at + n][i]);
      BoundedBy(mem, at, at + i);
    } else {
      BoundedBy(mem, at, at + n);
    }
  }

  /** An entry whose scans stay inside has a name that can be built, and it is short. */
  lemma InsideNameable(mem: seq<Byte>, at: nat)
    requires at + ITEM <= |mem| && NameRight(mem, at)
    ensures Nameable(mem, at) && FullName(mem, at) == Name83(mem, at) && |FullName(mem, at)| <= 12
  {
    hide Bounded, Proper, Trim, Stops, Unpadded, Plain;
    StopsAt(mem, at, NAME_LENGTH);
    if Ends(mem[at + EXT]) {
      BoundedBy(mem, at + EXT, at + EXT);
    } else {
      StopsAt(mem, at + EXT, 3);
    }
    NameExact(mem, at);
  }

  /** An entry reads the same in its directory and on its own. */
  lemma ItemAlone(mem: seq<Byte>, at: nat, item: seq<Byte>)
    requires at + ITEM <= |mem| && item == mem[at..at + ITEM]
    ensures Name83(item, 0) == Name83(mem, at) && NameRight(item, 0) == NameRight(mem, at)
  {
    hide Unpadded, Stops, Plain;
    assert item[0..NAME_LENGTH] == mem[at..at + NAME_LENGTH];
    assert item[EXT..ATTRIBUTE] == mem[at + EXT..at + ATTRIBUTE];
  }

  lemma ItemOfSlice(byteAt: int -> Byte, start: nat, entries: nat, i: nat)
    requires i < entries
    ensures i * 32 + ITEM <= entries * 32
    ensures Slice(byteAt, start, entries * 32)[i * 32..i * 32 + ITEM] == Item(byteAt, start, i)
  {
    hide Slice;
  }

  /** If no deleted entry precedes one in use, the entries in use are the first ones. */
  lemma InUseFirst(byteAt: int -> Byte, start: nat, n: nat, i: nat)
    requires UsedFirst(byteAt, start, n) && i < n
    ensures InUse(byteAt, start, i) <==> i < CountInUse(byteAt, start, n)
  {
    hide InUse, CountInUse;
    CountCovers(byteAt, start, n);
    var total := CountInUse(byteAt, start, n);
    CountRest(byteAt, start, total, n);
    CountAll(byteAt, start, total);
  }

  /** The lookup matches an entry exactly if its 8.3 name is the one looked for, when the
      entry's name is built right or is not meant either way; otherwise one of the two fails. */
  lemma EntryMatches(byteAt: int -> Byte, start: nat, entries: nat, i: nat, name: seq<Byte>)
    requires i < entries && Nameable(Slice(byteAt, start, entries * 32), i * 32)
    ensures var items, item := Slice(byteAt, start, entries * 32), Item(byteAt, start, i);
      (Matches(items, i, name) <==> SameName(Name83(item, 0), name)) <==>
      NameRight(item, 0) || (!Matches(items, i, name) && !SameName(Name83(item, 0), name))
  {
    hide Slice, Nameable, FullName, NameRight, Name83, SameName, Upper;
    var items := Slice(byteAt, start, entries * 32);
    ItemOfSlice(byteAt, start, entries, i);
    ItemAlone(items, i * 32, Item(byteAt, start, i));
    NameExact(items, i * 32);
    var built := FullName(items, i * 32);
    UpperExact(built, name);
    UpperExact(built, Name83(items, i * 32));
    UpperExact(Name83(items, i * 32), name);
  }
}
