/** Directory entries written by the format, and what the code reads out of them
    (struct fat_directory_item and its uses in src/fs/fat16.c). */
module Entries {
  import opened Memory
  import opened Strings
  import opened Fat16Names
  import opened Directory
  import opened Files
  import opened Paths
  import F = Fat16Read
  import Bits

  // ---- an entry by the format ----

  /** The fields of an entry: name and extension without padding, the attribute byte, the
      eight bytes of the creation and access times, the upper half of the cluster, the four
      bytes of the modification time, the cluster and the size. */
  datatype Fields = Fields(name: seq<Byte>, extension: seq<Byte>, attribute: Byte, created: seq<Byte>, upper: F.Cluster,
                           modified: seq<Byte>, cluster: F.Cluster, size: Word)

  /** The fields have room, and names do not end with padding nor start with the escape. */
  predicate Proper83(e: Fields) {
    && 1 <= |e.name| <= 8 && |e.extension| <= 3 && |e.created| == 8 && |e.modified| == 4
    && e.name[0] != 0 && e.name[0] != 5
    && e.name[|e.name| - 1] !in {0, 0x20}
    && (e.extension != [] ==> e.extension[|e.extension| - 1] !in {0, 0x20})
  }

  function Spaced(s: seq<Byte>, n: nat): (r: seq<Byte>)
    requires |s| <= n
    ensures |r| == n && forall i :: 0 <= i < n ==> r[i] == if i < |s| then s[i] else 0x20
  {
    s + seq(n - |s|, _ => 0x20)
  }

  /** A first byte of 0xE5 would mark a deleted entry, and is stored as 5. */
  function Escaped(s: seq<Byte>): (r: seq<Byte>)
    ensures |r| == |s|
  {
    if s != [] && s[0] == 0xE5 then [5] + s[1..] else s
  }

  function Encode(e: Fields): (item: seq<Byte>)
    requires Proper83(e)
    ensures |item| == 32
  {
    Spaced(Escaped(e.name), 8) + Spaced(e.extension, 3) + [e.attribute] + e.created
    + [e.upper % 0x100, e.upper / 0x100] + e.modified + [e.cluster % 0x100, e.cluster / 0x100]
    + [e.size % 0x100, e.size / 0x100 % 0x100, e.size / 0x1_0000 % 0x100, e.size / 0x100_0000]
  }

  // ---- what is read out of it ----

  lemma EncodedAt(e: Fields)
    requires Proper83(e)
    ensures var item := Encode(e);
      && item[..8] == Spaced(Escaped(e.name), 8) && item[8..11] == Spaced(e.extension, 3) && item[11] == e.attribute
      && item[20] == e.upper % 0x100 && item[21] == e.upper / 0x100
      && item[26] == e.cluster % 0x100 && item[27] == e.cluster / 0x100
      && item[28] == e.size % 0x100 && item[29] == e.size / 0x100 % 0x100
      && item[30] == e.size / 0x1_0000 % 0x100 && item[31] == e.size / 0x100_0000
  {
    hide Escaped;
  }

  lemma HalfIs(item: seq<Byte>, i: nat, v: F.Cluster)
    requires i + 2 <= |item| && item[i] == v % 0x100 && item[i + 1] == v / 0x100
    ensures Half(item, i) == v
  {
  }

  /** The size read is the size written, and the cluster is the one written, ORed with the
      upper half; for FAT16 that is 0. */
  lemma EncodedFile(e: Fields)
    requires Proper83(e)
    ensures FileOf(Encode(e)).size == e.size
    ensures FileOf(Encode(e)).firstCluster == Bits.Or(e.upper, e.cluster)
    ensures e.upper == 0 ==> FileOf(Encode(e)) == File(e.cluster, e.size)
  {
    hide Encode, Half, WordOf, Bits.Or;
    var item := Encode(e);
    EncodedAt(e);
    HalfIs(item, 20, e.upper);
    HalfIs(item, 26, e.cluster);
    DigitsAre(e.size, item[28], item[29], item[30], item[31]);
  }

  /** Bit 4 of the attribute byte marks a subdirectory. */
  lemma EncodedDirectory(e: Fields)
    requires Proper83(e)
    ensures IsDirectory(Encode(e)) <==> Bits.And(e.attribute, 0x10) != 0
  {
    hide Encode;
    EncodedAt(e);
    Bits.AndBit4(e.attribute);
  }

  lemma UnpaddedSpaced(s: seq<Byte>, n: nat)
    requires |s| <= n && (s != [] ==> s[|s| - 1] !in {0, 0x20})
    ensures Unpadded(Spaced(s, n)) == s
  {
    hide Unpadded;
    var f := Spaced(s, n);
    var u := Unpadded(f);
    if s != [] { assert !Ends(f[|s| - 1]); }
    assert |u| > |s| ==> Ends(f[|u| - 1]);
  }

  /** The name by the format is the one written, with a dot before the extension. */
  lemma EncodedName(e: Fields)
    requires Proper83(e)
    ensures Name83(Encode(e), 0) == e.name + (if e.extension == [] then [] else Ascii(".") + e.extension)
  {
    hide Encode, Unpadded;
    EncodedAt(e);
    var item := Encode(e);
    EscapedEnd(e.name);
    UnpaddedSpaced(Escaped(e.name), 8);
    UnpaddedSpaced(e.extension, 3);
    assert NameField(item, 0) == item[..8] && ExtensionField(item, 0) == item[8..11];
    assert Unescaped(Escaped(e.name)) == e.name;
    assert Ascii(".") == [DOT];
  }

  lemma EscapedEnd(s: seq<Byte>)
    requires s != [] && s[|s| - 1] !in {0, 0x20}
    ensures Escaped(s) != [] && Escaped(s)[|s| - 1] !in {0, 0x20}
  {
  }

  /** On disk the entry is in use, and has exactly its own name, ignoring case. */
  lemma EncodedNamed(byteAt: int -> Byte, start: nat, i: nat, e: Fields, name: seq<Byte>)
    requires Proper83(e) && forall j :: 0 <= j < 32 ==> byteAt(start + 32 * i + j) == Encode(e)[j]
    ensures InUse(byteAt, start, i)
    ensures Named(byteAt, start, i, name) <==>
      SameName(e.name + (if e.extension == [] then [] else Ascii(".") + e.extension), name)
  {
    hide Encode, Name83, SameName, Streamer.Slice;
    EncodedAt(e);
    EncodedName(e);
    assert Item(byteAt, start, i) == Encode(e);
    assert byteAt(start + 32 * i + 0) == Encode(e)[0] == Encode(e)[..8][0];
  }

  /** Names of which the code builds the right string: without NUL and space, not starting
      with the escape, with room in the name field or no extension, and with room in the
      extension field or an attribute byte of 0 or 0x20. */
  predicate Everyday(e: Fields) {
    && Proper83(e) && 0 !in e.name && 0x20 !in e.name && 0 !in e.extension && 0x20 !in e.extension
    && e.name[0] != 0xE5 && (|e.name| < 8 || e.extension == [])
    && (|e.extension| < 3 || e.attribute == 0 || e.attribute == 0x20)
  }

  lemma PlainSpaced(s: seq<Byte>, n: nat)
    requires |s| <= n && 0 !in s && 0x20 !in s
    ensures Plain(Spaced(s, n)) && (|s| < n ==> Stops(Spaced(s, n)))
  {
    var f := Spaced(s, n);
    forall i | 0 <= i < |s| ensures !Ends(f[i]) {
      assert s[i] in s;
    }
    if |s| < n { assert Ends(f[|s|]); }
  }

  lemma EverydayRight(e: Fields)
    requires Everyday(e)
    ensures NameRight(Encode(e), 0)
  {
    hide Encode, Plain, Stops;
    EncodedAt(e);
    var item := Encode(e);
    PlainSpaced(e.name, 8);
    PlainSpaced(e.extension, 3);
    assert NameField(item, 0) == item[..8] && ExtensionField(item, 0) == item[8..11];
    assert item[0..NAME_LENGTH] == item[..8] && item[0 + EXT..0 + ATTRIBUTE] == item[8..11];
    assert item[0] == item[..8][0] && item[8] == item[8..11][0];
  }

  // ---- deleting an entry ----

  /** Marking an entry in use with 0xE5 as deleted takes exactly one off the count. */
  lemma {:induction false} DeleteOne(byteAt: int -> Byte, start: nat, n: nat, i: nat)
    requires i < n && InUse(byteAt, start, i)
    ensures CountInUse(Deleted(byteAt, start, i), start, n) == CountInUse(byteAt, start, n) - 1
    decreases n
  {
    if i == n - 1 { CountBefore(byteAt, start, n - 1, i); } else { DeleteOne(byteAt, start, n - 1, i); }
  }

  function Deleted(byteAt: int -> Byte, start: nat, i: nat): int -> Byte {
    x => if x == start + 32 * i then 0xE5 else byteAt(x)
  }

  lemma {:induction false} CountBefore(byteAt: int -> Byte, start: nat, n: nat, i: nat)
    requires n <= i
    ensures CountInUse(Deleted(byteAt, start, i), start, n) == CountInUse(byteAt, start, n)
  {
    if n > 0 { CountBefore(byteAt, start, n - 1, i); }
  }

  // ---- the program that the kernel loads ----

  /** "0:/blank.bin" (src/sys/kernel.c) means an entry with the name BLANK and the
      extension BIN, in any case. */
  lemma BlankBin(e: Fields)
    requires Proper83(e) && e.name == Ascii("BLANK") && e.extension == Ascii("BIN")
    ensures Parse(Ascii("0:/blank.bin")) == Path(0, [Ascii("blank.bin")])
    ensures SameName(Name83(Encode(e), 0), Ascii("blank.bin"))
  {
    hide Encode, Name83, Parse, Ascii, SameName;
    EncodedName(e);
    BlankPath();
    BlankName();
    assert Ascii("BIN") != [];
  }

  lemma BlankPath()
    ensures Parse(Ascii("0:/blank.bin")) == Path(0, [Ascii("blank.bin")])
  {
    hide Parse;
    var part := Ascii("blank.bin");
    ParsePrint(0, [part]);
    assert Print(0, [part]) == [48, COLON, SLASH] + part == Ascii("0:/blank.bin");
  }

  lemma BlankName()
    ensures SameName(Ascii("BLANK") + (Ascii(".") + Ascii("BIN")), Ascii("blank.bin"))
  {
    var s, t := Ascii("BLANK") + (Ascii(".") + Ascii("BIN")), Ascii("blank.bin");
    assert s == Ascii("BLANK.BIN");
  }
}
