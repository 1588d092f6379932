/** The string routines of src/libc/string.c that the other components rely on. */
module Strings {
  import opened Memory

  // The length of a buffer for a path (DEXTER_MAX_PATH).
  const MAX_PATH: nat := 108

  /** The bytes of a text. */
  function Ascii(text: string): (s: seq<Byte>)
    requires forall i :: 0 <= i < |text| ==> text[i] < 128 as char
    ensures |s| == |text| && forall i :: 0 <= i < |text| ==> s[i] == text[i] as nat
  {
    seq(|text|, i requires 0 <= i < |text| => Code(text[i]))
  }

  function Code(c: char): Byte
    requires c < 128 as char
  {
    c as nat
  }

  /** What strncpy leaves in the n bytes of its destination when the n bytes from its
      source on are s: the bytes before the first NUL, then zeros. */
  function Strncpied(s: seq<Byte>): (r: seq<Byte>)
    ensures |r| == |s|
  {
    if s == [] then []
    else if s[0] == 0 then Zeros(|s|)
    else [s[0]] + Strncpied(s[1..])
  }

  /** Byte i is 0 once a NUL has been met, and byte i of the source before that. */
  lemma {:induction false} StrncpiedAt(s: seq<Byte>, i: nat)
    requires i < |s|
    ensures Strncpied(s)[i] == if 0 in s[..i + 1] then 0 else s[i]
  {
    assert s[..i + 1] == [s[0]] + s[1..][..i];
    if s[0] != 0 && i > 0 { StrncpiedAt(s[1..], i - 1); }
  }

  lemma NulBefore(s: seq<Byte>, m: nat, n: nat)
    requires m <= n <= |s| && 0 in s[..m]
    ensures 0 in s[..n]
  {
    assert s[..m] == s[..n][..m];
  }

  /** Only the bytes up to the first NUL matter. */
  lemma StrncpiedSame(s: seq<Byte>, t: seq<Byte>)
    requires |s| == |t|
    requires forall i :: 0 <= i < |s| && 0 !in s[..i] ==> s[i] == t[i]
    ensures Strncpied(s) == Strncpied(t)
  {
    hide Strncpied;
    forall i | 0 <= i < |s| ensures Strncpied(s)[i] == Strncpied(t)[i] {
      StrncpiedAt(s, i);
      StrncpiedAt(t, i);
      if 0 !in s[..i + 1] {
        NoNulAlike(s, t, i + 1);
        assert s[..i + 1] == t[..i + 1];
      } else {
        FirstNul(s, t, i + 1);
      }
    }
  }

  lemma NoNulAlike(s: seq<Byte>, t: seq<Byte>, n: nat)
    requires n <= |s| == |t| && 0 !in s[..n]
    requires forall i :: 0 <= i < |s| && 0 !in s[..i] ==> s[i] == t[i]
    ensures s[..n] == t[..n]
  {
    forall i | 0 <= i < n ensures s[i] == t[i] {
      assert 0 !in s[..i] by { assert s[..i] == s[..n][..i]; }
    }
  }

  lemma {:induction false} FirstNul(s: seq<Byte>, t: seq<Byte>, n: nat)
    requires n <= |s| == |t| && 0 in s[..n]
    requires forall i :: 0 <= i < |s| && 0 !in s[..i] ==> s[i] == t[i]
    ensures 0 in t[..n]
  {
    if 0 in s[..n - 1] {
      FirstNul(s, t, n - 1);
      assert t[..n - 1] == t[..n][..n - 1];
    } else {
      assert s[..n] == s[..n - 1] + [s[n - 1]];
      assert t[n - 1] in t[..n];
    }
  }

  /** A zero in the copy comes from a NUL of the source there or before. */
  lemma ZeroCopied(s: seq<Byte>, i: nat)
    requires i < |s| && Strncpied(s)[i] == 0
    ensures 0 in s[..i + 1]
  {
    hide Strncpied;
    StrncpiedAt(s, i);
    assert s[..i + 1][i] == s[i];
  }

  /** After a zero in the copy come only zeros. */
  lemma ZerosStay(s: seq<Byte>, i: nat)
    requires i < |s| && 0 in Strncpied(s)[..i + 1]
    ensures Strncpied(s)[i] == 0
  {
    hide Strncpied;
    var j :| 0 <= j <= i && Strncpied(s)[..i + 1][j] == 0;
    ZeroCopied(s, j);
    NulBefore(s, j + 1, i + 1);
    StrncpiedAt(s, i);
  }

  /** Copying a copied string again changes nothing. */
  lemma StrncpiedTwice(s: seq<Byte>)
    ensures Strncpied(Strncpied(s)) == Strncpied(s)
  {
    hide Strncpied;
    var r := Strncpied(s);
    forall i | 0 <= i < |s| ensures Strncpied(r)[i] == r[i] {
      StrncpiedAt(r, i);
      if 0 in r[..i + 1] { ZerosStay(s, i); }
    }
  }

  /** s followed by zeros up to n bytes. */
  function Padded(s: seq<Byte>, n: nat): (r: seq<Byte>)
    requires |s| <= n
    ensures |r| == n
  {
    s + Zeros(n - |s|)
  }

  // ---- comparison ignoring case ----

  /** toupper on a byte */
  function ToUpper(c: Byte): Byte {
    if 97 <= c <= 122 then c - 97 + 65 else c
  }

  function Upper(s: seq<Byte>): (r: seq<Byte>)
    ensures |r| == |s| && forall i :: 0 <= i < |s| ==> r[i] == ToUpper(s[i])
  {
    seq(|s|, i requires 0 <= i < |s| => ToUpper(s[i]))
  }

  predicate IsLetter(c: Byte) {
    'A' as nat <= c <= 'Z' as nat || 'a' as nat <= c <= 'z' as nat
  }

  /** The two bytes are the same, or the same letter in different cases. */
  predicate SameLetter(a: Byte, b: Byte) {
    a == b || (IsLetter(a) && IsLetter(b) && (a == b + 0x20 || b == a + 0x20))
  }

  /** The two strings are the same, ignoring the case of letters. */
  predicate SameName(s: seq<Byte>, t: seq<Byte>) {
    |s| == |t| && forall i :: 0 <= i < |s| ==> SameLetter(s[i], t[i])
  }

  /** toupper makes two bytes equal exactly if they are the same but for case. */
  lemma UpperLetter(a: Byte, b: Byte)
    ensures ToUpper(a) == ToUpper(b) <==> SameLetter(a, b)
  {
  }

  lemma UpperExact(s: seq<Byte>, t: seq<Byte>)
    ensures Upper(s) == Upper(t) <==> SameName(s, t)
  {
    hide SameLetter, ToUpper;
    if |s| == |t| {
      forall i | 0 <= i < |s| ensures Upper(s)[i] == Upper(t)[i] <==> SameLetter(s[i], t[i]) {
        UpperLetter(s[i], t[i]);
      }
    }
  }

  // A char as the signed value that the comparison subtracts.
  function Signed(c: Byte): (v: int)
    ensures -128 <= v < 128 && v % 256 == c
  {
    if c < 128 then c else c - 256
  }

  /** Byte i is the first of n at which the strings differ by more than case. */
  predicate FirstApart(s: seq<Byte>, t: seq<Byte>, n: nat, i: nat)
    requires n <= |s| && n <= |t|
  {
    i < n && !SameLetter(s[i], t[i]) && forall j :: 0 <= j < i ==> SameLetter(s[j], t[j])
  }

  /** istrncmp of n >= 1 bytes; it does not stop at a NUL. */
  method Istrncmp(s1: seq<Byte>, s2: seq<Byte>, n: nat) returns (r: int)
    requires 1 <= n <= |s1| && n <= |s2|
    ensures r == 0 <==> forall i :: 0 <= i < n ==> SameLetter(s1[i], s2[i])
    ensures r != 0 ==> exists i: nat :: FirstApart(s1, s2, n, i) && r == Signed(ToUpper(s1[i])) - Signed(ToUpper(s2[i]))
  {
    hide SameLetter;
    var i, left := 0, n;
    var f, l := 0, 0;
    var more := true;
    while more
      invariant 0 <= i <= n && left == n - i
      invariant more ==> left > 0
      invariant forall j :: 0 <= j < i ==> SameLetter(s1[j], s2[j])
      invariant !more && f == l ==> i == n
      invariant !more && f != l ==>
        FirstApart(s1, s2, n, i) && f == Signed(ToUpper(s1[i])) && l == Signed(ToUpper(s2[i]))
      decreases left, more
    {
      f := Signed(ToUpper(s1[i]));
      l := Signed(ToUpper(s2[i]));
      UpperLetter(s1[i], s2[i]);
      if f == l {
        i := i + 1;
        left := left - 1;
        more := left > 0;
      } else {
        more := false;
      }
    }
    r := f - l;
  }
}
