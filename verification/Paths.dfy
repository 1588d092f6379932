/** Paths: a drive digit, ":/" and parts separated by slashes; what parsing one gives
    (src/fs/pparser.c) and printing it back. */
module Paths {
  import opened Memory
  import opened Strings

  const SLASH: Byte := 0x2F
  const COLON: Byte := 0x3A

  /** s up to its first slash. */
  function Prefix(s: seq<Byte>): (r: seq<Byte>)
    ensures |r| <= |s| && r == s[..|r|] && SLASH !in r
    ensures |r| < |s| ==> s[|r|] == SLASH
  {
    if s == [] || s[0] == SLASH then [] else [s[0]] + Prefix(s[1..])
  }

  /** s after its first slash. */
  function Rest(s: seq<Byte>): (r: seq<Byte>)
    ensures |Prefix(s)| < |s| ==> r == s[|Prefix(s)| + 1..]
    ensures |Prefix(s)| == |s| ==> r == []
    ensures s != [] ==> |r| < |s|
  {
    if |Prefix(s)| < |s| then s[|Prefix(s)| + 1..] else []
  }

  /** The parts of s before the first empty one. */
  function Parts(s: seq<Byte>): (r: seq<seq<Byte>>)
    ensures forall p :: p in r ==> p != [] && SLASH !in p && |p| <= |s|
    decreases |s|
  {
    if Prefix(s) == [] then [] else [Prefix(s)] + Parts(Rest(s))
  }

  // ---- printing ----

  predicate PrintablePart(p: seq<Byte>) { p != [] && SLASH !in p && 0 !in p }

  function Join(parts: seq<seq<Byte>>): seq<Byte> {
    if parts == [] then []
    else if |parts| == 1 then parts[0]
    else parts[0] + [SLASH] + Join(parts[1..])
  }

  function Print(drive: nat, parts: seq<seq<Byte>>): seq<Byte>
    requires drive < 10
  {
    [48 + drive, COLON, SLASH] + Join(parts)
  }

  lemma {:induction false} PrefixOf(p: seq<Byte>, t: seq<Byte>)
    requires SLASH !in p
    ensures Prefix(p + [SLASH] + t) == p && Rest(p + [SLASH] + t) == t
    ensures Prefix(p) == p
  {
    var s := p + [SLASH] + t;
    LengthOfPrefix(p, s);
    LengthOfPrefix(p, p);
    assert s[|p| + 1..] == t;
  }

  lemma {:induction false} LengthOfPrefix(p: seq<Byte>, s: seq<Byte>)
    requires SLASH !in p && |p| <= |s| && s[..|p|] == p && (|p| == |s| || s[|p|] == SLASH)
    ensures Prefix(s) == p
  {
    if p != [] {
      assert s[0] == p[0] && s[1..][..|p| - 1] == p[1..];
      LengthOfPrefix(p[1..], s[1..]);
    }
  }

  lemma PartsCons(p: seq<Byte>, t: seq<Byte>)
    requires PrintablePart(p)
    ensures Parts(p + [SLASH] + t) == [p] + Parts(t)
  {
    hide Prefix, Rest;
    PrefixOf(p, t);
  }

  lemma PartsAlone(p: seq<Byte>)
    requires PrintablePart(p)
    ensures Parts(p) == [p] && Parts(p + [SLASH]) == [p]
  {
    hide Prefix, Rest;
    NoParts();
    PrefixOf(p, []);
    PartsCons(p, []);
    assert p + [SLASH] + [] == p + [SLASH];
  }

  lemma NoParts()
    ensures Parts([]) == []
  {
  }

  /** Parsing what was printed gives the parts back, with or without a trailing slash. */
  lemma {:induction false} PartsOfJoin(parts: seq<seq<Byte>>)
    requires forall p :: p in parts ==> PrintablePart(p)
    ensures Parts(Join(parts)) == parts
    ensures parts != [] ==> Parts(Join(parts) + [SLASH]) == parts
    decreases |parts|
  {
    hide Parts, PrintablePart;
    if parts == [] {
      NoParts();
    } else {
      assert parts[0] in parts && parts == [parts[0]] + parts[1..];
      if |parts| == 1 {
        PartsAlone(parts[0]);
      } else {
        PartsOfJoin(parts[1..]);
        PartsCons(parts[0], Join(parts[1..]));
        PartsCons(parts[0], Join(parts[1..]) + [SLASH]);
        assert Join(parts) + [SLASH] == parts[0] + [SLASH] + (Join(parts[1..]) + [SLASH]);
      }
    }
  }

  // ---- the whole path ----

  predicate IsDigit(c: Byte) { 48 <= c <= 57 }

  /** pathparser_path_valid_format */
  predicate ValidFormat(path: seq<Byte>) {
    |path| >= 3 && IsDigit(path[0]) && path[1] == COLON && path[2] == SLASH
  }

  datatype Parsed = Refused | Path(drive: nat, parts: seq<seq<Byte>>)

  /** What pathparser_parse makes of a path. */
  function Parse(path: seq<Byte>): Parsed {
    if |path| > MAX_PATH || !ValidFormat(path) then Refused else Path(path[0] - 48, Parts(path[3..]))
  }

  /** Printing a drive and parts and parsing the path gives them back. */
  lemma ParsePrint(drive: nat, parts: seq<seq<Byte>>)
    requires drive < 10 && forall p :: p in parts ==> PrintablePart(p)
    ensures |Print(drive, parts)| <= MAX_PATH ==> Parse(Print(drive, parts)) == Path(drive, parts)
    ensures |Print(drive, parts)| < MAX_PATH && parts != [] ==>
      Parse(Print(drive, parts) + [SLASH]) == Path(drive, parts)
  {
    hide Parts;
    PartsOfJoin(parts);
    var path := Print(drive, parts);
    assert path[3..] == Join(parts);
    assert (path + [SLASH])[3..] == Join(parts) + [SLASH];
  }

  // ---- and back ----

  /** The path starts with the digit of the drive, a colon and a slash. */
  predicate StartsWith(path: seq<Byte>, drive: nat)
    requires drive < 10
  {
    |path| >= 3 && path[..3] == [Code('0') + drive] + Ascii(":/")
  }

  /** A path is accepted exactly if it has at most 108 bytes and starts with a digit, a
      colon and a slash; the digit is the drive. */
  lemma ParseAccepts(path: seq<Byte>)
    ensures Parse(path).Path? <==> |path| <= 108 && exists drive: nat :: drive < 10 && StartsWith(path, drive)
    ensures Parse(path).Path? ==> Parse(path).drive < 10 && StartsWith(path, Parse(path).drive)
  {
    hide Parts, StartsWith;
    forall drive: nat | drive < 10
      ensures StartsWith(path, drive) <==>
        |path| >= 3 && path[0] == 48 + drive && path[1] == COLON && path[2] == SLASH
    {
      StartIs(path, drive);
    }
    if ValidFormat(path) { assert StartsWith(path, path[0] - 48); }
  }

  lemma StartIs(path: seq<Byte>, drive: nat)
    requires drive < 10
    ensures StartsWith(path, drive) <==>
      |path| >= 3 && path[0] == 48 + drive && path[1] == COLON && path[2] == SLASH
  {
    var head := [Code('0') + drive] + Ascii(":/");
    assert |head| == 3 && head[0] == 48 + drive && head[1] == COLON && head[2] == SLASH;
    if |path| >= 3 {
      assert path[..3][0] == path[0] && path[..3][1] == path[1] && path[..3][2] == path[2];
    }
  }

  /** The parts, joined by slashes, are what s starts with; s ends there, or goes on with a
      slash and then ends or has another one. */
  lemma {:induction false} PartsBack(s: seq<Byte>) returns (tail: seq<Byte>)
    ensures s == Join(Parts(s)) + tail
    ensures Parts(s) == [] ==> s == [] || s[0] == SLASH
    ensures Parts(s) != [] && tail != [] ==> tail[0] == SLASH && (|tail| == 1 || tail[1] == SLASH)
    decreases |s|
  {
    hide Prefix, Rest, Parts, Join;
    var p, r := Prefix(s), Rest(s);
    Unfold(s);
    if p == [] {
      tail := s;
      assert [] + s == s;
    } else {
      var t := PartsBack(r);
      JoinCons(p, Parts(r));
      if |p| == |s| {
        Unfold([]);
        tail := [];
      } else if Parts(r) == [] {
        tail := [SLASH] + r;
      } else {
        tail := t;
        assert p + [SLASH] + (Join(Parts(r)) + t) == p + [SLASH] + Join(Parts(r)) + t;
      }
    }
  }

  lemma Unfold(s: seq<Byte>)
    ensures Prefix([]) == [] && Join([]) == [] && |Rest(s)| <= |s|
    ensures Prefix(s) == [] ==> Parts(s) == [] && (s == [] || s[0] == SLASH)
    ensures Prefix(s) != [] ==> Parts(s) == [Prefix(s)] + Parts(Rest(s)) && |Rest(s)| < |s|
    ensures |Prefix(s)| == |s| ==> s == Prefix(s) && Rest(s) == []
    ensures |Prefix(s)| < |s| ==> s == Prefix(s) + [SLASH] + Rest(s)
  {
    var p := Prefix(s);
    if |p| < |s| { assert s == s[..|p|] + [s[|p|]] + s[|p| + 1..]; }
  }

  lemma JoinCons(p: seq<Byte>, parts: seq<seq<Byte>>)
    ensures parts != [] ==> Join([p] + parts) == p + [SLASH] + Join(parts)
    ensures parts == [] ==> Join([p] + parts) == p
  {
    assert ([p] + parts)[1..] == parts;
  }
}
