/** Flag words as comma separated names, through a translation table. */
module Flags {
  import opened CStrings

  /** The numbers of the bits set in an int: intersection is &, union is |, difference is & ~. */
  type Bits = s: set<nat> | forall n | n in s :: n < 32

  /** The bits of a uint64_t. */
  type Mask = s: set<nat> | forall n | n in s :: n < 64

  /** A row of a translation table: a mask and its name. */
  datatype Row = Row(mask: Mask, name: string)
  {
    /** What is left of the mask in an int. */
    function Bits(): Bits { set n | n in mask && n < 32 }

    predicate High() { exists n :: n in mask && n >= 32 }

    /** mask & tmp is not zero: the int is sign-extended, so bit 31 stands for all bits above it too. */
    predicate Meets(tmp: Bits) { Bits() * tmp != {} || (31 in tmp && High()) }
  }

  // ----- printing

  /** The text of the flags in tmp: a name and, while bits are left, a comma. */
  function Names(tbl: seq<Row>, tmp: Bits): string {
    if tbl == [] then ""
    else if !tbl[0].Meets(tmp) then Names(tbl[1..], tmp)
    else
      var left := tmp - tbl[0].Bits();
      tbl[0].name + (if left != {} then "," else "") + Names(tbl[1..], left)
  }

  /** The flags as they meet a mask of 64 bits: sign-extended. */
  function Extended(tmp: Bits): Mask { set n | 0 <= n < 64 && (n in tmp || (n >= 32 && 31 in tmp)) }

  function Unmasked(tmp: Bits, mask: Mask): Bits { set n | n in tmp && n !in mask }

  /** The names of the rows that share a bit with what earlier rows left of the flags, and what all rows leave. */
  function Shown(tbl: seq<Row>, tmp: Bits): (seq<string>, Bits) {
    if tbl == [] then ([], tmp)
    else if tbl[0].mask * Extended(tmp) == {} then Shown(tbl[1..], tmp)
    else
      var (names, rest) := Shown(tbl[1..], Unmasked(tmp, tbl[0].mask));
      ([tbl[0].name] + names, rest)
  }

  function Joined(names: seq<string>): string {
    if names == [] then "" else if |names| == 1 then names[0] else names[0] + "," + Joined(names[1..])
  }

  /** The text is the list of these names, with a comma behind the last if bits are left. */
  lemma {:induction false} NamesAreJoined(tbl: seq<Row>, tmp: Bits)
    ensures var (names, rest) := Shown(tbl, tmp);
      Names(tbl, tmp) == Joined(names) + if names != [] && rest != {} then "," else ""
    ensures tmp == {} ==> Shown(tbl, tmp) == ([], {})
  {
    if tbl != [] {
      var row := tbl[0];
      MeetsExtended(row, tmp);
      if row.Meets(tmp) {
        hide Shown, Joined;
        var left: Bits := tmp - row.Bits();
        ShownFirst(tbl, tmp);
        NamesAreJoined(tbl[1..], left);
        NothingShown(tbl[1..], left);
        var (names, rest) := Shown(tbl[1..], left);
        JoinedFirst(row.name, names, if left != {} then "," else "", if names != [] && rest != {} then "," else "");
      } else {
        NamesAreJoined(tbl[1..], tmp);
      }
    }
  }

  lemma ShownFirst(tbl: seq<Row>, tmp: Bits)
    requires tbl != [] && tbl[0].Meets(tmp)
    ensures var (names, rest) := Shown(tbl[1..], tmp - tbl[0].Bits()); Shown(tbl, tmp) == ([tbl[0].name] + names, rest)
  {
    MeetsExtended(tbl[0], tmp);
    assert Unmasked(tmp, tbl[0].mask) == tmp - tbl[0].Bits();
  }

  lemma MeetsExtended(row: Row, tmp: Bits)
    ensures row.Meets(tmp) <==> row.mask * Extended(tmp) != {}
  {
    if n :| n in row.Bits() * tmp {
      assert n in row.mask * Extended(tmp);
    } else if 31 in tmp && row.High() {
      var n :| n in row.mask && n >= 32;
      assert n in row.mask * Extended(tmp);
    }
    if n :| n in row.mask * Extended(tmp) {
      assert n < 32 ==> n in row.Bits() * tmp;
    }
  }

  lemma JoinedFirst(name: string, names: seq<string>, comma: string, end: string)
    ensures names == [] ==> Joined(names) == "" && name + comma + (Joined(names) + "") == Joined([name] + names) + comma
    ensures names != [] ==> name + "," + (Joined(names) + end) == Joined([name] + names) + end
  {
    assert ([name] + names)[1..] == names;
  }

  /** If no name is shown, all bits are left. */
  lemma {:induction false} NothingShown(tbl: seq<Row>, tmp: Bits)
    ensures Shown(tbl, tmp).0 == [] ==> Shown(tbl, tmp).1 == tmp
  {
    if tbl != [] && tbl[0].mask * Extended(tmp) == {} {
      NothingShown(tbl[1..], tmp);
    }
  }

  /** A string in a buffer of len bytes that was cleared first: cut to leave a NUL, and NUL from its end on. */
  predicate Holds(buf: string, text: string) {
    var w := if |text| < |buf| then |text| else |buf| - 1;
    buf != [] && buf == text[..w] + seq(|buf| - w, i => NUL)
  }

  /** The length strlen finds when what has been appended so far is text. */
  function Length(len: nat, text: string): nat
    requires len > 0
  {
    if |text| < len then |text| else len - 1
  }

  /** strncat(buf, s, len - strlen(buf) - 1). */
  method Append(buf: array<char>, ghost text: string, strlen: nat, s: string) returns (strlen': nat)
    requires Holds(buf[..], text) && strlen == Length(buf.Length, text)
    modifies buf
    ensures Holds(buf[..], text + s) && strlen' == Length(buf.Length, text + s)
  {
    var room := buf.Length - strlen - 1;
    var n := if |s| < room then |s| else room;
    Overwrite(buf, strlen, s[..n] + [NUL]);
    strlen' := strlen + n;
    assert (text + s)[..strlen'] == text[..strlen] + s[..n];
    assert buf[..] == text[..strlen] + s[..n] + seq(buf.Length - strlen', i => NUL);
  }

  /** __flags2str into a buffer of at least one byte: the text, cut to the buffer. */
  method FlagsToString(flags: Bits, buf: array<char>, tbl: seq<Row>)
    requires buf.Length > 0
    modifies buf
    ensures Holds(buf[..], Names(tbl, flags))
  {
    forall i | 0 <= i < buf.Length {
      buf[i] := NUL;
    }
    var tmp: Bits := flags;
    var strlen := 0;
    ghost var text := "";
    assert tbl[0..] == tbl && "" + Names(tbl, flags) == Names(tbl, flags);
    assert buf[..] == seq(buf.Length, i => NUL);
    for i := 0 to |tbl|
      invariant Holds(buf[..], text) && strlen == Length(buf.Length, text)
      invariant text + Names(tbl[i..], tmp) == Names(tbl, flags)
      invariant tmp <= flags
    {
      assert tbl[i..][0] == tbl[i] && tbl[i..][1..] == tbl[i + 1..];
      if tbl[i].Meets(tmp) {
        ghost var before := text;
        tmp := tmp - tbl[i].Bits();
        strlen := Append(buf, text, strlen, tbl[i].name);
        text := text + tbl[i].name;
        if tmp * flags != {} {
          strlen := Append(buf, text, strlen, ",");
          text := text + ",";
        }
        Regroup(before, tbl[i].name, if tmp != {} then "," else "", Names(tbl[i + 1..], tmp));
      }
    }
    assert text + "" == text;
  }

  lemma Regroup(a: string, b: string, c: string, d: string)
    ensures a + b + c + d == a + (b + c + d)
    ensures c == "" ==> a + b == a + b + c
  {
  }

  // ----- parsing

  function Lower(c: char): char {
    if 'A' <= c <= 'Z' then c - 'A' + 'a' else c
  }

  /** strncasecmp of two strings of the same length is zero. */
  predicate SameIgnoringCase(s: string, t: string) {
    |s| == |t| && forall i :: 0 <= i < |s| ==> Lower(s[i]) == Lower(t[i])
  }

  /** The bits of all rows with this name. */
  function Named(tbl: seq<Row>, name: string): Bits {
    if tbl == [] then {}
    else (if SameIgnoringCase(tbl[0].name, name) then tbl[0].Bits() else {}) + Named(tbl[1..], name)
  }

  /** The index of the first comma, or the length. */
  function Comma(s: string): (n: nat)
    ensures n <= |s| && ',' !in s[..n] && (n < |s| ==> s[n] == ',')
  {
    if s == [] || s[0] == ',' then 0 else 1 + Comma(s[1..])
  }

  function SkipSpace(s: string): (p: string)
    ensures |p| <= |s|
  {
    if s != [] && s[0] == ' ' then s[1..] else s
  }

  /** What __str2flags makes of a string: the union over its comma separated pieces, each without one leading space. */
  function Parse(tbl: seq<Row>, s: string): Bits
    decreases |s|
  {
    var p := SkipSpace(s);
    var n := Comma(p);
    if n == |p| then Named(tbl, p) else Named(tbl, p[..n]) + Parse(tbl, p[n + 1..])
  }

  method StringToFlags(buf: string, tbl: seq<Row>) returns (flags: Bits)
    ensures flags == Parse(tbl, buf)
  {
    hide Comma, SkipSpace, SameIgnoringCase;
    flags := {};
    var rest := buf;
    while true
      invariant flags + Parse(tbl, rest) == Parse(tbl, buf)
      decreases |rest|
    {
      var p := SkipSpace(rest);
      var n := Comma(p);
      assert n == |p| ==> p[..n] == p;
      ghost var before := flags;
      var piece := p[..n];
      for i := 0 to |tbl|
        invariant flags + Named(tbl[i..], piece) == before + Named(tbl, piece)
      {
        NamedFrom(tbl, i, piece);
        if n == |tbl[i].name| && SameIgnoringCase(tbl[i].name, piece) {
          flags := flags + tbl[i].Bits();
        }
      }
      if n == |p| {
        return flags;
      }
      rest := p[n + 1..];
    }
  }

  lemma NamedFrom(tbl: seq<Row>, i: nat, name: string)
    requires i < |tbl|
    ensures Named(tbl[i..], name)
      == (if SameIgnoringCase(tbl[i].name, name) then tbl[i].Bits() else {}) + Named(tbl[i + 1..], name)
    ensures SameIgnoringCase(tbl[i].name, name) ==> |tbl[i].name| == |name|
  {
    assert tbl[i..][0] == tbl[i] && tbl[i..][1..] == tbl[i + 1..];
  }

  // ----- what a reader may write differently

  /** The string in capitals. */
  function Capitals(s: string): (r: string)
    ensures |r| == |s| && forall i :: 0 <= i < |s| ==>
      r[i] == if 97 <= s[i] as int <= 122 then (s[i] as int - 32) as char else s[i]
  {
    seq(|s|, i requires 0 <= i < |s| => if 97 <= s[i] as int <= 122 then (s[i] as int - 32) as char else s[i])
  }

  /** Names are the same iff they are the same in capitals. */
  lemma SameInCapitals(s: string, t: string)
    ensures SameIgnoringCase(s, t) <==> Capitals(s) == Capitals(t)
  {
    if Capitals(s) == Capitals(t) {
      forall i | 0 <= i < |s|
        ensures Lower(s[i]) == Lower(t[i])
      {
        assert Capitals(s)[i] == Capitals(t)[i];
      }
    }
  }

  lemma {:induction false} NamedInCapitals(tbl: seq<Row>, name: string)
    ensures Named(tbl, Capitals(name)) == Named(tbl, name)
  {
    if tbl != [] {
      SameInCapitals(tbl[0].name, name);
      SameInCapitals(tbl[0].name, Capitals(name));
      assert Capitals(Capitals(name)) == Capitals(name);
      NamedInCapitals(tbl[1..], name);
    }
  }

  lemma {:induction false} CommaInCapitals(s: string)
    ensures Comma(Capitals(s)) == Comma(s)
  {
    if s != [] {
      assert Capitals(s)[1..] == Capitals(s[1..]);
      CommaInCapitals(s[1..]);
    }
  }

  /** A list in capitals means the same. */
  lemma {:induction false} CaseIsIgnored(tbl: seq<Row>, s: string)
    ensures Parse(tbl, Capitals(s)) == Parse(tbl, s)
    decreases |s|
  {
    hide Named, SameIgnoringCase, Lower, Comma, Capitals, SkipSpace;
    var p := SkipSpace(s);
    var n := Comma(p);
    SkipInCapitals(s);
    CommaInCapitals(p);
    NamedInCapitals(tbl, p[..n]);
    SliceInCapitals(p, n);
    assert |Capitals(p)| == |p| && p[..|p|] == p;
    if n < |p| {
      SliceInCapitals(p, n + 1);
      CaseIsIgnored(tbl, p[n + 1..]);
    }
  }

  lemma SkipInCapitals(s: string)
    ensures SkipSpace(Capitals(s)) == Capitals(SkipSpace(s))
  {
    SliceInCapitals(s, if s == [] then 0 else 1);
  }

  lemma SliceInCapitals(s: string, n: nat)
    requires n <= |s|
    ensures Capitals(s)[..n] == Capitals(s[..n]) && Capitals(s)[n..] == Capitals(s[n..])
  {
  }

  /** One space may stand before a piece, but not two: the second is part of the name. */
  lemma OneSpaceIsSkipped(tbl: seq<Row>, s: string)
    ensures s == [] || s[0] != ' ' ==> Parse(tbl, " " + s) == Parse(tbl, s)
    ensures ',' !in s ==> Parse(tbl, "  " + s) == Named(tbl, " " + s)
  {
    hide Named, Comma;
    assert SkipSpace(" " + s) == s && SkipSpace("  " + s) == " " + s;
    assert s == [] || s[0] != ' ' ==> SkipSpace(s) == s;
  }

  /** So flags may be listed with a space behind each comma. */
  lemma SpacedList(tbl: seq<Row>, name: string, rest: string)
    requires name != [] && ',' !in name && name[0] != ' ' && (rest == [] || rest[0] != ' ')
    ensures Parse(tbl, name + ", " + rest) == Named(tbl, name) + Parse(tbl, rest)
  {
    hide Named, Parse;
    assert name + ", " + rest == name + "," + (" " + rest);
    ParsePiece(tbl, name, " " + rest);
    OneSpaceIsSkipped(tbl, rest);
  }

  // ----- the round trip

  /** A name that can stand in a list: not empty, without a comma or a leading space. */
  predicate Plain(name: string) { name != [] && ',' !in name && name[0] != ' ' }

  /** Names that can be told apart in a list: not empty, no comma, no leading space, different ignoring case. */
  predicate Distinguishable(tbl: seq<Row>) {
    && (forall i :: 0 <= i < |tbl| ==> Plain(tbl[i].name))
    && (forall i, j :: 0 <= i < j < |tbl| ==> !SameIgnoringCase(tbl[i].name, tbl[j].name))
  }

  /** The bits of all rows. */
  function Known(tbl: seq<Row>): Bits {
    if tbl == [] then {} else tbl[0].Bits() + Known(tbl[1..])
  }

  /** The masks of the rows that Names prints. */
  function Printed(tbl: seq<Row>, tmp: Bits): Bits {
    if tbl == [] then {}
    else if !tbl[0].Meets(tmp) then Printed(tbl[1..], tmp)
    else tbl[0].Bits() + Printed(tbl[1..], tmp - tbl[0].Bits())
  }

  lemma {:induction false} NoBitsNoNames(tbl: seq<Row>)
    ensures Names(tbl, {}) == "" && Printed(tbl, {}) == {}
  {
    if tbl != [] {
      NoBitsNoNames(tbl[1..]);
    }
  }

  lemma {:induction false} NamedNone(tbl: seq<Row>, name: string)
    requires forall i :: 0 <= i < |tbl| ==> !SameIgnoringCase(tbl[i].name, name)
    ensures Named(tbl, name) == {}
  {
    if tbl != [] {
      assert !SameIgnoringCase(tbl[0].name, name);
      NamedNone(tbl[1..], name);
    }
  }

  /** A name denotes the bits of its own row and no others. */
  lemma {:induction false} NamedOne(tbl: seq<Row>, k: nat)
    requires Distinguishable(tbl) && k < |tbl|
    ensures Named(tbl, tbl[k].name) == tbl[k].Bits()
  {
    if k == 0 {
      assert forall i :: 0 <= i < |tbl[1..]| ==> !SameIgnoringCase(tbl[1..][i].name, tbl[0].name) by {
        forall i | 0 <= i < |tbl[1..]| ensures !SameIgnoringCase(tbl[1..][i].name, tbl[0].name) {
          assert !SameIgnoringCase(tbl[0].name, tbl[i + 1].name);
        }
      }
      NamedNone(tbl[1..], tbl[0].name);
    } else {
      assert !SameIgnoringCase(tbl[0].name, tbl[k].name);
      NamedOne(tbl[1..], k - 1);
    }
  }

  lemma {:induction false} CommaAfter(name: string, rest: string)
    requires ',' !in name
    ensures Comma(name) == |name| && Comma(name + "," + rest) == |name|
  {
    if name == [] {
      assert name + "," + rest == "," + rest;
    } else {
      CommaAfter(name[1..], rest);
      assert (name + "," + rest)[1..] == name[1..] + "," + rest;
    }
  }

  /** Parsing a piece and what follows it. */
  lemma ParsePiece(tbl: seq<Row>, name: string, rest: string)
    requires name != [] && ',' !in name && name[0] != ' '
    ensures Parse(tbl, name) == Named(tbl, name)
    ensures Parse(tbl, name + "," + rest) == Named(tbl, name) + Parse(tbl, rest)
  {
    CommaAfter(name, rest);
    var s := name + "," + rest;
    assert SkipSpace(s) == s && s[..|name|] == name && s[|name| + 1..] == rest;
  }

  /** Parsing the text of a flag word gives the masks of the rows printed, whatever bits are unknown. */
  lemma {:induction false} ParseOfNames(tbl: seq<Row>, k: nat, tmp: Bits)
    requires Distinguishable(tbl) && k <= |tbl|
    ensures Parse(tbl, Names(tbl[k..], tmp)) == Printed(tbl[k..], tmp)
    decreases |tbl| - k
  {
    hide Parse, Distinguishable;
    if k == |tbl| {
      EmptyDenotesNone(tbl);
    } else {
      assert tbl[k..][0] == tbl[k] && tbl[k..][1..] == tbl[k + 1..];
      if !tbl[k].Meets(tmp) {
        ParseOfNames(tbl, k + 1, tmp);
      } else {
        var left := tmp - tbl[k].Bits();
        ParseRow(tbl, k, Names(tbl[k + 1..], left));
        if left == {} {
          NoBitsNoNames(tbl[k + 1..]);
          assert tbl[k].name + "" + "" == tbl[k].name;
        } else {
          ParseOfNames(tbl, k + 1, left);
        }
      }
    }
  }

  lemma EmptyDenotesNone(tbl: seq<Row>)
    requires Distinguishable(tbl)
    ensures Parse(tbl, "") == {}
  {
    NamedNone(tbl, "");
  }

  lemma ParseRow(tbl: seq<Row>, k: nat, rest: string)
    requires Distinguishable(tbl) && k < |tbl|
    ensures Parse(tbl, tbl[k].name) == tbl[k].Bits()
    ensures Parse(tbl, tbl[k].name + "," + rest) == tbl[k].Bits() + Parse(tbl, rest)
  {
    hide Parse, Named;
    NamedOne(tbl, k);
    ParsePiece(tbl, tbl[k].name, rest);
  }

  /** Every row printed lies within the flags. */
  predicate Whole(tbl: seq<Row>, flags: Bits, tmp: Bits) {
    tbl == []
    || if !tbl[0].Meets(tmp) then Whole(tbl[1..], flags, tmp)
       else tbl[0].Bits() <= flags && Whole(tbl[1..], flags, tmp - tbl[0].Bits())
  }

  lemma {:induction false} PrintedWithinIff(tbl: seq<Row>, flags: Bits, tmp: Bits)
    requires tmp <= flags
    ensures Known(tbl) * tmp <= Printed(tbl, tmp) <= Known(tbl)
    ensures Printed(tbl, tmp) <= flags <==> Whole(tbl, flags, tmp)
  {
    if tbl != [] {
      if !tbl[0].Meets(tmp) {
        PrintedWithinIff(tbl[1..], flags, tmp);
        forall n | n in Known(tbl) * tmp ensures n in Known(tbl[1..]) * tmp {
          assert n !in tbl[0].Bits() * tmp;
        }
      } else {
        PrintedWithinIff(tbl[1..], flags, tmp - tbl[0].Bits());
        forall n | n in Known(tbl) * tmp ensures n in Printed(tbl, tmp) {
          assert n in tbl[0].Bits() || n in Known(tbl[1..]) * (tmp - tbl[0].Bits());
        }
      }
    }
  }

  /** The round trip of a flag word gives its known bits exactly when each row printed is wholly set in it. */
  lemma RoundTripIff(tbl: seq<Row>, flags: Bits)
    requires Distinguishable(tbl)
    ensures Parse(tbl, Names(tbl, flags)) == flags * Known(tbl) <==> Whole(tbl, flags, flags)
  {
    assert tbl[0..] == tbl;
    ParseOfNames(tbl, 0, flags);
    PrintedWithinIff(tbl, flags, flags);
  }

  ghost predicate SingleBits(tbl: seq<Row>) {
    forall i :: 0 <= i < |tbl| ==> exists n :: tbl[i].mask == {n}
  }

  lemma {:induction false} SingleBitsAreWhole(tbl: seq<Row>, flags: Bits, tmp: Bits)
    requires SingleBits(tbl) && tmp <= flags
    ensures Whole(tbl, flags, tmp)
  {
    if tbl != [] {
      var n :| tbl[0].mask == {n};
      assert n !in tmp && n < 32 ==> !tbl[0].Meets(tmp);
      assert SingleBits(tbl[1..]);
      SingleBitsAreWhole(tbl[1..], flags, if !tbl[0].Meets(tmp) then tmp else tmp - tbl[0].Bits());
    }
  }

  /**
   * With single-bit rows every flag word survives, restricted to the table, even when unknown bits leave a
   * trailing comma.
   */
  lemma RoundTrip(tbl: seq<Row>, flags: Bits)
    requires Distinguishable(tbl) && SingleBits(tbl)
    ensures Parse(tbl, Names(tbl, flags)) == flags * Known(tbl)
  {
    SingleBitsAreWhole(tbl, flags, flags);
    RoundTripIff(tbl, flags);
  }

  /** So printing and parsing again changes nothing in what was parsed from any string. */
  lemma {:induction false} ParsedSurvives(tbl: seq<Row>, s: string)
    requires Distinguishable(tbl) && SingleBits(tbl)
    ensures Parse(tbl, Names(tbl, Parse(tbl, s))) == Parse(tbl, s)
  {
    ParsedIsKnown(tbl, s);
    RoundTrip(tbl, Parse(tbl, s));
  }

  lemma {:induction false} ParsedIsKnown(tbl: seq<Row>, s: string)
    ensures Parse(tbl, s) <= Known(tbl)
    decreases |s|
  {
    hide Comma, SkipSpace, Named, Known;
    var p := SkipSpace(s);
    var n := Comma(p);
    NamedIsKnown(tbl, p[..n]);
    if n == |p| {
      assert p[..n] == p;
    } else {
      ParsedIsKnown(tbl, p[n + 1..]);
    }
  }

  lemma {:induction false} NamedIsKnown(tbl: seq<Row>, name: string)
    ensures Named(tbl, name) <= Known(tbl)
  {
    if tbl != [] {
      NamedIsKnown(tbl[1..], name);
    }
  }

  /** The rows whose mask has a bit within an int. */
  function LowRows(tbl: seq<Row>): seq<Row> {
    if tbl == [] then [] else (if tbl[0].Bits() == {} then [] else [tbl[0]]) + LowRows(tbl[1..])
  }

  /** A row above bit 31 stands before the row of bit 31, if there is one. */
  predicate Exposed(tbl: seq<Row>) {
    tbl != [] && (tbl[0].High() || (31 !in tbl[0].mask && Exposed(tbl[1..])))
  }

  /**
   * Of the rows whose bits no int has, some are printed nevertheless: exactly when the flags have bit 31 and such a
   * row stands before the row of bit 31.
   */
  lemma {:induction false} HighRowsPrintedIff(tbl: seq<Row>, tmp: Bits)
    requires SingleBits(tbl) && forall i :: 0 <= i < |tbl| ==> tbl[i].name != []
    ensures Names(tbl, tmp) == Names(LowRows(tbl), tmp) <==> !(31 in tmp && Exposed(tbl))
    ensures |Names(tbl, tmp)| >= |Names(LowRows(tbl), tmp)|
  {
    if tbl != [] {
      var n :| tbl[0].mask == {n};
      assert n in tbl[0].mask && (n < 32 ==> n in tbl[0].Bits());
      assert SingleBits(tbl[1..]);
      var low := LowRows(tbl[1..]);
      var left: Bits := if tbl[0].Meets(tmp) then tmp - tbl[0].Bits() else tmp;
      HighRowsPrintedIff(tbl[1..], left);
      if n < 32 {
        assert LowRows(tbl)[0] == tbl[0] && LowRows(tbl)[1..] == low;
        var first := tbl[0].name + (if left != {} then "," else "");
        assert (first + Names(tbl[1..], left))[|first|..] == Names(tbl[1..], left);
        assert (first + Names(low, left))[|first|..] == Names(low, left);
      } else {
        assert LowRows(tbl) == low && left == tmp;
      }
    }
  }

  /** No name holds a NUL, as C strings cannot. */
  predicate CNames(tbl: seq<Row>) { forall i :: 0 <= i < |tbl| ==> NUL !in tbl[i].name }

  lemma {:induction false} NamesHaveNoNul(tbl: seq<Row>, tmp: Bits)
    requires CNames(tbl)
    ensures NUL !in Names(tbl, tmp)
  {
    if tbl != [] {
      assert NUL !in tbl[0].name && CNames(tbl[1..]);
      NamesHaveNoNul(tbl[1..], if tbl[0].Meets(tmp) then tmp - tbl[0].Bits() else tmp);
    }
  }

  /**
   * What __flags2str leaves in the buffer, read back by __str2flags. When the text fits, the known
   * bits come back iff every mask printed is wholly set, and always with single-bit rows.
   */
  method PrintAndParse(flags: Bits, buf: array<char>, tbl: seq<Row>) returns (parsed: Bits)
    requires buf.Length > 0 && Distinguishable(tbl) && CNames(tbl)
    modifies buf
    ensures |Names(tbl, flags)| < buf.Length ==>
      (parsed == flags * Known(tbl) <==> Whole(tbl, flags, flags)) && (SingleBits(tbl) ==> parsed == flags * Known(tbl))
    ensures parsed == Parse(tbl, Names(tbl, flags)[..Length(buf.Length, Names(tbl, flags))])
  {
    hide Parse, Whole, Distinguishable;
    FlagsToString(flags, buf, tbl);
    ghost var text := Names(tbl, flags);
    ghost var w := Length(buf.Length, text);
    NamesHaveNoNul(tbl, flags);
    CStringIs(text[..w], buf[w + 1..]);
    assert buf[..] == text[..w] + [NUL] + buf[w + 1..];
    assert w == |text| ==> text[..w] == text;
    parsed := StringToFlags(CString(buf[..]), tbl);
    RoundTripIff(tbl, flags);
    if SingleBits(tbl) {
      RoundTrip(tbl, flags);
    }
  }

  // ----- a table

  const VLAN_FLAGS: seq<Row> := [Row({0}, "reorder_hdr"), Row({1}, "gvrp"), Row({2}, "loose_binding"), Row({3}, "mvrp")]

  /** The flags of a VLAN interface meet the conditions, so every word of them survives, and other bits are lost. */
  lemma VlanFlagsSurvive(flags: Bits)
    ensures Distinguishable(VLAN_FLAGS) && SingleBits(VLAN_FLAGS) && CNames(VLAN_FLAGS)
    ensures Parse(VLAN_FLAGS, Names(VLAN_FLAGS, flags)) == flags * {0, 1, 2, 3}
  {
    VlanFlagsFit();
    VlanFlagsKnown();
    hide Distinguishable, SingleBits, CNames, Names, Parse, Known;
    RoundTrip(VLAN_FLAGS, flags);
  }

  lemma VlanFlagsFit()
    ensures Distinguishable(VLAN_FLAGS) && SingleBits(VLAN_FLAGS) && CNames(VLAN_FLAGS)
  {
    VlanFlagsDiffer();
    assert CNames(VLAN_FLAGS) by {
      hide SameIgnoringCase;
    }
    hide SameIgnoringCase, Distinguishable, CNames;
    assert forall i | 0 <= i < 4 :: VLAN_FLAGS[i].mask == {i};
  }

  lemma VlanFlagsDiffer()
    ensures Distinguishable(VLAN_FLAGS)
  {
    var t := VLAN_FLAGS;
    OtherLength(t[0].name, t[1].name);
    OtherLength(t[0].name, t[2].name);
    OtherLength(t[0].name, t[3].name);
    OtherLength(t[1].name, t[2].name);
    OtherLength(t[2].name, t[3].name);
    OtherStart(t[1].name, t[3].name);
    PlainNames();
    hide SameIgnoringCase, Plain;
  }

  lemma PlainNames()
    ensures Plain("reorder_hdr") && Plain("gvrp") && Plain("loose_binding") && Plain("mvrp")
  {
  }

  lemma OtherLength(s: string, t: string)
    requires |s| != |t|
    ensures !SameIgnoringCase(s, t)
  {
  }

  lemma OtherStart(s: string, t: string)
    requires s != [] && t != [] && Lower(s[0]) != Lower(t[0])
    ensures !SameIgnoringCase(s, t)
  {
  }

  lemma VlanFlagsKnown()
    ensures Known(VLAN_FLAGS) == {0, 1, 2, 3}
  {
    forall n: nat
      ensures n in Known(VLAN_FLAGS) <==> n in {0, 1, 2, 3}
    {
      KnownIff(VLAN_FLAGS, n);
      assert forall i | 0 <= i < 4 :: VLAN_FLAGS[i].mask == {i};
      assert n < 4 ==> n in VLAN_FLAGS[n].mask;
    }
  }

  lemma {:induction false} KnownIff(tbl: seq<Row>, n: nat)
    ensures n in Known(tbl) <==> n < 32 && exists i :: 0 <= i < |tbl| && n in tbl[i].mask
  {
    if tbl != [] {
      KnownIff(tbl[1..], n);
      assert n in tbl[0].Bits() <==> n < 32 && n in tbl[0].mask;
      assert forall i :: 0 < i < |tbl| ==> tbl[1..][i - 1] == tbl[i];
    }
  }
}
