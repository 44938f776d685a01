/** The text form of an MPLS number stack (RFC 3032, section 2.1): labels in decimal, separated by '/'. */
module Mpls {
  import opened Arithmetic
  import opened CStrings
  import opened Wrappers

  const LABELS: nat := 0x10_0000
  const LABEL_UNIT: nat := 0x1000
  const S_BIT: nat := 0x100
  const ULONG_MAX: nat := 0xFFFF_FFFF_FFFF_FFFF

  /** A stack entry in host byte order: label (20 bits), traffic class (3), bottom of stack (1), TTL (8). */
  type Entry = n: nat | n < 0x1_0000_0000

  function Label(e: Entry): (n: nat)
    ensures n < LABELS
  {
    e / LABEL_UNIT
  }

  function TrafficClass(e: Entry): nat { e / (2 * S_BIT) % 8 }

  predicate Bottom(e: Entry) { e / S_BIT % 2 == 1 }

  function Ttl(e: Entry): nat { e % S_BIT }

  /** An entry with a label and a bottom bit and nothing else. */
  function Pack(number: nat, bottom: bool): Entry
    requires number < LABELS
  {
    number * LABEL_UNIT + if bottom then S_BIT else 0
  }

  lemma PackedFields(number: nat, bottom: bool)
    requires number < LABELS
    ensures var e := Pack(number, bottom);
      Label(e) == number && Bottom(e) == bottom && Ttl(e) == 0 && TrafficClass(e) == 0
  {
    var e, b := Pack(number, bottom), if bottom then 1 else 0;
    DivModIs(e, 0x1000, number, 0x100 * b);
    DivModIs(e, 0x100, 16 * number + b, 0);
    DivModIs(16 * number + b, 2, 8 * number, b);
    DivModIs(e, 0x200, 8 * number, 0x100 * b);
    DivModIs(8 * number, 8, number, 0);
  }

  /** Bottom of stack is set on the last entry and on no other. */
  predicate WellFormed(stack: seq<Entry>) {
    stack != [] && forall k :: 0 <= k < |stack| ==> (Bottom(stack[k]) <==> k == |stack| - 1)
  }

  /** The conversion "%u". */
  function Decimal(n: nat): (s: string)
    ensures s != []
  {
    if n < 10 then [Digit(n)] else Decimal(n / 10) + [Digit(n % 10)]
  }

  function Digit(d: nat): (c: char)
    requires d < 10
    ensures '0' <= c <= '9' && DigitValue(c) == d
  {
    '0' + d as char
  }

  /** The text of the entries up to the first with the bottom bit. */
  function Text(stack: seq<Entry>): string {
    if stack == [] then ""
    else if Bottom(stack[0]) then Decimal(Label(stack[0]))
    else Decimal(Label(stack[0])) + "/" + Text(stack[1..])
  }

  // ----- printing

  /** The buffer after snprintf has put digits at dest: cut to leave room for the NUL, which needs a byte. */
  function Printed(buf: string, dest: nat, digits: string): string
    requires dest <= |buf|
  {
    if dest == |buf| then buf
    else
      var w := if |digits| < |buf| - dest then |digits| else |buf| - dest - 1;
      buf[..dest] + digits[..w] + [NUL] + buf[dest + w + 1..]
  }

  /** snprintf(dest, destlen, "%u", n), where dest is an index into buf. */
  method Snprintf(buf: array<char>, dest: nat, destlen: nat, n: nat) returns (len: nat)
    requires dest + destlen == buf.Length
    modifies buf
    ensures len == |Decimal(n)| && buf[..] == Printed(old(buf[..]), dest, Decimal(n))
  {
    hide Decimal;
    var digits := Decimal(n);
    len := |digits|;
    if destlen > 0 {
      var w := if len < destlen then len else destlen - 1;
      Overwrite(buf, dest, digits[..w] + [NUL]);
    }
  }

  method PutSeparator(buf: array<char>, dest: nat)
    requires dest < buf.Length
    modifies buf
    ensures buf[..] == old(buf[..])[dest := '/']
  {
    buf[dest] := '/';
  }

  /** The buffer holds the start of the text up to dest, and is otherwise as it was. */
  predicate Holds(buf: string, text: string, dest: nat, was: string) {
    dest <= |text| && dest <= |was| && buf == text[..dest] + was[dest..]
  }

  /** Likewise, with a NUL at dest. */
  predicate HoldsEnded(buf: string, text: string, dest: nat, was: string) {
    dest <= |text| && dest < |was| && buf == text[..dest] + [NUL] + was[dest + 1..]
  }

  /** As much of the text as fits; the last byte is NUL, or the separator that fell there. */
  predicate HoldsCut(buf: string, text: string) {
    |buf| <= |text|
    && (buf != [] ==> var last := |buf| - 1; buf == text[..last] + [if text[last] == '/' then '/' else NUL])
  }

  /**
   * mpls_ntop1; false stands for NULL with errno E2BIG. It succeeds exactly when the text and its
   * NUL fit. When the buffer ends just after a separator it is left without a NUL.
   */
  method Ntop(addr: seq<Entry>, buf: array<char>) returns (ok: bool)
    requires exists k :: 0 <= k < |addr| && Bottom(addr[k])
    modifies buf
    ensures ok <==> |Text(addr)| < buf.Length
    ensures if ok then HoldsEnded(buf[..], Text(addr), |Text(addr)|, old(buf[..])) else HoldsCut(buf[..], Text(addr))
  {
    hide Decimal, Text, Label, Bottom, Printed, Holds, HoldsEnded, HoldsCut, Remains;
    ghost var text, was := Text(addr), buf[..];
    ghost var last :| 0 <= last < |addr| && Bottom(addr[last]);
    var destlen, dest, count := buf.Length, 0, 0;
    NothingPrinted(addr, was);
    while true
      invariant 0 <= count <= last && dest >= 0 && destlen >= 0 && dest + destlen == buf.Length
      invariant Remains(text, dest, addr, count) && Holds(buf[..], text, dest, was)
      decreases |addr| - count
    {
      ghost var before := buf[..];
      Turn(text, dest, addr, count, before, was);
      var entry := addr[count];
      count := count + 1;
      var number := Label(entry);
      var len := Snprintf(buf, dest, destlen, number);
      if len >= destlen {
        return false;
      }
      if Bottom(entry) {
        return true;
      }
      dest := dest + len;
      destlen := destlen - len;
      if destlen > 0 {
        PutSeparator(buf, dest);
        dest := dest + 1;
        destlen := destlen - 1;
      }
    }
  }

  /** The text from dest on is that of the entries from count on, and a separator stands before all but the first. */
  ghost predicate Remains(text: string, dest: nat, addr: seq<Entry>, count: nat) {
    dest <= |text| && count <= |addr| && text[dest..] == Text(addr[count..]) && (dest > 0 ==> text[dest - 1] == '/')
  }

  lemma NothingPrinted(addr: seq<Entry>, was: string)
    ensures Remains(Text(addr), 0, addr, 0) && Holds(was, Text(addr), 0, was)
  {
    assert addr[0..] == addr && Text(addr)[0..] == Text(addr) && Text(addr)[..0] + was[0..] == was;
  }

  /** What one turn of the loop makes of the buffer. */
  lemma Turn(text: string, dest: nat, addr: seq<Entry>, count: nat, before: string, was: string)
    requires count < |addr| && Remains(text, dest, addr, count) && Holds(before, text, dest, was)
    ensures var digits := Decimal(Label(addr[count]));
      dest <= |before|
      && var printed, at := Printed(before, dest, digits), dest + |digits|;
      if at >= |before| then HoldsCut(printed, text) && |text| >= |before|
      else if Bottom(addr[count]) then at == |text| && HoldsEnded(printed, text, at, was)
      else
        && |printed| == |before| && Remains(text, at + 1, addr, count + 1)
        && Holds(printed[at := '/'], text, at + 1, was)
  {
    hide Decimal, Label, Bottom;
    var digits := Decimal(Label(addr[count]));
    TextFrom(addr, count);
    assert digits <= text[dest..];
    if dest + |digits| >= |before| {
      DecimalDigits(Label(addr[count]));
      Truncated(text, dest, digits, before, was);
    } else {
      Placed(text, dest, digits, before, was);
      if !Bottom(addr[count]) {
        Separated(text, dest + |digits|, Text(addr[count + 1..]), Printed(before, dest, digits), was);
      }
    }
  }

  lemma TextFrom(stack: seq<Entry>, k: nat)
    requires k < |stack|
    ensures Text(stack[k..]) == Decimal(Label(stack[k])) + if Bottom(stack[k]) then "" else "/" + Text(stack[k + 1..])
  {
    assert stack[k..][0] == stack[k] && stack[k..][1..] == stack[k + 1..];
    assert Bottom(stack[k]) ==> Decimal(Label(stack[k])) + "" == Decimal(Label(stack[k]));
  }

  /** A number that fits is in its place in the text. */
  lemma Placed(text: string, dest: nat, digits: string, before: string, was: string)
    requires Holds(before, text, dest, was) && digits <= text[dest..] && dest + |digits| < |before|
    ensures HoldsEnded(Printed(before, dest, digits), text, dest + |digits|, was)
    ensures dest + |digits| <= |text| && text[dest + |digits|..] == text[dest..][|digits|..]
  {
    assert text[..dest + |digits|] == text[..dest] + digits;
  }

  /** The NUL after a number that is not the last gives way to the separator. */
  lemma Separated(text: string, dest: nat, tail: string, buf: string, was: string)
    requires HoldsEnded(buf, text, dest, was) && text[dest..] == "/" + tail
    ensures dest < |text| && text[dest] == '/' && text[dest + 1..] == tail
    ensures dest < |buf| && Holds(buf[dest := '/'], text, dest + 1, was)
  {
    assert text[dest + 1..] == text[dest..][1..];
    assert text[dest] == text[dest..][0];
  }

  /** A buffer that ends inside a number, or just after a separator. */
  lemma Truncated(text: string, dest: nat, digits: string, before: string, was: string)
    requires Holds(before, text, dest, was) && digits <= text[dest..] && dest + |digits| >= |before|
    requires forall c | c in digits :: '0' <= c <= '9'
    requires dest == |before| && dest > 0 ==> text[dest - 1] == '/'
    ensures HoldsCut(Printed(before, dest, digits), text)
  {
    if dest < |was| {
      var w := |was| - dest - 1;
      assert text[|was| - 1] == text[dest..][w] == digits[w] && digits[w] in digits;
      assert text[..|was| - 1] == text[..dest] + digits[..w];
      assert Printed(before, dest, digits) == text[..dest] + digits[..w] + [NUL];
    } else if dest > 0 {
      assert text[..dest] == text[..dest - 1] + [text[dest - 1]];
    }
  }

  // ----- parsing

  /** The value of a digit in bases up to 36; 36 for other characters. */
  function DigitValue(c: char): nat {
    if '0' <= c <= '9' then (c - '0') as nat
    else if 'a' <= c <= 'z' then (c - 'a') as nat + 10
    else if 'A' <= c <= 'Z' then (c - 'A') as nat + 10
    else 36
  }

  function Spaces(s: string): (n: nat)
    ensures n <= |s|
  {
    if s != [] && s[0] in " \t\n\r\U{0b}\U{0c}" then 1 + Spaces(s[1..]) else 0
  }

  /** How many characters at the start are digits in the base. */
  function Digits(s: string, base: nat): (n: nat)
    ensures n <= |s| && forall i :: 0 <= i < n ==> DigitValue(s[i]) < base
    ensures n < |s| ==> DigitValue(s[n]) >= base
  {
    if s != [] && DigitValue(s[0]) < base then 1 + Digits(s[1..], base) else 0
  }

  function Value(digits: string, base: nat): nat {
    if digits == [] then 0
    else Longer(Value(digits[..|digits| - 1], base), base, DigitValue(digits[|digits| - 1]))
  }

  /** The value of digits with one more digit. */
  function Longer(value: nat, base: nat, digit: nat): nat { value * base + digit }

  /** The number at the start of s: 0x and hexadecimal digits, 0 and octal digits, or decimal digits; and its length. */
  function Number(s: string): (r: (nat, nat))
    ensures r.1 <= |s|
  {
    var hex := |s| > 2 && s[0] == '0' && s[1] in "xX" && DigitValue(s[2]) < 16;
    var base := if hex then 16 else if s != [] && s[0] == '0' then 8 else 10;
    var k := if hex then 2 else 0;
    var n := Digits(s[k..], base);
    (Value(s[k..k + n], base), k + n)
  }

  /** An unsigned long of 64 bits with a sign; too large a number gives ULONG_MAX. */
  function Unsigned(minus: bool, magnitude: nat): nat {
    if magnitude > ULONG_MAX then ULONG_MAX
    else if minus && magnitude > 0 then ULONG_MAX + 1 - magnitude
    else magnitude
  }

  /** strtoul(s, &endp, 0): the value and the index of endp, which is 0 when there is no number. */
  function Strtoul(s: string): (r: (nat, nat))
    ensures r.1 <= |s|
  {
    var i := Spaces(s);
    var j := if i < |s| && s[i] in "+-" then i + 1 else i;
    var (magnitude, n) := Number(s[j..]);
    if n == 0 then (0, 0) else (Unsigned(j > i && s[i] == '-', magnitude), j + n)
  }

  /** What mpls_pton1 makes of a text (the characters before its NUL). */
  function Parse(name: string, maxlabels: nat): Option<seq<Entry>>
    decreases maxlabels
  {
    if maxlabels == 0 then None
    else
      var (number, end) := Strtoul(name);
      if number >= LABELS || end == 0 then None
      else if end == |name| then Some([Pack(number, true)])
      else if name[end] != '/' then None
      else After([Pack(number, false)], Parse(name[end + 1..], maxlabels - 1))
  }

  /** The entries already parsed, then the rest. */
  function After(done: seq<Entry>, rest: Option<seq<Entry>>): Option<seq<Entry>> {
    if rest.None? then None else Some(done + rest.value)
  }

  lemma AfterBoth(done: seq<Entry>, e: Entry, rest: Option<seq<Entry>>)
    ensures After(done, After([e], rest)) == After(done + [e], rest)
  {
    if rest.Some? {
      assert done + ([e] + rest.value) == done + [e] + rest.value;
    }
  }

  lemma AfterNothing(rest: Option<seq<Entry>>)
    ensures After([], rest) == rest
  {
    assert rest.Some? ==> [] + rest.value == rest.value;
  }

  lemma AfterLast(done: seq<Entry>, e: Entry)
    ensures After(done, Some([e])) == Some(done + [e])
  {
  }

  lemma AfterNone(done: seq<Entry>)
    ensures After(done, None).None?
  {
  }

  /** mpls_pton1: the size in bytes of the parsed stack, or 0. */
  method Pton(name: string, addr: array<Entry>, maxlabels: nat) returns (size: nat)
    requires maxlabels <= addr.Length
    modifies addr
    ensures match Parse(name, maxlabels)
      case None => size == 0
      case Some(stack) => size == 4 * |stack| && |stack| <= maxlabels && addr[..|stack|] == stack
    ensures forall k :: (if size > 0 then size / 4 else maxlabels) <= k < addr.Length ==> addr[k] == old(addr[k])
  {
    hide Strtoul, Pack, After;
    var rest := name;
    var count := 0;
    AfterNothing(Parse(name, maxlabels));
    assert addr[..0] == [];
    while count < maxlabels
      invariant count <= maxlabels
      invariant Parse(name, maxlabels) == After(addr[..count], Parse(rest, maxlabels - count))
      invariant forall k :: count <= k < addr.Length ==> addr[k] == old(addr[k])
    {
      ghost var done := addr[..count];
      AfterNone(done);
      var (number, end) := Strtoul(rest);
      if number >= LABELS {
        return 0;
      }
      if end == 0 {
        return 0;
      }
      addr[count] := Pack(number, false);
      if end == |rest| {
        addr[count] := Pack(number, true);
        assert addr[..count + 1] == done + [Pack(number, true)];
        AfterLast(done, Pack(number, true));
        return (count + 1) * 4;
      }
      if rest[end] != '/' {
        return 0;
      }
      rest := rest[end + 1..];
      count := count + 1;
      assert addr[..count] == done + [Pack(number, false)];
      AfterBoth(done, Pack(number, false), Parse(rest, maxlabels - count));
    }
    AfterNone(addr[..count]);
    return 0;
  }

  // ----- the round trip

  /** Decimal text is all digits, denotes its number, and starts with 0 only for zero. */
  lemma {:induction false} DecimalDigits(n: nat)
    ensures forall c | c in Decimal(n) :: '0' <= c <= '9'
    ensures Value(Decimal(n), 10) == n
    ensures n > 0 ==> Decimal(n)[0] != '0'
  {
    if n < 10 {
      assert Value(Decimal(n), 10) == Value([], 10) * 10 + DigitValue(Digit(n));
    } else {
      DecimalDigits(n / 10);
      assert Decimal(n)[..|Decimal(n)| - 1] == Decimal(n / 10) && Decimal(n)[0] == Decimal(n / 10)[0];
      assert Value(Decimal(n), 10) == Value(Decimal(n / 10), 10) * 10 + n % 10;
    }
  }

  lemma {:induction false} DigitsEnd(digits: string, rest: string)
    requires forall c | c in digits :: '0' <= c <= '9'
    requires rest == [] || rest[0] == '/'
    ensures Digits(digits + rest, 10) == |digits|
  {
    if digits == [] {
      assert digits + rest == rest;
    } else {
      assert digits[0] in digits && forall c | c in digits[1..] :: c in digits;
      assert (digits + rest)[1..] == digits[1..] + rest;
      DigitsEnd(digits[1..], rest);
    }
  }

  /** strtoul reads back a number printed with "%u" that ends the text or stands before a separator. */
  lemma StrtoulReads(n: nat, rest: string)
    requires n < LABELS && (rest == [] || rest[0] == '/')
    ensures Strtoul(Decimal(n) + rest) == (n, |Decimal(n)|)
  {
    hide Decimal, Value, Number;
    var s := Decimal(n) + rest;
    DecimalDigits(n);
    assert s[0] == Decimal(n)[0] && s[0] in Decimal(n);
    assert Spaces(s) == 0 && s[0..] == s;
    NumberReads(n, rest);
  }

  lemma NumberReads(n: nat, rest: string)
    requires rest == [] || rest[0] == '/'
    ensures Number(Decimal(n) + rest) == (n, |Decimal(n)|)
  {
    var s := Decimal(n) + rest;
    DecimalDigits(n);
    if n == 0 {
      assert s[1..] == rest && Digits(rest, 8) == 0;
      assert s[0..1] == "0" && Value("0", 8) == Value([], 8) * 8;
    } else {
      hide Decimal, Value;
      DigitsEnd(Decimal(n), rest);
      assert s[0..|Decimal(n)|] == Decimal(n) && s[0..] == s && s[0] == Decimal(n)[0];
    }
  }

  function Strip(e: Entry): (r: Entry)
    ensures Label(r) == Label(e) && Bottom(r) == Bottom(e) && Ttl(r) == 0 && TrafficClass(r) == 0
  {
    PackedFields(Label(e), Bottom(e));
    Pack(Label(e), Bottom(e))
  }

  /** A stack with nothing but labels and bottom bits left. */
  function Bare(stack: seq<Entry>): (r: seq<Entry>)
    ensures |r| == |stack|
    ensures forall k :: 0 <= k < |stack| ==> Label(r[k]) == Label(stack[k]) && (Bottom(r[k]) <==> Bottom(stack[k]))
    ensures forall k :: 0 <= k < |stack| ==> Ttl(r[k]) == 0 && TrafficClass(r[k]) == 0
  {
    if stack == [] then [] else [Strip(stack[0])] + Bare(stack[1..])
  }

  lemma TailWellFormed(stack: seq<Entry>)
    requires WellFormed(stack) && |stack| > 1
    ensures WellFormed(stack[1..]) && !Bottom(stack[0])
  {
  }

  lemma ParseOfLast(number: nat, maxlabels: nat)
    requires number < LABELS
    ensures Parse(Decimal(number), maxlabels) == if maxlabels > 0 then Some([Pack(number, true)]) else None
  {
    hide Strtoul, Pack, Decimal;
    StrtoulReads(number, "");
    assert Decimal(number) + "" == Decimal(number);
  }

  lemma ParseOfFirst(number: nat, rest: string, maxlabels: nat)
    requires number < LABELS && maxlabels > 0
    ensures Parse(Decimal(number) + "/" + rest, maxlabels) == After([Pack(number, false)], Parse(rest, maxlabels - 1))
  {
    hide Strtoul, Pack, Decimal;
    var name := Decimal(number) + "/" + rest;
    assert name == Decimal(number) + ("/" + rest);
    StrtoulReads(number, "/" + rest);
    assert name[|Decimal(number)|] == '/' && name[|Decimal(number)| + 1..] == rest;
  }

  /** Parsing a printed stack gives its labels and bottom bits back exactly when it has room for them. */
  lemma {:induction false} ParseOfText(stack: seq<Entry>, maxlabels: nat)
    requires WellFormed(stack)
    ensures Parse(Text(stack), maxlabels) == if |stack| <= maxlabels then Some(Bare(stack)) else None
    decreases |stack|
  {
    hide Text, Bare, Bottom, Pack, Decimal, Label, Ttl, TrafficClass, Parse;
    var number := Label(stack[0]);
    if |stack| == 1 {
      LastEntry(stack);
      ParseOfLast(number, maxlabels);
    } else {
      TailWellFormed(stack);
      FirstEntry(stack);
      hide WellFormed;
      if maxlabels > 0 {
        ParseOfFirst(number, Text(stack[1..]), maxlabels);
        ParseOfText(stack[1..], maxlabels - 1);
      } else {
        NoRoom(Text(stack));
      }
    }
  }

  lemma NoRoom(name: string)
    ensures Parse(name, 0).None?
  {
  }

  lemma LastEntry(stack: seq<Entry>)
    requires WellFormed(stack) && |stack| == 1
    ensures Text(stack) == Decimal(Label(stack[0])) && Bare(stack) == [Pack(Label(stack[0]), true)]
  {
    hide Decimal, Label, Pack, Bottom;
    assert Bottom(stack[0]) && stack[1..] == [];
  }

  lemma FirstEntry(stack: seq<Entry>)
    requires |stack| > 1 && !Bottom(stack[0])
    ensures Text(stack) == Decimal(Label(stack[0])) + "/" + Text(stack[1..])
    ensures Bare(stack) == [Pack(Label(stack[0]), false)] + Bare(stack[1..])
  {
    hide Decimal, Label, Pack, Bottom;
  }

  /** Every accepted text names a well-formed bare stack, so printing and parsing again changes nothing. */
  lemma {:induction false} ParseIsNormal(name: string, maxlabels: nat)
    ensures match Parse(name, maxlabels)
      case None => true
      case Some(stack) => WellFormed(stack) && Bare(stack) == stack && Parse(Text(stack), maxlabels) == Some(stack)
  {
    hide Parse, WellFormed, Bare, Text;
    ParseIsBare(name, maxlabels);
    match Parse(name, maxlabels)
    case None =>
    case Some(stack) => ParseOfText(stack, maxlabels);
  }

  lemma {:induction false} ParseIsBare(name: string, maxlabels: nat)
    ensures match Parse(name, maxlabels)
      case None => true
      case Some(stack) => WellFormed(stack) && Bare(stack) == stack && |stack| <= maxlabels
    decreases maxlabels
  {
    hide Strtoul, Label, Bottom, Pack, Ttl, TrafficClass;
    if Parse(name, maxlabels).Some? {
      var (number, end) := Strtoul(name);
      PackedFields(number, true);
      PackedFields(number, false);
      if end < |name| {
        ParseIsBare(name[end + 1..], maxlabels - 1);
        var tail := Parse(name[end + 1..], maxlabels - 1).value;
        var stack := [Pack(number, false)] + tail;
        assert Parse(name, maxlabels) == Some(stack) && stack[1..] == tail;
        assert Bare(stack) == [Pack(number, false)] + Bare(tail);
      }
    }
  }

  lemma {:induction false} TextHasNoNul(stack: seq<Entry>)
    ensures NUL !in Text(stack)
  {
    if stack != [] {
      hide Decimal, Label, Bottom;
      DecimalDigits(Label(stack[0]));
      TextHasNoNul(stack[1..]);
    }
  }

  /** What mpls_ntop1 leaves in the buffer, read back by mpls_pton1; 0 when the text did not fit. */
  method PrintAndParse(stack: seq<Entry>, buf: array<char>, addr: array<Entry>, maxlabels: nat) returns (size: nat)
    requires WellFormed(stack) && maxlabels <= addr.Length
    modifies buf, addr
    ensures size > 0 <==> |Text(stack)| < buf.Length && |stack| <= maxlabels
    ensures size > 0 ==> size == 4 * |stack| && addr[..|stack|] == Bare(stack)
  {
    hide Text, Bare, Parse;
    assert Bottom(stack[|stack| - 1]);
    var ok := Ntop(stack, buf);
    if !ok {
      return 0;
    }
    TextHasNoNul(stack);
    CStringIs(Text(stack), buf[|Text(stack)| + 1..]);
    assert buf[..] == Text(stack) + [NUL] + buf[|Text(stack)| + 1..];
    ParseOfText(stack, maxlabels);
    size := Pton(CString(buf[..]), addr, maxlabels);
  }

  // ----- what else may be written for a label

  const NUMERALS := "0123456789abcdef"

  function Quotient(n: nat, base: nat): (q: nat)
    requires base >= 2
    ensures n >= base ==> q < n
  {
    n / base
  }

  function Rest(n: nat, base: nat): (r: nat)
    requires base >= 2
    ensures r < base
  {
    n % base
  }

  /** A number in a base up to 16. */
  function Written(n: nat, base: nat): (s: string)
    requires 2 <= base <= 16
    ensures s != []
    decreases n
  {
    if n < base then [NUMERALS[n]] else Written(Quotient(n, base), base) + [NUMERALS[Rest(n, base)]]
  }

  lemma NumeralValue(d: nat)
    requires d < 16
    ensures DigitValue(NUMERALS[d]) == d
  {
    assert d < 10 ==> NUMERALS[d] == '0' + d as char;
    assert d >= 10 ==> NUMERALS[d] == 'a' + (d - 10) as char;
  }

  lemma {:induction false} WrittenReads(n: nat, base: nat)
    requires 2 <= base <= 16
    ensures Value(Written(n, base), base) == n
    ensures forall c | c in Written(n, base) :: DigitValue(c) < base
    decreases n
  {
    hide DigitValue, Value, Quotient, Rest, Longer;
    if n < base {
      NumeralValue(n);
      ValueSnoc("", NUMERALS[n], base);
      assert "" + [NUMERALS[n]] == [NUMERALS[n]];
      LongerNothing(base, n);
    } else {
      NumeralValue(Rest(n, base));
      WrittenReads(Quotient(n, base), base);
      ValueSnoc(Written(Quotient(n, base), base), NUMERALS[Rest(n, base)], base);
      QuotientAndRest(n, base);
    }
  }

  lemma ValueSnoc(digits: string, c: char, base: nat)
    ensures Value([], base) == 0 && Value(digits + [c], base) == Longer(Value(digits, base), base, DigitValue(c))
  {
    hide Longer;
    assert (digits + [c])[..|digits|] == digits;
  }

  lemma LongerNothing(base: nat, d: nat)
    ensures Longer(0, base, d) == d
  {
  }

  lemma QuotientAndRest(n: nat, base: nat)
    requires base >= 2
    ensures n == Longer(Quotient(n, base), base, Rest(n, base))
  {
  }

  /** The digits end where the text goes on with something else. */
  lemma {:induction false} DigitsStop(digits: string, rest: string, base: nat)
    requires forall c | c in digits :: DigitValue(c) < base
    requires rest == [] || DigitValue(rest[0]) >= base
    ensures Digits(digits + rest, base) == |digits|
  {
    hide DigitValue;
    if digits == [] {
      assert digits + rest == rest;
    } else {
      assert digits[0] in digits && forall c | c in digits[1..] :: c in digits;
      assert (digits + rest)[1..] == digits[1..] + rest;
      DigitsStop(digits[1..], rest, base);
    }
  }

  /** strtoul reads hexadecimal numbers behind 0x or 0X and octal ones behind 0. */
  lemma PrefixedNumbers(n: nat, rest: string)
    ensures (rest == [] || DigitValue(rest[0]) >= 16) ==>
      && Number("0x" + Written(n, 16) + rest) == (n, 2 + |Written(n, 16)|)
      && Number("0X" + Written(n, 16) + rest) == (n, 2 + |Written(n, 16)|)
    ensures (rest == [] || DigitValue(rest[0]) >= 8) ==>
      Number("0" + Written(n, 8) + rest) == (n, 1 + |Written(n, 8)|)
  {
    if rest == [] || DigitValue(rest[0]) >= 16 {
      HexNumber("0x", n, rest);
      HexNumber("0X", n, rest);
    }
    if rest == [] || DigitValue(rest[0]) >= 8 {
      OctalNumber(n, rest);
    }
  }

  lemma HexNumber(prefix: string, n: nat, rest: string)
    requires prefix == "0x" || prefix == "0X"
    requires rest == [] || DigitValue(rest[0]) >= 16
    ensures Number(prefix + Written(n, 16) + rest) == (n, 2 + |Written(n, 16)|)
  {
    hide Written, Value, DigitValue, Number, Digits;
    var w := Written(n, 16);
    var s := prefix + w + rest;
    WrittenReads(n, 16);
    DigitsStop(w, rest, 16);
    assert s[2] == w[0] && w[0] in w;
    assert s[2..] == w + rest && s[2..2 + |w|] == w;
    HexReads(s, |w|);
  }

  lemma HexReads(s: string, n: nat)
    requires |s| >= 2 + n > 2 && s[0] == '0' && (s[1] == 'x' || s[1] == 'X') && DigitValue(s[2]) < 16
    requires Digits(s[2..], 16) == n
    ensures Number(s) == (Value(s[2..2 + n], 16), 2 + n)
  {
    hide Value, DigitValue, Digits;
  }

  lemma OctalNumber(n: nat, rest: string)
    requires rest == [] || DigitValue(rest[0]) >= 8
    ensures Number("0" + Written(n, 8) + rest) == (n, 1 + |Written(n, 8)|)
  {
    hide Written, Value;
    var w := Written(n, 8);
    var s := "0" + w + rest;
    WrittenReads(n, 8);
    assert s[1] == w[0] && w[0] in w;
    hide DigitValue;
    assert s[0..] == "0" + w + rest && "0" + w + rest == ("0" + w) + rest;
    ZeroIsDigit();
    DigitsStop("0" + w, rest, 8);
    assert s[0..|w| + 1] == "0" + w;
    LeadingZero(w, 8);
  }

  lemma ZeroIsDigit()
    ensures DigitValue('0') == 0 && DigitValue('x') == 33 && DigitValue('X') == 33
  {
  }

  lemma {:induction false} LeadingZero(digits: string, base: nat)
    ensures Value("0" + digits, base) == Value(digits, base)
  {
    if digits == [] {
      assert "0" + digits == "0" && "0"[..0] == [];
    } else {
      var n := |digits| - 1;
      LeadingZero(digits[..n], base);
      assert ("0" + digits)[..n + 1] == "0" + digits[..n];
    }
  }

  predicate Plain(s: string) { s == [] || (s[0] !in " \t\n\r\U{0b}\U{0c}" && s[0] !in "+-") }

  /** White space before a number is skipped, a minus sign negates it modulo 2^64, and too large a number is cut. */
  lemma SignedNumbers(c: char, s: string)
    requires Plain(s)
    ensures var (n, len) := Number(s);
      && Strtoul(s) == (if len == 0 then (0, 0) else (if n < 0x1_0000_0000_0000_0000 then n else ULONG_MAX, len))
      && Strtoul("+" + s) == (if len == 0 then (0, 0) else (Strtoul(s).0, len + 1))
      && Strtoul("-" + s) == (if len == 0 then (0, 0)
                              else if n >= 0x1_0000_0000_0000_0000 then (0xFFFF_FFFF_FFFF_FFFF, len + 1)
                              else ((0x1_0000_0000_0000_0000 - n) % 0x1_0000_0000_0000_0000, len + 1))
      && (c as int == 32 || 9 <= c as int <= 13 ==>
            Strtoul([c] + s) == (if len == 0 then (0, 0) else (Strtoul(s).0, len + 1)))
  {
    hide Number;
    assert s[0..] == s && ("+" + s)[1..] == s && ("-" + s)[1..] == s && ([c] + s)[1..] == s;
    assert c as int == 32 || 9 <= c as int <= 13 ==> c in " \t\n\r\U{0b}\U{0c}";
    assert Spaces(s) == 0 && Spaces("+" + s) == 0 && Spaces("-" + s) == 0;
  }

  /** The text of a stack of two labels. */
  lemma TwoLabelsPrinted()
    ensures Text([0x10000, 0x3100]) == "16/3"
  {
    assert Decimal(16) == Decimal(1) + [Digit(6)] && Decimal(1) == "1" && Decimal(3) == "3";
    assert [0x10000, 0x3100][1..] == [0x3100];
    assert Text([0x3100]) == Decimal(3) && Text([0x10000, 0x3100]) == Decimal(16) + "/" + Text([0x3100]);
  }

  /** The same stack read from another text, and the same text with too little room. */
  lemma TwoLabelsParsed()
    ensures Parse("0x10/3", 2) == Some([0x10000, 0x3100]) && Parse("16/3", 1) == None
  {
    hide Strtoul, Number, Decimal, Written, Spaces, Digits, Value, DigitValue;
    WrittenSixteen();
    HexNumber("0x", 16, "/3");
    SignedNumbers(' ', "0x10/3");
    assert "0x" + "10" + "/3" == "0x10/3" && "0x10/3"[5..] == "3";
    StrtoulReads(3, "");
    assert "3" + "" == "3";
    assert Parse("3", 1) == Some([0x3100]);
    assert [0x10000] + [0x3100] == [0x10000, 0x3100];
    StrtoulReads(16, "/3");
    assert "16" + "/3" == "16/3" && "16/3"[3..] == "3";
    assert Parse("3", 0) == None;
  }

  lemma WrittenSixteen()
    ensures Written(16, 16) == "10" && Decimal(16) == "16" && Decimal(3) == "3" && DigitValue('/') == 36
  {
    assert Written(16, 16) == Written(1, 16) + ['0'] && Written(1, 16) == "1";
    assert Decimal(16) == Decimal(1) + [Digit(6)] && Decimal(1) == "1";
  }
}
