/** JSON texts: the grammar of RFC 8259, and the printer and the parser of catalog files, for texts
    without white space. */
module Json {
  import opened Wrappers

  /** Dictionaries are listed in the order of their text, which is the order of their keys when they
      are printed to be signed.  Numbers are kept as they are written. */
  datatype Value =
    | Null
    | Bool(truth: bool)
    | Str(s: string)
    | Num(text: string)
    | Arr(items: seq<Value>)
    | Obj(members: seq<Member>)

  datatype Member = Member(key: string, value: Value)

  // ----- The grammar, by character codes

  /** Section 7: what a hexadecimal digit stands for. */
  ghost function Hex(c: char): int {
    var n := c as int;
    if 0x30 <= n <= 0x39 then n - 0x30
    else if 0x41 <= n <= 0x46 then n - 0x41 + 10
    else if 0x61 <= n <= 0x66 then n - 0x61 + 10
    else -1
  }

  /** A backslash, the letter u, and the four digits of n. */
  ghost predicate IsUnit(u: string, n: int) {
    && |u| == 6 && u[0] as int == 0x5C && u[1] as int == 0x75
    && Hex(u[2]) >= 0 && Hex(u[3]) >= 0 && Hex(u[4]) >= 0 && Hex(u[5]) >= 0
    && n == ((Hex(u[2]) * 16 + Hex(u[3])) * 16 + Hex(u[4])) * 16 + Hex(u[5])
  }

  /** The letter that may stand behind a backslash, for a character that it names. */
  ghost predicate IsShort(letter: int, n: int) {
    || (letter == 0x22 && n == 0x22) || (letter == 0x5C && n == 0x5C) || (letter == 0x2F && n == 0x2F)
    || (letter == 0x62 && n == 0x08) || (letter == 0x66 && n == 0x0C) || (letter == 0x6E && n == 0x0A)
    || (letter == 0x72 && n == 0x0D) || (letter == 0x74 && n == 0x09)
  }

  /** Section 7: u is a way to write the character c in a string: as it is, if it is no control character, quotation
      mark or backslash; by a letter; by its number; or, if it has more than sixteen bits, by the
      numbers of its two surrogates. */
  ghost predicate IsChar(u: string, c: char) {
    var n := c as int;
    || (|u| == 1 && u[0] == c && (0x20 <= n <= 0x21 || 0x23 <= n <= 0x5B || 0x5D <= n))
    || (|u| == 2 && u[0] as int == 0x5C && IsShort(u[1] as int, n))
    || IsUnit(u, n)
    || (|u| == 12 && 0x1_0000 <= n && IsUnit(u[..6], 0xD800 + (n - 0x1_0000) / 0x400)
                                   && IsUnit(u[6..], 0xDC00 + (n - 0x1_0000) % 0x400))
  }

  ghost predicate IsChars(t: string, s: string)
    decreases |s|
  {
    if s == "" then t == ""
    else exists k :: 0 < k <= |t| && IsChar(t[..k], s[0]) && IsChars(t[k..], s[1..])
  }

  ghost predicate IsString(t: string, s: string) {
    && |t| >= 2 && t[0] as int == 0x22 && t[|t| - 1] as int == 0x22
    && IsChars(t[1..|t| - 1], s)
  }

  /** Section 6: numbers. */
  ghost predicate IsDigits(t: string) {
    t != "" && forall i :: 0 <= i < |t| ==> 0x30 <= t[i] as int <= 0x39
  }

  ghost predicate IsInt(t: string) {
    var u := if t != "" && t[0] as int == 0x2D then t[1..] else t;
    IsDigits(u) && (u[0] as int == 0x30 ==> |u| == 1)
  }

  ghost predicate IsFrac(t: string) {
    t == "" || (t[0] as int == 0x2E && IsDigits(t[1..]))
  }

  ghost predicate IsExp(t: string) {
    t == "" || (t[0] as int in {0x45, 0x65}
                && IsDigits(if |t| > 1 && t[1] as int in {0x2B, 0x2D} then t[2..] else t[1..]))
  }

  ghost predicate IsNumber(t: string) {
    exists a: string, b: string, c: string :: HasParts(t, a, b, c)
  }

  ghost predicate HasParts(t: string, a: string, b: string, c: string) {
    t == a + b + c && IsInt(a) && IsFrac(b) && IsExp(c)
  }

  /** Sections 2 to 5: t is a text, without white space, of the value v. */
  ghost predicate IsJson(t: string, v: Value)
    decreases v, 0
  {
    match v
    case Null => t == "null"
    case Bool(truth) => t == if truth then "true" else "false"
    case Str(s) => IsString(t, s)
    case Num(text) => t == text && IsNumber(text)
    case Arr(items) =>
      |t| >= 2 && t[0] as int == 0x5B && t[|t| - 1] as int == 0x5D && IsItems(t[1..|t| - 1], items)
    case Obj(members) =>
      |t| >= 2 && t[0] as int == 0x7B && t[|t| - 1] as int == 0x7D && IsMembers(t[1..|t| - 1], members)
  }

  /** The items, with commas between them. */
  ghost predicate IsItems(t: string, items: seq<Value>)
    decreases items, 1
  {
    if items == [] then t == ""
    else if |items| == 1 then IsJson(t, items[0])
    else exists k :: 0 <= k < |t| && IsJson(t[..k], items[0]) && t[k] as int == 0x2C && IsItems(t[k + 1..], items[1..])
  }

  /** A name, a colon and a value. */
  ghost predicate IsMember(t: string, m: Member)
    decreases m, 1
  {
    exists k :: 0 <= k < |t| && IsString(t[..k], m.key) && t[k] as int == 0x3A && IsJson(t[k + 1..], m.value)
  }

  ghost predicate IsMembers(t: string, members: seq<Member>)
    decreases members, 2
  {
    if members == [] then t == ""
    else if |members| == 1 then IsMember(t, members[0])
    else
      exists k :: 0 <= k < |t| && IsMember(t[..k], members[0]) && t[k] as int == 0x2C
             && IsMembers(t[k + 1..], members[1..])
  }

  /** Every number in a value is one. */
  ghost predicate Proper(v: Value) {
    match v
    case Num(text) => IsNumber(text)
    case Arr(items) => forall i :: 0 <= i < |items| ==> Proper(items[i])
    case Obj(members) => forall i :: 0 <= i < |members| ==> Proper(members[i].value)
    case _ => true
  }

  // ----- Printing

  const QUOTE := '\"'
  const BACKSLASH := '\\'

  function HexDigit(d: int): char
    requires 0 <= d < 16
  {
    if d < 10 then '0' + d as char else 'A' + (d - 10) as char
  }

  function Unit(n: int): string
    requires 0 <= n < 0x1_0000
  {
    [BACKSLASH, 'u', HexDigit(n / 4096), HexDigit(n / 256 % 16), HexDigit(n / 16 % 16), HexDigit(n % 16)]
  }

  /** Characters that are not ASCII are written by their numbers. */
  function EscapeChar(c: char): string {
    if c == QUOTE || c == BACKSLASH then [BACKSLASH, c]
    else if c == '\n' then [BACKSLASH, 'n']
    else if c == '\r' then [BACKSLASH, 'r']
    else if c == '\t' then [BACKSLASH, 't']
    else if c as int == 8 then [BACKSLASH, 'b']
    else if c as int == 12 then [BACKSLASH, 'f']
    else if ' ' <= c && c as int < 0x80 then [c]
    else if c as int < 0x1_0000 then Unit(c as int)
    else Unit(0xD800 + (c as int - 0x1_0000) / 0x400) + Unit(0xDC00 + (c as int - 0x1_0000) % 0x400)
  }

  function Escape(s: string): string {
    if s == "" then "" else EscapeChar(s[0]) + Escape(s[1..])
  }

  function PrintString(s: string): string {
    [QUOTE] + Escape(s) + [QUOTE]
  }

  function Print(v: Value): string {
    match v
    case Null => "null"
    case Bool(truth) => if truth then "true" else "false"
    case Str(s) => PrintString(s)
    case Num(text) => text
    case Arr(items) => "[" + PrintItems(items) + "]"
    case Obj(members) => "{" + PrintMembers(members) + "}"
  }

  function PrintItems(items: seq<Value>): string {
    if items == [] then ""
    else if |items| == 1 then Print(items[0])
    else Print(items[0]) + "," + PrintItems(items[1..])
  }

  function PrintMember(m: Member): string {
    PrintString(m.key) + ":" + Print(m.value)
  }

  function PrintMembers(members: seq<Member>): string {
    if members == [] then ""
    else if |members| == 1 then PrintMember(members[0])
    else PrintMember(members[0]) + "," + PrintMembers(members[1..])
  }

  // ----- What is printed is JSON

  lemma HexDigitIs(d: int)
    requires 0 <= d < 16
    ensures Hex(HexDigit(d)) == d
  {
  }

  lemma FourDigits(n: int)
    requires 0 <= n < 0x1_0000
    ensures n == ((n / 4096 * 16 + n / 256 % 16) * 16 + n / 16 % 16) * 16 + n % 16
  {
  }

  lemma UnitIs(n: int)
    requires 0 <= n < 0x1_0000
    ensures IsUnit(Unit(n), n)
  {
    var a, b, c, d := n / 4096, n / 256 % 16, n / 16 % 16, n % 16;
    FourDigits(n);
    HexDigitIs(a);
    HexDigitIs(b);
    HexDigitIs(c);
    HexDigitIs(d);
  }

  lemma PairIs(n: int)
    requires 0x1_0000 <= n < 0x11_0000
    ensures var u := Unit(0xD800 + (n - 0x1_0000) / 0x400) + Unit(0xDC00 + (n - 0x1_0000) % 0x400);
            |u| == 12 && IsUnit(u[..6], 0xD800 + (n - 0x1_0000) / 0x400)
            && IsUnit(u[6..], 0xDC00 + (n - 0x1_0000) % 0x400)
  {
    var hi, lo := 0xD800 + (n - 0x1_0000) / 0x400, 0xDC00 + (n - 0x1_0000) % 0x400;
    UnitIs(hi);
    UnitIs(lo);
    assert (Unit(hi) + Unit(lo))[..6] == Unit(hi) && (Unit(hi) + Unit(lo))[6..] == Unit(lo);
  }

  lemma PlainIs(c: char)
    requires EscapeChar(c) == [c] && c != QUOTE && c != BACKSLASH && ' ' <= c
    ensures IsChar(EscapeChar(c), c)
  {
  }

  lemma ShortIs(u: string, c: char)
    requires |u| == 2 && u[0] == BACKSLASH && IsShort(u[1] as int, c as int)
    ensures IsChar(u, c)
  {
  }

  lemma NumberedIs(u: string, c: char)
    requires IsUnit(u, c as int)
    ensures IsChar(u, c)
  {
  }

  predicate HasShort(c: char) {
    c in {QUOTE, BACKSLASH, '\n', '\r', '\t'} || c as int in {8, 12}
  }

  lemma EscapeShort(c: char)
    requires HasShort(c)
    ensures IsChar(EscapeChar(c), c)
  {
    ShortIs(EscapeChar(c), c);
  }

  lemma EscapeLong(c: char)
    requires !HasShort(c)
    ensures EscapeChar(c) == if ' ' <= c && c as int < 0x80 then [c]
                             else if c as int < 0x1_0000 then Unit(c as int)
                             else Unit(0xD800 + (c as int - 0x1_0000) / 0x400)
                                    + Unit(0xDC00 + (c as int - 0x1_0000) % 0x400)
  {
  }

  lemma EscapeCharIs(c: char)
    ensures IsChar(EscapeChar(c), c)
  {
    if HasShort(c) {
      EscapeShort(c);
    } else {
      EscapeLong(c);
      if ' ' <= c && c as int < 0x80 {
        PlainIs(c);
      } else if c as int < 0x1_0000 {
        UnitIs(c as int);
        NumberedIs(Unit(c as int), c);
      } else {
        PairIs(c as int);
      }
    }
  }

  lemma {:induction false} EscapeIs(s: string)
    ensures IsChars(Escape(s), s)
  {
    if s != "" {
      EscapeCharIs(s[0]);
      EscapeIs(s[1..]);
      var u := EscapeChar(s[0]);
      assert Escape(s)[..|u|] == u && Escape(s)[|u|..] == Escape(s[1..]);
    }
  }

  lemma PrintStringIs(s: string)
    ensures IsString(PrintString(s), s)
  {
    EscapeIs(s);
    var t := PrintString(s);
    assert t[1..|t| - 1] == Escape(s);
  }

  lemma Inside(open_: char, inner: string, close_: char)
    ensures var t := [open_] + inner + [close_]; t[0] == open_ && t[|t| - 1] == close_ && t[1..|t| - 1] == inner
  {
  }

  lemma Around(first: string, mark: char, others: string)
    ensures var t := first + [mark] + others;
            t[..|first|] == first && t[|first|] == mark && t[|first| + 1..] == others
  {
  }

  /** What is printed for a value is a text of it. */
  lemma {:induction false} PrintIs(v: Value)
    requires Proper(v)
    ensures IsJson(Print(v), v)
    decreases v, 0
  {
    match v
    case Str(s) =>
      PrintStringIs(s);
    case Arr(items) =>
      PrintItemsIs(items);
      Inside('[', PrintItems(items), ']');
    case Obj(members) =>
      PrintMembersIs(members);
      Inside('{', PrintMembers(members), '}');
    case _ =>
  }

  lemma {:induction false} PrintItemsIs(items: seq<Value>)
    requires forall i :: 0 <= i < |items| ==> Proper(items[i])
    ensures IsItems(PrintItems(items), items)
    decreases items, 1
  {
    if items != [] {
      PrintIs(items[0]);
      if |items| > 1 {
        PrintItemsIs(items[1..]);
        Around(Print(items[0]), ',', PrintItems(items[1..]));
      }
    }
  }

  lemma {:induction false} PrintMemberIs(m: Member)
    requires Proper(m.value)
    ensures IsMember(PrintMember(m), m)
    decreases m, 1
  {
    PrintStringIs(m.key);
    PrintIs(m.value);
    Around(PrintString(m.key), ':', Print(m.value));
  }

  lemma {:induction false} PrintMembersIs(members: seq<Member>)
    requires forall i :: 0 <= i < |members| ==> Proper(members[i].value)
    ensures IsMembers(PrintMembers(members), members)
    decreases members, 2
  {
    if members != [] {
      PrintMemberIs(members[0]);
      if |members| > 1 {
        PrintMembersIs(members[1..]);
        Around(PrintMember(members[0]), ',', PrintMembers(members[1..]));
      }
    }
  }

  // ----- Parsing

  function HexValue(c: char): Option<int> {
    if '0' <= c <= '9' then Some(c as int - '0' as int)
    else if 'a' <= c <= 'f' then Some(c as int - 'a' as int + 10)
    else if 'A' <= c <= 'F' then Some(c as int - 'A' as int + 10)
    else None
  }

  /** The number at the start of s, if s starts with a backslash, the letter u and four digits. */
  function ParseUnit(s: string): (r: Option<int>)
    ensures r.Some? ==> |s| >= 6 && 0 <= r.value < 0x1_0000
  {
    if |s| < 6 || s[0] != BACKSLASH || s[1] != 'u' then None
    else
      var high, low := ParsePair(s[2], s[3]), ParsePair(s[4], s[5]);
      if high.None? || low.None? then None else Some(high.value * 256 + low.value)
  }

  function ParsePair(c: char, d: char): (r: Option<int>)
    ensures r.Some? ==> 0 <= r.value < 0x100
  {
    if HexValue(c).None? || HexValue(d).None? then None else Some(HexValue(c).value * 16 + HexValue(d).value)
  }

  /** The character that s starts with, if s starts with a backslash, and the length of its writing. */
  function ParseEscape(s: string): (r: Option<(char, nat)>)
    ensures r.Some? ==> 2 <= r.value.1 <= |s|
  {
    if |s| < 2 then None
    else if s[1] == QUOTE || s[1] == BACKSLASH || s[1] == '/' then Some((s[1], 2))
    else if s[1] == 'n' then Some(('\n', 2))
    else if s[1] == 'r' then Some(('\r', 2))
    else if s[1] == 't' then Some(('\t', 2))
    else if s[1] == 'b' then Some((8 as char, 2))
    else if s[1] == 'f' then Some((12 as char, 2))
    else
      var unit := ParseUnit(s);
      if unit.None? then None
      else if unit.value < 0xD800 || 0xE000 <= unit.value then Some((unit.value as char, 6))
      else if 0xDC00 <= unit.value then None
      else
        var low := ParseUnit(s[6..]);
        if low.Some? && 0xDC00 <= low.value < 0xE000
        then Some(((0x1_0000 + (unit.value - 0xD800) * 0x400 + (low.value - 0xDC00)) as char, 12))
        else None
  }

  /** Read the characters of a string up to its closing quote; the rest is what follows that. */
  function ParseChars(s: string): (r: Option<(string, string)>)
    ensures r.Some? ==> |r.value.1| < |s|
  {
    if s == "" then None
    else if s[0] == QUOTE then Some(("", s[1..]))
    else if s[0] == BACKSLASH then
      var e := ParseEscape(s);
      if e.None? then None else Prepend(e.value.0, ParseChars(s[e.value.1..]))
    else if s[0] < ' ' then None
    else Prepend(s[0], ParseChars(s[1..]))
  }

  function Prepend(c: char, r: Option<(string, string)>): Option<(string, string)> {
    if r.None? then None else Some(([c] + r.value.0, r.value.1))
  }

  predicate IsDigit(c: char) { '0' <= c <= '9' }

  /** The number of digits that s starts with. */
  function DigitCount(s: string): (n: nat)
    ensures n <= |s|
  {
    if s == "" || !IsDigit(s[0]) then 0 else 1 + DigitCount(s[1..])
  }

  predicate Starts(s: string, c: char) {
    s != "" && s[0] == c
  }

  function FracLength(s: string): (n: nat)
    ensures n <= |s|
  {
    if Starts(s, '.') && DigitCount(s[1..]) > 0 then 1 + DigitCount(s[1..]) else 0
  }

  function ExpLength(s: string): (n: nat)
    ensures n <= |s|
  {
    if Starts(s, 'e') || Starts(s, 'E') then
      var m := if Starts(s[1..], '+') || Starts(s[1..], '-') then 2 else 1;
      if DigitCount(s[m..]) > 0 then m + DigitCount(s[m..]) else 0
    else 0
  }

  function IntLength(s: string): (n: nat)
    ensures n <= |s|
  {
    var m := if Starts(s, '-') then 1 else 0;
    if DigitCount(s[m..]) == 0 then 0 else if s[m] == '0' then m + 1 else m + DigitCount(s[m..])
  }

  /** The length of the number that s starts with, 0 if it starts with none. */
  function NumberLength(s: string): (n: nat)
    ensures n <= |s|
  {
    var i := IntLength(s);
    if i == 0 then 0
    else
      var j := i + FracLength(s[i..]);
      j + ExpLength(s[j..])
  }

  function ParseValue(s: string): (r: Option<(Value, string)>)
    ensures r.Some? ==> |r.value.1| < |s|
    decreases |s|, 0
  {
    if s == "" then None
    else if s[0] == QUOTE then
      var r := ParseChars(s[1..]);
      if r.None? then None else Some((Str(r.value.0), r.value.1))
    else if s[0] == '[' then
      if Starts(s[1..], ']') then Some((Arr([]), s[2..]))
      else
        var r := ParseItems(s[1..]);
        if r.None? then None else Some((Arr(r.value.0), r.value.1))
    else if s[0] == '{' then
      if Starts(s[1..], '}') then Some((Obj([]), s[2..]))
      else
        var r := ParseMembers(s[1..]);
        if r.None? then None else Some((Obj(r.value.0), r.value.1))
    else if "null" <= s then Some((Null, s[4..]))
    else if "true" <= s then Some((Bool(true), s[4..]))
    else if "false" <= s then Some((Bool(false), s[5..]))
    else
      var n := NumberLength(s);
      if n == 0 then None else Some((Num(s[..n]), s[n..]))
  }

  /** Items up to and including the closing bracket. */
  function ParseItems(s: string): (r: Option<(seq<Value>, string)>)
    ensures r.Some? ==> |r.value.1| < |s|
    decreases |s|, 1
  {
    var v := ParseValue(s);
    if v.None? then None
    else if Starts(v.value.1, ']') then Some(([v.value.0], v.value.1[1..]))
    else if Starts(v.value.1, ',') then
      var r := ParseItems(v.value.1[1..]);
      if r.None? then None else Some(([v.value.0] + r.value.0, r.value.1))
    else None
  }

  function ParseMember(s: string): (r: Option<(Member, string)>)
    ensures r.Some? ==> |r.value.1| < |s|
    decreases |s|, 1
  {
    if !Starts(s, QUOTE) then None
    else
      var k := ParseChars(s[1..]);
      if k.None? || !Starts(k.value.1, ':') then None
      else
        var v := ParseValue(k.value.1[1..]);
        if v.None? then None else Some((Member(k.value.0, v.value.0), v.value.1))
  }

  /** Members up to and including the closing brace. */
  function ParseMembers(s: string): (r: Option<(seq<Member>, string)>)
    ensures r.Some? ==> |r.value.1| < |s|
    decreases |s|, 2
  {
    var m := ParseMember(s);
    if m.None? then None
    else if Starts(m.value.1, '}') then Some(([m.value.0], m.value.1[1..]))
    else if Starts(m.value.1, ',') then
      var r := ParseMembers(m.value.1[1..]);
      if r.None? then None else Some(([m.value.0] + r.value.0, r.value.1))
    else None
  }

  // ----- Every text of a value is read

  lemma HexSame(c: char)
    ensures HexValue(c) == if Hex(c) >= 0 then Some(Hex(c)) else None
  {
  }

  lemma UnitRead(u: string, n: int, tail: string)
    requires IsUnit(u, n)
    ensures ParseUnit(u + tail) == Some(n)
  {
    forall i | 2 <= i < 6 {
      HexSame(u[i]);
    }
  }

  lemma PairRead(u: string, hi: int, lo: int, tail: string)
    requires |u| == 12 && IsUnit(u[..6], hi) && IsUnit(u[6..], lo) && 0xD800 <= hi < 0xDC00 && 0xDC00 <= lo < 0xE000
    ensures ParseEscape(u + tail) == Some(((0x1_0000 + (hi - 0xD800) * 0x400 + (lo - 0xDC00)) as char, 12))
  {
    UnitRead(u[..6], hi, u[6..] + tail);
    UnitRead(u[6..], lo, tail);
    assert u[..6] + (u[6..] + tail) == u + tail && (u + tail)[6..] == u[6..] + tail;
  }

  /** A character that is not written as it is. */
  lemma EscapeRead(u: string, c: char, tail: string)
    requires IsChar(u, c) && |u| > 1
    ensures u[0] == BACKSLASH && ParseEscape(u + tail) == Some((c, |u|))
  {
    var n := c as int;
    if |u| == 6 {
      UnitRead(u, n, tail);
    } else if |u| == 12 {
      PairRead(u, 0xD800 + (n - 0x1_0000) / 0x400, 0xDC00 + (n - 0x1_0000) % 0x400, tail);
    }
  }

  lemma CharRead(u: string, c: char, tail: string)
    requires IsChar(u, c)
    ensures ParseChars(u + tail) == Prepend(c, ParseChars(tail))
  {
    if |u| == 1 {
      assert (u + tail)[1..] == tail;
    } else {
      EscapeRead(u, c, tail);
      assert (u + tail)[|u|..] == tail;
    }
  }

  lemma Quoted(t: string, k: nat, rest: string)
    requires k <= |t|
    ensures t + [QUOTE] + rest == t[..k] + (t[k..] + [QUOTE] + rest)
  {
  }

  lemma FirstCharRead(t: string, k: nat, c: char, s: string, rest: string)
    requires k <= |t| && IsChar(t[..k], c)
    requires ParseChars(t[k..] + [QUOTE] + rest) == Some((s, rest))
    ensures ParseChars(t + [QUOTE] + rest) == Some(([c] + s, rest))
  {
    CharRead(t[..k], c, t[k..] + [QUOTE] + rest);
    Quoted(t, k, rest);
  }

  lemma NoneRead(rest: string)
    ensures ParseChars("" + [QUOTE] + rest) == Some(("", rest))
  {
    assert ("" + [QUOTE] + rest)[1..] == rest;
  }

  lemma {:induction false} CharsRead(t: string, s: string, rest: string)
    requires IsChars(t, s)
    ensures ParseChars(t + [QUOTE] + rest) == Some((s, rest))
    decreases |s|
  {
    if s == "" {
      NoneRead(rest);
    } else {
      var k :| 0 < k <= |t| && IsChar(t[..k], s[0]) && IsChars(t[k..], s[1..]);
      CharsRead(t[k..], s[1..], rest);
      FirstCharRead(t, k, s[0], s[1..], rest);
      assert s == [s[0]] + s[1..];
    }
  }

  lemma {:induction false} DigitsRead(d: string, rest: string)
    requires d == "" || IsDigits(d)
    requires rest == "" || !IsDigit(rest[0])
    ensures DigitCount(d + rest) == |d|
  {
    if d == "" {
      assert d + rest == rest;
    } else {
      assert (d + rest)[1..] == d[1..] + rest;
      DigitsRead(d[1..], rest);
    }
  }

  /** What may follow a number. */
  predicate Ends(rest: string) {
    rest == "" || (!IsDigit(rest[0]) && rest[0] !in {'.', 'e', 'E', '+', '-'})
  }

  lemma IntRead(a: string, rest: string)
    requires IsInt(a) && (rest == "" || !IsDigit(rest[0]))
    ensures IntLength(a + rest) == |a| > 0
  {
    var m := if Starts(a, '-') then 1 else 0;
    assert a[m..] == if m == 1 then a[1..] else a;
    assert (a + rest)[m..] == a[m..] + rest;
    DigitsRead(a[m..], rest);
  }

  lemma FracRead(b: string, rest: string)
    requires IsFrac(b) && (rest == "" || (!IsDigit(rest[0]) && rest[0] != '.'))
    ensures FracLength(b + rest) == |b|
  {
    if b == "" {
      assert b + rest == rest;
    } else {
      assert (b + rest)[1..] == b[1..] + rest;
      DigitsRead(b[1..], rest);
    }
  }

  lemma ExpRead(c: string, rest: string)
    requires IsExp(c) && Ends(rest)
    ensures ExpLength(c + rest) == |c|
  {
    if c == "" {
      assert c + rest == rest;
    } else {
      var m := if |c| > 1 && c[1] in {'+', '-'} then 2 else 1;
      assert (c + rest)[1..] == c[1..] + rest && (c + rest)[m..] == c[m..] + rest;
      DigitsRead(c[m..], rest);
    }
  }

  lemma ThreeParts(a: string, b: string, c: string, rest: string)
    ensures var s := a + b + c + rest;
            && s == a + (b + (c + rest)) && s[|a|..] == b + (c + rest) && s[|a| + |b|..] == c + rest
  {
  }

  lemma ExpFirst(c: string, rest: string)
    requires IsExp(c) && Ends(rest)
    ensures var s := c + rest; s == "" || (!IsDigit(s[0]) && s[0] != '.')
  {
  }

  lemma FracFirst(b: string, rest: string)
    requires IsFrac(b) && (rest == "" || !IsDigit(rest[0]))
    ensures var s := b + rest; s == "" || !IsDigit(s[0])
  {
  }

  lemma LengthsAdd(s: string, i: nat, j: nat, k: nat)
    requires 0 < i <= j <= |s| && IntLength(s) == i && FracLength(s[i..]) == j - i && ExpLength(s[j..]) == k
    ensures NumberLength(s) == j + k
  {
  }

  lemma NumberRead(t: string, rest: string)
    requires IsNumber(t) && Ends(rest)
    ensures NumberLength(t + rest) == |t| > 0
  {
    var a: string, b: string, c: string :| HasParts(t, a, b, c);
    PartsRead(a, b, c, rest);
  }

  lemma PartsRead(a: string, b: string, c: string, rest: string)
    requires IsInt(a) && IsFrac(b) && IsExp(c) && Ends(rest)
    ensures NumberLength(a + b + c + rest) == |a| + |b| + |c| > 0
  {
    var r1, r2, s := b + (c + rest), c + rest, a + b + c + rest;
    ThreeParts(a, b, c, rest);
    ExpFirst(c, rest);
    FracFirst(b, r2);
    IntRead(a, r1);
    FracRead(b, r2);
    ExpRead(c, rest);
    LengthsAdd(s, |a|, |a| + |b|, |c|);
  }

  lemma NumberStarts(t: string)
    requires IsNumber(t)
    ensures t != "" && (IsDigit(t[0]) || t[0] == '-')
  {
    var a: string, b: string, c: string :| HasParts(t, a, b, c);
  }

  lemma Enclosed(t: string, rest: string)
    requires |t| >= 2
    ensures (t + rest)[1..] == t[1..|t| - 1] + [t[|t| - 1]] + rest
    ensures |t| == 2 ==> (t + rest)[2..] == rest
  {
  }

  /** No value starts like the end of a list. */
  lemma ValueStarts(t: string, v: Value)
    requires IsJson(t, v)
    ensures t != "" && t[0] !in {']', '}', ',', ':'}
  {
    if v.Num? {
      NumberStarts(t);
    }
  }

  lemma ItemsStart(t: string, items: seq<Value>)
    requires IsItems(t, items) && items != []
    ensures t != "" && t[0] != ']'
  {
    if |items| == 1 {
      ValueStarts(t, items[0]);
    } else {
      var k :| 0 <= k < |t| && IsJson(t[..k], items[0]) && t[k] as int == 0x2C && IsItems(t[k + 1..], items[1..]);
      ValueStarts(t[..k], items[0]);
    }
  }

  lemma MembersStart(t: string, members: seq<Member>)
    requires IsMembers(t, members) && members != []
    ensures t != "" && t[0] == QUOTE
  {
  }

  lemma ArrayRead(t: string, items: seq<Value>, r: string, rest: string)
    requires Starts(t, '[') && t[1..] == r
    requires if items == [] then r == "]" + rest else !Starts(r, ']') && ParseItems(r) == Some((items, rest))
    ensures ParseValue(t) == Some((Arr(items), rest))
  {
    assert items == [] ==> t[2..] == rest;
  }

  lemma ObjectRead(t: string, members: seq<Member>, r: string, rest: string)
    requires Starts(t, '{') && t[1..] == r
    requires if members == [] then r == "}" + rest else !Starts(r, '}') && ParseMembers(r) == Some((members, rest))
    ensures ParseValue(t) == Some((Obj(members), rest))
  {
    assert members == [] ==> t[2..] == rest;
  }

  lemma WordRead(t: string, v: Value, rest: string)
    requires (v.Null? || v.Bool?) && IsJson(t, v)
    ensures ParseValue(t + rest) == Some((v, rest))
  {
    assert (t + rest)[..|t|] == t && (t + rest)[|t|..] == rest;
  }

  lemma NotWord(word: string, s: string)
    requires word != "" && s != "" && word[0] != s[0]
    ensures !(word <= s)
  {
  }

  lemma NumberIsValue(s: string, n: nat)
    requires s != "" && (IsDigit(s[0]) || s[0] == '-') && NumberLength(s) == n > 0
    ensures ParseValue(s) == Some((Num(s[..n]), s[n..]))
  {
    NotWord("null", s);
    NotWord("true", s);
    NotWord("false", s);
  }

  lemma NumRead(t: string, rest: string)
    requires IsNumber(t) && Ends(rest)
    ensures ParseValue(t + rest) == Some((Num(t), rest))
  {
    NumberRead(t, rest);
    NumberStarts(t);
    Split(t, rest);
    NumberIsValue(t + rest, |t|);
  }

  lemma Split(t: string, rest: string)
    ensures (t + rest)[..|t|] == t && (t + rest)[|t|..] == rest
    ensures t != "" ==> (t + rest)[0] == t[0]
  {
  }

  /** Reading gives back the value of a text, and leaves what follows it. */
  lemma {:induction false} ValueRead(t: string, v: Value, rest: string)
    requires IsJson(t, v) && Ends(rest)
    ensures ParseValue(t + rest) == Some((v, rest))
    decreases v, 0
  {
    match v
    case Str(x) =>
      NameRead(t, x, rest);
    case Num(text) =>
      NumRead(t, rest);
    case Arr(items) =>
      BracketsRead(t, items, rest);
    case Obj(members) =>
      BracesRead(t, members, rest);
    case _ =>
      WordRead(t, v, rest);
  }

  lemma Closing(inner: string, mark: char, rest: string)
    ensures inner + [mark] + rest == inner + ([mark] + rest) && ([mark] + rest)[1..] == rest
  {
  }

  lemma {:induction false} BracketsRead(t: string, items: seq<Value>, rest: string)
    requires IsJson(t, Arr(items))
    ensures ParseValue(t + rest) == Some((Arr(items), rest))
    decreases items, 3
  {
    var inner := t[1..|t| - 1];
    Enclosed(t, rest);
    Closing(inner, ']', rest);
    if items != [] {
      ItemsStart(inner, items);
      ItemsRead(inner, items, [']'] + rest);
    }
    ArrayRead(t + rest, items, inner + ([']'] + rest), rest);
  }

  lemma {:induction false} BracesRead(t: string, members: seq<Member>, rest: string)
    requires IsJson(t, Obj(members))
    ensures ParseValue(t + rest) == Some((Obj(members), rest))
    decreases members, 3
  {
    var inner := t[1..|t| - 1];
    Enclosed(t, rest);
    Closing(inner, '}', rest);
    if members != [] {
      MembersStart(inner, members);
      MembersRead(inner, members, ['}'] + rest);
    }
    ObjectRead(t + rest, members, inner + (['}'] + rest), rest);
  }

  /** A text that goes on behind position k. */
  lemma Onward(t: string, k: nat, more: string)
    requires k < |t|
    ensures t + more == t[..k] + ([t[k]] + (t[k + 1..] + more))
    ensures ([t[k]] + (t[k + 1..] + more))[1..] == t[k + 1..] + more
  {
  }

  lemma ItemsEnd(t: string, v: Value, r: string)
    requires ParseValue(t) == Some((v, r)) && Starts(r, ']')
    ensures ParseItems(t) == Some(([v], r[1..]))
  {
  }

  lemma ItemsGoOn(t: string, v: Value, r: string, items: seq<Value>, rest: string)
    requires ParseValue(t) == Some((v, r)) && Starts(r, ',')
    requires ParseItems(r[1..]) == Some((items, rest))
    ensures ParseItems(t) == Some(([v] + items, rest))
  {
  }

  lemma {:induction false} ItemsRead(t: string, items: seq<Value>, rest: string)
    requires items != [] && IsItems(t, items) && Starts(rest, ']')
    ensures ParseItems(t + rest) == Some((items, rest[1..]))
    decreases items, 1
  {
    if |items| == 1 {
      ValueRead(t, items[0], rest);
      ItemsEnd(t + rest, items[0], rest);
      assert items == [items[0]];
    } else {
      var k :| 0 <= k < |t| && IsJson(t[..k], items[0]) && t[k] as int == 0x2C && IsItems(t[k + 1..], items[1..]);
      var r := [t[k]] + (t[k + 1..] + rest);
      Onward(t, k, rest);
      ValueRead(t[..k], items[0], r);
      ItemsRead(t[k + 1..], items[1..], rest);
      ItemsGoOn(t + rest, items[0], r, items[1..], rest[1..]);
      assert items == [items[0]] + items[1..];
    }
  }

  lemma MemberIs(t: string, k: string, r: string, v: Value, rest: string)
    requires Starts(t, QUOTE) && ParseChars(t[1..]) == Some((k, r)) && Starts(r, ':')
    requires ParseValue(r[1..]) == Some((v, rest))
    ensures ParseMember(t) == Some((Member(k, v), rest))
  {
  }

  lemma NameRead(t: string, name: string, rest: string)
    requires IsString(t, name)
    ensures Starts(t + rest, QUOTE) && ParseChars((t + rest)[1..]) == Some((name, rest))
  {
    Enclosed(t, rest);
    CharsRead(t[1..|t| - 1], name, rest);
  }

  lemma {:induction false} MemberRead(t: string, m: Member, rest: string)
    requires IsMember(t, m) && Ends(rest)
    ensures ParseMember(t + rest) == Some((m, rest))
    decreases m, 1
  {
    var k :| 0 <= k < |t| && IsString(t[..k], m.key) && t[k] as int == 0x3A && IsJson(t[k + 1..], m.value);
    var r := [t[k]] + (t[k + 1..] + rest);
    Onward(t, k, rest);
    NameRead(t[..k], m.key, r);
    ValueRead(t[k + 1..], m.value, rest);
    MemberIs(t + rest, m.key, r, m.value, rest);
  }

  lemma MembersEnd(t: string, m: Member, r: string)
    requires ParseMember(t) == Some((m, r)) && Starts(r, '}')
    ensures ParseMembers(t) == Some(([m], r[1..]))
  {
  }

  lemma MembersGoOn(t: string, m: Member, r: string, members: seq<Member>, rest: string)
    requires ParseMember(t) == Some((m, r)) && Starts(r, ',')
    requires ParseMembers(r[1..]) == Some((members, rest))
    ensures ParseMembers(t) == Some(([m] + members, rest))
  {
  }

  lemma {:induction false} MembersRead(t: string, members: seq<Member>, rest: string)
    requires members != [] && IsMembers(t, members) && Starts(rest, '}')
    ensures ParseMembers(t + rest) == Some((members, rest[1..]))
    decreases members, 2
  {
    if |members| == 1 {
      MemberRead(t, members[0], rest);
      MembersEnd(t + rest, members[0], rest);
      assert members == [members[0]];
    } else {
      var k :| 0 <= k < |t| && IsMember(t[..k], members[0]) && t[k] as int == 0x2C
               && IsMembers(t[k + 1..], members[1..]);
      var r := [t[k]] + (t[k + 1..] + rest);
      Onward(t, k, rest);
      MemberRead(t[..k], members[0], r);
      MembersRead(t[k + 1..], members[1..], rest);
      MembersGoOn(t + rest, members[0], r, members[1..], rest[1..]);
      assert members == [members[0]] + members[1..];
    }
  }

  /** So reading gives back what was printed. */
  lemma ParsePrint(v: Value, rest: string)
    requires Proper(v) && Ends(rest)
    ensures ParseValue(Print(v) + rest) == Some((v, rest))
  {
    PrintIs(v);
    ValueRead(Print(v), v, rest);
  }

  // ----- Nothing else is read

  lemma UnitParsed(s: string)
    requires ParseUnit(s).Some?
    ensures IsUnit(s[..6], ParseUnit(s).value)
  {
    forall i | 2 <= i < 6 {
      HexSame(s[i]);
    }
  }

  lemma EscapeParsed(s: string)
    requires s != "" && s[0] == BACKSLASH && ParseEscape(s).Some?
    ensures IsChar(s[..ParseEscape(s).value.1], ParseEscape(s).value.0)
  {
    var r := ParseEscape(s).value;
    if r.1 == 6 {
      UnitParsed(s);
    } else if r.1 == 12 {
      UnitParsed(s);
      UnitParsed(s[6..]);
      var u := s[..12];
      assert u[..6] == s[..6] && u[6..] == s[6..][..6];
      SurrogatesOf(ParseUnit(s).value, ParseUnit(s[6..]).value, r.0 as int);
    }
  }

  lemma SurrogatesOf(hi: int, lo: int, n: int)
    requires 0xD800 <= hi < 0xDC00 && 0xDC00 <= lo < 0xE000 && n == 0x1_0000 + (hi - 0xD800) * 0x400 + (lo - 0xDC00)
    ensures 0x1_0000 <= n && hi == 0xD800 + (n - 0x1_0000) / 0x400 && lo == 0xDC00 + (n - 0x1_0000) % 0x400
  {
  }

  lemma CharsGrow(u: string, c: char, t: string, s: string)
    requires u != "" && IsChar(u, c) && IsChars(t, s)
    ensures IsChars(u + t, [c] + s)
  {
    assert (u + t)[..|u|] == u && (u + t)[|u|..] == t && ([c] + s)[1..] == s;
  }

  lemma CharsGrown(s: string, k: nat, c: char, t: string, x: string, rest: string)
    requires 0 < k <= |s| && IsChar(s[..k], c) && s[k..] == t + [QUOTE] + rest && IsChars(t, x)
    ensures s == s[..k] + t + [QUOTE] + rest && IsChars(s[..k] + t, [c] + x)
  {
    CharsGrow(s[..k], c, t, x);
    assert s == s[..k] + s[k..];
  }

  lemma {:induction false} CharsParsed(s: string) returns (t: string)
    requires ParseChars(s).Some?
    ensures s == t + [QUOTE] + ParseChars(s).value.1 && IsChars(t, ParseChars(s).value.0)
  {
    if s[0] == QUOTE {
      t := "";
    } else {
      var e := if s[0] == BACKSLASH then ParseEscape(s).value else (s[0], 1);
      if s[0] == BACKSLASH {
        EscapeParsed(s);
      }
      var (x, rest) := ParseChars(s[e.1..]).value;
      var more := CharsParsed(s[e.1..]);
      t := s[..e.1] + more;
      CharsGrown(s, e.1, e.0, more, x, rest);
    }
  }

  lemma QuotedIs(s: string, inner: string, r: string)
    requires Starts(s, QUOTE) && s[1..] == inner + [QUOTE] + r
    ensures s == [QUOTE] + inner + [QUOTE] + r
  {
    assert s == [QUOTE] + s[1..];
  }

  lemma StringParsed(s: string) returns (t: string)
    requires Starts(s, QUOTE) && ParseChars(s[1..]).Some?
    ensures s == t + ParseChars(s[1..]).value.1 && IsString(t, ParseChars(s[1..]).value.0)
  {
    var inner := CharsParsed(s[1..]);
    t := [QUOTE] + inner + [QUOTE];
    QuotedIs(s, inner, ParseChars(s[1..]).value.1);
    Inside(QUOTE, inner, QUOTE);
  }

  lemma {:induction false} DigitsCounted(s: string)
    ensures forall i :: 0 <= i < DigitCount(s) ==> IsDigit(s[i])
  {
    if s != "" && IsDigit(s[0]) {
      DigitsCounted(s[1..]);
    }
  }

  lemma IntParsed(s: string)
    requires IntLength(s) > 0
    ensures IsInt(s[..IntLength(s)])
  {
    var m := if Starts(s, '-') then 1 else 0;
    DigitsCounted(s[m..]);
    var a := s[..IntLength(s)];
    assert a[m..] == s[m..][..IntLength(s) - m];
    assert m == 0 ==> a[m..] == a;
  }

  lemma FracParsed(s: string)
    ensures IsFrac(s[..FracLength(s)])
  {
    if FracLength(s) > 0 {
      DigitsCounted(s[1..]);
      assert s[..FracLength(s)][1..] == s[1..][..FracLength(s) - 1];
    }
  }

  lemma ExpParsed(s: string)
    ensures IsExp(s[..ExpLength(s)])
  {
    var n := ExpLength(s);
    if n > 0 {
      var m := if Starts(s[1..], '+') || Starts(s[1..], '-') then 2 else 1;
      DigitsCounted(s[m..]);
      assert s[..n][m..] == s[m..][..n - m];
    }
  }

  lemma ThreeSlices(s: string, i: nat, j: nat, k: nat)
    requires i <= j <= k <= |s|
    ensures s[..k] == s[..i] + s[i..][..j - i] + s[j..][..k - j]
  {
  }

  lemma LengthParts(s: string)
    requires NumberLength(s) > 0
    ensures var i := IntLength(s);
            var f := FracLength(s[i..]);
            i > 0 && NumberLength(s) == i + f + ExpLength(s[i + f..])
  {
  }

  lemma NumberParsedAt(s: string, i: nat, f: nat, e: nat)
    requires i == IntLength(s) > 0 && f == FracLength(s[i..]) && e == ExpLength(s[i + f..])
    ensures IsNumber(s[..i + f + e])
  {
    IntParsed(s);
    FracParsed(s[i..]);
    ExpParsed(s[i + f..]);
    SlicesAreNumber(s, i, f, e);
  }

  lemma NumberParsed(s: string)
    requires NumberLength(s) > 0
    ensures IsNumber(s[..NumberLength(s)])
  {
    LengthParts(s);
    var i := IntLength(s);
    var f := FracLength(s[i..]);
    NumberParsedAt(s, i, f, ExpLength(s[i + f..]));
  }

  lemma SlicesAreNumber(s: string, i: nat, f: nat, e: nat)
    requires i + f + e <= |s| && IsInt(s[..i]) && IsFrac(s[i..][..f]) && IsExp(s[i + f..][..e])
    ensures IsNumber(s[..i + f + e])
  {
    ThreeSlices(s, i, i + f, i + f + e);
    assert HasParts(s[..i + f + e], s[..i], s[i..][..f], s[i + f..][..e]);
  }

  /** What is read is a text of the value it is read as. */
  lemma {:induction false} ValueParsed(s: string) returns (t: string)
    requires ParseValue(s).Some?
    ensures s == t + ParseValue(s).value.1 && IsJson(t, ParseValue(s).value.0)
    decreases |s|, 1
  {
    if s[0] == QUOTE {
      t := StringParsed(s);
    } else if s[0] == '[' {
      t := BracketsParsed(s);
    } else if s[0] == '{' {
      t := BracesParsed(s);
    } else if "null" <= s {
      t := "null";
    } else if "true" <= s {
      t := "true";
    } else if "false" <= s {
      t := "false";
    } else {
      NumberParsed(s);
      t := s[..NumberLength(s)];
    }
  }

  lemma {:induction false} BracketsParsed(s: string) returns (t: string)
    requires Starts(s, '[') && ParseValue(s).Some?
    ensures s == t + ParseValue(s).value.1 && IsJson(t, ParseValue(s).value.0)
    decreases |s|, 0
  {
    if Starts(s[1..], ']') {
      t := "[]";
      Inside('[', "", ']');
    } else {
      var inner := ItemsParsed(s[1..]);
      t := ['['] + inner + [']'];
      Inside('[', inner, ']');
    }
  }

  lemma {:induction false} BracesParsed(s: string) returns (t: string)
    requires Starts(s, '{') && ParseValue(s).Some?
    ensures s == t + ParseValue(s).value.1 && IsJson(t, ParseValue(s).value.0)
    decreases |s|, 0
  {
    if Starts(s[1..], '}') {
      t := "{}";
      Inside('{', "", '}');
    } else {
      var inner := MembersParsed(s[1..]);
      t := ['{'] + inner + ['}'];
      Inside('{', inner, '}');
    }
  }

  lemma GoneOn(s: string, first: string, mark: char, r: string, others: string, more: string)
    requires s == first + r && Starts(r, mark) && r[1..] == others + more
    ensures s == first + [mark] + others + more
  {
    assert r == [mark] + r[1..];
  }

  lemma Ended(s: string, first: string, mark: char, r: string)
    requires s == first + r && Starts(r, mark)
    ensures s == first + [mark] + r[1..]
  {
    assert r == [mark] + r[1..];
  }

  lemma ItemsGrow(v: Value, first: string, items: seq<Value>, others: string)
    requires items != [] && IsJson(first, v) && IsItems(others, items)
    ensures IsItems(first + [','] + others, [v] + items)
  {
    Around(first, ',', others);
    assert ([v] + items)[1..] == items;
  }

  lemma MembersGrow(m: Member, first: string, members: seq<Member>, others: string)
    requires members != [] && IsMember(first, m) && IsMembers(others, members)
    ensures IsMembers(first + [','] + others, [m] + members)
  {
    Around(first, ',', others);
    assert ([m] + members)[1..] == members;
  }

  /** t is the text of all of s up to a closing mark and the rest. */
  ghost predicate UpTo(s: string, t: string, mark: char, rest: string) {
    s == t + [mark] + rest
  }

  lemma UpToMore(s: string, first: string, r: string, others: string, mark: char, rest: string)
    requires s == first + r && Starts(r, ',') && UpTo(r[1..], others, mark, rest)
    ensures UpTo(s, first + [','] + others, mark, rest)
  {
    assert r[1..] == others + ([mark] + rest);
    GoneOn(s, first, ',', r, others, [mark] + rest);
  }

  lemma {:induction false} ItemsParsed(s: string) returns (t: string)
    requires ParseItems(s).Some?
    ensures UpTo(s, t, ']', ParseItems(s).value.1)
    ensures IsItems(t, ParseItems(s).value.0) && ParseItems(s).value.0 != []
    decreases |s|, 2
  {
    var (v, r) := ParseValue(s).value;
    var first := ValueParsed(s);
    if Starts(r, ']') {
      t := first;
      Ended(s, first, ']', r);
    } else {
      var others := ItemsParsed(r[1..]);
      t := first + [','] + others;
      UpToMore(s, first, r, others, ']', ParseItems(r[1..]).value.1);
      ItemsGrow(v, first, ParseItems(r[1..]).value.0, others);
    }
  }

  lemma {:induction false} MemberParsed(s: string) returns (t: string)
    requires ParseMember(s).Some?
    ensures s == t + ParseMember(s).value.1 && IsMember(t, ParseMember(s).value.0)
    decreases |s|, 2
  {
    var (key, r) := ParseChars(s[1..]).value;
    var name := StringParsed(s);
    var value := ValueParsed(r[1..]);
    t := name + [':'] + value;
    GoneOn(s, name, ':', r, value, ParseMember(s).value.1);
    Around(name, ':', value);
  }

  lemma {:induction false} MembersParsed(s: string) returns (t: string)
    requires ParseMembers(s).Some?
    ensures UpTo(s, t, '}', ParseMembers(s).value.1)
    ensures IsMembers(t, ParseMembers(s).value.0) && ParseMembers(s).value.0 != []
    decreases |s|, 3
  {
    var (m, r) := ParseMember(s).value;
    var first := MemberParsed(s);
    if Starts(r, '}') {
      t := first;
      Ended(s, first, '}', r);
    } else {
      var others := MembersParsed(r[1..]);
      t := first + [','] + others;
      UpToMore(s, first, r, others, '}', ParseMembers(r[1..]).value.1);
      MembersGrow(m, first, ParseMembers(r[1..]).value.0, others);
    }
  }

  /** A text is read as a value, to its end, exactly when the grammar says so. */
  lemma ParseExactly(t: string, v: Value)
    ensures ParseValue(t) == Some((v, "")) <==> IsJson(t, v)
  {
    assert t + "" == t;
    if IsJson(t, v) {
      ValueRead(t, v, "");
    }
    if ParseValue(t) == Some((v, "")) {
      var u := ValueParsed(t);
      assert u + "" == u;
    }
  }
}
