/** Percent-encoding of byte strings for URLs: the table-driven encoder with its two buffers, one of
    fixed size for short strings and one that grows. */
module Quoting {
  import opened Wrappers

  newtype Byte = x: int | 0 <= x < 256

  /** The C type int, 32 bits wide. */
  newtype CInt = x: int | -0x8000_0000 <= x < 0x8000_0000

  const INT_MAX := 0x7fff_ffff
  const MAX_STACK_QUOTE_SIZE: CInt := 1024

  const PERCENT: Byte := 37

  // ----- The table

  /** A letter, a digit, or one of - . _ ~ (unreserved in section 2.3 of RFC 3986), or /. */
  predicate IsPlain(b: Byte) {
    || ('a' as int <= b as int <= 'z' as int)
    || ('A' as int <= b as int <= 'Z' as int)
    || ('0' as int <= b as int <= '9' as int)
    || b as int in {'-' as int, '.' as int, '_' as int, '~' as int, '/' as int}
  }

  /** One upper-case hexadecimal digit. */
  function Hex(d: int): Byte
    requires 0 <= d < 16
  {
    if d < 10 then ('0' as int + d) as Byte else ('A' as int + d - 10) as Byte
  }

  /** A row of the table: three characters, of which a plain byte uses only the first. */
  function QuoteMap(b: Byte): (Byte, Byte, Byte) {
    if IsPlain(b) then (b, 0, 0) else (PERCENT, Hex(b as int / 16), Hex(b as int % 16))
  }

  // ----- What encoding and decoding mean

  function Quoted(b: Byte): seq<Byte> {
    if IsPlain(b) then [b] else [PERCENT, Hex(b as int / 16), Hex(b as int % 16)]
  }

  function Encoded(s: seq<Byte>): seq<Byte> {
    if s == [] then [] else Encoded(s[..|s| - 1]) + Quoted(s[|s| - 1])
  }

  /** The value of a hexadecimal digit, in either case. */
  function Digit(c: Byte): Option<int> {
    var i := c as int;
    if '0' as int <= i <= '9' as int then Some(i - '0' as int)
    else if 'A' as int <= i <= 'F' as int then Some(i - 'A' as int + 10)
    else if 'a' as int <= i <= 'f' as int then Some(i - 'a' as int + 10)
    else None
  }

  /** Percent-decoding, section 2.1 of RFC 3986; None for a % that two digits do not follow. */
  function Decoded(s: seq<Byte>): Option<seq<Byte>> {
    if s == [] then Some([])
    else if s[0] != PERCENT then
      var r := Decoded(s[1..]);
      if r.Some? then Some([s[0]] + r.value) else None
    else if |s| < 3 || Digit(s[1]).None? || Digit(s[2]).None? then None
    else
      var r := Decoded(s[3..]);
      if r.Some? then Some([(Digit(s[1]).value * 16 + Digit(s[2]).value) as Byte] + r.value) else None
  }

  lemma HexDigit(d: int)
    requires 0 <= d < 16
    ensures Digit(Hex(d)) == Some(d) && Hex(d) != 0 && !(Hex(d) == PERCENT)
  {
  }

  lemma QuotedDecodes(b: Byte, s: seq<Byte>)
    requires Decoded(s).Some?
    ensures Decoded(Quoted(b) + s) == Some([b] + Decoded(s).value)
  {
    var q := Quoted(b) + s;
    if IsPlain(b) {
      assert q[1..] == s;
    } else {
      HexDigit(b as int / 16);
      HexDigit(b as int % 16);
      assert q[3..] == s;
    }
  }

  lemma {:induction false} EncodedConcat(s: seq<Byte>, t: seq<Byte>)
    ensures Encoded(s + t) == Encoded(s) + Encoded(t)
  {
    if t == [] {
      assert s + t == s;
    } else {
      assert (s + t)[..|s + t| - 1] == s + t[..|t| - 1];
      EncodedConcat(s, t[..|t| - 1]);
    }
  }

  /** Decoding gives back the string that was encoded, whatever bytes it is made of. */
  lemma {:induction false} DecodeEncode(s: seq<Byte>)
    ensures Decoded(Encoded(s)) == Some(s)
  {
    if s != [] {
      DecodeEncode(s[1..]);
      assert s == [s[0]] + s[1..];
      assert [s[0]][..0] == [];
      EncodedConcat([s[0]], s[1..]);
      QuotedDecodes(s[0], Encoded(s[1..]));
    }
  }

  /** So no two strings are encoded alike. */
  lemma EncodedInjective(s: seq<Byte>, t: seq<Byte>)
    requires Encoded(s) == Encoded(t)
    ensures s == t
  {
    DecodeEncode(s);
    DecodeEncode(t);
  }

  /** What comes out: plain characters and % only, between one and three of them for each byte. */
  lemma {:induction false} EncodedShape(s: seq<Byte>)
    ensures |s| <= |Encoded(s)| <= 3 * |s|
    ensures forall c :: c in Encoded(s) ==> IsPlain(c) || c == PERCENT
  {
    if s != [] {
      EncodedShape(s[..|s| - 1]);
    }
  }

  /** Only a string of plain characters stays as it is. */
  lemma {:induction false} EncodedFixed(s: seq<Byte>)
    ensures Encoded(s) == s <==> forall b :: b in s ==> IsPlain(b)
    ensures (exists b :: b in s && !IsPlain(b)) ==> |Encoded(s)| > |s|
  {
    if s != [] {
      var init := s[..|s| - 1];
      assert s == init + [s[|s| - 1]];
      EncodedFixed(init);
      EncodedShape(init);
    }
  }

  /** Where a % stands, two digits follow, and their letters are upper case. */
  ghost predicate Escaped(s: seq<Byte>, i: int) {
    && 0 <= i < |s| - 2
    && forall k :: i < k <= i + 2 ==> '0' as int <= s[k] as int <= '9' as int || 'A' as int <= s[k] as int <= 'F' as int
  }

  lemma {:induction false} EncodedEscapes(s: seq<Byte>)
    ensures forall i :: 0 <= i < |Encoded(s)| && Encoded(s)[i] == 37 ==> Escaped(Encoded(s), i)
  {
    if s != [] {
      var init, last := Encoded(s[..|s| - 1]), Quoted(s[|s| - 1]);
      EncodedEscapes(s[..|s| - 1]);
      HexUpper(s[|s| - 1] as int / 16);
      HexUpper(s[|s| - 1] as int % 16);
      forall i | 0 <= i < |init + last| && (init + last)[i] == 37
        ensures Escaped(init + last, i)
      {
        if i < |init| {
          assert Escaped(init, i);
        }
      }
    }
  }

  lemma HexUpper(d: int)
    requires 0 <= d < 16
    ensures '0' as int <= Hex(d) as int <= '9' as int || 'A' as int <= Hex(d) as int <= 'F' as int
    ensures Hex(d) as int != 37
  {
  }

  // ----- C strings

  /** The characters before the first NUL. */
  function CString(s: seq<Byte>): seq<Byte> {
    if s == [] || s[0] == 0 then [] else [s[0]] + CString(s[1..])
  }

  lemma {:induction false} CStringUpTo(s: seq<Byte>, n: nat)
    requires n < |s| && s[n] == 0 && forall k :: 0 <= k < n ==> s[k] != 0
    ensures CString(s) == s[..n]
  {
    if n > 0 {
      CStringUpTo(s[1..], n - 1);
      assert s[..n] == [s[0]] + s[1..][..n - 1];
    }
  }

  /** The first j characters are the encoding so far. */
  ghost predicate Holds(buffer: seq<Byte>, j: int, s: seq<Byte>) {
    0 <= j <= |buffer| && buffer[..j] == Encoded(s)
  }

  lemma EncodedNext(s: seq<Byte>, i: nat)
    requires i < |s|
    ensures Encoded(s[..i + 1]) == Encoded(s[..i]) + Quoted(s[i])
  {
    assert s[..i + 1][..i] == s[..i];
  }

  lemma Terminated(buffer: seq<Byte>, j: nat, s: seq<Byte>)
    requires j < |buffer| && buffer[j] == 0 && Holds(buffer, j, s)
    ensures CString(buffer) == Encoded(s)
  {
    EncodedShape(s);
    forall k | 0 <= k < j
      ensures buffer[k] != 0
    {
      assert buffer[k] == buffer[..j][k];
      assert buffer[k] in Encoded(s);
    }
    CStringUpTo(buffer, j);
  }

  // ----- The encoder

  /** Write the row of one byte at position j. */
  method PutRow(buffer: array<Byte>, j: CInt, b: Byte, ghost s: seq<Byte>) returns (next: CInt)
    requires 0 <= j as int && j as int + 3 <= buffer.Length && j as int + 3 <= INT_MAX
    requires Holds(buffer[..], j as int, s)
    modifies buffer
    ensures j as int < next as int <= j as int + 3
    ensures buffer[..next as int] == Encoded(s) + Quoted(b)
  {
    var val := QuoteMap(b);
    next := j;
    buffer[next as int] := val.0;
    next := next + 1;
    if val.1 != 0 {
      HexDigit(b as int / 16);
      buffer[next as int] := val.1;
      next := next + 1;
      buffer[next as int] := val.2;
      next := next + 1;
      assert buffer[..next as int] == old(buffer[..j as int]) + [val.0, val.1, val.2];
    } else {
      if !IsPlain(b) {
        HexDigit(b as int / 16);
      }
      assert buffer[..next as int] == old(buffer[..j as int]) + [val.0];
    }
    assert old(buffer[..j as int]) == old(buffer[..])[..j as int];
  }

  /** The short path: the buffer on the stack always suffices. */
  method QuoteOnStack(s: seq<Byte>) returns (r: seq<Byte>)
    requires |s| <= MAX_STACK_QUOTE_SIZE as int
    ensures r == Encoded(s)
  {
    var buffer := new Byte[MAX_STACK_QUOTE_SIZE as int * 3 + 1];
    var i: CInt, j: CInt := 0, 0;
    assert s[..0] == [];
    while i as int < |s|
      invariant 0 <= i as int <= |s| && 0 <= j as int <= 3 * i as int
      invariant Holds(buffer[..], j as int, s[..i as int])
    {
      EncodedNext(s, i as int);
      j := PutRow(buffer, j, s[i as int], s[..i as int]);
      assert buffer[..][..j as int] == buffer[..j as int];
      i := i + 1;
    }
    buffer[j as int] := 0;
    assert s[..|s|] == s && buffer[..][..j as int] == buffer[..j as int];
    Terminated(buffer[..], j as int, s);
    r := CString(buffer[..]);
  }

  function OneAndAHalf(n: int): int
    requires n >= 0
  {
    n * 3 / 2
  }

  /** A larger buffer with the same characters in front; the rest of it is undefined. */
  method Realloc(mbuffer: array<Byte>, size: CInt) returns (r: array<Byte>)
    requires mbuffer.Length <= size as int
    ensures fresh(r) && r.Length == size as int && r[..mbuffer.Length] == mbuffer[..]
  {
    var k := 0;
    r := new Byte[size as int];
    while k < mbuffer.Length
      invariant 0 <= k <= mbuffer.Length && r[..k] == mbuffer[..k]
    {
      r[k] := mbuffer[k];
      k := k + 1;
    }
  }

  /** The long path: the buffer starts at one and a half times the string's size and grows by half
      when fewer than five characters are left.  One growth always suffices, no write is outside the
      buffer, and its size, which is also returned, stays below four and a half times the string's. */
  method QuoteOnHeap(s: seq<Byte>) returns (r: seq<Byte>, size: CInt)
    requires |s| > MAX_STACK_QUOTE_SIZE as int && (9 * |s| + 3) / 2 <= INT_MAX
    ensures r == Encoded(s)
    ensures |r| + 1 < size as int <= (9 * |s| + 3) / 2
  {
    size := OneAndAHalf(|s|) as CInt;
    var mbuffer := new Byte[size as int];
    var i: CInt, j: CInt := 0, 0;
    assert s[..0] == [];
    while i as int < |s|
      invariant 0 <= i as int <= |s| && 0 <= j as int <= 3 * i as int
      invariant mbuffer.Length == size as int && 1000 < size as int <= (9 * |s| + 3) / 2 && j as int + 2 <= size as int
      invariant Holds(mbuffer[..], j as int, s[..i as int])
      invariant fresh(mbuffer)
    {
      if j >= size - 4 {
        size := OneAndAHalf(size as int) as CInt;
        var grown := Realloc(mbuffer, size);
        assert grown[..j as int] == grown[..mbuffer.Length][..j as int];
        assert grown[..j as int] == mbuffer[..j as int] == mbuffer[..][..j as int];
        mbuffer := grown;
      }
      EncodedNext(s, i as int);
      assert mbuffer[..][..j as int] == mbuffer[..j as int];
      j := PutRow(mbuffer, j, s[i as int], s[..i as int]);
      assert mbuffer[..][..j as int] == mbuffer[..j as int];
      i := i + 1;
    }
    mbuffer[j as int] := 0;
    assert s[..|s|] == s && mbuffer[..][..j as int] == mbuffer[..j as int];
    Terminated(mbuffer[..], j as int, s);
    r := CString(mbuffer[..]);
  }

  method FastQuote(s: seq<Byte>) returns (r: seq<Byte>)
    requires (9 * |s| + 3) / 2 <= INT_MAX
    ensures r == Encoded(s) && Decoded(r) == Some(s)
    ensures r == s <==>
              forall b :: b in s ==>
                || 'a' as int <= b as int <= 'z' as int || 'A' as int <= b as int <= 'Z' as int
                || '0' as int <= b as int <= '9' as int
                || b as int in {'-' as int, '.' as int, '_' as int, '~' as int, '/' as int}
    ensures forall i :: 0 <= i < |r| && r[i] as int == '%' as int ==>
              i + 2 < |r|
              && forall k :: i < k <= i + 2 ==>
                   '0' as int <= r[k] as int <= '9' as int || 'A' as int <= r[k] as int <= 'F' as int
  {
    DecodeEncode(s);
    EncodedFixed(s);
    EncodedEscapes(s);
    assert forall i :: Escaped(Encoded(s), i) ==> 0 <= i < |Encoded(s)| - 2;
    if |s| <= MAX_STACK_QUOTE_SIZE as int {
      r := QuoteOnStack(s);
    } else {
      var size;
      r, size := QuoteOnHeap(s);
    }
  }
}
