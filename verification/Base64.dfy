/**
  The two base64 encoders of the repository and the decoder: auth_manager.h accumulates bits in a wrapping 32-bit
  integer, okx_rest_api.cpp collects groups of three bytes. Both are proved to produce the encoding of section 4
  of RFC 4648, and the decoder to invert it.
*/
module Base64 {

  type byte = bv8

  type sextet = bv6

  // ---------------------------------------------------------------------------------------------
  // Section 4 of RFC 4648
  // ---------------------------------------------------------------------------------------------

  /** Table 1: the alphabet. */
  function Letter(i: nat): char
    requires i < 64
  {
    if i < 26 then 'A' + i as char
    else if i < 52 then 'a' + (i - 26) as char
    else if i < 62 then '0' + (i - 52) as char
    else if i == 62 then '+' else '/'
  }

  function CharOf(x: sextet): char {
    Letter(x as int)
  }

  function Chars(q: seq<sextet>): (s: string)
    ensures |s| == |q|
  {
    if q == [] then [] else Chars(q[..|q| - 1]) + [CharOf(q[|q| - 1])]
  }

  /** Three bytes joined to a 24-bit group. */
  function Join(a: byte, b: byte, c: byte): bv24 {
    (a as bv24 << 16) | (b as bv24 << 8) | c as bv24
  }

  /** A 24-bit group taken as four 6-bit groups, most significant first. */
  function SextetsOf(n: bv24): (q: seq<sextet>)
    ensures |q| == 4
  {
    [(n >> 18) as sextet, ((n >> 12) & 0x3F) as sextet, ((n >> 6) & 0x3F) as sextet, (n & 0x3F) as sextet]
  }

  /** Full groups, then what is left with zero bits added on the right up to a whole number of sextets. */
  function Sextets(s: seq<byte>): seq<sextet> {
    if s == [] then []
    else if |s| == 1 then SextetsOf(Join(s[0], 0, 0))[..2]
    else if |s| == 2 then SextetsOf(Join(s[0], s[1], 0))[..3]
    else SextetsOf(Join(s[0], s[1], s[2])) + Sextets(s[3..])
  }

  /** Two pad characters after one left-over byte, one after two. */
  function Padding(n: nat): string {
    if n % 3 == 1 then "==" else if n % 3 == 2 then "=" else ""
  }

  function Encode(s: seq<byte>): string {
    Chars(Sextets(s)) + Padding(|s|)
  }

  // ---------------------------------------------------------------------------------------------
  // Encoding byte by byte
  // ---------------------------------------------------------------------------------------------

  /** The sextets that are complete after the bytes seen so far. */
  function Complete(s: seq<byte>): seq<sextet> {
    if s == [] then []
    else if |s| == 1 then [First(s[0])]
    else if |s| == 2 then [First(s[0]), Second(s[0], s[1])]
    else SextetsOf(Join(s[0], s[1], s[2])) + Complete(s[3..])
  }

  function First(a: byte): sextet { (a >> 2) as sextet }

  function Second(a: byte, b: byte): sextet { ((a & 0x03) << 4) as sextet + ((b & 0xF0) >> 4) as sextet }

  function Third(b: byte, c: byte): sextet { ((b & 0x0F) << 2) as sextet + ((c & 0xC0) >> 6) as sextet }

  function Fourth(c: byte): sextet { (c & 0x3F) as sextet }

  /** What one more byte completes: one sextet, or two at the end of a group. */
  function Completed(n: nat, last: byte, c: byte): seq<sextet> {
    if n % 3 == 0 then [First(c)]
    else if n % 3 == 1 then [Second(last, c)]
    else [Third(last, c), Fourth(c)]
  }

  /** What the bits left over at the end give when zeros are added. */
  function LeftOver(n: nat, last: byte): seq<sextet> {
    if n % 3 == 0 then [] else if n % 3 == 1 then [Second(last, 0)] else [Third(last, 0)]
  }

  function Last(s: seq<byte>): byte {
    if s == [] then 0 else s[|s| - 1]
  }

  lemma GroupSextets(a: byte, b: byte, c: byte)
    ensures SextetsOf(Join(a, b, c)) == [First(a), Second(a, b), Third(b, c), Fourth(c)]
  {
  }

  lemma {:induction false} CompleteMore(s: seq<byte>, c: byte)
    ensures Complete(s + [c]) == Complete(s) + Completed(|s|, Last(s), c)
  {
    if |s| >= 3 {
      CompleteMore(s[3..], c);
      assert (s + [c])[3..] == s[3..] + [c];
      assert |s| % 3 == |s[3..]| % 3;
      assert |s| == 3 || Last(s[3..]) == Last(s);
    } else if |s| == 2 {
      GroupSextets(s[0], s[1], c);
      assert (s + [c])[3..] == [];
    }
  }

  lemma {:induction false} SextetsAreComplete(s: seq<byte>)
    ensures Sextets(s) == Complete(s) + LeftOver(|s|, Last(s))
    ensures |Complete(s)| == |s| / 3 * 4 + |s| % 3
  {
    if |s| >= 3 {
      SextetsAreComplete(s[3..]);
      assert |s| % 3 == |s[3..]| % 3 && |s| / 3 == |s[3..]| / 3 + 1;
      assert |s| == 3 || Last(s[3..]) == Last(s);
    } else if |s| == 2 {
      GroupSextets(s[0], s[1], 0);
    } else if |s| == 1 {
      GroupSextets(s[0], 0, 0);
    }
  }

  lemma {:induction false} CharsOfAppend(p: seq<sextet>, q: seq<sextet>)
    ensures Chars(p + q) == Chars(p) + Chars(q)
  {
    if q == [] {
      assert p + q == p;
    } else {
      assert (p + q)[..|p + q| - 1] == p + q[..|q| - 1];
      CharsOfAppend(p, q[..|q| - 1]);
    }
  }

  lemma CharsOfMore(q: seq<sextet>, x: sextet)
    ensures Chars(q + [x]) == Chars(q) + [CharOf(x)]
  {
    assert (q + [x])[..|q|] == q;
  }

  // ---------------------------------------------------------------------------------------------
  // auth_manager.h
  // ---------------------------------------------------------------------------------------------

  /** `>>` on the 32-bit int whose bits are `val`: the sign bit is shifted in. */
  function ShiftRight(val: bv32, n: nat): bv32
    requires n <= 32
  {
    if val & 0x8000_0000 == 0 then val >> n else !(!val >> n)
  }

  function Bits6(val: bv32, shift: nat): sextet
    requires shift <= 32
  {
    (ShiftRight(val, shift) & 0x3F) as sextet
  }

  /** The accumulator ends in the not yet encoded bits of the last byte; above them is whatever the wrap left. */
  ghost predicate Pending(val: bv32, valb: int, n: nat, last: byte) {
    if n % 3 == 0 then valb == -6
    else if n % 3 == 1 then valb == -4 && val & 0x3 == (last & 0x3) as bv32
    else valb == -2 && val & 0xF == (last & 0xF) as bv32
  }

  lemma FirstBits(val: bv32, c: byte)
    ensures Bits6((val << 8) + c as bv32, 2) == First(c)
    ensures ((val << 8) + c as bv32) & 0x3 == (c & 0x3) as bv32
  {
  }

  lemma SecondBits(val: bv32, last: byte, c: byte)
    requires val & 0x3 == (last & 0x3) as bv32
    ensures Bits6((val << 8) + c as bv32, 4) == Second(last, c)
    ensures ((val << 8) + c as bv32) & 0xF == (c & 0xF) as bv32
  {
  }

  lemma ThirdBits(val: bv32, last: byte, c: byte)
    requires val & 0xF == (last & 0xF) as bv32
    ensures Bits6((val << 8) + c as bv32, 6) == Third(last, c)
    ensures Bits6((val << 8) + c as bv32, 0) == Fourth(c)
  {
  }

  lemma LastBits(val: bv32, last: byte)
    ensures val & 0x3 == (last & 0x3) as bv32 ==> Bits6(val << 8, 4) == Second(last, 0)
    ensures val & 0xF == (last & 0xF) as bv32 ==> Bits6(val << 8, 6) == Third(last, 0)
  {
  }

  /** base64_encode of the token module: an int accumulator that overflows on long inputs. */
  method EncodeAccumulating(input: seq<byte>) returns (result: string)
    ensures result == Encode(input)
  {
    result := [];
    var val: bv32, valb := 0, -6;
    for i := 0 to |input|
      invariant Pending(val, valb, i, Last(input[..i]))
      invariant result == Chars(Complete(input[..i]))
    {
      var c := input[i];
      CompleteMore(input[..i], c);
      assert input[..i] + [c] == input[..i + 1];
      CharsOfAppend(Complete(input[..i]), Completed(i, Last(input[..i]), c));
      val, valb, result := PushByte(val, valb, result, c, i, Last(input[..i]));
    }
    assert input[..|input|] == input;
    result := FlushAndPad(val, valb, result, input);
  }

  /** The left-over bits give one more character, unless the input is made of full groups. */
  lemma LeftOverChars(val: bv32, valb: int, n: nat, last: byte)
    requires Pending(val, valb, n, last)
    ensures n % 3 == 0 ==> valb == -6 && Chars(LeftOver(n, last)) == ""
    ensures n % 3 == 1 ==> valb == -4 && Chars(LeftOver(n, last)) == [CharOf(Bits6(val << 8, 4))]
    ensures n % 3 == 2 ==> valb == -2 && Chars(LeftOver(n, last)) == [CharOf(Bits6(val << 8, 6))]
  {
    LastBits(val, last);
    CharsOfOneOrTwo(Second(last, 0), 0);
    CharsOfOneOrTwo(Third(last, 0), 0);
  }

  lemma FourTimes(k: nat, r: nat)
    requires r < 4
    ensures (k * 4 + r) % 4 == r
  {
  }

  lemma CharsOfSextets(input: seq<byte>)
    ensures Chars(Sextets(input)) == Chars(Complete(input)) + Chars(LeftOver(|input|, Last(input)))
    ensures |Complete(input)| % 4 == |input| % 3
  {
    SextetsAreComplete(input);
    FourTimes(|input| / 3, |input| % 3);
    CharsOfAppend(Complete(input), LeftOver(|input|, Last(input)));
  }

  lemma Residue(n: nat)
    ensures n % 3 == 0 || n % 3 == 1 || n % 3 == 2
  {
  }

  /** The code behind the loop: the left-over bits, then '=' up to a multiple of four. */
  method FlushAndPad(val: bv32, valb: int, encoded: string, ghost input: seq<byte>) returns (result: string)
    requires Pending(val, valb, |input|, Last(input)) && encoded == Chars(Complete(input))
    ensures result == Encode(input)
  {
    CharsOfSextets(input);
    LeftOverChars(val, valb, |input|, Last(input));
    result := encoded;
    Residue(|input|);
    if valb > -6 {
      result := result + [CharOf(Bits6(val << 8, valb + 8))];
    }
    result := PadToFour(result, |input|);
  }

  method PadToFour(s: string, ghost n: nat) returns (result: string)
    requires |s| % 4 == (if n % 3 == 0 then 0 else n % 3 + 1)
    ensures result == s + Padding(n)
  {
    result := s;
    while |result| % 4 != 0
      invariant |result| % 4 == 0 ==> result == s + Padding(n)
      invariant |result| % 4 == 2 ==> n % 3 == 1 && result == s
      invariant |result| % 4 == 3 ==> result == s + (if n % 3 == 1 then "=" else "") && n % 3 != 0
      invariant |result| % 4 != 1
      decreases (4 - |result| % 4) % 4
    {
      result := result + "=";
    }
  }

  /** One round of the encoding loop. */
  method PushByte(val: bv32, valb: int, result: string, c: byte, ghost n: nat, ghost last: byte)
    returns (val': bv32, valb': int, result': string)
    requires Pending(val, valb, n, last)
    ensures Pending(val', valb', n + 1, c)
    ensures result' == result + Chars(Completed(n, last, c))
  {
    result' := result;
    val' := (val << 8) + c as bv32;
    valb' := valb + 8;
    NewBits(val, c, n, last, valb);
    while valb' >= 0
      invariant n % 3 == 0 ==> valb' in {2, -4}
      invariant n % 3 == 1 ==> valb' in {4, -2}
      invariant n % 3 == 2 ==> valb' in {6, 0, -6}
      invariant result' == result +
        (if valb' >= valb + 8 then ""
         else if valb' == valb + 2 then [CharOf(Bits6(val', valb + 8))]
         else [CharOf(Bits6(val', valb + 8)), CharOf(Bits6(val', valb + 2))])
      decreases valb'
    {
      result' := result' + [CharOf(Bits6(val', valb'))];
      valb' := valb' - 6;
    }
  }

  /** The next residue, stated apart so that no bit vector is near it. */
  lemma NextResidue(n: nat)
    ensures n % 3 == 0 ==> (n + 1) % 3 == 1
    ensures n % 3 == 1 ==> (n + 1) % 3 == 2
    ensures n % 3 == 2 ==> (n + 1) % 3 == 0
  {
  }

  lemma CharsOfOneOrTwo(x: sextet, y: sextet)
    ensures Chars([x]) == [CharOf(x)]
    ensures Chars([x, y]) == [CharOf(x), CharOf(y)]
  {
    CharsOfMore([], x);
    CharsOfMore([x], y);
    assert [] + [x] == [x] && [x] + [y] == [x, y];
  }

  lemma NewBits(val: bv32, c: byte, n: nat, last: byte, valb: int)
    requires Pending(val, valb, n, last)
    ensures Pending((val << 8) + c as bv32, if n % 3 == 2 then -6 else valb + 2, n + 1, c)
    ensures n % 3 == 0 ==> Chars(Completed(n, last, c)) == [CharOf(Bits6((val << 8) + c as bv32, 2))]
    ensures n % 3 == 1 ==> Chars(Completed(n, last, c)) == [CharOf(Bits6((val << 8) + c as bv32, 4))]
    ensures n % 3 == 2 ==>
      Chars(Completed(n, last, c))
          == [CharOf(Bits6((val << 8) + c as bv32, 6)), CharOf(Bits6((val << 8) + c as bv32, 0))]
  {
    NextResidue(n);
    if n % 3 == 0 {
      FirstBits(val, c);
      CharsOfOneOrTwo(First(c), 0);
    } else if n % 3 == 1 {
      SecondBits(val, last, c);
      CharsOfOneOrTwo(Second(last, c), 0);
    } else {
      ThirdBits(val, last, c);
      CharsOfOneOrTwo(Third(last, c), Fourth(c));
    }
  }

  // ---------------------------------------------------------------------------------------------
  // okx_rest_api.cpp
  // ---------------------------------------------------------------------------------------------

  /** Indexing the alphabet with a byte is in range below 64. */
  function CharAt(x: byte): char
    requires x < 64
  {
    CharOf(x as sextet)
  }

  /** The masks and shifts on three bytes give sextets in byte-sized cells. */
  lemma GroupBytes(a: byte, b: byte, c: byte)
    ensures (a & 0xFC) >> 2 < 64 && ((a & 0xFC) >> 2) as sextet == First(a)
    ensures ((a & 0x03) << 4) + ((b & 0xF0) >> 4) < 64
    ensures (((a & 0x03) << 4) + ((b & 0xF0) >> 4)) as sextet == Second(a, b)
    ensures ((b & 0x0F) << 2) + ((c & 0xC0) >> 6) < 64
    ensures (((b & 0x0F) << 2) + ((c & 0xC0) >> 6)) as sextet == Third(b, c)
    ensures c & 0x3F < 64 && (c & 0x3F) as sextet == Fourth(c)
  {
  }

  lemma {:induction false} SextetsAppend(s: seq<byte>, t: seq<byte>, groups: nat)
    requires |s| == 3 * groups
    ensures Sextets(s + t) == Sextets(s) + Sextets(t)
  {
    if s == [] {
      assert s + t == t;
    } else {
      assert (s + t)[3..] == s[3..] + t;
      SextetsAppend(s[3..], t, groups - 1);
    }
  }

  /** The characters of one group, full or not. */
  lemma GroupChars(a: byte, b: byte, c: byte)
    ensures Chars(Sextets([a, b, c]))
      == [CharOf(First(a)), CharOf(Second(a, b)), CharOf(Third(b, c)), CharOf(Fourth(c))]
    ensures Chars(Sextets([a, b])) == [CharOf(First(a)), CharOf(Second(a, b)), CharOf(Third(b, 0))]
    ensures Chars(Sextets([a])) == [CharOf(First(a)), CharOf(Second(a, 0))]
  {
    GroupSextets(a, b, c);
    GroupSextets(a, b, 0);
    GroupSextets(a, 0, 0);
    var full := SextetsOf(Join(a, b, c));
    assert [a, b, c][3..] == [] && Sextets([]) == [] && full + [] == full;
    assert Sextets([a, b, c]) == full;
    assert Sextets([a, b]) == [First(a), Second(a, b), Third(b, 0)];
    assert Sextets([a]) == [First(a), Second(a, 0)];
    FourChars(First(a), Second(a, b), Third(b, c), Fourth(c));
    FourChars(First(a), Second(a, b), Third(b, 0), 0);
    FourChars(First(a), Second(a, 0), 0, 0);
  }

  lemma FourChars(x: sextet, y: sextet, z: sextet, w: sextet)
    ensures Chars([x, y]) == [CharOf(x), CharOf(y)]
    ensures Chars([x, y, z]) == [CharOf(x), CharOf(y), CharOf(z)]
    ensures Chars([x, y, z, w]) == [CharOf(x), CharOf(y), CharOf(z), CharOf(w)]
  {
    CharsOfOneOrTwo(x, y);
    CharsOfMore([x, y], z);
    CharsOfMore([x, y, z], w);
    assert [x, y] + [z] == [x, y, z] && [x, y, z] + [w] == [x, y, z, w];
  }

  function CharsAt(cells: seq<byte>): (s: string)
    requires forall k :: 0 <= k < |cells| ==> cells[k] < 64
    ensures |s| == |cells| && forall k :: 0 <= k < |cells| ==> s[k] == CharAt(cells[k])
  {
    seq(|cells|, k requires 0 <= k < |cells| => CharAt(cells[k]))
  }

  /** The contents of char_array_4 for three bytes. */
  function Cells(a: byte, b: byte, c: byte): (cells: seq<byte>)
    ensures |cells| == 4 && forall k :: 0 <= k < 4 ==> cells[k] < 64
  {
    GroupBytes(a, b, c);
    [(a & 0xFC) >> 2, ((a & 0x03) << 4) + ((b & 0xF0) >> 4), ((b & 0x0F) << 2) + ((c & 0xC0) >> 6), c & 0x3F]
  }

  lemma CharsAtPrefix(cells: seq<byte>, n: nat)
    requires n <= |cells| && forall k :: 0 <= k < |cells| ==> cells[k] < 64
    ensures CharsAt(cells[..n]) == CharsAt(cells)[..n]
  {
  }

  /** The cells index the characters of section 4: all four for a full group, one more than the bytes otherwise. */
  lemma CellsAreSextets(a: byte, b: byte, c: byte)
    ensures CharsAt(Cells(a, b, c)) == Chars(Sextets([a, b, c]))
    ensures CharsAt(Cells(a, b, 0)[..3]) == Chars(Sextets([a, b]))
    ensures CharsAt(Cells(a, 0, 0)[..2]) == Chars(Sextets([a]))
  {
    FullCells(a, b, c);
    FullCells(a, b, 0);
    FullCells(a, 0, 0);
    GroupChars(a, b, c);
    CharsAtPrefix(Cells(a, b, 0), 3);
    CharsAtPrefix(Cells(a, 0, 0), 2);
  }

  lemma FullCells(a: byte, b: byte, c: byte)
    ensures CharsAt(Cells(a, b, c)) == [CharOf(First(a)), CharOf(Second(a, b)), CharOf(Third(b, c)), CharOf(Fourth(c))]
  {
    GroupBytes(a, b, c);
    FourCells(Cells(a, b, c), First(a), Second(a, b), Third(b, c), Fourth(c));
  }

  lemma FourCells(cells: seq<byte>, x: sextet, y: sextet, z: sextet, w: sextet)
    requires |cells| == 4 && forall k :: 0 <= k < 4 ==> cells[k] < 64
    requires cells[0] as sextet == x && cells[1] as sextet == y && cells[2] as sextet == z && cells[3] as sextet == w
    ensures CharsAt(cells) == [CharOf(x), CharOf(y), CharOf(z), CharOf(w)]
  {
  }

  /** The first three cells of char_array_4, computed alike for a full group and for the last one. */
  method SpreadThree(three: array<byte>, four: array<byte>)
    requires three.Length == 3 && four.Length == 4 && three != four
    modifies four
    ensures four[..3] == Cells(three[0], three[1], three[2])[..3]
    ensures four[3] == old(four[3])
  {
    four[0] := (three[0] & 0xFC) >> 2;
    four[1] := ((three[0] & 0x03) << 4) + ((three[1] & 0xF0) >> 4);
    four[2] := ((three[1] & 0x0F) << 2) + ((three[2] & 0xC0) >> 6);
  }

  /** Appends the characters of the first `n` cells. */
  method AppendCells(four: array<byte>, n: nat, result: string) returns (result': string)
    requires n <= four.Length && forall k :: 0 <= k < n ==> four[k] < 64
    ensures result' == result + CharsAt(four[..n])
  {
    result' := result;
    var j := 0;
    while j < n
      invariant 0 <= j <= n
      invariant result' == result + CharsAt(four[..j])
    {
      result' := result' + [CharAt(four[j])];
      j := j + 1;
    }
  }

  lemma EncodedMore(s: seq<byte>, t: seq<byte>, groups: nat)
    requires |s| == 3 * groups
    ensures Chars(Sextets(s + t)) == Chars(Sextets(s)) + Chars(Sextets(t))
  {
    SextetsAppend(s, t, groups);
    CharsOfAppend(Sextets(s), Sextets(t));
  }

  /** The buffer up to `at`, cut before its last group. */
  lemma CutGroup(buffer: seq<byte>, at: nat, group: seq<byte>, groups: nat)
    requires at <= |buffer| && at == 3 * groups + |group| && group == buffer[3 * groups..at]
    ensures Chars(Sextets(buffer[..at])) == Chars(Sextets(buffer[..3 * groups])) + Chars(Sextets(group))
  {
    assert buffer[..at] == buffer[..3 * groups] + group;
    EncodedMore(buffer[..3 * groups], group, groups);
  }

  /** Encodes the three bytes collected. */
  method EncodeGroup(three: array<byte>, four: array<byte>, result: string) returns (result': string)
    requires three.Length == 3 && four.Length == 4 && three != four
    modifies four
    ensures result' == result + Chars(Sextets(three[..]))
  {
    SpreadThree(three, four);
    four[3] := three[2] & 0x3F;
    var cells := Cells(three[0], three[1], three[2]);
    assert forall k :: 0 <= k < 3 ==> four[k] == four[..3][k] == cells[..3][k];
    assert four[..4] == cells;
    result' := AppendCells(four, 4, result);
    CellsAreSextets(three[0], three[1], three[2]);
    assert three[..] == [three[0], three[1], three[2]];
  }

  /** base64_encode of the OKX client: groups of three bytes. */
  method EncodeGrouped(buffer: seq<byte>) returns (result: string)
    ensures result == Encode(buffer)
  {
    result := [];
    var i, at, length := 0, 0, |buffer|;
    ghost var groups := 0;
    var three, four := new byte[3], new byte[4];
    while length > 0
      invariant 0 <= groups && 0 <= length && at + length == |buffer| && 0 <= i < 3 && at == 3 * groups + i
      invariant three[..i] == buffer[3 * groups..at]
      invariant result == Chars(Sextets(buffer[..3 * groups]))
      decreases length
    {
      three[i] := buffer[at];
      i, at, length := i + 1, at + 1, length - 1;
      assert three[..i] == buffer[3 * groups..at];
      if i == 3 {
        CutGroup(buffer, at, three[..], groups);
        result := EncodeGroup(three, four, result);
        i, groups := 0, groups + 1;
      }
    }
    assert at == |buffer| && buffer[3 * groups..at] == buffer[3 * groups..];
    result := FlushGroup(three, four, i, result, buffer, groups);
  }

  /** Encodes the last one or two bytes, with zeros behind them: one character more than there are bytes. */
  method EncodeRest(three: array<byte>, four: array<byte>, n: nat, result: string) returns (result': string)
    requires three.Length == 3 && four.Length == 4 && three != four && n in {1, 2}
    modifies three, four
    ensures result' == result + old(Chars(Sextets(three[..n])))
  {
    var j := n;
    while j < 3
      invariant n <= j <= 3 && three[..n] == old(three[..n])
      invariant forall k :: n <= k < j ==> three[k] == 0
    {
      three[j] := 0;
      j := j + 1;
    }
    SpreadThree(three, four);
    var cells := Cells(three[0], three[1], 0);
    assert forall k :: 0 <= k < 3 ==> four[k] == four[..3][k] == cells[..3][k];
    assert four[..n + 1] == cells[..n + 1];
    result' := AppendCells(four, n + 1, result);
    CellsAreSextets(three[0], three[1], 0);
    assert three[..n] == if n == 1 then [three[0]] else [three[0], three[1]];
  }

  /** The last, incomplete group and the padding. */
  method FlushGroup(three: array<byte>, four: array<byte>, n: nat, encoded: string, ghost buffer: seq<byte>,
      ghost groups: nat)
    returns (result: string)
    requires three.Length == 3 && four.Length == 4 && three != four && n < 3
    requires |buffer| == 3 * groups + n && three[..n] == buffer[3 * groups..]
    requires encoded == Chars(Sextets(buffer[..3 * groups]))
    modifies three, four
    ensures result == Encode(buffer)
  {
    result := encoded;
    CutGroup(buffer, |buffer|, three[..n], groups);
    assert buffer[..|buffer|] == buffer;
    RestOf(groups, n);
    if n > 0 {
      result := EncodeRest(three, four, n, result);
      result := PadGroup(n, result);
    }
  }

  lemma RestOf(groups: nat, n: nat)
    requires n < 3
    ensures Padding(3 * groups + n) == if n == 0 then "" else if n == 1 then "==" else "="
  {
  }

  /** One '=' for each byte missing from the last group. */
  method PadGroup(n: nat, s: string) returns (result: string)
    requires 0 < n < 3
    ensures result == s + if n == 1 then "==" else "="
  {
    result := s;
    var i := n;
    while i < 3
      invariant n <= i <= 3
      invariant result == s + (if i == n then "" else if i == n + 1 then "=" else "==")
    {
      i := i + 1;
      result := result + "=";
    }
  }

  // ---------------------------------------------------------------------------------------------
  // Test vectors of section 10 of RFC 4648, and the alphabet letter by letter
  // ---------------------------------------------------------------------------------------------

  const ROW_0 := "ABCDEFGHIJKLMNOP"
  const ROW_16 := "QRSTUVWXYZabcdef"
  const ROW_32 := "ghijklmnopqrstuv"
  const ROW_48 := "wxyz0123456789+/"

  /** The characters are the 64 of the table, in its order. */
  lemma AlphabetIsTable(x: sextet)
    ensures CharOf(x) == (ROW_0 + ROW_16 + ROW_32 + ROW_48)[x as int]
  {
  }

  lemma TestVectors()
    ensures Encode([]) == ""
    ensures Encode([0x66]) == "Zg=="
    ensures Encode([0x66, 0x6F]) == "Zm8="
    ensures Encode([0x66, 0x6F, 0x6F]) == "Zm9v"
    ensures Encode([0x66, 0x6F, 0x6F, 0x62]) == "Zm9vYg=="
  {
    GroupChars(0x66, 0x6F, 0x6F);
    GroupChars(0x62, 0, 0);
    EncodedMore([0x66, 0x6F, 0x6F], [0x62], 1);
    assert [0x66, 0x6F, 0x6F] + [0x62] == [0x66, 0x6F, 0x6F, 0x62 as byte];
  }

  // ---------------------------------------------------------------------------------------------
  // Decoding
  // ---------------------------------------------------------------------------------------------

  /** The decoder's table: 128 entries are written out, the rest of the 256 are zero. */
  function Code(c: char): int {
    if 'A' <= c <= 'Z' then (c - 'A') as int
    else if 'a' <= c <= 'z' then (c - 'a') as int + 26
    else if '0' <= c <= '9' then (c - '0') as int + 52
    else if c == '+' then 62
    else if c == '/' then 63
    else if c as int >= 128 then 0
    else -1
  }

  lemma CodeRange(c: char)
    ensures Code(c) == -1 || 0 <= Code(c) < 64
  {
  }

  /** The sextets up to the first character outside the table. */
  function Readable(s: string): seq<sextet> {
    if s == [] || Code(s[0]) == -1 then []
    else
      CodeRange(s[0]);
      [Code(s[0]) as sextet] + Readable(s[1..])
  }

  /** Four sextets joined to a 24-bit group. */
  function JoinSextets(x: sextet, y: sextet, z: sextet, w: sextet): bv24 {
    (x as bv24 << 18) | (y as bv24 << 12) | (z as bv24 << 6) | w as bv24
  }

  /** A 24-bit group taken as three bytes. */
  function BytesOf(n: bv24): (s: seq<byte>)
    ensures |s| == 3
  {
    [(n >> 16) as byte, ((n >> 8) & 0xFF) as byte, (n & 0xFF) as byte]
  }

  /** The whole bytes in a run of sextets. */
  function Octets(q: seq<sextet>): seq<byte> {
    if |q| < 2 then []
    else if |q| == 2 then BytesOf(JoinSextets(q[0], q[1], 0, 0))[..1]
    else if |q| == 3 then BytesOf(JoinSextets(q[0], q[1], q[2], 0))[..2]
    else BytesOf(JoinSextets(q[0], q[1], q[2], q[3])) + Octets(q[4..])
  }

  function Decode(s: string): seq<byte> {
    Octets(Readable(s))
  }

  function FirstByte(x: sextet, y: sextet): byte { (x as byte << 2) | (y as byte >> 4) }

  function SecondByte(y: sextet, z: sextet): byte { ((y & 0xF) as byte << 4) | (z as byte >> 2) }

  function ThirdByte(z: sextet, w: sextet): byte { ((z & 0x3) as byte << 6) | w as byte }

  lemma GroupOctets(x: sextet, y: sextet, z: sextet, w: sextet)
    ensures BytesOf(JoinSextets(x, y, z, w)) == [FirstByte(x, y), SecondByte(y, z), ThirdByte(z, w)]
  {
  }

  /** What one more sextet completes: nothing at the start of a group, else one byte. */
  function NewOctets(n: nat, last: sextet, x: sextet): seq<byte> {
    if n % 4 == 0 then []
    else if n % 4 == 1 then [FirstByte(last, x)]
    else if n % 4 == 2 then [SecondByte(last, x)]
    else [ThirdByte(last, x)]
  }

  function LastSextet(q: seq<sextet>): sextet {
    if q == [] then 0 else q[|q| - 1]
  }

  lemma {:induction false} OctetsMore(q: seq<sextet>, x: sextet)
    ensures Octets(q + [x]) == Octets(q) + NewOctets(|q|, LastSextet(q), x)
  {
    if |q| >= 4 {
      OctetsMore(q[4..], x);
      assert (q + [x])[4..] == q[4..] + [x];
      NewOctetsSkipGroup(q, x);
    } else {
      OctetsMoreOfFour(q, x);
    }
  }

  lemma NewOctetsSkipGroup(q: seq<sextet>, x: sextet)
    requires |q| >= 4
    ensures NewOctets(|q|, LastSextet(q), x) == NewOctets(|q[4..]|, LastSextet(q[4..]), x)
  {
    assert |q| % 4 == |q[4..]| % 4;
    assert |q| == 4 || LastSextet(q[4..]) == LastSextet(q);
  }

  lemma OctetsMoreOfFour(q: seq<sextet>, x: sextet)
    requires |q| < 4
    ensures Octets(q + [x]) == Octets(q) + NewOctets(|q|, LastSextet(q), x)
  {
    if |q| == 3 {
      ThirdOctet(q, x);
    } else if |q| == 2 {
      SecondOctet(q, x);
    } else {
      FirstOctet(q, x);
    }
  }

  lemma FirstOctet(q: seq<sextet>, x: sextet)
    requires |q| < 2
    ensures Octets(q + [x]) == Octets(q) + NewOctets(|q|, LastSextet(q), x)
  {
    if |q| == 1 {
      OctetsOfTwo(q[0], x);
      assert q + [x] == [q[0], x];
    }
  }

  lemma SecondOctet(q: seq<sextet>, x: sextet)
    requires |q| == 2
    ensures Octets(q + [x]) == Octets(q) + NewOctets(|q|, LastSextet(q), x)
  {
    OctetsOfTwo(q[0], q[1]);
    OctetsOfThree(q[0], q[1], x);
    assert q == [q[0], q[1]] && q + [x] == [q[0], q[1], x];
  }

  lemma ThirdOctet(q: seq<sextet>, x: sextet)
    requires |q| == 3
    ensures Octets(q + [x]) == Octets(q) + NewOctets(|q|, LastSextet(q), x)
  {
    OctetsOfThree(q[0], q[1], q[2]);
    OctetsOfFour(q[0], q[1], q[2], x);
    assert q == [q[0], q[1], q[2]] && q + [x] == [q[0], q[1], q[2], x];
  }

  lemma OctetsOfTwo(x: sextet, y: sextet)
    ensures Octets([x, y]) == [FirstByte(x, y)]
  {
    GroupOctets(x, y, 0, 0);
  }

  lemma OctetsOfThree(x: sextet, y: sextet, z: sextet)
    ensures Octets([x, y, z]) == [FirstByte(x, y), SecondByte(y, z)]
  {
    GroupOctets(x, y, z, 0);
  }

  lemma OctetsOfFour(x: sextet, y: sextet, z: sextet, w: sextet)
    ensures Octets([x, y, z, w]) == [FirstByte(x, y), SecondByte(y, z), ThirdByte(z, w)]
  {
    GroupOctets(x, y, z, w);
    assert [x, y, z, w][4..] == [];
  }

  /** The decoder's accumulator: the bits of the last sextet that no byte has taken yet are at its right end. */
  ghost predicate Kept(val: bv32, valb: int, n: nat, last: sextet) {
    if n % 4 == 0 then valb == -8
    else if n % 4 == 1 then valb == -2 && val & 0x3F == last as bv32
    else if n % 4 == 2 then valb == -4 && val & 0xF == (last & 0xF) as bv32
    else valb == -6 && val & 0x3 == (last & 0x3) as bv32
  }

  function Bits8(val: bv32, shift: nat): byte
    requires shift <= 32
  {
    (ShiftRight(val, shift) & 0xFF) as byte
  }

  lemma SecondSextet(val: bv32, last: sextet, x: sextet)
    requires val & 0x3F == last as bv32
    ensures Bits8((val << 6) + x as bv32, 4) == FirstByte(last, x)
    ensures ((val << 6) + x as bv32) & 0xF == (x & 0xF) as bv32
  {
  }

  lemma ThirdSextet(val: bv32, last: sextet, x: sextet)
    requires val & 0xF == (last & 0xF) as bv32
    ensures Bits8((val << 6) + x as bv32, 2) == SecondByte(last, x)
    ensures ((val << 6) + x as bv32) & 0x3 == (x & 0x3) as bv32
  {
  }

  lemma FourthSextet(val: bv32, last: sextet, x: sextet)
    requires val & 0x3 == (last & 0x3) as bv32
    ensures Bits8((val << 6) + x as bv32, 0) == ThirdByte(last, x)
  {
  }

  lemma FirstSextet(val: bv32, x: sextet)
    ensures ((val << 6) + x as bv32) & 0x3F == x as bv32
  {
  }

  lemma NextSextet(n: nat)
    ensures n % 4 == 0 ==> (n + 1) % 4 == 1
    ensures n % 4 == 1 ==> (n + 1) % 4 == 2
    ensures n % 4 == 2 ==> (n + 1) % 4 == 3
    ensures n % 4 == 3 ==> (n + 1) % 4 == 0
  {
  }

  lemma NewByte(val: bv32, valb: int, n: nat, last: sextet, x: sextet)
    requires Kept(val, valb, n, last)
    ensures Kept((val << 6) + x as bv32, if valb + 6 >= 0 then valb - 2 else valb + 6, n + 1, x)
    ensures -8 <= valb <= -2
    ensures valb + 6 >= 0 ==> NewOctets(n, last, x) == [Bits8((val << 6) + x as bv32, valb + 6)]
    ensures valb + 6 < 0 ==> NewOctets(n, last, x) == []
  {
    NextSextet(n);
    if n % 4 == 0 {
      FirstSextet(val, x);
    } else if n % 4 == 1 {
      SecondSextet(val, last, x);
    } else if n % 4 == 2 {
      ThirdSextet(val, last, x);
    } else {
      FourthSextet(val, last, x);
    }
  }

  /** base64_decode of the token module. */
  method DecodeAccumulating(input: string) returns (result: seq<byte>)
    ensures result == Decode(input)
  {
    result := [];
    var val: bv32, valb, i := 0, -8, 0;
    ghost var q: seq<sextet> := [];
    while i < |input| && Code(input[i]) != -1
      invariant 0 <= i <= |input|
      invariant Readable(input) == q + Readable(input[i..])
      invariant Kept(val, valb, |q|, LastSextet(q)) && result == Octets(q)
    {
      TakeSextet(input, i, q);
      var x := Code(input[i]) as sextet;
      OctetsMore(q, x);
      NewByte(val, valb, |q|, LastSextet(q), x);
      q := q + [x];
      val, valb := (val << 6) + x as bv32, valb + 6;
      if valb >= 0 {
        result := result + [Bits8(val, valb)];
        valb := valb - 8;
      }
      i := i + 1;
    }
    assert Readable(input[i..]) == [] && q + [] == q;
  }

  lemma TakeSextet(input: string, i: nat, q: seq<sextet>)
    requires i < |input| && Code(input[i]) != -1
    ensures 0 <= Code(input[i]) < 64
    ensures q + Readable(input[i..]) == (q + [Code(input[i]) as sextet]) + Readable(input[i + 1..])
  {
    CodeRange(input[i]);
    assert input[i..][1..] == input[i + 1..];
  }

  lemma CodeBack(x: sextet)
    ensures 0 <= x as int < 64 && (x as int) as sextet == x
  {
  }

  // ---------------------------------------------------------------------------------------------
  // The round trip
  // ---------------------------------------------------------------------------------------------

  lemma CodeOfChar(x: sextet)
    ensures Code(CharOf(x)) == x as int
    ensures CharOf(x) != '.' && CharOf(x) != '='
  {
  }

  lemma CharsFromFront(q: seq<sextet>, rest: string)
    requires q != []
    ensures Chars(q) + rest == [CharOf(q[0])] + (Chars(q[1..]) + rest)
  {
    CharsOfAppend([q[0]], q[1..]);
    assert [q[0]] + q[1..] == q;
    CharsOfOneOrTwo(q[0], 0);
  }

  lemma ReadOne(x: sextet, rest: string)
    ensures Readable([CharOf(x)] + rest) == [x] + Readable(rest)
  {
    CodeOfChar(x);
    CodeBack(x);
    assert ([CharOf(x)] + rest)[1..] == rest;
  }

  /** Below 128 the decoder's table knows exactly the letters of the alphabet, by their place in it. */
  lemma CodeMeaning(c: char)
    ensures c as int < 128 ==> (Code(c) == -1 <==> forall i | 0 <= i < 64 :: Letter(i) != c)
    ensures forall i | 0 <= i < 64 :: Letter(i) == c ==> Code(c) == i
    ensures c as int >= 128 ==> Code(c) == 0
  {
    if c as int < 128 && Code(c) != -1 {
      CodeRange(c);
      assert Letter(Code(c)) == c;
    }
  }

  lemma {:induction false} ReadBack(q: seq<sextet>, rest: string)
    requires rest == [] || Code(rest[0]) == -1
    ensures Readable(Chars(q) + rest) == q
  {
    if q == [] {
      assert Chars(q) + rest == rest;
    } else {
      CharsFromFront(q, rest);
      ReadOne(q[0], Chars(q[1..]) + rest);
      ReadBack(q[1..], rest);
      assert [q[0]] + q[1..] == q;
    }
  }

  lemma GroupBack(a: byte, b: byte, c: byte)
    ensures FirstByte(First(a), Second(a, b)) == a
    ensures SecondByte(Second(a, b), Third(b, c)) == b
    ensures ThirdByte(Third(b, c), Fourth(c)) == c
  {
  }

  lemma OctetsOfGroup(s: seq<byte>, a: byte, b: byte, c: byte)
    requires 0 < |s| <= 3 && s[0] == a && (if |s| > 1 then s[1] == b else b == 0)
      && (if |s| > 2 then s[2] == c else c == 0)
    ensures Octets([First(a), Second(a, b), Third(b, c), Fourth(c)][..|s| + 1]) == s
  {
    GroupBack(a, b, c);
    var x, y, z, w := First(a), Second(a, b), Third(b, c), Fourth(c);
    OctetsOfTwo(x, y);
    OctetsOfThree(x, y, z);
    OctetsOfFour(x, y, z, w);
    assert [x, y, z, w][..|s| + 1] == [[x, y], [x, y, z], [x, y, z, w]][|s| - 1];
  }

  lemma {:induction false} OctetsBack(s: seq<byte>)
    ensures Octets(Sextets(s)) == s
  {
    if s == [] {
    } else if |s| < 3 {
      var b := if |s| > 1 then s[1] else 0;
      GroupSextets(s[0], b, 0);
      OctetsOfGroup(s, s[0], b, 0);
    } else {
      OctetsBack(s[3..]);
      GroupSextets(s[0], s[1], s[2]);
      GroupBack(s[0], s[1], s[2]);
      GroupOctets(First(s[0]), Second(s[0], s[1]), Third(s[1], s[2]), Fourth(s[2]));
      var q := SextetsOf(Join(s[0], s[1], s[2]));
      assert (q + Sextets(s[3..]))[4..] == Sextets(s[3..]);
      assert [s[0], s[1], s[2]] + s[3..] == s;
    }
  }

  /** Decoding undoes encoding, for every byte string of any length. */
  lemma RoundTrip(s: seq<byte>)
    ensures Decode(Encode(s)) == s
  {
    ReadBack(Sextets(s), Padding(|s|));
    OctetsBack(s);
  }

  /** No encoding holds a '.', the separator of a token. */
  lemma NoDot(s: seq<byte>)
    ensures '.' !in Encode(s)
  {
    NoDotInChars(Sextets(s));
  }

  lemma {:induction false} NoDotInChars(q: seq<sextet>)
    ensures '.' !in Chars(q)
  {
    if q != [] {
      NoDotInChars(q[..|q| - 1]);
      CodeOfChar(q[|q| - 1]);
    }
  }

  /** Every encoding is a whole number of four-character groups. */
  lemma EncodedLength(s: seq<byte>)
    ensures |Encode(s)| == (|s| + 2) / 3 * 4
  {
    SextetsAreComplete(s);
  }
}
