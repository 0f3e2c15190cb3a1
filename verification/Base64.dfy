/** The base64 loop of `/image` (src/repl/repl_commands.cpp): a bit accumulator that is never cleared, in a
    32-bit signed integer that wraps around. */
module Base64 {
  import opened Wrappers

  type byte = x: int | 0 <= x < 256

  // ----- the reference: section 4 of RFC 4648 -----

  /** The alphabet: `A` to `Z`, `a` to `z`, `0` to `9`, `+` and `/`. */
  function Sextet(v: int): char
    requires 0 <= v < 64
  {
    if v < 26 then ('A' as int + v) as char
    else if v < 52 then ('a' as int + (v - 26)) as char
    else if v < 62 then ('0' as int + (v - 52)) as char
    else if v == 62 then '+'
    else '/'
  }

  /** Groups of three bytes become four characters; one or two bytes at the end are padded. */
  function Rfc4648(data: seq<byte>): string {
    if |data| == 0 then ""
    else if |data| == 1 then [Sextet(data[0] / 4), Sextet(data[0] % 4 * 16), '=', '=']
    else if |data| == 2 then
      [Sextet(data[0] / 4), Sextet(data[0] % 4 * 16 + data[1] / 16), Sextet(data[1] % 16 * 4), '=']
    else
      [Sextet(data[0] / 4), Sextet(data[0] % 4 * 16 + data[1] / 16),
       Sextet(data[1] % 16 * 4 + data[2] / 64), Sextet(data[2] % 64)] + Rfc4648(data[3..])
  }

  lemma {:induction false} Rfc4648Concat(a: seq<byte>, b: seq<byte>)
    requires |a| % 3 == 0
    ensures Rfc4648(a + b) == Rfc4648(a) + Rfc4648(b)
    decreases |a|
  {
    hide Sextet;
    if a == [] {
      assert a + b == b;
    } else {
      assert (a + b)[3..] == a[3..] + b;
      Rfc4648Concat(a[3..], b);
    }
  }

  // ----- the accumulator -----

  /** The value of an integer in 32-bit two's complement. */
  function Wrap32(x: int): (r: int)
    ensures -0x8000_0000 <= r < 0x8000_0000
  {
    (x + 0x8000_0000) % 0x1_0000_0000 - 0x8000_0000
  }

  /** `(val >> bits) & 0x3F`: the shift is arithmetic. */
  function Emit(val: int, bits: int): (v: int)
    requires bits in {0, 2, 4, 6}
    ensures 0 <= v < 64
  {
    (if bits == 0 then val else if bits == 2 then val / 4 else if bits == 4 then val / 16 else val / 64) % 64
  }

  function Accumulate(val: int, c: byte): int {
    Wrap32(val * 256) + c
  }

  /** Only the low twelve bits of the accumulator reach the output. */
  lemma LowTwelveBits(val: int, low: int, bits: int)
    requires bits in {0, 2, 4, 6} && val % 4096 == low % 4096
    ensures Emit(val, bits) == Emit(low, bits)
  {
    Shifted(val, low, val / 4096 - low / 4096, bits);
  }

  lemma Shifted(val: int, low: int, q: int, bits: int)
    requires bits in {0, 2, 4, 6} && val == low + 4096 * q
    ensures Emit(val, bits) == Emit(low, bits)
  {
    if bits == 0 {
      ModAdd(low, 64 * q);
    } else if bits == 2 {
      assert val / 4 == low / 4 + 64 * (16 * q);
      ModAdd(low / 4, 16 * q);
    } else if bits == 4 {
      assert val / 16 == low / 16 + 64 * (4 * q);
      ModAdd(low / 16, 4 * q);
    } else {
      assert val / 64 == low / 64 + 64 * q;
      ModAdd(low / 64, q);
    }
  }

  lemma ModAdd(x: int, q: int)
    ensures (x + 64 * q) % 64 == x % 64
  {
  }

  /** The last two bytes read, which is all the accumulator is good for. */
  ghost function Window(data: seq<byte>, i: nat): int
    requires i <= |data|
  {
    (if i >= 2 then data[i - 2] as int * 256 else 0) + (if i >= 1 then data[i - 1] as int else 0)
  }

  /** What has been emitted for the bytes of the group that is not complete. */
  ghost function Partial(group: seq<byte>): string
    requires |group| < 3
  {
    if |group| == 0 then ""
    else if |group| == 1 then [Sextet(group[0] / 4)]
    else [Sextet(group[0] / 4), Sextet(group[0] % 4 * 16 + group[1] / 16)]
  }

  /** The state of the loop after `i` bytes. */
  ghost predicate State(data: seq<byte>, i: nat, encoded: string, val: int, bits: int) {
    && i <= |data|
    && bits == -6 + 2 * (i % 3)
    && val % 4096 == Window(data, i) % 4096
    && encoded == Rfc4648(data[..i - i % 3]) + Partial(data[i - i % 3..i])
  }

  method Encode(data: seq<byte>) returns (encoded: string)
    ensures encoded == Rfc4648(data)
  {
    hide Rfc4648, Emit, Accumulate, State, Sextet, Wrap32, Emitted, Padding;
    encoded := "";
    var val, bits := 0, -6;
    StateStart(data);
    for i := 0 to |data|
      invariant State(data, i, encoded, val, bits) && bits in {-6, -4, -2}
    {
      ghost var val0, bits0 := val, bits;
      val := Accumulate(val, data[i]);
      var chars;
      chars, bits := EmitSextets(val, bits + 8);
      StateStep(data, i, encoded, val0, bits0, val);
      encoded := encoded + chars;
    }
    ghost var unpadded := encoded;
    if bits > -6 {
      encoded := encoded + [Sextet(Emit(Wrap32(val * 256), bits + 8))];
    }
    encoded := Pad(encoded);
    Finish(data, unpadded, val, bits);
  }

  method Pad(full: string) returns (encoded: string)
    ensures encoded == full + Padding(full)
  {
    encoded := full;
    while |encoded| % 4 != 0
      invariant full <= encoded <= full + Padding(full)
      decreases |full + Padding(full)| - |encoded|
    {
      encoded := encoded + ['='];
    }
  }

  /** The inner loop. */
  method EmitSextets(val: int, start: int) returns (chars: string, bits: int)
    requires start in {2, 4, 6}
    ensures bits == (if start == 6 then -6 else start - 6) && chars == Emitted(val, start, bits)
  {
    chars, bits := "", start;
    while bits >= 0
      invariant bits == start || bits == start - 6 || (start == 6 && bits == -6)
      invariant chars == Emitted(val, start, bits)
    {
      chars := chars + [Sextet(Emit(val, bits))];
      bits := bits - 6;
    }
  }

  /** What the inner loop has appended when it goes from `start` down to `bits`. */
  ghost function Emitted(val: int, start: int, bits: int): string
    requires start in {2, 4, 6} && bits in {-6, -4, -2, 0, 2, 4, 6}
  {
    if bits == start then "" else if bits == start - 6 then [Sextet(Emit(val, start))]
    else [Sextet(Emit(val, start)), Sextet(Emit(val, 0))]
  }

  ghost function Padding(s: string): (p: string)
    ensures (|s| + |p|) % 4 == 0 && |p| < 4
  {
    if |s| % 4 == 0 then "" else if |s| % 4 == 1 then "===" else if |s| % 4 == 2 then "==" else "="
  }

  lemma StateStart(data: seq<byte>)
    ensures State(data, 0, "", 0, -6)
  {
    assert data[..0] == [] && data[0..0] == [];
  }

  lemma EmitIs(val: int)
    ensures Emit(val, 0) == val % 64 && Emit(val, 2) == val / 4 % 64
    ensures Emit(val, 4) == val / 16 % 64 && Emit(val, 6) == val / 64 % 64
  {
  }

  lemma Second(p: int, c: int)
    requires 0 <= c < 256
    ensures (p * 256 + c) / 4 % 64 == c / 4
  {
    Quotient(p, c, 4, 64);
    ModAdd(c / 4, p);
  }

  lemma Fourth(p: int, c: int)
    requires 0 <= c < 256
    ensures (p * 256 + c) / 16 % 64 == p % 4 * 16 + c / 16
  {
    Quotient(p, c, 16, 16);
    Sixteenths(p, c);
  }

  lemma Sixth(p: int, c: int)
    requires 0 <= c < 256
    ensures (p * 256 + c) / 64 % 64 == p % 16 * 4 + c / 64
  {
    Quotient(p, c, 64, 4);
    SixtyFourths(p, c);
  }

  /** The sextets that two consecutive bytes make, by the shift. */
  lemma WindowSextets(p: int, c: int)
    requires 0 <= p < 256 && 0 <= c < 256
    ensures Emit(p * 256 + c, 2) == c / 4
    ensures Emit(p * 256 + c, 4) == p % 4 * 16 + c / 16
    ensures Emit(p * 256 + c, 6) == p % 16 * 4 + c / 64
    ensures Emit(p * 256 + c, 0) == c % 64
  {
    hide *;
    EmitIs(p * 256 + c);
    Second(p, c);
    Fourth(p, c);
    Sixth(p, c);
    ModAdd(c, 4 * p);
  }

  lemma Quotient(p: int, c: int, d: int, e: int)
    requires (d, e) in {(4, 64), (16, 16), (64, 4)}
    ensures (p * 256 + c) / d == e * p + c / d
  {
  }

  lemma Sixteenths(p: int, c: int)
    requires 0 <= c < 256
    ensures (16 * p + c / 16) % 64 == p % 4 * 16 + c / 16
  {
    assert 16 * p + c / 16 == (p % 4 * 16 + c / 16) + 64 * (p / 4);
    ModAdd(p % 4 * 16 + c / 16, p / 4);
  }

  lemma SixtyFourths(p: int, c: int)
    requires 0 <= c < 256
    ensures (4 * p + c / 64) % 64 == p % 16 * 4 + c / 64
  {
    assert 4 * p + c / 64 == (p % 16 * 4 + c / 64) + 64 * (p / 16);
    ModAdd(p % 16 * 4 + c / 64, p / 16);
  }

  lemma WindowStep(data: seq<byte>, i: nat, val0: int)
    requires i < |data| && val0 % 4096 == Window(data, i) % 4096
    ensures Accumulate(val0, data[i]) % 4096 == Window(data, i + 1) % 4096
  {
    SameLowBits(val0, Window(data, i), data[i]);
    WrapKeepsLowBits(val0 * 256, data[i]);
    if i >= 2 {
      WindowShift(data[i - 2], data[i - 1], data[i]);
    }
  }

  lemma SameLowBits(x: int, y: int, c: int)
    requires x % 4096 == y % 4096
    ensures (x * 256 + c) % 4096 == (y * 256 + c) % 4096
  {
    var d := x / 4096 - y / 4096;
    assert x * 256 + c == (y * 256 + c) + 4096 * (256 * d);
    ModAdd4096(y * 256 + c, 256 * d);
  }

  lemma WrapKeepsLowBits(x: int, c: int)
    ensures (Wrap32(x) + c) % 4096 == (x + c) % 4096
  {
    var q := (x + 0x8000_0000) / 0x1_0000_0000;
    assert Wrap32(x) + c == x + c + 4096 * (-0x10_0000 * q);
    ModAdd4096(x + c, -0x10_0000 * q);
  }

  lemma ModAdd4096(x: int, q: int)
    ensures (x + 4096 * q) % 4096 == x % 4096
  {
  }

  lemma WindowShift(a: int, b: int, c: int)
    ensures ((a * 256 + b) * 256 + c) % 4096 == (b * 256 + c) % 4096
  {
    ModAdd4096(b * 256 + c, 16 * a);
  }

  /** What a byte makes the loop emit, in terms of the byte before it. */
  lemma EmitWindow(data: seq<byte>, i: nat, val: int, bits: int)
    requires i < |data| && val % 4096 == Window(data, i + 1) % 4096 && bits in {0, 2, 4, 6}
    ensures var p: byte := if i > 0 then data[i - 1] else 0;
            Emit(val, bits) == Emit(p as int * 256 + data[i], bits)
  {
    LowTwelveBits(val, Window(data, i + 1), bits);
  }

  lemma StateStep(data: seq<byte>, i: nat, before: string, val0: int, bits0: int, val: int)
    requires State(data, i, before, val0, bits0) && i < |data| && val == Accumulate(val0, data[i])
    ensures bits0 in {-6, -4, -2}
    ensures var bits := if bits0 == -2 then -6 else bits0 + 2;
            State(data, i + 1, before + Emitted(val, bits0 + 8, bits), val, bits)
  {
    hide Emit, Accumulate, Window, Sextet, Rfc4648, Partial;
    WindowStep(data, i, val0);
    var bits := if bits0 == -2 then -6 else bits0 + 2;
    var g := i - i % 3;
    EmittedIs(data, i, val, bits0);
    if i % 3 == 2 {
      assert data[..i + 1] == data[..g] + data[g..i + 1] && data[i + 1..i + 1] == [];
      Rfc4648Concat(data[..g], data[g..i + 1]);
      NoPartial();
    }
  }

  lemma NoPartial()
    ensures Partial([]) == ""
  {
  }

  /** What a byte adds to what its group has emitted before. */
  lemma EmittedIs(data: seq<byte>, i: nat, val: int, bits0: int)
    requires i < |data| && bits0 == -6 + 2 * (i % 3) && val % 4096 == Window(data, i + 1) % 4096
    ensures var g := i - i % 3;
            var emitted := Partial(data[g..i]) + Emitted(val, bits0 + 8, if bits0 == -2 then -6 else bits0 + 2);
            emitted == if i % 3 == 2 then Rfc4648(data[g..i + 1]) else Partial(data[g..i + 1])
  {
    hide *;
    var c := data[i];
    var p: byte := if i > 0 then data[i - 1] else 0;
    EmitWindow(data, i, val, bits0 + 8);
    WindowSextets(p, c);
    AtLeast(i);
    var r := i % 3;
    if r == 0 {
      LastOne(data, i);
      FirstOfGroup(val, p, c);
    } else if r == 1 {
      LastTwo(data, i);
      SecondOfGroup(val, p, c);
    } else {
      LastThree(data, i);
      EmitWindow(data, i, val, 0);
      ThirdOfGroup(val, data[i - 2], p, c);
    }
  }

  lemma LastOne(data: seq<byte>, i: nat)
    requires i < |data|
    ensures data[i..i] == [] && data[i..i + 1] == [data[i]]
  {
  }

  lemma LastTwo(data: seq<byte>, i: nat)
    requires 1 <= i < |data|
    ensures data[i - 1..i] == [data[i - 1]] && data[i - 1..i + 1] == [data[i - 1], data[i]]
  {
  }

  lemma LastThree(data: seq<byte>, i: nat)
    requires 2 <= i < |data|
    ensures data[i - 2..i] == [data[i - 2], data[i - 1]]
    ensures data[i - 2..i + 1] == [data[i - 2], data[i - 1], data[i]]
  {
  }

  lemma AtLeast(i: nat)
    ensures i >= i % 3
  {
  }

  lemma FirstOfGroup(val: int, p: byte, c: byte)
    requires Emit(val, 2) == c as int / 4
    ensures Partial([]) + Emitted(val, 2, -4) == Partial([c])
  {
    hide Emit, Sextet;
  }

  lemma SecondOfGroup(val: int, p: byte, c: byte)
    requires Emit(val, 4) == p as int % 4 * 16 + c as int / 16
    ensures Partial([p]) + Emitted(val, 4, -2) == Partial([p, c])
  {
    hide Emit, Sextet;
  }

  lemma ThirdOfGroup(val: int, a: byte, p: byte, c: byte)
    requires Emit(val, 6) == p as int % 16 * 4 + c as int / 64 && Emit(val, 0) == c as int % 64
    ensures Partial([a, p]) + Emitted(val, 6, -6) == Rfc4648([a, p, c])
  {
    hide Emit, Sextet;
    OneGroup(a, p, c);
    hide Rfc4648;
  }

  lemma OneGroup(a: byte, b: byte, c: byte)
    ensures Rfc4648([a, b, c])
            == [Sextet(a / 4), Sextet(a % 4 * 16 + b / 16), Sextet(b % 16 * 4 + c / 64), Sextet(c % 64)]
  {
    hide Sextet;
    assert [a, b, c][3..] == [];
  }

  /** The sextet the last byte leaves over. */
  lemma LastSextet(data: seq<byte>, val: int, bits: int)
    requires |data| > 0 && val % 4096 == Window(data, |data|) % 4096 && bits in {-4, -2}
    ensures Emit(Wrap32(val * 256), bits + 8)
            == if bits == -4 then data[|data| - 1] % 4 * 16 else data[|data| - 1] % 16 * 4
  {
    hide Emit, Wrap32;
    var c: int := data[|data| - 1];
    SameLowBits(val, Window(data, |data|), 0);
    if |data| >= 2 {
      WindowShift(data[|data| - 2], c, 0);
    }
    assert (val * 256) % 4096 == (c * 256) % 4096;
    WrapKeepsLowBits(val * 256, 0);
    LowTwelveBits(Wrap32(val * 256), c * 256, bits + 8);
    WindowSextets(c, 0);
  }

  lemma StateFacts(data: seq<byte>, i: nat, encoded: string, val: int, bits: int)
    requires State(data, i, encoded, val, bits)
    ensures i <= |data| && bits == -6 + 2 * (i % 3) && val % 4096 == Window(data, i) % 4096
    ensures encoded == Rfc4648(data[..i - i % 3]) + Partial(data[i - i % 3..i])
  {
    hide Rfc4648, Partial, Window;
  }

  /** The sextet left over and the padding complete the encoding. */
  lemma Finish(data: seq<byte>, unpadded: string, val: int, bits: int)
    requires State(data, |data|, unpadded, val, bits)
    ensures bits in {-6, -4, -2}
    ensures var full := if bits > -6 then unpadded + [Sextet(Emit(Wrap32(val * 256), bits + 8))] else unpadded;
            full + Padding(full) == Rfc4648(data)
  {
    hide *;
    StateFacts(data, |data|, unpadded, val, bits);
    var n := |data|;
    var g := n - n % 3;
    var last := data[g..n];
    assert data == data[..g] + last;
    Rfc4648Concat(data[..g], last);
    FullGroups(data[..g]);
    if n % 3 == 0 {
      assert last == [];
      NothingLast(Rfc4648(data[..g]));
    } else {
      var sextet := Sextet(Emit(Wrap32(val * 256), bits + 8));
      LastSextet(data, val, bits);
      assert last[|last| - 1] == data[n - 1];
      LastGroup(last, sextet);
      Padded(Rfc4648(data[..g]), Partial(last), [sextet]);
    }
  }

  lemma NothingLast(groups: string)
    requires |groups| % 4 == 0
    ensures groups + Partial([]) == groups == groups + Rfc4648([]) && groups + Padding(groups) == groups
  {
  }

  /** The last, incomplete group: one more sextet and the padding. */
  lemma LastGroup(last: seq<byte>, sextet: char)
    requires 1 <= |last| <= 2
    requires sextet == Sextet(if |last| == 1 then last[0] % 4 * 16 else last[1] % 16 * 4)
    ensures |Partial(last)| == |last|
    ensures Rfc4648(last) == Partial(last) + [sextet] + (if |last| == 1 then "==" else "=")
  {
    hide Sextet;
  }

  lemma Padded(groups: string, partial: string, sextet: string)
    requires |groups| % 4 == 0 && |sextet| == 1 && 1 <= |partial| <= 2
    ensures var full := groups + partial + sextet;
            full + Padding(full) == groups + (partial + sextet + (if |partial| == 1 then "==" else "="))
  {
    assert |groups + partial + sextet| == |groups| + |partial| + 1;
  }

  lemma {:induction false} FullGroups(data: seq<byte>)
    ensures |Rfc4648(data)| == 4 * ((|data| + 2) / 3)
    decreases |data|
  {
    hide Sextet;
    if |data| >= 3 {
      FullGroups(data[3..]);
    }
  }

  // ----- decoding -----

  function SextetValue(c: char): (v: int)
    ensures -1 <= v < 64
  {
    if 'A' <= c <= 'Z' then c as int - 'A' as int
    else if 'a' <= c <= 'z' then c as int - 'a' as int + 26
    else if '0' <= c <= '9' then c as int - '0' as int + 52
    else if c == '+' then 62
    else if c == '/' then 63
    else -1
  }

  lemma SextetRoundTrip(v: int)
    requires 0 <= v < 64
    ensures SextetValue(Sextet(v)) == v && Sextet(v) != '='
  {
  }

  lemma SextetUnique(c: char)
    requires SextetValue(c) >= 0
    ensures Sextet(SextetValue(c)) == c
  {
  }

  /** A strict decoder: the length is a multiple of four, padding stands only at the end, unused bits are 0. */
  function Decode(s: string): Option<seq<byte>>
    decreases |s|
  {
    if s == "" then Some([])
    else if |s| < 4 then None
    else
      var a, b, c, d := SextetValue(s[0]), SextetValue(s[1]), SextetValue(s[2]), SextetValue(s[3]);
      if a < 0 || b < 0 then None
      else if |s| == 4 && s[2] == '=' && s[3] == '=' then (if b % 16 == 0 then Some([a * 4 + b / 16]) else None)
      else if c < 0 then None
      else if |s| == 4 && s[3] == '=' then (if c % 4 == 0 then Some([a * 4 + b / 16, b % 16 * 16 + c / 4]) else None)
      else if d < 0 then None
      else
        match Decode(s[4..])
        case None => None
        case Some(rest) => Some([a * 4 + b / 16, b % 16 * 16 + c / 4, c % 4 * 64 + d] + rest)
  }

  /** The bytes that four sextets hold, and back. */
  lemma Regroup(x: int, y: int, z: int)
    requires 0 <= x < 256 && 0 <= y < 256 && 0 <= z < 256
    ensures var a, b, c, d := x / 4, x % 4 * 16 + y / 16, y % 16 * 4 + z / 64, z % 64;
            0 <= a < 64 && 0 <= b < 64 && 0 <= c < 64 && 0 <= d < 64
            && a * 4 + b / 16 == x && b % 16 * 16 + c / 4 == y && c % 4 * 64 + d == z
  {
  }

  lemma Ungroup(a: int, b: int, c: int, d: int)
    requires 0 <= a < 64 && 0 <= b < 64 && 0 <= c < 64 && 0 <= d < 64
    ensures var x, y, z := a * 4 + b / 16, b % 16 * 16 + c / 4, c % 4 * 64 + d;
            0 <= x < 256 && 0 <= y < 256 && 0 <= z < 256
            && x / 4 == a && x % 4 * 16 + y / 16 == b && y % 16 * 4 + z / 64 == c && z % 64 == d
  {
  }

  lemma OneByteDecodes(x: byte)
    ensures Decode(Rfc4648([x])) == Some([x])
  {
    hide Sextet, SextetValue;
    Regroup(x, 0, 0);
    SextetRoundTrip(x / 4);
    SextetRoundTrip(x % 4 * 16);
  }

  lemma TwoBytesDecode(x: byte, y: byte)
    ensures Decode(Rfc4648([x, y])) == Some([x, y])
  {
    hide Sextet, SextetValue;
    Regroup(x, y, 0);
    SextetRoundTrip(x / 4);
    SextetRoundTrip(x % 4 * 16 + y / 16);
    SextetRoundTrip(y % 16 * 4);
  }

  lemma ThreeBytesDecode(x: byte, y: byte, z: byte, rest: seq<byte>)
    requires Decode(Rfc4648(rest)) == Some(rest)
    ensures Decode(Rfc4648([x, y, z] + rest)) == Some([x, y, z] + rest)
  {
    hide *;
    Regroup(x, y, z);
    var a: int, b: int, c: int, d: int := x / 4, x % 4 * 16 + y / 16, y % 16 * 4 + z / 64, z % 64;
    GroupFirst(x, y, z, rest);
    SextetRoundTrip(a);
    SextetRoundTrip(b);
    SextetRoundTrip(c);
    SextetRoundTrip(d);
    DecodeGroup(Sextet(a), Sextet(b), Sextet(c), Sextet(d), Rfc4648(rest));
  }

  /** Four characters of the alphabet are decoded together. */
  lemma DecodeGroup(p: char, q: char, r: char, t: char, rest: string)
    requires SextetValue(p) >= 0 && SextetValue(q) >= 0 && SextetValue(r) >= 0 && SextetValue(t) >= 0
    requires Decode(rest).Some?
    ensures var a, b, c, d := SextetValue(p), SextetValue(q), SextetValue(r), SextetValue(t);
            && 0 <= a * 4 + b / 16 < 256 && 0 <= b % 16 * 16 + c / 4 < 256 && 0 <= c % 4 * 64 + d < 256
            && Decode([p, q, r, t] + rest)
               == Some([a * 4 + b / 16, b % 16 * 16 + c / 4, c % 4 * 64 + d] + Decode(rest).value)
  {
    var a, b, c, d := SextetValue(p), SextetValue(q), SextetValue(r), SextetValue(t);
    Ungroup(a, b, c, d);
    assert SextetValue('=') == -1;
    hide SextetValue;
    assert ([p, q, r, t] + rest)[4..] == rest;
  }

  /** The encoding decodes to the input. */
  lemma {:induction false} EncodedDecodes(data: seq<byte>)
    ensures Decode(Rfc4648(data)) == Some(data)
    decreases |data|
  {
    hide Decode, Rfc4648;
    if data == [] {
      NothingEncodes();
    } else if |data| == 1 {
      OneByteDecodes(data[0]);
      assert data == [data[0]];
    } else if |data| == 2 {
      TwoBytesDecode(data[0], data[1]);
      assert data == [data[0], data[1]];
    } else {
      EncodedDecodes(data[3..]);
      ThreeBytesDecode(data[0], data[1], data[2], data[3..]);
      assert data == [data[0], data[1], data[2]] + data[3..];
    }
  }

  /** Every text the strict decoder accepts is the encoding of what it returns. */
  lemma {:induction false} DecodedEncodes(s: string)
    requires Decode(s).Some?
    ensures Rfc4648(Decode(s).value) == s
    decreases |s|
  {
    hide Sextet, SextetValue, Rfc4648;
    if s == "" {
      NothingEncodes();
    } else if |s| == 4 && s[3] == '=' {
      PaddedEncodes(s);
    } else {
      var a, b, c, d := SextetValue(s[0]), SextetValue(s[1]), SextetValue(s[2]), SextetValue(s[3]);
      SextetUnique(s[0]);
      SextetUnique(s[1]);
      SextetUnique(s[2]);
      SextetUnique(s[3]);
      Ungroup(a, b, c, d);
      DecodedEncodes(s[4..]);
      GroupFirst(a * 4 + b / 16, b % 16 * 16 + c / 4, c % 4 * 64 + d, Decode(s[4..]).value);
      hide Decode;
      assert s == [s[0], s[1], s[2], s[3]] + s[4..];
    }
  }

  lemma NothingEncodes()
    ensures Decode("") == Some([]) && Rfc4648([]) == ""
  {
  }

  lemma PaddedEncodes(s: string)
    requires |s| == 4 && s[3] == '=' && Decode(s).Some?
    ensures Rfc4648(Decode(s).value) == s
  {
    hide Sextet, SextetValue;
    var a, b, c := SextetValue(s[0]), SextetValue(s[1]), SextetValue(s[2]);
    SextetUnique(s[0]);
    SextetUnique(s[1]);
    if s[2] == '=' {
      Ungroup(a, b, 0, 0);
    } else {
      SextetUnique(s[2]);
      Ungroup(a, b, c, 0);
    }
  }

  lemma GroupFirst(x: byte, y: byte, z: byte, rest: seq<byte>)
    ensures Rfc4648([x, y, z] + rest)
            == [Sextet(x / 4), Sextet(x % 4 * 16 + y / 16), Sextet(y % 16 * 4 + z / 64), Sextet(z % 64)] + Rfc4648(rest)
  {
    hide Sextet;
    assert ([x, y, z] + rest)[3..] == rest;
  }

  /** What the loop produces: four characters for every started group of three bytes, read back exactly. */
  lemma EncodingIsRfc4648(data: seq<byte>)
    ensures |Rfc4648(data)| == 4 * ((|data| + 2) / 3) && Decode(Rfc4648(data)) == Some(data)
  {
    FullGroups(data);
    EncodedDecodes(data);
  }
}
