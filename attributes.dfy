/**
 * The packed cell-attribute word of the terminal buffer (index.js): the
 * field table, the offset/mask loop that lays it out, decoding by mask and
 * shift, and the palette lookup with its fallbacks.
 */
module Attributes {
  import Palette

  datatype Field = Bg | Fg | Bold | Underline | Inverse

  /** The field table in layout order, lowest bits first: (field, width). */
  const Flags: seq<(Field, nat)> := [(Bg, 9), (Fg, 9), (Bold, 1), (Underline, 1), (Inverse, 1)]

  /** The width of a field, as the table gives it. */
  function Size(f: Field): nat
  {
    match f
    case Bg => 9
    case Fg => 9
    case Bold => 1
    case Underline => 1
    case Inverse => 1
  }

  /** The low bit of a field: background 0, foreground 9, bold 18, underline 19, inverse 20. */
  function Shift(f: Field): nat
  {
    match f
    case Bg => 0
    case Fg => 9
    case Bold => 18
    case Underline => 19
    case Inverse => 20
  }

  function Pow2(n: nat): (p: nat)
    ensures p >= 1
  {
    if n == 0 then 1 else 2 * Pow2(n - 1)
  }

  lemma {:induction false} Pow2Add(a: nat, b: nat)
    ensures Pow2(a + b) == Pow2(a) * Pow2(b)
    decreases a
  {
    if a > 0 {
      Pow2Add(a - 1, b);
    }
  }

  /** The powers of two the layout uses. */
  lemma Pow2Table()
    ensures Pow2(0) == 1 && Pow2(1) == 2 && Pow2(9) == 512
    ensures Pow2(18) == 262144 && Pow2(19) == 524288 && Pow2(20) == 1048576
  {
    assert Pow2(3) == 8;
    Pow2Add(3, 3);
    Pow2Add(6, 3);
    Pow2Add(9, 9);
    Pow2Add(18, 1);
    Pow2Add(19, 1);
  }

  /** The mask of a field: `size` one bits above `offset` zero bits. */
  function Mask(f: Field): nat
  {
    (Pow2(Size(f)) - 1) * Pow2(Shift(f))
  }

  /** The position of each field in the table. */
  function Position(f: Field): (i: nat)
    ensures i < |Flags| && Flags[i].0 == f && Flags[i].1 == Size(f)
  {
    match f
    case Bg => 0
    case Fg => 1
    case Bold => 2
    case Underline => 3
    case Inverse => 4
  }

  /** The sum of the widths of the first n table entries. */
  function Offset(n: nat): nat
    requires n <= |Flags|
  {
    if n == 0 then 0 else Offset(n - 1) + Flags[n - 1].1
  }

  /** A string of `n` copies of `c`, as `c.repeat(n)`. */
  function Repeat(c: char, n: nat): (s: string)
    ensures |s| == n && forall i :: 0 <= i < n ==> s[i] == c
  {
    if n == 0 then [] else Repeat(c, n - 1) + [c]
  }

  /** The value of a string of '0' and '1' digits read in base 2, as `parseInt(s, 2)`. */
  function BinaryValue(s: string): nat
  {
    if s == [] then 0 else 2 * BinaryValue(s[..|s| - 1]) + (if s[|s| - 1] == '1' then 1 else 0)
  }

  lemma BinaryValueSnoc(s: string, c: char)
    ensures BinaryValue(s + [c]) == 2 * BinaryValue(s) + (if c == '1' then 1 else 0)
  {
    assert (s + [c])[..|s|] == s;
  }

  lemma {:induction false} BinaryValueAppend(s: string, t: string)
    ensures BinaryValue(s + t) == BinaryValue(s) * Pow2(|t|) + BinaryValue(t)
    decreases |t|
  {
    if t == [] {
      assert s + t == s;
    } else {
      var t', c := t[..|t| - 1], t[|t| - 1];
      assert s + t == (s + t') + [c];
      assert t == t' + [c];
      BinaryValueSnoc(s + t', c);
      BinaryValueSnoc(t', c);
      BinaryValueAppend(s, t');
      var x, p := BinaryValue(s), Pow2(|t'|);
      assert Pow2(|t|) == 2 * p;
      Doubling(x, p);
    }
  }

  lemma Doubling(x: nat, p: nat)
    ensures x * (2 * p) == 2 * (x * p)
  {
  }

  lemma {:induction false} BinaryValueOfZeros(n: nat)
    ensures BinaryValue(Repeat('0', n)) == 0
  {
    if n > 0 {
      assert Repeat('0', n)[..n - 1] == Repeat('0', n - 1);
      BinaryValueOfZeros(n - 1);
    }
  }

  lemma {:induction false} BinaryValueOfOnes(n: nat)
    ensures BinaryValue(Repeat('1', n)) == Pow2(n) - 1
  {
    if n > 0 {
      assert Repeat('1', n)[..n - 1] == Repeat('1', n - 1);
      BinaryValueOfOnes(n - 1);
    }
  }

  /** The mask string of the loop reads as (2^size - 1) << offset. */
  lemma MaskString(size: nat, offset: nat)
    ensures BinaryValue(Repeat('1', size) + Repeat('0', offset)) == (Pow2(size) - 1) * Pow2(offset)
  {
    BinaryValueAppend(Repeat('1', size), Repeat('0', offset));
    BinaryValueOfOnes(size);
    BinaryValueOfZeros(offset);
  }

  /** The offsets accumulated over the table are the fixed shifts. */
  lemma OffsetIsShift(f: Field)
    ensures Offset(Position(f)) == Shift(f)
  {
    assert Offset(1) == 9 && Offset(2) == 18 && Offset(3) == 19 && Offset(4) == 20;
  }

  /**
   * The top-level loop over the field table: each field's shift is the running
   * offset, its mask is parsed from a string of ones followed by zeros.
   */
  method LayoutBitFields() returns (shifts: map<Field, nat>, masks: map<Field, nat>)
    ensures forall f: Field :: f in shifts && shifts[f] == Shift(f)
    ensures forall f: Field :: f in masks && masks[f] == Mask(f)
  {
    shifts, masks := map[], map[];
    var offset := 0;
    for i := 0 to |Flags|
      invariant offset == Offset(i)
      invariant LaidOut(shifts, masks, i)
    {
      var (name, size) := Flags[i];
      LaidOutStep(shifts, masks, i);
      shifts := shifts[name := offset];
      masks := masks[name := BinaryValue(Repeat('1', size) + Repeat('0', offset))];
      offset := offset + size;
    }
    LaidOutTable(shifts, masks);
  }

  /** The first n fields of the table have their running offset and its mask. */
  ghost predicate LaidOut(shifts: map<Field, nat>, masks: map<Field, nat>, n: nat)
  {
    forall f: Field :: Position(f) < n ==>
      && f in shifts && shifts[f] == Offset(Position(f))
      && f in masks && masks[f] == OffsetMask(Position(f))
  }

  /** The mask the loop parses for entry n: `size` ones followed by `offset` zeros, in base 2. */
  function OffsetMask(n: nat): nat
    requires n < |Flags|
  {
    BinaryValue(Repeat('1', Flags[n].1) + Repeat('0', Offset(n)))
  }

  /** Laying out entry i keeps the entries before it. */
  lemma LaidOutStep(shifts: map<Field, nat>, masks: map<Field, nat>, i: nat)
    requires i < |Flags| && LaidOut(shifts, masks, i)
    ensures LaidOut(shifts[Flags[i].0 := Offset(i)], masks[Flags[i].0 := OffsetMask(i)], i + 1)
  {
    var name := Flags[i].0;
    assert Position(name) == i by {
      if i == 0 {} else if i == 1 {} else if i == 2 {} else if i == 3 {} else {}
    }
    var shifts', masks' := shifts[name := Offset(i)], masks[name := OffsetMask(i)];
    forall f: Field | Position(f) < i + 1
      ensures f in shifts' && shifts'[f] == Offset(Position(f))
      ensures f in masks' && masks'[f] == OffsetMask(Position(f))
    {
      if f != name {
        assert Position(f) < i;
      }
    }
  }

  /** Once every field is laid out, the maps are the fixed table. */
  lemma LaidOutTable(shifts: map<Field, nat>, masks: map<Field, nat>)
    requires LaidOut(shifts, masks, |Flags|)
    ensures forall f: Field :: f in shifts && shifts[f] == Shift(f)
    ensures forall f: Field :: f in masks && masks[f] == Mask(f)
  {
    forall f: Field ensures f in shifts && shifts[f] == Shift(f) && f in masks && masks[f] == Mask(f) {
      OffsetMaskIsMask(f);
    }
  }

  lemma OffsetMaskIsMask(f: Field)
    ensures Offset(Position(f)) == Shift(f) && OffsetMask(Position(f)) == Mask(f)
  {
    OffsetIsShift(f);
    MaskString(Size(f), Shift(f));
  }

  /** The masks written out. */
  lemma MaskValues()
    ensures Mask(Bg) == 0x1FF && Mask(Fg) == 0x3FE00
    ensures Mask(Bold) == 0x40000 && Mask(Underline) == 0x80000 && Mask(Inverse) == 0x100000
  {
    Pow2Table();
  }

  /** The fields occupy disjoint bit ranges that together cover bits 0 to 20. */
  lemma FieldsDisjoint(f: Field, g: Field)
    ensures f != g ==> Shift(f) + Size(f) <= Shift(g) || Shift(g) + Size(g) <= Shift(f)
    ensures Shift(f) + Size(f) <= 21
  {
  }

  /**
   * `(raw & masks[f]) >> shifts[f]`: the bits of field f of the word, as floor
   * division by 2^shift followed by the remainder modulo 2^size. MaskThenShift
   * proves this equal to masking and shifting the word's 32-bit pattern.
   */
  function FieldValue(raw: int, f: Field): (v: nat)
    ensures v < Pow2(Size(f))
  {
    raw / Pow2(Shift(f)) % Pow2(Size(f))
  }

  /** The decoded fields of one attribute word. */
  datatype Attr = Attr(fg: nat, bg: nat, bold: bool, underline: bool, inverse: bool)

  /** Decoding masks and shifts: it is total, and the indices stay below 512. */
  function Decode(raw: int): (a: Attr)
    ensures a.fg < 512 && a.bg < 512
  {
    Pow2Table();
    Attr(FieldValue(raw, Fg), FieldValue(raw, Bg),
         FieldValue(raw, Bold) != 0, FieldValue(raw, Underline) != 0, FieldValue(raw, Inverse) != 0)
  }

  /** The bitwise and of two non-negative integers, taken bit by bit from the lowest. */
  function BitAnd(a: nat, b: nat): nat
  {
    if a == 0 || b == 0 then 0
    else 2 * BitAnd(a / 2, b / 2) + (if a % 2 == 1 && b % 2 == 1 then 1 else 0)
  }

  /** Euclidean division is determined by its quotient and remainder. */
  lemma DivModUnique(a: int, d: int, q: int, r: int)
    requires d > 0 && 0 <= r < d && a == d * q + r
    ensures a / d == q && a % d == r
  {
    var k := q - a / d;
    assert d * k == a % d - r;
    if k >= 1 {
      MulAtLeast(d, k);
    } else if k <= -1 {
      MulAtLeast(d, -k);
    }
  }

  lemma {:induction false} MulAtLeast(d: int, k: int)
    requires d > 0 && k >= 1
    ensures d * k >= d
    decreases k
  {
    if k > 1 {
      MulAtLeast(d, k - 1);
      assert d * k == d * (k - 1) + d;
    }
  }

  /** Dividing by 2p is halving and then dividing by p. */
  lemma HalveThenDivide(a: nat, p: nat)
    requires p > 0
    ensures a / 2 / p == a / (2 * p)
    ensures a % (2 * p) == 2 * (a / 2 % p) + a % 2
  {
    var h := a / 2;
    var q, r := h / p, h % p;
    assert a == 2 * h + a % 2;
    assert h == p * q + r;
    assert a == (2 * p) * q + (2 * r + a % 2);
    DivModUnique(a, 2 * p, q, 2 * r + a % 2);
  }

  /** Anding with 2^k - 1 keeps the low k bits. */
  lemma {:induction false} AndLowMask(a: nat, k: nat)
    ensures BitAnd(a, Pow2(k) - 1) == a % Pow2(k)
  {
    if k > 0 && a > 0 {
      var p, m := Pow2(k - 1), Pow2(k) - 1;
      assert m == 2 * (p - 1) + 1;
      DivModUnique(m, 2, p - 1, 1);
      assert BitAnd(a, m) == 2 * BitAnd(a / 2, p - 1) + a % 2;
      AndLowMask(a / 2, k - 1);
      HalveThenDivide(a, p);
    } else if k == 0 {
      DivModUnique(a, 1, a, 0);
    } else {
      DivModUnique(0, Pow2(k), 0, 0);
    }
  }

  /** Anding with (2^k - 1) << s keeps bits s to s + k - 1 in place and clears the rest. */
  lemma {:induction false} AndShiftedMask(a: nat, k: nat, s: nat)
    ensures BitAnd(a, (Pow2(k) - 1) * Pow2(s)) == (a / Pow2(s) % Pow2(k)) * Pow2(s)
    decreases s
  {
    var low := Pow2(k) - 1;
    if s == 0 {
      AndLowMask(a, k);
      DivModUnique(a, 1, a, 0);
    } else {
      var p := Pow2(s - 1);
      var m' := low * p;
      assert low * Pow2(s) == 2 * m';
      HalveThenDivide(a, p);
      var x := a / 2 / p % Pow2(k);
      if a == 0 {
        DivModUnique(0, 2 * p, 0, 0);
        DivModUnique(0, Pow2(k), 0, 0);
      } else if low == 0 {
        DivModUnique(a / 2 / p, 1, a / 2 / p, 0);
      } else {
        MulAtLeast(p, low);
        DivModUnique(2 * m', 2, m', 0);
        assert BitAnd(a, 2 * m') == 2 * BitAnd(a / 2, m');
        AndShiftedMask(a / 2, k, s - 1);
        Doubling(x, p);
      }
    }
  }

  /** Dropping multiples of p * k * m from a number keeps its digit range p..p * k. */
  lemma DropHighBits(raw: int, p: nat, k: nat, m: nat)
    requires p > 0 && k > 0 && m > 0
    ensures raw / p % k == raw % (p * k * m) / p % k
  {
    MulAtLeast(p, k);
    MulAtLeast(p * k, m);
    var n := p * k * m;
    var q, w := raw / n, raw % n;
    var u := w / p;
    assert n * q == p * (k * m * q);
    assert w == p * u + w % p;
    assert raw == p * (k * m * q + u) + w % p;
    DivModUnique(raw, p, k * m * q + u, w % p);
    var v := u / k;
    assert k * m * q + u == k * (m * q + v) + u % k;
    DivModUnique(k * m * q + u, k, m * q + v, u % k);
  }

  /** The 32-bit pattern of a word has the same field bits as the word. */
  lemma WordBits(raw: int, f: Field)
    ensures FieldValue(raw % 0x1_0000_0000, f) == FieldValue(raw, f)
  {
    Pow2Table();
    match f
    case Bg => DropHighBits(raw, 1, 512, 8388608);
    case Fg => DropHighBits(raw, 512, 512, 16384);
    case Bold => DropHighBits(raw, 262144, 2, 8192);
    case Underline => DropHighBits(raw, 524288, 2, 4096);
    case Inverse => DropHighBits(raw, 1048576, 2, 2048);
  }

  /**
   * Masking and shifting as the source does it: JavaScript's `&` takes the
   * word's 32-bit pattern, here `raw % 2^32`, and ands it bit by bit with the
   * mask; the result is non-negative, so `>>` is division by 2^shift. This is
   * the field value that Decode reads, for every integer word.
   */
  lemma MaskThenShift(raw: int, f: Field)
    ensures BitAnd(raw % 0x1_0000_0000, Mask(f)) / Pow2(Shift(f)) == FieldValue(raw, f)
  {
    var w, p, k := raw % 0x1_0000_0000, Pow2(Shift(f)), Pow2(Size(f));
    AndShiftedMask(w, Size(f), Shift(f));
    DivModUnique(w / p % k * p, p, w / p % k, 0);
    WordBits(raw, f);
  }

  /** Packing well-formed fields into a word, the inverse of decoding. */
  function Encode(a: Attr): int
    requires a.fg < 512 && a.bg < 512
  {
    a.bg + 512 * a.fg
    + (if a.bold then 262144 else 0)
    + (if a.underline then 524288 else 0)
    + (if a.inverse then 1048576 else 0)
  }

  /** Decoding recovers every field that encoding packed. */
  lemma DecodeEncode(a: Attr)
    requires a.fg < 512 && a.bg < 512
    ensures Decode(Encode(a)) == a
  {
    Pow2Table();
    var e := Encode(a);
    PackedFields(a.bg, a.fg, if a.bold then 1 else 0, if a.underline then 1 else 0, if a.inverse then 1 else 0);
    assert FieldValue(e, Bg) == e / 1 % 512;
    assert FieldValue(e, Fg) == e / 512 % 512;
    assert FieldValue(e, Bold) == e / 262144 % 2;
    assert FieldValue(e, Underline) == e / 524288 % 2;
    assert FieldValue(e, Inverse) == e / 1048576 % 2;
  }

  /** The arithmetic behind DecodeEncode: each field sits in its own digit range. */
  lemma PackedFields(bg: nat, fg: nat, bold: nat, underline: nat, inverse: nat)
    requires bg < 512 && fg < 512 && bold < 2 && underline < 2 && inverse < 2
    ensures var e := bg + 512 * fg + 262144 * bold + 524288 * underline + 1048576 * inverse;
      && e / 1 % 512 == bg && e / 512 % 512 == fg && e / 262144 % 2 == bold
      && e / 524288 % 2 == underline && e / 1048576 % 2 == inverse
  {
  }

  /** Palette lookup with a fallback for an index that has no entry. */
  function Resolve(index: nat, fallback: string): (c: string)
    ensures index < 256 ==> c == Palette.Colors()[index]
    ensures index >= 256 ==> c == fallback
  {
    var colors := Palette.Colors();
    if index < |colors| && colors[index] != "" then colors[index] else fallback
  }

  /** A foreground index resolves to "#fff" exactly when the palette has no entry for it. */
  lemma ForegroundFallback(index: nat)
    ensures Resolve(index, "#fff") == "#fff" <==> index >= 256
  {
    if index < 256 {
      Palette.EntriesWellFormed();
    }
  }

  /** A background index resolves to "#000" exactly when the palette has no entry for it. */
  lemma BackgroundFallback(index: nat)
    ensures Resolve(index, "#000") == "#000" <==> index >= 256
  {
    if index < 256 {
      Palette.EntriesWellFormed();
    }
  }
}
