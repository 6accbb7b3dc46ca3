/**
 * The 256-colour palette of colors.js: sixteen fixed ANSI entries, a 6x6x6
 * colour cube written with decimal (not hexadecimal) components, and a
 * 24-step grayscale ramp, plus the two named defaults.
 */
module Palette {

  /** Entries 0-15, in order. */
  const Ansi: seq<string> := [
    "#42535b", "#cf3c40", "#9fcc4e", "#e7ce61",
    "#50b3dd", "#9e70c2", "#9fcc4e", "#f1f1f1",
    "#1d262b", "#cf3c40", "#9dcb4e", "#e7ce61",
    "#50b2dc", "#9e70c2", "#9fcc4e", "#ffffff"
  ]

  /** The six intensity levels of the colour cube. */
  const Levels: seq<nat> := [0, 95, 135, 175, 215, 255]

  /** The two-character steps of the grayscale ramp. */
  const Grayscale: seq<string> := [
    "08", "12", "1c", "26", "30", "3a", "44", "4e", "58", "62", "6c", "76",
    "80", "8a", "94", "9e", "a8", "b2", "bc", "c6", "d0", "da", "e4", "ee"
  ]

  /** The named defaults, exported beside the indexed entries. */
  const DefaultFg: string := "#d4d6d6"
  const DefaultBg: string := "#151718"

  function Digit(d: nat): (c: char)
    requires d < 10
    ensures '0' <= c <= '9'
  {
    ('0' as int + d) as char
  }

  /** The decimal rendering of a number, as `String(n)` gives it. */
  function Decimal(n: nat): (s: string)
    ensures |s| >= 1
    ensures forall i :: 0 <= i < |s| ==> '0' <= s[i] <= '9'
    decreases n
  {
    if n < 10 then [Digit(n)] else Decimal(n / 10) + [Digit(n % 10)]
  }

  /** `s.slice(-2)` on a string of at least two characters. */
  function LastTwo(s: string): (r: string)
    requires |s| >= 2
    ensures |r| == 2 && r[0] == s[|s| - 2] && r[1] == s[|s| - 1]
  {
    s[|s| - 2..]
  }

  /** One cube component: the last two characters of '0' followed by the decimal level. */
  function Component(level: nat): (r: string)
    ensures |r| == 2
    ensures forall i :: 0 <= i < |r| ==> '0' <= r[i] <= '9'
  {
    LastTwo("0" + Decimal(level))
  }

  /** The position of cube cell (r, g, b) in the palette. */
  function CubeIndex(r: nat, g: nat, b: nat): nat
  {
    16 + 36 * r + 6 * g + b
  }

  /** The cube entry built from levels r, g and b, red first. */
  function CubeEntry(r: nat, g: nat, b: nat): (s: string)
    requires r < 6 && g < 6 && b < 6
    ensures |s| == 7 && s[0] == '#'
  {
    "#" + Component(Levels[r]) + Component(Levels[g]) + Component(Levels[b])
  }

  /** The grayscale entry for step k: its two characters three times. */
  function GrayEntry(k: nat): (s: string)
    requires k < |Grayscale|
    ensures |s| == 7 && s[0] == '#'
  {
    "#" + Grayscale[k] + Grayscale[k] + Grayscale[k]
  }

  /** Reference definition of entry i, by the index ranges of the three parts. */
  function Entry(i: nat): string
    requires i < 256
  {
    if i < 16 then Ansi[i]
    else if i < 232 then CubeEntry((i - 16) / 36, (i - 16) / 6 % 6, (i - 16) % 6)
    else GrayEntry(i - 232)
  }

  /** The palette as a value, for the lookups of the attribute decoder. */
  function Colors(): (c: seq<string>)
    ensures |c| == 256
    ensures forall i :: 0 <= i < 256 ==> c[i] == Entry(i)
  {
    seq(256, i requires 0 <= i < 256 => Entry(i))
  }

  /** Every cube cell whose position is already filled holds its entry. */
  ghost predicate CubeDone(colors: seq<string>)
  {
    forall r, g, b :: 0 <= r < 6 && 0 <= g < 6 && 0 <= b < 6 && CubeIndex(r, g, b) < |colors| ==>
      colors[CubeIndex(r, g, b)] == CubeEntry(r, g, b)
  }

  /**
   * The palette construction: the ANSI list, then one push per cube cell with
   * b varying fastest, then one push per grayscale step.
   */
  method BuildPalette() returns (colors: seq<string>)
    ensures |colors| == 256
    ensures colors[..16] == Ansi
    ensures forall r, g, b :: 0 <= r < 6 && 0 <= g < 6 && 0 <= b < 6 ==>
      colors[CubeIndex(r, g, b)] == CubeEntry(r, g, b)
    ensures forall k :: 0 <= k < 24 ==> colors[232 + k] == GrayEntry(k)
    ensures colors == Colors()
  {
    colors := Ansi;
    for r := 0 to 6
      invariant |colors| == 16 + 36 * r
      invariant colors[..16] == Ansi
      invariant CubeDone(colors)
    {
      for g := 0 to 6
        invariant |colors| == 16 + 36 * r + 6 * g
        invariant colors[..16] == Ansi
        invariant CubeDone(colors)
      {
        for b := 0 to 6
          invariant |colors| == 16 + 36 * r + 6 * g + b
          invariant colors[..16] == Ansi
          invariant CubeDone(colors)
        {
          CubeDoneStep(colors, r, g, b);
          colors := colors + [CubeEntry(r, g, b)];
        }
      }
    }
    for k := 0 to |Grayscale|
      invariant |colors| == 232 + k
      invariant colors[..16] == Ansi
      invariant CubeDone(colors)
      invariant forall k' :: 0 <= k' < k ==> colors[232 + k'] == GrayEntry(k')
    {
      assert CubeDone(colors + [GrayEntry(k)]) by {
        CubeDoneExtend(colors, [GrayEntry(k)]);
      }
      colors := colors + [GrayEntry(k)];
    }
    PaletteMatchesEntries(colors);
  }

  /** Appending after the cube keeps the cube cells. */
  lemma CubeDoneExtend(colors: seq<string>, more: seq<string>)
    requires |colors| >= 232 && CubeDone(colors)
    ensures CubeDone(colors + more)
  {
    forall r, g, b | 0 <= r < 6 && 0 <= g < 6 && 0 <= b < 6
      ensures (colors + more)[CubeIndex(r, g, b)] == CubeEntry(r, g, b)
    {
      assert CubeIndex(r, g, b) < 232;
    }
  }

  /** A table built in the three parts is, entry by entry, the reference palette. */
  lemma PaletteMatchesEntries(colors: seq<string>)
    requires |colors| == 256 && colors[..16] == Ansi && CubeDone(colors)
    requires forall k :: 0 <= k < 24 ==> colors[232 + k] == GrayEntry(k)
    ensures colors == Colors()
  {
    forall i | 0 <= i < 256 ensures colors[i] == Entry(i) {
      if i < 16 {
        assert colors[i] == colors[..16][i];
      } else if i < 232 {
        CubeDecomposition(i);
      } else {
        assert colors[232 + (i - 232)] == GrayEntry(i - 232);
      }
    }
  }

  /** Appending the entry of the next cube cell keeps the filled cells right. */
  lemma CubeDoneStep(colors: seq<string>, r: nat, g: nat, b: nat)
    requires r < 6 && g < 6 && b < 6
    requires |colors| == CubeIndex(r, g, b) && CubeDone(colors)
    ensures CubeDone(colors + [CubeEntry(r, g, b)])
  {
    var next := colors + [CubeEntry(r, g, b)];
    forall r', g', b' | 0 <= r' < 6 && 0 <= g' < 6 && 0 <= b' < 6 && CubeIndex(r', g', b') < |next|
      ensures next[CubeIndex(r', g', b')] == CubeEntry(r', g', b')
    {
      if CubeIndex(r', g', b') == |colors| {
        CubeIndexInjective(r, g, b, r', g', b');
      }
    }
  }

  lemma CubeIndexInjective(r: nat, g: nat, b: nat, r': nat, g': nat, b': nat)
    requires r < 6 && g < 6 && b < 6 && r' < 6 && g' < 6 && b' < 6
    requires CubeIndex(r, g, b) == CubeIndex(r', g', b')
    ensures r == r' && g == g' && b == b'
  {
  }

  /** Every cube position splits back into the components that built it. */
  lemma CubeDecomposition(i: nat)
    requires 16 <= i < 232
    ensures (i - 16) / 36 < 6 && (i - 16) / 6 % 6 < 6 && (i - 16) % 6 < 6
    ensures i == CubeIndex((i - 16) / 36, (i - 16) / 6 % 6, (i - 16) % 6)
  {
    var k := i - 16;
    assert k == 36 * (k / 36) + 6 * (k / 6 % 6) + k % 6 by {
      assert k / 6 == 6 * (k / 36) + k / 6 % 6;
    }
  }

  /** Entry 16 + 36r + 6g + b of the palette is the cube cell for levels r, g, b. */
  lemma CubeLayout(r: nat, g: nat, b: nat)
    requires r < 6 && g < 6 && b < 6
    ensures Colors()[CubeIndex(r, g, b)] == "#" + Component(Levels[r]) + Component(Levels[g]) + Component(Levels[b])
  {
    var k := 36 * r + 6 * g + b;
    assert k / 36 == r && k / 6 == 6 * r + g;
    assert k / 6 % 6 == g && k % 6 == b;
  }

  /** The components are decimal, not hexadecimal: 135 gives "35" and 255 gives "55". */
  lemma ComponentsOfLevels()
    ensures Levels == [0, 95, 135, 175, 215, 255]
    ensures Component(0) == "00" && Component(95) == "95"
    ensures Component(135) == "35" && Component(175) == "75"
    ensures Component(215) == "15" && Component(255) == "55"
  {
    assert Decimal(0) == [Digit(0)];
    TwoDigitComponent(9, 5);
    ThreeDigitComponent(1, 3, 5);
    ThreeDigitComponent(1, 7, 5);
    ThreeDigitComponent(2, 1, 5);
    ThreeDigitComponent(2, 5, 5);
  }

  /** A two-digit level keeps both digits. */
  lemma TwoDigitComponent(t: nat, u: nat)
    requires 1 <= t < 10 && u < 10
    ensures Component(10 * t + u) == [Digit(t), Digit(u)]
  {
    var n := 10 * t + u;
    assert n / 10 == t && n % 10 == u;
    assert Decimal(n) == [Digit(t), Digit(u)];
  }

  /** A three-digit level keeps only its last two digits. */
  lemma ThreeDigitComponent(h: nat, t: nat, u: nat)
    requires 1 <= h < 10 && t < 10 && u < 10
    ensures Component(100 * h + 10 * t + u) == [Digit(t), Digit(u)]
  {
    var n := 100 * h + 10 * t + u;
    assert n / 10 == 10 * h + t && n % 10 == u;
    assert (10 * h + t) / 10 == h && (10 * h + t) % 10 == t;
    assert Decimal(10 * h + t) == [Digit(h), Digit(t)];
    assert Decimal(n) == [Digit(h), Digit(t), Digit(u)];
  }

  predicate WellFormedColor(s: string)
  {
    |s| == 7 && s[0] == '#'
  }

  /** Every palette entry is a seven-character string that starts with '#'. */
  lemma EntriesWellFormed()
    ensures forall i :: 0 <= i < 256 ==> WellFormedColor(Colors()[i])
  {
    forall i | 0 <= i < 256 ensures WellFormedColor(Colors()[i]) {
      if i < 16 {
        assert Ansi[i] in Ansi;
      }
    }
  }

  /** The second character of a component is the level's last decimal digit. */
  lemma ComponentLastDigit(n: nat)
    ensures Component(n)[1] == Digit(n % 10)
  {
    var d := Decimal(n);
    assert d[|d| - 1] == Digit(n % 10);
    assert ("0" + d)[|d|] == d[|d| - 1];
  }

  /** Every level ends in the digit 0 or 5. */
  lemma LevelLastDigit(i: nat)
    requires i < 6
    ensures Digit(Levels[i] % 10) == '0' || Digit(Levels[i] % 10) == '5'
  {
    assert Levels[i] % 10 == 0 || Levels[i] % 10 == 5;
  }

  lemma CubeEntryNotDefault(r: nat, g: nat, b: nat)
    requires r < 6 && g < 6 && b < 6
    ensures CubeEntry(r, g, b) != DefaultFg && CubeEntry(r, g, b) != DefaultBg
  {
    var cr, cg, cb := Component(Levels[r]), Component(Levels[g]), Component(Levels[b]);
    var e := "#" + cr + cg + cb;
    assert e[1] == cr[0] && e[4] == cg[1];
    ComponentLastDigit(Levels[g]);
    LevelLastDigit(g);
    assert DefaultFg[1] == 'd' && DefaultBg[4] == '7';
  }

  lemma GrayEntryNotDefault(k: nat)
    requires k < 24
    ensures GrayEntry(k) != DefaultFg && GrayEntry(k) != DefaultBg
  {
    var e := GrayEntry(k);
    assert e[2] == e[4];
    assert DefaultFg[2] == '4' && DefaultFg[4] == '6';
    assert DefaultBg[2] == '5' && DefaultBg[4] == '7';
  }

  /** The named defaults are not among the indexed entries. */
  lemma DefaultsNotIndexed()
    ensures DefaultFg !in Colors() && DefaultBg !in Colors()
  {
    forall i | 0 <= i < 256 ensures Colors()[i] != DefaultFg && Colors()[i] != DefaultBg {
      if i < 16 {
        assert Ansi[i] in Ansi;
      } else if i < 232 {
        CubeDecomposition(i);
        CubeEntryNotDefault((i - 16) / 36, (i - 16) / 6 % 6, (i - 16) % 6);
      } else {
        GrayEntryNotDefault(i - 232);
      }
    }
  }
}
