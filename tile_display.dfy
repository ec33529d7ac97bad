/** The countdown tiles: each field is shown as `String(val).padStart(2, '0')`. */
module TileDisplay {
  import Countdown

  predicate IsDigit(c: char) {
    '0' <= c <= '9'
  }

  predicate AllDigits(s: string) {
    forall i :: 0 <= i < |s| ==> IsDigit(s[i])
  }

  function DigitChar(d: nat): (c: char)
    requires d < 10
    ensures IsDigit(c) && c as int - '0' as int == d
  {
    "0123456789"[d]
  }

  /** `String(n)` for a non-negative integer: its decimal digits, most significant first. */
  function DecimalString(n: nat): (s: string)
    ensures |s| >= 1 && AllDigits(s)
    ensures s[0] == '0' <==> n == 0
    ensures |s| == 1 <==> n < 10
    decreases n
  {
    if n < 10 then [DigitChar(n)] else DecimalString(n / 10) + [DigitChar(n % 10)]
  }

  /** The value of a string of decimal digits, read most significant digit first. */
  function DecimalValue(s: string): nat
    requires AllDigits(s)
  {
    if s == [] then 0 else DecimalValue(s[..|s| - 1]) * 10 + (s[|s| - 1] as int - '0' as int)
  }

  /** `String(n)` reads back as `n`. */
  lemma {:induction false} DecimalRoundTrip(n: nat)
    ensures DecimalValue(DecimalString(n)) == n
    decreases n
  {
    var s := DecimalString(n);
    if n >= 10 {
      DecimalRoundTrip(n / 10);
      assert s[..|s| - 1] == DecimalString(n / 10);
    }
  }

  /** `k` copies of `c`. */
  function Repeat(c: char, k: nat): (r: string)
    ensures |r| == k && forall i :: 0 <= i < k ==> r[i] == c
  {
    if k == 0 then [] else [c] + Repeat(c, k - 1)
  }

  /** `s.padStart(width, fill)` for a one-character fill: `s` itself when it is at
      least `width` long, otherwise `s` behind enough copies of `fill`. */
  function PadStart(s: string, width: nat, fill: char): (r: string)
    ensures |r| == if |s| >= width then |s| else width
    ensures r[|r| - |s|..] == s
    ensures forall i :: 0 <= i < |r| - |s| ==> r[i] == fill
  {
    if |s| >= width then s else Repeat(fill, width - |s|) + s
  }

  /** What one countdown tile shows for the value `v`: at least two characters, all
      digits, reading back as `v`. */
  function Tile(v: nat): (r: string)
    ensures |r| >= 2 && AllDigits(r) && DecimalValue(r) == v
  {
    PaddedReadsBack(v);
    PadStart(DecimalString(v), 2, '0')
  }

  /** A tile is at least two characters long, and longer only when the value has more digits. */
  lemma TileLength(v: nat)
    ensures |Tile(v)| >= 2
    ensures |Tile(v)| == if v < 10 then 2 else |DecimalString(v)|
  {
  }

  /** A value below ten gets exactly one leading '0' before its single digit. */
  lemma TileBelowTen(v: nat)
    requires v < 10
    ensures Tile(v) == ['0', DigitChar(v)]
  {
  }

  /** A value of ten or more is shown unpadded. */
  lemma TileAtLeastTen(v: nat)
    requires v >= 10
    ensures Tile(v) == DecimalString(v)
  {
  }

  /** Leading zeros do not change the value of a digit string. */
  lemma {:induction false} LeadingZeros(k: nat, s: string)
    requires AllDigits(s)
    ensures AllDigits(Repeat('0', k) + s)
    ensures DecimalValue(Repeat('0', k) + s) == DecimalValue(s)
    decreases |s|
  {
    var z := Repeat('0', k);
    if s == [] {
      assert z + s == z;
      ZerosValue(k);
    } else {
      var t := z + s;
      assert t[..|t| - 1] == z + s[..|s| - 1];
      LeadingZeros(k, s[..|s| - 1]);
    }
  }

  lemma {:induction false} ZerosValue(k: nat)
    ensures DecimalValue(Repeat('0', k)) == 0
  {
    if k > 0 {
      var z := Repeat('0', k);
      assert z[..k - 1] == Repeat('0', k - 1);
      ZerosValue(k - 1);
    }
  }

  /** The digits of a padded decimal string, padding included, read back as the value. */
  lemma {:induction false} PaddedReadsBack(v: nat)
    ensures AllDigits(PadStart(DecimalString(v), 2, '0'))
    ensures DecimalValue(PadStart(DecimalString(v), 2, '0')) == v
  {
    var s := DecimalString(v);
    DecimalRoundTrip(v);
    if |s| < 2 {
      LeadingZeros(2 - |s|, s);
    }
  }

  /** The four tiles of the schedule section, in the order days, hours, minutes,
      seconds: each is all digits and reads back as its field. */
  function Tiles(r: Countdown.Remaining): (tiles: seq<string>)
    ensures |tiles| == 4
    ensures AllDigits(tiles[0]) && DecimalValue(tiles[0]) == r.days
    ensures AllDigits(tiles[1]) && DecimalValue(tiles[1]) == r.hours
    ensures AllDigits(tiles[2]) && DecimalValue(tiles[2]) == r.minutes
    ensures AllDigits(tiles[3]) && DecimalValue(tiles[3]) == r.seconds
  {
    var d, h, m, s := Tile(r.days), Tile(r.hours), Tile(r.minutes), Tile(r.seconds);
    var tiles := [d, h, m, s];
    assert tiles[0] == d && tiles[1] == h && tiles[2] == m && tiles[3] == s;
    tiles
  }

  /** Tiles of a record whose hours, minutes and seconds are below 100 show those
      three in exactly two characters, and each tile reads back as its field. */
  lemma {:induction false} TilesReadBack(r: Countdown.Remaining)
    requires r.hours < 100 && r.minutes < 100 && r.seconds < 100
    ensures |Tiles(r)[1]| == 2 && |Tiles(r)[2]| == 2 && |Tiles(r)[3]| == 2
    ensures AllDigits(Tiles(r)[0]) && DecimalValue(Tiles(r)[0]) == r.days
    ensures AllDigits(Tiles(r)[1]) && DecimalValue(Tiles(r)[1]) == r.hours
    ensures AllDigits(Tiles(r)[2]) && DecimalValue(Tiles(r)[2]) == r.minutes
    ensures AllDigits(Tiles(r)[3]) && DecimalValue(Tiles(r)[3]) == r.seconds
  {
    TwoDigitsBelowHundred(r.hours);
    TwoDigitsBelowHundred(r.minutes);
    TwoDigitsBelowHundred(r.seconds);
  }

  /** The hours, minutes and seconds tiles of the countdown always show exactly two
      characters, and each tile reads back as the field it shows. */
  lemma {:induction false} ClockTiles(target: int, now: int)
    ensures var tiles := Tiles(Countdown.Calc(target, now));
      |tiles[1]| == 2 && |tiles[2]| == 2 && |tiles[3]| == 2
    ensures var r := Countdown.Calc(target, now);
      AllDigits(Tiles(r)[0]) && DecimalValue(Tiles(r)[0]) == r.days &&
      AllDigits(Tiles(r)[1]) && DecimalValue(Tiles(r)[1]) == r.hours &&
      AllDigits(Tiles(r)[2]) && DecimalValue(Tiles(r)[2]) == r.minutes &&
      AllDigits(Tiles(r)[3]) && DecimalValue(Tiles(r)[3]) == r.seconds
  {
    TilesReadBack(Countdown.Calc(target, now));
  }

  /** A value below one hundred fills a tile with exactly two characters. */
  lemma TwoDigitsBelowHundred(v: nat)
    requires v < 100
    ensures |Tile(v)| == 2
  {
    if v >= 10 {
      assert |DecimalString(v / 10)| == 1;
    }
  }
}
