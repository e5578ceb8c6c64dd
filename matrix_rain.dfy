/** The "digital rain" backdrop of the portfolio page.

    The canvas is split into columns of 14-pixel glyph cells. `drops` holds,
    per column, the row (in cell units) of the glyph drawn next in it. The row
    is negative while the column still waits to start. Every call of
    Math.random() is an input here: one sample per column for the seeding loops and
    one `Dice` per column for a tick. */
module MatrixRain {

  /** The canvas font size, which is also the width and height of one glyph cell in pixels. */
  const GlyphSize: nat := 14

  /** The alphabet the glyphs are drawn from. All 95 characters are in the
      Basic Multilingual Plane, so its JavaScript length is 95 too. */
  const Matrix: string := "アイウエオカキクケコサシスセソタチツテトナニヌネノハヒフヘホマミムメモヤユヨラリルレロワヲン0123456789ABCDEFGHIJKLMNOPQRSTUVWXYZ@#$%^&*()*&^%"

  /** What the random draws of one tick decide for one column:
      `glyph` is floor(Math.random() * Matrix.length); `bright` is the
      "Math.random() > 0.98" glow draw; `bottomReset` is the
      "Math.random() > 0.975" draw made once the drop is past the bottom;
      `randomReset` is the "Math.random() > 0.995" draw made for every column. */
  datatype Dice = Dice(glyph: nat, bright: bool, bottomReset: bool, randomReset: bool)

  /** One fillText call: the glyph's index in Matrix, its pixel position, and whether it glows. */
  datatype Cell = Cell(glyph: nat, x: int, y: int, bright: bool)

  /** `u` stands for floor(Math.random() * height). Math.random() lies in
      [0, 1), so `u` is below `height`, or 0 when `height` is 0. */
  predicate Sampled(u: nat, height: nat)
  {
    u == 0 || u < height
  }

  predicate AllSampled(samples: seq<nat>, height: nat)
  {
    forall k :: 0 <= k < |samples| ==> Sampled(samples[k], height)
  }

  /** Every glyph draw picks an index into Matrix. */
  predicate FairDice(dice: seq<Dice>)
  {
    forall k :: 0 <= k < |dice| ==> dice[k].glyph < |Matrix|
  }

  /** Math.floor((Math.random() * height) / fontSize) for the sample
      u = floor(Math.random() * height); dividing by the whole number 14
      before or after taking the floor gives the same row. */
  function SampleRow(u: nat, height: nat): (r: nat)
    requires Sampled(u, height)
    ensures r * GlyphSize <= u < (r + 1) * GlyphSize
    ensures r <= height / GlyphSize
    ensures height > 0 ==> r * GlyphSize < height
  {
    u / GlyphSize
  }

  /** The drops the mount loop fills in: each column starts a sampled number of rows above the top. */
  function InitialDrops(samples: seq<nat>, height: nat): (d: seq<int>)
    requires AllSampled(samples, height)
    ensures |d| == |samples|
    ensures forall k :: 0 <= k < |d| ==> -(height / GlyphSize) <= d[k] <= 0
    ensures height > 0 ==> forall k :: 0 <= k < |d| ==> -d[k] * GlyphSize < height
  {
    seq(|samples|, k requires 0 <= k < |samples| => -(SampleRow(samples[k], height) as int))
  }

  /** The drops the resize loop writes: each column restarts a sampled number of rows below the top. */
  function ReseededDrops(samples: seq<nat>, height: nat): (d: seq<int>)
    requires AllSampled(samples, height)
    ensures |d| == |samples|
    ensures forall k :: 0 <= k < |d| ==> 0 <= d[k] <= height / GlyphSize
    ensures height > 0 ==> forall k :: 0 <= k < |d| ==> d[k] * GlyphSize < height
  {
    seq(|samples|, k requires 0 <= k < |samples| => SampleRow(samples[k], height))
  }

  /** Does the tick put column `d` back to row 0 before advancing it? The
      bottom reset only counts once the drop is past the bottom edge. */
  function Resets(d: int, x: Dice, height: nat): (r: bool)
    ensures r ==> x.bottomReset || x.randomReset
    ensures d * GlyphSize <= height ==> (r <==> x.randomReset)
    ensures x.randomReset ==> r
  {
    (d * GlyphSize > height && x.bottomReset) || x.randomReset
  }

  /** One column's new row after a tick: the bottom reset, the random reset, then the advance. */
  function TickCell(d: int, x: Dice, height: nat): (r: int)
    ensures r == d + 1 || r == 1
    ensures Resets(d, x, height) ==> r == 1
    ensures !Resets(d, x, height) ==> r == d + 1
    ensures d * GlyphSize <= height && !x.randomReset ==> r == d + 1
  {
    var atBottom := if d * GlyphSize > height && x.bottomReset then 0 else d;
    var reset := if x.randomReset then 0 else atBottom;
    reset + 1
  }

  /** All columns after one tick on a canvas of the given height. */
  function Ticked(drops: seq<int>, dice: seq<Dice>, height: nat): (r: seq<int>)
    requires |dice| == |drops|
    ensures |r| == |drops|
    ensures forall k :: 0 <= k < |r| ==> r[k] == drops[k] + 1 || r[k] == 1
    ensures forall k :: 0 <= k < |r| && Resets(drops[k], dice[k], height) ==> r[k] == 1
    ensures forall k :: 0 <= k < |r| && !Resets(drops[k], dice[k], height) ==> r[k] == drops[k] + 1
  {
    seq(|drops|, k requires 0 <= k < |drops| => TickCell(drops[k], dice[k], height))
  }

  /** The glyph column `k` paints when its drop is on screen, at its pre-advance row. */
  function CellAt(drops: seq<int>, dice: seq<Dice>, k: nat): (c: Cell)
    requires k < |drops| && |dice| == |drops|
    ensures 0 <= c.x < |drops| * GlyphSize && c.x % GlyphSize == 0 && c.x / GlyphSize == k
    ensures c.y > 0 <==> drops[k] > 0
    ensures c.glyph == dice[k].glyph && c.bright == dice[k].bright
  {
    Cell(dice[k].glyph, k * GlyphSize, drops[k] * GlyphSize, dice[k].bright)
  }

  /** The glyphs one tick paints, left to right: one per column whose drop
      lies below the top edge, none for the others. */
  function Painted(drops: seq<int>, dice: seq<Dice>): (p: seq<Cell>)
    requires |dice| == |drops|
    ensures |p| <= |drops|
    ensures forall j :: 0 <= j < |p| ==> 0 <= p[j].x < |drops| * GlyphSize && p[j].y > 0
    ensures forall i, j :: 0 <= i < j < |p| ==> p[i].x < p[j].x
    decreases |drops|
  {
    if |drops| == 0 then []
    else
      var n := |drops| - 1;
      Painted(drops[..n], dice[..n])
        + (if drops[n] * GlyphSize > 0 then [CellAt(drops, dice, n)] else [])
  }

  /** A cell is painted exactly when it is the cell of some column whose drop lies below the top edge. */
  lemma {:induction false} PaintedExactly(drops: seq<int>, dice: seq<Dice>, c: Cell)
    requires |dice| == |drops|
    ensures c in Painted(drops, dice) <==>
              exists k :: 0 <= k < |drops| && drops[k] * GlyphSize > 0 && c == CellAt(drops, dice, k)
    decreases |drops|
  {
    if |drops| > 0 {
      var n := |drops| - 1;
      var d', x' := drops[..n], dice[..n];
      PaintedExactly(d', x', c);
      assert forall k :: 0 <= k < n ==> CellAt(d', x', k) == CellAt(drops, dice, k);
      if c in Painted(drops, dice) && c !in Painted(d', x') {
        assert drops[n] * GlyphSize > 0 && c == CellAt(drops, dice, n);
      }
      if c !in Painted(drops, dice) {
        assert forall k :: 0 <= k < n && drops[k] * GlyphSize > 0 ==> c != CellAt(d', x', k);
      }
    }
  }

  /** Every column whose drop lies below the top edge paints its cell. */
  lemma {:induction false} PaintedCovers(drops: seq<int>, dice: seq<Dice>, k: nat)
    requires |dice| == |drops| && k < |drops| && drops[k] * GlyphSize > 0
    ensures CellAt(drops, dice, k) in Painted(drops, dice)
  {
    PaintedExactly(drops, dice, CellAt(drops, dice, k));
  }

  /** Every painted glyph is one of the alphabet. */
  lemma {:induction false} PaintedGlyphs(drops: seq<int>, dice: seq<Dice>, c: Cell)
    requires |dice| == |drops| && FairDice(dice)
    requires c in Painted(drops, dice)
    ensures c.glyph < |Matrix|
  {
    PaintedExactly(drops, dice, c);
    var k :| 0 <= k < |drops| && drops[k] * GlyphSize > 0 && c == CellAt(drops, dice, k);
    assert c.glyph == dice[k].glyph;
  }

  /** The columns after a sequence of ticks with no resize in between. */
  function TickRounds(drops: seq<int>, rounds: seq<seq<Dice>>, height: nat): (r: seq<int>)
    requires forall t :: 0 <= t < |rounds| ==> |rounds[t]| == |drops|
    ensures |r| == |drops|
    decreases |rounds|
  {
    if rounds == [] then drops
    else TickRounds(Ticked(drops, rounds[0], height), rounds[1..], height)
  }

  /** After N ticks every column has either advanced N rows, or been reset
      and advanced at most N rows since. */
  lemma {:induction false} TickRoundsBounds(drops: seq<int>, rounds: seq<seq<Dice>>, height: nat, k: nat)
    requires forall t :: 0 <= t < |rounds| ==> |rounds[t]| == |drops|
    requires k < |drops|
    ensures var r := TickRounds(drops, rounds, height);
            r[k] == drops[k] + |rounds| || 1 <= r[k] <= |rounds|
    decreases |rounds|
  {
    if rounds != [] {
      TickRoundsBounds(Ticked(drops, rounds[0], height), rounds[1..], height, k);
    }
  }

  /** The first `t` of a sequence of ticks, then the rest, are the whole sequence. */
  lemma TickRoundsPrefix(drops: seq<int>, rounds: seq<seq<Dice>>, height: nat, t: nat)
    requires forall u :: 0 <= u < |rounds| ==> |rounds[u]| == |drops|
    requires 0 < t <= |rounds|
    ensures TickRounds(drops, rounds[..t], height)
            == TickRounds(Ticked(drops, rounds[0], height), rounds[1..][..t - 1], height)
  {
    assert rounds[..t][0] == rounds[0] && rounds[..t][1..] == rounds[1..][..t - 1];
  }

  /** A column that no tick resets advances exactly N rows over N ticks. A
      tick resets it when its random reset fires, or when its bottom reset
      fires while the drop, as it stands before that tick, is past the bottom. */
  lemma {:induction false} TickRoundsWithoutReset(drops: seq<int>, rounds: seq<seq<Dice>>, height: nat, k: nat)
    requires forall t :: 0 <= t < |rounds| ==> |rounds[t]| == |drops|
    requires k < |drops|
    requires forall t :: 0 <= t < |rounds| ==> !Resets(TickRounds(drops, rounds[..t], height)[k], rounds[t][k], height)
    ensures TickRounds(drops, rounds, height)[k] == drops[k] + |rounds|
    decreases |rounds|
  {
    if rounds != [] {
      var next := Ticked(drops, rounds[0], height);
      var rest := rounds[1..];
      assert rounds[..0] == [];
      assert !Resets(drops[k], rounds[0][k], height);
      forall t | 0 <= t < |rest|
        ensures !Resets(TickRounds(next, rest[..t], height)[k], rest[t][k], height)
      {
        TickRoundsPrefix(drops, rounds, height, t + 1);
        assert rest[t] == rounds[t + 1];
      }
      TickRoundsWithoutReset(next, rest, height, k);
    }
  }

  /** The state of the effect that runs the rain: the canvas size and the
      per-column drops. `columns` is computed once, at mount. */
  class Rain {
    var width: nat
    var height: nat
    const columns: nat
    const drops: array<int>

    ghost predicate Valid()
      reads this
    {
      drops.Length == columns
    }

    /** Mount: size the canvas, fix the column count and seed every column above the top. */
    constructor (width: nat, height: nat, samples: seq<nat>)
      requires |samples| == width / GlyphSize
      requires AllSampled(samples, height)
      ensures Valid() && fresh(drops)
      ensures this.width == width && this.height == height
      ensures columns * GlyphSize <= width < (columns + 1) * GlyphSize
      ensures drops[..] == InitialDrops(samples, height)
      ensures forall k :: 0 <= k < columns ==> -(height / GlyphSize) <= drops[k] <= 0
    {
      this.width := width;
      this.height := height;
      var n := width / GlyphSize;
      columns := n;
      var d := new int[n];
      var i := 0;
      while i < n
        invariant 0 <= i <= n
        invariant forall k :: 0 <= k < i ==> d[k] == -(SampleRow(samples[k], height) as int)
      {
        d[i] := -(SampleRow(samples[i], height) as int);
        i := i + 1;
      }
      drops := d;
    }

    /** One timer tick: paint a glyph in every column whose drop is on screen,
        then reset and advance every drop. Returns the glyphs painted. */
    method Tick(dice: seq<Dice>) returns (painted: seq<Cell>)
      requires Valid() && |dice| == drops.Length && FairDice(dice)
      modifies drops
      ensures painted == Painted(old(drops[..]), dice)
      ensures drops[..] == Ticked(old(drops[..]), dice, height)
      ensures forall c :: c in painted ==> c.glyph < |Matrix|
    {
      ghost var before := drops[..];
      painted := [];
      var i := 0;
      while i < drops.Length
        invariant 0 <= i <= drops.Length
        invariant forall k :: i <= k < drops.Length ==> drops[k] == before[k]
        invariant forall k :: 0 <= k < i ==> drops[k] == TickCell(before[k], dice[k], height)
        invariant painted == Painted(before[..i], dice[..i])
      {
        assert before[..i + 1][..i] == before[..i] && dice[..i + 1][..i] == dice[..i];
        if drops[i] * GlyphSize > 0 {
          painted := painted + [Cell(dice[i].glyph, i * GlyphSize, drops[i] * GlyphSize, dice[i].bright)];
        }
        if drops[i] * GlyphSize > height && dice[i].bottomReset {
          drops[i] := 0;
        }
        if dice[i].randomReset {
          drops[i] := 0;
        }
        drops[i] := drops[i] + 1;
        i := i + 1;
      }
      assert before[..drops.Length] == before && dice[..drops.Length] == dice;
      forall c | c in painted ensures c.glyph < |Matrix| {
        PaintedGlyphs(before, dice, c);
      }
    }

    /** Window resize: take the new canvas size and reseed the `columns`
        drops fixed at mount from the new height. */
    method Resize(newWidth: nat, newHeight: nat, samples: seq<nat>)
      requires Valid() && |samples| == columns && AllSampled(samples, newHeight)
      modifies this`width, this`height, drops
      ensures Valid() && width == newWidth && height == newHeight
      ensures drops[..] == ReseededDrops(samples, newHeight)
      ensures forall k :: 0 <= k < columns ==> 0 <= drops[k] <= newHeight / GlyphSize
    {
      width := newWidth;
      height := newHeight;
      var i := 0;
      while i < columns
        invariant 0 <= i <= columns
        invariant width == newWidth && height == newHeight
        invariant forall k :: 0 <= k < i ==> drops[k] == SampleRow(samples[k], newHeight)
      {
        drops[i] := SampleRow(samples[i], newHeight);
        i := i + 1;
      }
    }
  }
}
