/** The arithmetic of anti-aliasing: mixing one colour channel of a font with the background
    (`alpha_blending` in graphic_lib/simple_text.c). */
module Blending {

  type Level = x: int | 0 <= x <= 255

  // Without clipping; the division truncates.
  function Blend(font: Level, back: Level, alpha: Level): int {
    (font * alpha + back * (255 - alpha)) / 255
  }

  lemma BlendIs(font: Level, back: Level, alpha: Level)
    ensures font * alpha + back * (255 - alpha) == 255 * back + alpha * (font - back)
    ensures Blend(font, back, alpha) == back + (alpha * (font - back)) / 255
  {
  }

  lemma Scale(alpha: int, alpha': int, d: int)
    ensures alpha <= alpha' && d >= 0 ==> alpha * d <= alpha' * d
    ensures alpha <= alpha' && d <= 0 ==> alpha * d >= alpha' * d
  {
  }

  /** A blend lies between its two colours, and is one of them at the ends of the scale. */
  lemma BlendBetween(font: Level, back: Level, alpha: Level)
    ensures font <= back ==> font <= Blend(font, back, alpha) <= back
    ensures back <= font ==> back <= Blend(font, back, alpha) <= font
    ensures alpha == 0 ==> Blend(font, back, alpha) == back
    ensures alpha == 255 ==> Blend(font, back, alpha) == font
  {
    BlendIs(font, back, alpha);
    Scale(0, alpha, font - back);
    Scale(alpha, 255, font - back);
  }

  /** More alpha moves the blend towards the font colour. */
  lemma BlendMonotone(font: Level, back: Level, alpha: Level, alpha': Level)
    requires alpha <= alpha'
    ensures back <= font ==> Blend(font, back, alpha) <= Blend(font, back, alpha')
    ensures font <= back ==> Blend(font, back, alpha') <= Blend(font, back, alpha)
  {
  }

  /** A brighter background strictly darkens; a darker one stays put exactly when the step rounds to nothing,
      and misses the font colour unless alpha is full. */
  lemma BlendMoves(font: Level, back: Level, alpha: Level)
    ensures font < back && alpha >= 1 ==> font <= Blend(font, back, alpha) < back
    ensures back < font ==> (Blend(font, back, alpha) == back <==> alpha * (font - back) < 255)
    ensures back < font ==> (Blend(font, back, alpha) == font <==> alpha == 255)
  {
    BlendIs(font, back, alpha);
    BlendBetween(font, back, alpha);
    Scale(1, alpha, font - back);
    Scale(0, alpha, font - back);
    Scale(alpha, 254, font - back);
  }

  // ----- drawing over one's own output

  /** The channel after `n` redraws on a clear background. */
  function Redraw(font: Level, back: Level, alpha: Level, n: nat): (c: Level) {
    if n == 0 then back
    else
      var c := Redraw(font, back, alpha, n - 1);
      BlendBetween(font, c, alpha);
      Blend(font, c, alpha)
  }

  lemma RedrawNext(font: Level, back: Level, alpha: Level, n: nat)
    ensures Redraw(font, back, alpha, 0) == back
    ensures Redraw(font, back, alpha, n + 1) == Blend(font, Redraw(font, back, alpha, n), alpha)
  {
    hide Blend;
  }

  /** A channel brighter than the font falls to the font colour in at most as many redraws as the difference. */
  lemma {:induction false} BrighterFallsToFont(font: Level, back: Level, alpha: Level, n: nat)
    requires font <= back && alpha >= 1
    ensures font <= Redraw(font, back, alpha, n) <= if font <= back - n then back - n else font
    ensures n >= back - font ==> Redraw(font, back, alpha, n) == font
  {
    hide Blend, Redraw;
    if n == 0 {
      RedrawNext(font, back, alpha, 0);
    } else {
      RedrawNext(font, back, alpha, n - 1);
      BrighterFallsToFont(font, back, alpha, n - 1);
      BlendMoves(font, Redraw(font, back, alpha, n - 1), alpha);
      BlendBetween(font, Redraw(font, back, alpha, n - 1), alpha);
    }
  }

  /** A channel darker than the font never falls back and never overshoots; it has settled exactly when the
      remaining step rounds to nothing. */
  lemma {:induction false} DarkerRises(font: Level, back: Level, alpha: Level, n: nat)
    requires back <= font
    ensures back <= Redraw(font, back, alpha, n) <= Redraw(font, back, alpha, n + 1) <= font
    ensures Redraw(font, back, alpha, n + 1) == Redraw(font, back, alpha, n)
       <==> alpha * (font - Redraw(font, back, alpha, n)) < 255
  {
    hide Blend, Redraw;
    RedrawNext(font, back, alpha, n);
    if n == 0 {
    } else {
      DarkerRises(font, back, alpha, n - 1);
    }
    var c := Redraw(font, back, alpha, n);
    BlendBetween(font, c, alpha);
    BlendMoves(font, c, alpha);
  }

  // Until it settles, every redraw gains at least one level.
  lemma {:induction false} DarkerGains(font: Level, back: Level, alpha: Level, n: nat)
    requires back <= font
    ensures Redraw(font, back, alpha, n) >= back + n || alpha * (font - Redraw(font, back, alpha, n)) < 255
  {
    hide Blend, Redraw;
    RedrawNext(font, back, alpha, 0);
    if n == 0 {
    } else {
      var c, c' := Redraw(font, back, alpha, n - 1), Redraw(font, back, alpha, n);
      DarkerGains(font, back, alpha, n - 1);
      DarkerRises(font, back, alpha, n - 1);
      assert alpha * (font - c) < 255 ==> c' == c;
    }
  }

  /** It has settled after as many redraws as the difference, and only full alpha ever reaches the font colour. */
  lemma {:induction false} DarkerSettles(font: Level, back: Level, alpha: Level, n: nat)
    requires back < font
    ensures n >= font - back ==> Redraw(font, back, alpha, n + 1) == Redraw(font, back, alpha, n)
    ensures n >= 1 ==> (Redraw(font, back, alpha, n) == font <==> alpha == 255)
  {
    hide Blend, Redraw;
    DarkerRises(font, back, alpha, n);
    DarkerGains(font, back, alpha, n);
    if n == 0 {
    } else {
      var c := Redraw(font, back, alpha, n - 1);
      RedrawNext(font, back, alpha, n - 1);
      DarkerRises(font, back, alpha, n - 1);
      if n >= 2 {
        DarkerSettles(font, back, alpha, n - 1);
      }
      BlendBetween(font, c, alpha);
      BlendMoves(font, c, alpha);
    }
  }

  // A darker channel never comes closer to the font than the level it can settle at.
  lemma {:induction false} DarkerKeepsAway(font: Level, back: Level, alpha: Level, n: nat)
    requires alpha >= 1 && font - back >= 254 / alpha
    ensures font - Redraw(font, back, alpha, n) >= 254 / alpha
  {
    hide Blend, Redraw;
    if n == 0 {
      RedrawNext(font, back, alpha, 0);
    } else {
      DarkerKeepsAway(font, back, alpha, n - 1);
      RedrawNext(font, back, alpha, n - 1);
      KeepsAway(font, Redraw(font, back, alpha, n - 1), alpha);
    }
  }

  lemma KeepsAway(font: Level, back: Level, alpha: Level)
    requires alpha >= 1 && font - back >= 254 / alpha
    ensures font - Blend(font, back, alpha) >= 254 / alpha
  {
    hide Blend;
    var least, more := 254 / alpha, font - back - 254 / alpha;
    BlendIs(font, back, alpha);
    Scale(alpha, 255, more);
    assert alpha * (font - back) == alpha * least + alpha * more;
    Quotient(alpha);
  }

  lemma Quotient(alpha: int)
    requires 1 <= alpha
    ensures alpha * (254 / alpha) <= 254 < alpha * (254 / alpha) + alpha
  {
  }

  /** Where a channel settles on a clear background. */
  function SettledLevel(font: Level, back: Level, alpha: Level): (c: Level)
    requires alpha >= 1
  {
    if font <= back then font
    else if font - back <= 254 / alpha then back
    else
      Quotient(alpha);
      font - 254 / alpha
  }

  // The last step that rounds to nothing.
  lemma StepRounds(alpha: Level, d: nat)
    requires alpha >= 1
    ensures alpha * d < 255 <==> d <= 254 / alpha
  {
    Quotient(alpha);
    if d <= 254 / alpha {
      Scale(d, 254 / alpha, alpha);
    } else {
      Scale(254 / alpha + 1, d, alpha);
    }
  }

  // A channel whose first step rounds to nothing never changes.
  lemma {:induction false} StaysPut(font: Level, back: Level, alpha: Level, n: nat)
    requires back <= font && alpha * (font - back) < 255
    ensures Redraw(font, back, alpha, n) == back
  {
    hide Blend, Redraw;
    RedrawNext(font, back, alpha, 0);
    if n == 0 {
    } else {
      StaysPut(font, back, alpha, n - 1);
      DarkerRises(font, back, alpha, n - 1);
    }
  }

  /** From the 255th redraw on every channel of a visible pixel is at the level where it settles. */
  lemma RedrawEnds(font: Level, back: Level, alpha: Level, n: nat)
    requires alpha >= 1 && n >= 255
    ensures Redraw(font, back, alpha, n) == SettledLevel(font, back, alpha)
  {
    hide Redraw;
    if font <= back {
      BrighterFallsToFont(font, back, alpha, n);
    } else {
      StepRounds(alpha, font - back);
      if font - back <= 254 / alpha {
        StaysPut(font, back, alpha, n);
      } else {
        DarkerKeepsAway(font, back, alpha, n);
        DarkerGains(font, back, alpha, n);
        DarkerRises(font, back, alpha, n);
        StepRounds(alpha, font - Redraw(font, back, alpha, n));
      }
    }
  }
}
