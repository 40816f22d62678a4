/**
 * The background brush of each node depends on its tree depth: the
 * overridden `commitNodes` picks one of eight colours, cycling through
 * them as the level grows.
 */
module LevelColors {
  /** `levelColors`, in order. */
  const Palette: seq<string> :=
    ["#AC193D", "#2672EC", "#8C0095", "#5133AB", "#008299", "#D24726", "#008A00", "#094AB2"]

  /** `levelColors[v.level % levelColors.length]`; levels are never negative. */
  function LevelColor(level: nat): (color: string)
    ensures color in Palette
    ensures level < |Palette| ==> color == Palette[level]
  {
    Palette[level % |Palette|]
  }

  /** The eight colours are different from each other. */
  lemma PaletteDistinct()
    ensures forall i, j | 0 <= i < j < |Palette| :: Palette[i] != Palette[j]
  {
    assert |Palette| == 8;
    forall i, j | 0 <= i < j < |Palette| ensures Palette[i] != Palette[j] {
      assert Palette[i][1] != Palette[j][1] || Palette[i][2] != Palette[j][2] ||
             Palette[i][3] != Palette[j][3] || Palette[i][4] != Palette[j][4];
    }
  }

  /** Two levels share a colour exactly when they are congruent modulo eight. */
  lemma SameColorIff(a: nat, b: nat)
    ensures LevelColor(a) == LevelColor(b) <==> a % 8 == b % 8
  {
    PaletteDistinct();
  }

  /**
   * Levels fewer than eight apart never share a colour: in particular a
   * boss and a direct report, one level apart, or two with a substitute
   * vertex between them.
   */
  lemma NearbyLevelsDiffer(level: nat, gap: nat)
    requires 0 < gap < |Palette|
    ensures LevelColor(level) != LevelColor(level + gap)
  {
    SameColorIff(level, level + gap);
  }
}
