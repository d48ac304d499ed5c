/** The game-wide resources and start-up of src/game/mod.rs: the gameplay
    settings, the loading screen, the resources `setup_system` inserts and
    the grid of the fruit-piece texture atlas. */
module Game {
  import opened Constants
  import opened Controls

  /** `GameSettings`: whether a cut ends the dash, whether the player snaps
      onto the fruit it cuts, and whether a fall restarts only the player. */
  datatype GameSettings = GameSettings(dashStop: bool, snapOnCut: bool, noDeathPenalty: bool)

  /** `GameSettings::default`: every option off. */
  function DefaultGameSettings(): (s: GameSettings)
    ensures !s.dashStop && !s.snapOnCut && !s.noDeathPenalty
  {
    GameSettings(false, false, false)
  }

  /** The kinds of restart the player's fall asks for. */
  datatype RestartKind = OnlyPlayer | All

  datatype GameState = Loading | Playing

  /** `update_loading_screen`: every loading section counts itself once it
      is done, and the game starts when exactly two have. */
  function UpdateLoadingScreen(sectionsLoaded: nat): (s: GameState)
    ensures s == Playing <==> sectionsLoaded == 2
  {
    if sectionsLoaded == 2 then Playing else Loading
  }

  /** The resources and counters `setup_system` touches. */
  datatype Resources = Resources(
    score: nat,
    settings: GameSettings,
    movement: Movement,
    dash: Dash,
    pendingRestarts: nat,
    sectionsLoaded: nat)

  /** `setup_system`: score 0, default settings and controls, one restart
      request, and this section counted as loaded. */
  function Setup(pendingRestarts: nat, sectionsLoaded: nat): (r: Resources)
    ensures r.score == 0
    ensures r.settings == DefaultGameSettings()
    ensures r.movement == DefaultMovement() && r.dash == DefaultDash()
    ensures r.pendingRestarts == pendingRestarts + 1
    ensures r.sectionsLoaded == sectionsLoaded + 1
  {
    Resources(0, DefaultGameSettings(), DefaultMovement(), DefaultDash(), pendingRestarts + 1, sectionsLoaded + 1)
  }

  /** From a fresh start, `setup_system` alone does not leave the loading
      screen: it is one of the two sections, and one more finished section
      starts the game. */
  lemma SetupIsOneOfTwoSections()
    ensures UpdateLoadingScreen(Setup(0, 0).sectionsLoaded) == Loading
    ensures UpdateLoadingScreen(Setup(0, 0).sectionsLoaded + 1) == Playing
  {
  }

  /** The smallest `k` with `k * k >= n`, searched upward from `k`: the
      `ceil(sqrt(n))` of the atlas set-up. */
  function CeilSqrtFrom(n: nat, k: nat): (r: nat)
    requires k == 0 || (k - 1) * (k - 1) < n
    ensures r * r >= n
    ensures r == 0 || (r - 1) * (r - 1) < n
    ensures r >= k
    decreases n - k
  {
    if k * k >= n then k
    else
      assert k <= k * k;
      CeilSqrtFrom(n, k + 1)
  }

  function CeilSqrt(n: nat): (r: nat)
    ensures r * r >= n && (r == 0 || (r - 1) * (r - 1) < n)
  {
    CeilSqrtFrom(n, 0)
  }

  /** Squaring keeps the strict order of naturals, in both directions. */
  lemma SquareStrictlyMonotone(a: nat, b: nat)
    ensures a < b <==> a * a < b * b
  {
    if a < b {
      assert a * a <= a * b < b * b;
    } else {
      assert b * b <= b * a <= a * a;
    }
  }

  /** The ceiling square root of a perfect square is its root. */
  lemma CeilSqrtOfSquare(k: nat)
    ensures CeilSqrt(k * k) == k
  {
    var r := CeilSqrt(k * k);
    SquareStrictlyMonotone(r, k);
    if r > 0 {
      SquareStrictlyMonotone(r - 1, k);
    }
  }

  /** Rows and columns of each fruit's piece atlas. */
  function AtlasGridSide(): nat {
    CeilSqrt(NUMBER_OF_FRUIT_PIECES)
  }

  /** Four pieces make a 2 by 2 grid with exactly one cell per piece, each
      cell 512 pixels on a side. */
  lemma AtlasHasOneCellPerPiece()
    ensures AtlasGridSide() == 2
    ensures AtlasGridSide() * AtlasGridSide() == NUMBER_OF_FRUIT_PIECES
    ensures FRUIT_ATLAS_SIDE / AtlasGridSide() as real == 512.0
  {
    CeilSqrtOfSquare(2);
  }
}
