/** The color game: each round shows the name of one palette color printed
    in the ink of another, and the player answers with one of two buttons
    before a 30-second countdown ends the game. The one-second interval is
    the explicit event `Tick`, and every random draw is supplied by the
    caller: palette indices for the colors and a number in [0, 1) for the
    button order. */
module ColorRound {

  datatype PaletteColor = PaletteColor(colorName: string, hex: string)

  /** The two answer buttons: the one showing the ink color and the one
      showing the printed word. */
  datatype ButtonType = Correct | Displayed

  /** The fixed palette colors are drawn from. */
  const Palette: seq<PaletteColor> := [
    PaletteColor("Blue", "#2563eb"),
    PaletteColor("Red", "#dc2626"),
    PaletteColor("Yellow", "#ca8a04"),
    PaletteColor("Green", "#16a34a"),
    PaletteColor("Rose", "#ec4899"),
    PaletteColor("Violet", "#7c3aed"),
    PaletteColor("Cyan", "#0891b2"),
    PaletteColor("Teal", "#0d9488"),
    PaletteColor("White", "#fff"),
    PaletteColor("Black", "#000")
  ]

  /** The countdown length, in ticks. */
  const Duration: nat := 30

  /** Palette entries have pairwise distinct names and pairwise distinct hex
      codes. */
  lemma PaletteDistinct(i: int, j: int)
    requires 0 <= i < |Palette| && 0 <= j < |Palette| && i != j
    ensures Palette[i].colorName != Palette[j].colorName
    ensures Palette[i].hex != Palette[j].hex
  {
    assert i == 0 || i == 1 || i == 2 || i == 3 || i == 4 || i == 5 || i == 6 || i == 7 || i == 8 || i == 9;
    assert j == 0 || j == 1 || j == 2 || j == 3 || j == 4 || j == 5 || j == 6 || j == 7 || j == 8 || j == 9;
  }

  /** Two palette entries with different names have different hex codes, so
      the word's button never scores as the ink's. */
  lemma DistinctNamesDistinctHexes(c: PaletteColor, d: PaletteColor)
    requires c in Palette && d in Palette && c.colorName != d.colorName
    ensures c.hex != d.hex
  {
    var i :| 0 <= i < |Palette| && Palette[i] == c;
    var j :| 0 <= j < |Palette| && Palette[j] == d;
    PaletteDistinct(i, j);
  }

  /** The component's initial pair, `colorsPaletes[0]` and `colorsPaletes[1]`,
      has distinct names. */
  lemma InitialPairDistinct()
    ensures Palette[0] in Palette && Palette[1] in Palette
    ensures Palette[0].colorName != Palette[1].colorName
  {
    PaletteDistinct(0, 1);
  }

  /** Draws that `generateColors` can complete with: a palette index for the
      ink color and a sequence of palette indices for the word, one of which
      names a different color than the ink. */
  predicate RoundDraws(ci: int, ds: seq<int>) {
    && 0 <= ci < |Palette|
    && (forall k :: 0 <= k < |ds| ==> 0 <= ds[k] < |Palette|)
    && exists k :: 0 <= k < |ds| && Palette[ds[k]].colorName != Palette[ci].colorName
  }

  /** The position of the word draw the rejection loop keeps when it starts
      at draw `from`: the first one from there whose name differs from
      `target`. */
  function FirstAccepted(ds: seq<int>, target: string, from: nat): (k: nat)
    requires from <= |ds|
    requires forall k :: 0 <= k < |ds| ==> 0 <= ds[k] < |Palette|
    requires exists k :: from <= k < |ds| && Palette[ds[k]].colorName != target
    ensures from <= k < |ds| && Palette[ds[k]].colorName != target
    ensures forall j :: from <= j < k ==> Palette[ds[j]].colorName == target
    decreases |ds| - from
  {
    if Palette[ds[from]].colorName != target then from
    else FirstAccepted(ds, target, from + 1)
  }

  /** The button order for the random number `r`: `Math.random() < 0.5`
      puts the ink color's button first. */
  function OrderFor(r: real): seq<ButtonType> {
    if r < 0.5 then [Correct, Displayed] else [Displayed, Correct]
  }

  /** The draws of `generateColors`: the ink color from `ci`, the word from
      the first draw of `ds` whose name differs from the ink's (re-drawing
      while the names agree), and the button order from `r`. */
  method DrawColors(ci: int, ds: seq<int>, r: real) returns (target: PaletteColor, shown: PaletteColor, order: seq<ButtonType>)
    requires RoundDraws(ci, ds) && 0.0 <= r < 1.0
    ensures target == Palette[ci]
    ensures shown == Palette[ds[FirstAccepted(ds, target.colorName, 0)]]
    ensures shown in Palette && shown.colorName != target.colorName
    ensures order == OrderFor(r)
  {
    target := Palette[ci];
    var k := 0;
    shown := Palette[ds[k]];
    while shown.colorName == target.colorName
      invariant 0 <= k < |ds| && shown == Palette[ds[k]]
      invariant forall j :: 0 <= j < k ==> Palette[ds[j]].colorName == target.colorName
      invariant FirstAccepted(ds, target.colorName, k) == FirstAccepted(ds, target.colorName, 0)
      decreases |ds| - k
    {
      k := k + 1;
      shown := Palette[ds[k]];
    }
    order := OrderFor(r);
  }

  /** The state of the color game component; every field is one of its React
      state variables except `answers`, which counts the answers given since
      the last restart. */
  class ColorGame {
    var correct: nat
    var wrong: nat
    var correctColor: PaletteColor
    var displayedColor: PaletteColor
    var buttonOrder: seq<ButtonType>
    var timer: nat
    var endGame: bool
    ghost var answers: nat

    /** Both colors are palette entries with different names, the buttons
        are in one of the two orders, the timer stays within the countdown
        and the game has ended exactly when it has run out, and every answer
        was scored once. */
    ghost predicate Valid()
      reads this
    {
      && correctColor in Palette && displayedColor in Palette
      && correctColor.colorName != displayedColor.colorName
      && (buttonOrder == [Correct, Displayed] || buttonOrder == [Displayed, Correct])
      && timer <= Duration
      && (endGame <==> timer == Duration)
      && correct + wrong == answers
    }

    /** The hex code a button reports when clicked. */
    function ButtonHex(b: ButtonType): string
      reads this
    {
      if b == Correct then correctColor.hex else displayedColor.hex
    }

    /** Mounting the component: the initial state (the first two palette
        entries, the ink's button first, everything at zero) followed by the
        `generateColors` effect. */
    constructor (ci: int, ds: seq<int>, r: real)
      requires RoundDraws(ci, ds) && 0.0 <= r < 1.0
      ensures Valid()
      ensures correct == 0 && wrong == 0 && timer == 0 && !endGame && answers == 0
      ensures correctColor == Palette[ci]
      ensures displayedColor == Palette[ds[FirstAccepted(ds, Palette[ci].colorName, 0)]]
      ensures buttonOrder == OrderFor(r)
    {
      correct, wrong := 0, 0;
      correctColor, displayedColor := Palette[0], Palette[1];
      buttonOrder := [Correct, Displayed];
      timer, endGame := 0, false;
      answers := 0;
      new;
      InitialPairDistinct();
      GenerateColors(ci, ds, r);
    }

    /** `generateColors`: a fresh round from the supplied draws. */
    method GenerateColors(ci: int, ds: seq<int>, r: real)
      requires Valid() && RoundDraws(ci, ds) && 0.0 <= r < 1.0
      modifies this`correctColor, this`displayedColor, this`buttonOrder
      ensures Valid()
      ensures correctColor == Palette[ci]
      ensures displayedColor == Palette[ds[FirstAccepted(ds, Palette[ci].colorName, 0)]]
      ensures buttonOrder == OrderFor(r)
    {
      var target, shown, order := DrawColors(ci, ds, r);
      correctColor := target;
      displayedColor := shown;
      buttonOrder := order;
    }

    /** `handleButtonClick`: an answer equal to the ink color's hex scores
        correct, any other scores wrong, and a new round is drawn. Buttons
        exist only while the game runs. */
    method HandleButtonClick(colorHex: string, ci: int, ds: seq<int>, r: real)
      requires Valid() && !endGame && RoundDraws(ci, ds) && 0.0 <= r < 1.0
      modifies this`correct, this`wrong, this`answers, this`correctColor, this`displayedColor, this`buttonOrder
      ensures Valid()
      ensures colorHex == old(correctColor.hex) ==> correct == old(correct) + 1 && wrong == old(wrong)
      ensures colorHex != old(correctColor.hex) ==> wrong == old(wrong) + 1 && correct == old(correct)
      ensures answers == old(answers) + 1
      ensures correctColor == Palette[ci]
      ensures displayedColor == Palette[ds[FirstAccepted(ds, Palette[ci].colorName, 0)]]
      ensures buttonOrder == OrderFor(r)
    {
      if colorHex == correctColor.hex {
        correct := correct + 1;
      } else {
        wrong := wrong + 1;
      }
      answers := answers + 1;
      GenerateColors(ci, ds, r);
    }

    /** A click on button `b`: the ink color's button always scores correct
        and the word's button always scores wrong. */
    method PressButton(b: ButtonType, ci: int, ds: seq<int>, r: real)
      requires Valid() && !endGame && RoundDraws(ci, ds) && 0.0 <= r < 1.0
      modifies this`correct, this`wrong, this`answers, this`correctColor, this`displayedColor, this`buttonOrder
      ensures Valid()
      ensures b == Correct ==> correct == old(correct) + 1 && wrong == old(wrong)
      ensures b == Displayed ==> wrong == old(wrong) + 1 && correct == old(correct)
      ensures answers == old(answers) + 1
      ensures correctColor == Palette[ci]
      ensures displayedColor == Palette[ds[FirstAccepted(ds, Palette[ci].colorName, 0)]]
      ensures buttonOrder == OrderFor(r)
    {
      DistinctNamesDistinctHexes(correctColor, displayedColor);
      HandleButtonClick(ButtonHex(b), ci, ds, r);
    }

    /** One firing of the one-second interval and the `timer === 30` effect:
        while time remains and the game runs the timer advances by one, and
        the game ends when it reaches 30; otherwise nothing changes. */
    method Tick()
      requires Valid()
      modifies this`timer, this`endGame
      ensures Valid()
      ensures old(timer < Duration && !endGame) ==> timer == old(timer) + 1 && (endGame <==> timer == Duration)
      ensures !old(timer < Duration && !endGame) ==> timer == old(timer) && endGame == old(endGame)
    {
      if timer < Duration && !endGame {
        timer := timer + 1;
      }
      if timer == Duration {
        endGame := true;
      }
    }

    /** `handleRestart`: scores and timer back to zero, the game running
        again, and a fresh round. */
    method HandleRestart(ci: int, ds: seq<int>, r: real)
      requires Valid() && RoundDraws(ci, ds) && 0.0 <= r < 1.0
      modifies this
      ensures Valid()
      ensures correct == 0 && wrong == 0 && timer == 0 && !endGame && answers == 0
      ensures correctColor == Palette[ci]
      ensures displayedColor == Palette[ds[FirstAccepted(ds, Palette[ci].colorName, 0)]]
      ensures buttonOrder == OrderFor(r)
    {
      correct := 0;
      wrong := 0;
      timer := 0;
      endGame := false;
      answers := 0;
      GenerateColors(ci, ds, r);
    }
  }
}
