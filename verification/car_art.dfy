/** The ASCII car: nine lines of art, shifted right by a clamped number of
    spaces and joined by newlines, and the main loop's position counter
    that drives it across an 80-column terminal and wraps around. */
module CarArt {

  const ScreenWidth: int := 80

  const Art: seq<string> := [
    "   _______   ",
    "  / ______ \\  ",
    " /  ______  \\ ",
    "| |      | | |",
    "| |______| | |",
    "| |______| | |",
    "| |______| | |",
    " \\ \\______ / ",
    "  \\________/  "
  ]

  /** The width the program measures: the length of the first art line. */
  const CarWidth: int := |Art[0]|

  predicate NoNewline(s: string) {
    forall k :: 0 <= k < |s| ==> s[k] != '\n'
  }

  function Spaces(n: nat): (r: string)
    ensures |r| == n && forall k :: 0 <= k < n ==> r[k] == ' '
  {
    seq(n, _ => ' ')
  }

  /** `"\n".join(lines)`. */
  function Join(lines: seq<string>): string
    decreases |lines|
  {
    if lines == [] then ""
    else if |lines| == 1 then lines[0]
    else lines[0] + "\n" + Join(lines[1..])
  }

  /** `s.split('\n')`: always at least one piece. */
  function Split(s: string): (r: seq<string>)
    ensures |r| >= 1
    decreases |s|
  {
    if NoNewline(s) then [s]
    else
      var i := FirstNewline(s);
      [s[..i]] + Split(s[i + 1..])
  }

  function FirstNewline(s: string): (i: nat)
    requires !NoNewline(s)
    ensures i < |s| && s[i] == '\n' && NoNewline(s[..i])
  {
    if s[0] == '\n' then 0
    else
      assert !NoNewline(s[1..]) by {
        var k :| 0 <= k < |s| && s[k] == '\n';
        assert s[1..][k - 1] == '\n';
      }
      var j := FirstNewline(s[1..]);
      assert s[..j + 1] == [s[0]] + s[1..][..j];
      1 + j
  }

  lemma NewlineAt(a: string, b: string)
    requires NoNewline(a)
    ensures !NoNewline(a + "\n" + b)
    ensures FirstNewline(a + "\n" + b) == |a|
    ensures (a + "\n" + b)[..|a|] == a && (a + "\n" + b)[|a| + 1..] == b
  {
    var s := a + "\n" + b;
    assert s[|a|] == '\n';
    forall k | 0 <= k < |a| ensures s[k] != '\n' {
      assert s[k] == a[k];
    }
    var i := FirstNewline(s);
    forall k | 0 <= k < i ensures s[k] != '\n' {
      assert s[..i][k] == s[k];
    }
  }

  /** Splitting a joined list of newline-free lines gives the lines back. */
  lemma {:induction false} SplitJoin(lines: seq<string>)
    requires |lines| >= 1
    requires forall i :: 0 <= i < |lines| ==> NoNewline(lines[i])
    ensures Split(Join(lines)) == lines
    decreases |lines|
  {
    if |lines| > 1 {
      var rest := lines[1..];
      NewlineAt(lines[0], Join(rest));
      SplitJoin(rest);
    }
  }

  /** The column the car is drawn at: pushed back to 0 on the left and to
      80 - 13 on the right. */
  function OutputX(x: int): (r: nat)
    ensures r <= ScreenWidth - CarWidth
    ensures x < 0 ==> r == 0
    ensures x >= 0 && x + CarWidth > ScreenWidth ==> r == ScreenWidth - CarWidth
    ensures 0 <= x <= ScreenWidth - CarWidth ==> r == x
  {
    if x < 0 then 0
    else if x + CarWidth > ScreenWidth then ScreenWidth - CarWidth
    else x
  }

  /** The art lines, each shifted right by `o` spaces. */
  function Padded(o: nat): (r: seq<string>)
    ensures |r| == |Art|
    ensures forall i :: 0 <= i < |Art| ==> r[i] == Spaces(o) + Art[i]
  {
    seq(|Art|, i requires 0 <= i < |Art| => Spaces(o) + Art[i])
  }

  /** The picture of the car with its left edge at column `x`. */
  function DrawCar(x: int): string {
    Join(Padded(OutputX(x)))
  }

  lemma ArtNoNewline()
    ensures forall i :: 0 <= i < |Art| ==> NoNewline(Art[i])
  {
  }

  /** Shifted art splits back into its nine shifted lines. */
  lemma PaddedLines(o: nat)
    ensures |Split(Join(Padded(o)))| == 9
    ensures forall i :: 0 <= i < 9 ==> Split(Join(Padded(o)))[i] == Spaces(o) + Art[i]
  {
    ArtNoNewline();
    forall i | 0 <= i < |Padded(o)| ensures NoNewline(Padded(o)[i]) {
      var p := Padded(o)[i];
      forall k | 0 <= k < |p| ensures p[k] != '\n' {
        if k >= o {
          assert p[k] == Art[i][k - o];
        }
      }
    }
    SplitJoin(Padded(o));
  }

  /** The picture is nine lines; line `i` is the clamped column's worth of
      spaces followed by art line `i`. */
  lemma DrawCarLines(x: int)
    ensures |Split(DrawCar(x))| == 9
    ensures forall i :: 0 <= i < 9 ==> Split(DrawCar(x))[i] == Spaces(OutputX(x)) + Art[i]
  {
    PaddedLines(OutputX(x));
  }

  /** The first line of the picture at column 0 is 13 wide: the width the
      main loop measures for its wrap-around. */
  lemma MeasuredWidth()
    ensures |Split(DrawCar(0))| == 9
    ensures |Split(DrawCar(0))[0]| == CarWidth == 13
  {
    DrawCarLines(0);
  }

  /** The right-hand clamp uses the first line's width, 13, but seven of the
      nine lines are 14 wide: for every position past column 67, line 1 of
      the picture ends in column 81 of the 80-column screen. */
  lemma DrawCarOverhangs(x: int)
    requires x > ScreenWidth - CarWidth
    ensures |Split(DrawCar(x))| == 9
    ensures |Split(DrawCar(x))[1]| == ScreenWidth + 1
  {
    DrawCarLines(x);
    assert |Art[1]| == 14;
  }

  /** The widest art line. */
  const ArtWidth: int := 14

  /** The clamp with the widest line, which keeps every line on screen. */
  function FittedX(x: int): (r: nat)
    ensures r <= ScreenWidth - ArtWidth
    ensures x < 0 ==> r == 0
    ensures 0 <= x <= ScreenWidth - ArtWidth ==> r == x
  {
    if x < 0 then 0
    else if x + ArtWidth > ScreenWidth then ScreenWidth - ArtWidth
    else x
  }

  function DrawCarFitted(x: int): string {
    Join(Padded(FittedX(x)))
  }

  /** With the widest line as the width, every line of every picture fits
      in 80 columns, and positions that fit are drawn where asked. */
  lemma DrawCarFittedFits(x: int)
    ensures forall i :: 0 <= i < |Art| ==> |Art[i]| <= ArtWidth
    ensures |Split(DrawCarFitted(x))| == 9
    ensures forall i :: 0 <= i < 9 ==> |Split(DrawCarFitted(x))[i]| <= ScreenWidth
    ensures forall i :: 0 <= i < 9 ==> Split(DrawCarFitted(x))[i] == Spaces(FittedX(x)) + Art[i]
  {
    PaddedLines(FittedX(x));
  }

  // ---------------------------------------------------------------------
  // The main loop's counter

  /** One frame: move right one column, and once past column 80 restart
      one car width to the left of the screen. */
  function Step(carX: int): (r: int)
    ensures r == carX + 1 || r == -CarWidth
  {
    var x := carX + 1;
    if x > ScreenWidth then -CarWidth else x
  }

  function Steps(carX: int, n: nat): int
    decreases n
  {
    if n == 0 then carX else Steps(Step(carX), n - 1)
  }

  /** At the top of every frame the counter lies in [-13, 80]. */
  lemma StepRange(carX: int)
    requires -CarWidth <= carX <= ScreenWidth
    ensures -CarWidth <= Step(carX) <= ScreenWidth
  {
  }

  /** From any position in range, `n` frames later the car is at the
      position `n` columns on, counted round a cycle of 94 columns. */
  lemma {:induction false} StepsCycle(carX: int, n: nat)
    requires -CarWidth <= carX <= ScreenWidth
    ensures Steps(carX, n) == (carX + CarWidth + n) % 94 - CarWidth
    decreases n
  {
    if n > 0 {
      StepRange(carX);
      StepsCycle(Step(carX), n - 1);
      var a := carX + CarWidth;
      if carX + 1 > ScreenWidth {
        assert a == 93;
        assert (a + n) % 94 == (n - 1) % 94 by {
          assert a + n == (n - 1) + 94;
        }
      } else {
        assert Step(carX) + CarWidth + (n - 1) == a + n;
      }
    }
  }

  /** Starting at 0, the counter stays in range forever and returns to
      every position every 94 frames. */
  lemma CounterFromStart(n: nat)
    ensures -CarWidth <= Steps(0, n) <= ScreenWidth
    ensures Steps(0, n + 94) == Steps(0, n)
  {
    StepsCycle(0, n);
    StepsCycle(0, n + 94);
  }
}
