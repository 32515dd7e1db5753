/** The shared pieces every solver uses: the step record and its constructor,
    the cells of an iteration table, the tolerance derived from a number of
    decimal places, the central-difference derivative and the choice of
    number format. */
module Utils {

  datatype Option<T> = None | Some(value: T)

  /** The text of a step, kept as a token: the rendered LaTeX is not modelled.
      Lit is a constant string; Fill is a template whose holes are filled, in
      order, with the given numbers; Matrix is the bmatrix rendering of an
      augmented matrix, one formatted number per entry. */
  datatype Text =
    | Lit(s: string)
    | Fill(template: string, args: seq<real>)
    | Matrix(rows: seq<seq<real>>)

  /** One recorded step of a solution trace. */
  datatype Step = Step(stepNumber: int, description: Text, formula: Text, calculation: Text, result: Option<Text>)

  /** One cell of an iteration table: a header label, an iteration number,
      a variable name x1, x2, ..., a number formatted in fixed notation with
      six decimals, or NaN. */
  datatype Cell = Label(s: string) | Count(k: int) | Variable(index: int) | Fixed(v: real) | NotANumber

  /** What a root-finding solver returns on success. */
  datatype Solution = Solution(title: string, steps: seq<Step>, iterationTable: seq<seq<Cell>>, finalAnswer: Text)

  /** createStep: a plain record constructor; `result` may be absent. */
  function CreateStep(stepNumber: int, description: Text, formula: Text, calculation: Text, result: Option<Text>): (s: Step)
    ensures s.stepNumber == stepNumber && s.description == description && s.formula == formula
    ensures s.calculation == calculation && s.result == result
  {
    Step(stepNumber, description, formula, calculation, result)
  }

  /** Steps numbered 1, 2, ..., |steps| with no gaps. */
  predicate NumberedFromOne(steps: seq<Step>)
  {
    forall k :: 0 <= k < |steps| ==> steps[k].stepNumber == k + 1
  }

  function Abs(x: real): (r: real)
    ensures r >= 0.0 && (r == x || r == -x)
  {
    if x < 0.0 then -x else x
  }

  function Max(x: real, y: real): (r: real)
    ensures r >= x && r >= y && (r == x || r == y)
  {
    if x >= y then x else y
  }

  function Pow10(k: nat): (r: real)
    ensures r >= 1.0
  {
    if k == 0 then 1.0 else 10.0 * Pow10(k - 1)
  }

  /** 0.5 * 10^(-decimalPlaces): an answer correct to that many decimals. */
  function Tolerance(decimalPlaces: nat): (r: real)
    ensures 0.0 < r <= 0.5
    ensures r * Pow10(decimalPlaces) == 0.5
  {
    0.5 / Pow10(decimalPlaces)
  }

  /** The magnitude below which a number is treated as zero: by formatNumber
      and by the singular-pivot test of the elimination solvers. */
  const NearZero: real := 1.0e-10

  /** The default step h of numericalDerivative. */
  const DefaultStep: real := 0.0001

  /** f changes sign between a and b. */
  predicate Brackets(f: real -> real, a: real, b: real)
  {
    f(a) * f(b) < 0.0
  }

  /** Central difference (f(x+h) - f(x-h)) / (2h). */
  function NumericalDerivative(f: real -> real, x: real, h: real): real
    requires h != 0.0
  {
    (f(x + h) - f(x - h)) / (2.0 * h)
  }

  /** The central difference is exact for every quadratic: for
      f(t) = p*t*t + q*t + s it gives the derivative 2*p*x + q, whatever h. */
  lemma CentralDifferenceExactOnQuadratics(f: real -> real, p: real, q: real, s: real, x: real, h: real)
    requires h != 0.0
    requires forall t :: f(t) == p * t * t + q * t + s
    ensures NumericalDerivative(f, x, h) == 2.0 * p * x + q
  {
    var d := f(x + h) - f(x - h);
    assert d == p * ((x + h) * (x + h) - (x - h) * (x - h)) + q * (2.0 * h);
    assert (x + h) * (x + h) - (x - h) * (x - h) == 4.0 * x * h;
    assert d == (2.0 * p * x + q) * (2.0 * h);
  }

  /** The three outputs of formatNumber: "0", toExponential(precision) of the
      number, or toFixed(precision) of the number. */
  datatype NumberText = ZeroText | Exponential(value: real, digits: int) | FixedPoint(value: real, digits: int)

  function FormatNumber(num: real, precision: int): (r: NumberText)
    ensures r == ZeroText <==> Abs(num) < NearZero
    ensures r.Exponential? <==> NearZero <= Abs(num) && (Abs(num) < 0.001 || Abs(num) > 10000.0)
    ensures r.FixedPoint? <==> NearZero <= Abs(num) && 0.001 <= Abs(num) <= 10000.0
    ensures r != ZeroText ==> r.value == num && r.digits == precision
  {
    if Abs(num) < NearZero then ZeroText
    else if Abs(num) < 0.001 || Abs(num) > 10000.0 then Exponential(num, precision)
    else FixedPoint(num, precision)
  }
}
