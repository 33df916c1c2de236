// The helpers of utils.ts: the numeric-input guard and the padding loop.
// Terminal prompts (prompt-sync) are not modelled: their answers are
// parameters of the game's step methods, a parsed number being an
// Option<int> whose None stands for NaN.
module Utils {

  /** A number as parseInt produces it: None stands for NaN. */
  datatype Option<+T> = None | Some(value: T)

  /** The argument of isValidNumericInput, typed `string | number`. */
  datatype Input = Number(n: Option<int>) | Text(s: string)

  /** `typeof input === "number" && !Number.isNaN(input)` */
  function IsValidNumericInput(input: Input): (ok: bool)
    ensures ok <==> input.Number? && input.n != None
    ensures input.Text? ==> !ok
  {
    match input
    case Text(_) => false
    case Number(None) => false
    case Number(Some(_)) => true
  }

  /** JavaScript's `a < b` on numbers: every comparison with NaN is false. */
  function JsLess(a: Option<int>, b: int): (r: bool)
    ensures r <==> a.Some? && a.value < b
  {
    match a
    case None => false
    case Some(v) => v < b
  }

  /** `s` written `n` times in a row; nothing at all when n <= 0. */
  function Repeat(s: string, n: int): string
    decreases n
  {
    if n <= 0 then "" else s + Repeat(s, n - 1)
  }

  /** One more copy goes on the end, which is how the loop of addSpace builds its result. */
  lemma {:induction false} RepeatAppend(s: string, n: int)
    requires n >= 0
    ensures Repeat(s, n + 1) == Repeat(s, n) + s
  {
    if n > 0 {
      RepeatAppend(s, n - 1);
    }
  }

  lemma {:induction false} RepeatLength(s: string, n: int)
    ensures |Repeat(s, n)| == if n > 0 then n * |s| else 0
  {
    if n > 0 {
      RepeatLength(s, n - 1);
    }
  }

  /** Repeating a one-character string gives exactly max(n, 0) copies of that character. */
  lemma {:induction false} RepeatChar(ch: char, n: int)
    ensures |Repeat([ch], n)| == if n > 0 then n else 0
    ensures forall k :: 0 <= k < |Repeat([ch], n)| ==> Repeat([ch], n)[k] == ch
  {
    if n > 0 {
      RepeatChar(ch, n - 1);
    }
  }

  /**
   * addSpace: `while (amount-- > 0) result += character;`. The test reads
   * the counter before decrementing it; the decrement on the failing test
   * is not observable since the counter is local.
   */
  method AddSpace(character: string, amount: int) returns (result: string)
    ensures result == Repeat(character, amount)
    ensures amount <= 0 ==> result == ""
    ensures |result| == if amount > 0 then amount * |character| else 0
  {
    result := "";
    var left := amount;
    while left > 0
      invariant if amount > 0 then 0 <= left <= amount else left == amount
      invariant result == Repeat(character, amount - left)
    {
      RepeatAppend(character, amount - left);
      left := left - 1;
      result := result + character;
    }
    RepeatLength(character, amount);
  }
}
