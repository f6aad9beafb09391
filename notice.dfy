/** The end-of-game notice: the promo code a winning player receives and the
    text handed to the notification sender. */
module Notice {
  import opened Wrappers
  import opened Board
  import opened Random

  function Pow10(k: nat): nat
  {
    if k == 0 then 1 else 10 * Pow10(k - 1)
  }

  predicate IsDigit(c: char)
  {
    '0' <= c <= '9'
  }

  function DigitChar(d: nat): (c: char)
    requires d < 10
    ensures IsDigit(c)
  {
    ('0' as int + d) as char
  }

  function DigitValue(c: char): nat
    requires IsDigit(c)
  {
    c as int - '0' as int
  }

  /** The decimal text of `n` without leading zeros, as JavaScript's
      `toString` writes a whole number. */
  function DecimalString(n: nat): (s: string)
    ensures |s| >= 1 && forall i :: 0 <= i < |s| ==> IsDigit(s[i])
  {
    if n < 10 then [DigitChar(n)] else DecimalString(n / 10) + [DigitChar(n % 10)]
  }

  /** The number a string of decimal digits denotes. */
  function DecimalValue(s: string): nat
    requires forall i :: 0 <= i < |s| ==> IsDigit(s[i])
  {
    if s == [] then 0 else DecimalValue(s[..|s| - 1]) * 10 + DigitValue(s[|s| - 1])
  }

  /** Reading back the decimal text of `n` gives `n`. */
  lemma {:induction false} DecimalRoundTrip(n: nat)
    ensures DecimalValue(DecimalString(n)) == n
  {
    if n >= 10 {
      var s := DecimalString(n);
      assert s[..|s| - 1] == DecimalString(n / 10);
      DecimalRoundTrip(n / 10);
    }
  }

  /** A number with `k + 1` digits is written with `k + 1` characters, the
      first of which is not "0". */
  lemma {:induction false} DecimalLength(n: nat, k: nat)
    requires Pow10(k) <= n < Pow10(k + 1)
    ensures |DecimalString(n)| == k + 1 && DecimalString(n)[0] != '0'
  {
    if k > 0 {
      DecimalLength(n / 10, k - 1);
    }
  }

  /** A well-formed promo code: five decimal digits, the first not "0". */
  predicate IsPromoCode(s: string)
  {
    |s| == 5 && (forall i :: 0 <= i < 5 ==> IsDigit(s[i])) && s[0] != '0'
  }

  /** The promo code for draw `seed`: a whole number from 10000 to 99999
      in decimal. */
  function PromoCode(seed: nat): (code: string)
    ensures IsPromoCode(code)
  {
    var n := 10000 + RandomIndex(seed, 90000);
    DecimalLength(n, 4);
    DecimalString(n)
  }

  /** A promo code reads back as its number, which lies from 10000 to 99999. */
  lemma PromoCodeValue(seed: nat)
    ensures 10000 <= DecimalValue(PromoCode(seed)) <= 99999
    ensures DecimalValue(PromoCode(seed)) == 10000 + RandomIndex(seed, 90000)
  {
    DecimalRoundTrip(10000 + RandomIndex(seed, 90000));
  }

  /** Every number from 10000 to 99999 is the promo code of some draw. */
  lemma PromoCodeCovers(n: nat) returns (seed: nat)
    requires 10000 <= n <= 99999
    ensures PromoCode(seed) == DecimalString(n)
  {
    seed := n - 10000;
  }

  /** The text sent on a player win; the promo code follows it. */
  const WinText: string := "Победа! Промокод: "

  /** The text sent on a computer win and on a draw alike. */
  const LossText: string := "Проигрыш"

  /** The notice for a finished game with result `result`: only a player
      win carries the promo code, which reads back from it; a draw and a
      computer win send the same loss text. */
  function EndMessage(result: Status, code: string): (r: string)
    ensures result == Won(X) ==> CodeInMessage(r) == Some(code)
    ensures result != Won(X) ==> r == LossText && CodeInMessage(r) == None
  {
    if result == Won(X) then
      assert (WinText + code)[..|WinText|] == WinText;
      assert (WinText + code)[|WinText|..] == code;
      WinText + code
    else LossText
  }

  /** The promo code carried by a notice, if it is a win notice. */
  function CodeInMessage(msg: string): Option<string>
  {
    if |WinText| <= |msg| && msg[..|WinText|] == WinText then Some(msg[|WinText|..]) else None
  }
}
