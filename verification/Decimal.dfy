/** Natural numbers in decimal. */
module Decimal {
  import opened Wrappers

  function ShowNat(k: nat): (s: string)
    ensures s != "" && forall i :: 0 <= i < |s| ==> '0' <= s[i] <= '9'
  {
    if k < 10 then ['0' + k as char] else ShowNat(k / 10) + ['0' + (k % 10) as char]
  }

  /** Digit by digit, from the last, without leading zeros. */
  lemma ShownDigits(k: nat)
    ensures var s := ShowNat(k);
      && s[|s| - 1] == "0123456789"[k % 10]
      && (if k < 10 then |s| == 1 else s[..|s| - 1] == ShowNat(k / 10))
  {
    DigitChar(k % 10);
  }

  lemma DigitChar(n: nat)
    requires n < 10
    ensures '0' + n as char == "0123456789"[n]
  {
  }

  /** The number a string of digits shows; zero for none. */
  function Digits(s: string): Option<nat> {
    if s == "" then Some(0)
    else
      var c := s[|s| - 1];
      match Digits(s[..|s| - 1])
      case Some(n) => if '0' <= c <= '9' then Some(10 * n + (c - '0') as int) else None
      case None => None
  }

  lemma {:induction false} DigitsShown(k: nat)
    ensures Digits(ShowNat(k)) == Some(k)
  {
    var s := ShowNat(k);
    if k < 10 {
      assert s[..0] == "";
    } else {
      DigitsShown(k / 10);
      assert s[..|s| - 1] == ShowNat(k / 10);
    }
  }
}
