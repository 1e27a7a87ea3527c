/**
 * The input masks of the payment form (`initializePaymentFormValidation`):
 * each `input` handler replaces the field's value by a function of it.
 */
module PaymentMasks {
  import opened Wrappers
  import opened Sequences

  predicate IsDigit(c: char) {
    '0' <= c <= '9'
  }

  predicate AllDigits(s: string) {
    forall i :: 0 <= i < |s| ==> IsDigit(s[i])
  }

  /** `replace(/[^0-9]/g, '')`: the digits of `s`, in order: every digit is kept and nothing else. */
  function DigitsOnly(s: string): (r: string)
    ensures |r| <= |s|
    ensures AllDigits(r)
    ensures AllDigits(s) ==> r == s
  {
    if s == [] then []
    else if IsDigit(s[0]) then [s[0]] + DigitsOnly(s[1..])
    else DigitsOnly(s[1..])
  }

  /**
   * Every digit of `s` is kept, in order: the result is a subsequence of `s`
   * made of digits, as long as the number of digits in `s`.
   */
  lemma {:induction false} DigitsOnlyKeepsEveryDigit(s: string)
    ensures IsSubsequence(DigitsOnly(s), s)
    ensures |DigitsOnly(s)| == Count(s, IsDigit)
  {
    if s != [] {
      DigitsOnlyKeepsEveryDigit(s[1..]);
    }
  }

  lemma {:induction false} DigitsOnlyAppend(a: string, b: string)
    ensures DigitsOnly(a + b) == DigitsOnly(a) + DigitsOnly(b)
    decreases |a|
  {
    if a == [] {
      assert a + b == b;
    } else {
      assert (a + b)[0] == a[0];
      assert (a + b)[1..] == a[1..] + b;
      DigitsOnlyAppend(a[1..], b);
    }
  }

  /** `value.match(/.{1,4}/g)?.join(' ') || value`: groups of four digits separated by single spaces. */
  function GroupDigits(d: string): string
    decreases |d|
  {
    if |d| <= 4 then d else d[..4] + " " + GroupDigits(d[4..])
  }

  /**
   * In a grouped number every fifth character is the space, and only those;
   * the last group ends the text, so there is one space fewer than groups.
   */
  lemma {:induction false} GroupDigitsShape(d: string)
    requires AllDigits(d)
    ensures forall i :: 0 <= i < |GroupDigits(d)| ==> (GroupDigits(d)[i] == ' ' <==> i % 5 == 4)
    ensures GroupDigits(d) == [] || IsDigit(GroupDigits(d)[|GroupDigits(d)| - 1])
    ensures d != [] ==> |GroupDigits(d)| == |d| + (|d| + 3) / 4 - 1
    decreases |d|
  {
    if |d| > 4 {
      var rest := GroupDigits(d[4..]);
      GroupDigitsShape(d[4..]);
      var r := d[..4] + " " + rest;
      forall i | 0 <= i < |r| ensures r[i] == ' ' <==> i % 5 == 4 {
        if i >= 5 {
          assert r[i] == rest[i - 5];
          assert (i - 5) % 5 == i % 5;
        } else if i < 4 {
          assert r[i] == d[i] && IsDigit(d[i]);
          assert i % 5 == i;
        } else {
          assert r[4] == ' ';
        }
      }
    }
  }

  /** Removing the spaces again gives back the digits. */
  lemma {:induction false} GroupDigitsRoundTrip(d: string)
    requires AllDigits(d)
    ensures DigitsOnly(GroupDigits(d)) == d
    decreases |d|
  {
    if |d| > 4 {
      GroupDigitsRoundTrip(d[4..]);
      DigitsOnlyAppend(d[..4] + " ", GroupDigits(d[4..]));
      DigitsOnlyAppend(d[..4], " ");
      assert DigitsOnly(d[..4]) == d[..4];
      assert d[..4] + d[4..] == d;
    }
  }

  /** The card number field: its digits, grouped by four. */
  function FormatCardNumber(value: string): string {
    GroupDigits(DigitsOnly(value))
  }

  /**
   * Formatting the card number keeps exactly its digits, puts the spaces
   * every fifth place, ends with a digit, and is stable.
   */
  lemma FormatCardNumberFacts(value: string)
    ensures DigitsOnly(FormatCardNumber(value)) == DigitsOnly(value)
    ensures var r := FormatCardNumber(value); forall i :: 0 <= i < |r| ==> (r[i] == ' ' <==> i % 5 == 4)
    ensures var r := FormatCardNumber(value); r == [] || IsDigit(r[|r| - 1])
    ensures FormatCardNumber(FormatCardNumber(value)) == FormatCardNumber(value)
  {
    GroupDigitsRoundTrip(DigitsOnly(value));
    GroupDigitsShape(DigitsOnly(value));
  }

  /** The expiry field: `MM/YY` once two digits are typed, at most four digits kept. */
  function FormatExpiry(value: string): (r: string)
    ensures var d := DigitsOnly(value);
      && (|d| < 2 ==> r == d)
      && (|d| >= 2 ==> |r| == 3 + Min(2, |d| - 2) && r[2] == '/' && DigitsOnly(r) == d[..Min(4, |d|)])
  {
    var d := DigitsOnly(value);
    if |d| >= 2 then
      ExpiryDigits(d, Min(4, |d|));
      d[..2] + "/" + d[2..Min(4, |d|)]
    else
      d
  }

  /** The slash is the only thing the expiry mask adds to the digits. */
  lemma ExpiryDigits(d: string, k: nat)
    requires AllDigits(d) && 2 <= k <= |d|
    ensures DigitsOnly(d[..2] + "/" + d[2..k]) == d[..k]
  {
    DigitsOnlyAppend(d[..2] + "/", d[2..k]);
    DigitsOnlyAppend(d[..2], "/");
    assert DigitsOnly(d[2..k]) == d[2..k];
    assert d[..2] + d[2..k] == d[..k];
  }

  /** Formatting an already formatted expiry changes nothing. */
  lemma FormatExpiryIdempotent(value: string)
    ensures FormatExpiry(FormatExpiry(value)) == FormatExpiry(value)
  {
    var d := DigitsOnly(value);
    if |d| >= 2 {
      var r := FormatExpiry(value);
      var e := d[..Min(4, |d|)];
      assert DigitsOnly(r) == e;
      assert r == e[..2] + "/" + e[2..];
    }
  }

  /** The CVV field: digits only. */
  function FormatCvv(value: string): (r: string)
    ensures AllDigits(r) && r == DigitsOnly(value)
    ensures DigitsOnly(r) == r
  {
    DigitsOnly(value)
  }

  /** Masking the CVV keeps every digit of the input in order, and masking it again changes nothing. */
  lemma FormatCvvFacts(value: string)
    ensures IsSubsequence(FormatCvv(value), value) && |FormatCvv(value)| == Count(value, IsDigit)
    ensures FormatCvv(FormatCvv(value)) == FormatCvv(value)
  {
    DigitsOnlyKeepsEveryDigit(value);
  }

  /** The postal code field: the first five digits. */
  function FormatZip(value: string): (r: string)
    ensures AllDigits(r) && |r| == Min(5, |DigitsOnly(value)|)
    ensures r == DigitsOnly(value)[..|r|]
  {
    var d := DigitsOnly(value);
    var r := d[..Min(5, |d|)];
    assert AllDigits(r);
    r
  }

  /** Masking an already masked postal code changes nothing. */
  lemma FormatZipIdempotent(value: string)
    ensures FormatZip(FormatZip(value)) == FormatZip(value)
  {
  }
}
